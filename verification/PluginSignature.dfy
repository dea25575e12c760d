/** What a plugin's signature covers: the framed fields that are hashed, and which plugins share them. */
module PluginSignature {
  import opened Text
  import opened Bytes

  datatype Script = Script(path: string, body: seq<byte>)

  datatype Plugin = Plugin(id: string, version: string, permissions: seq<string>, scripts: seq<Script>)

  /** SHA-256, of which nothing but being a function matters here. */
  type Sha = seq<byte> -> seq<byte>

  // ---------- Sorting by code point ----------

  predicate Before(a: string, b: string) {
    b != "" && (a == "" || a[0] < b[0] || (a[0] == b[0] && Before(a[1..], b[1..])))
  }

  lemma {:induction false} BeforeIsOrder(a: string, b: string, c: string)
    ensures !Before(a, a)
    ensures Before(a, b) || a == b || Before(b, a)
    ensures !(Before(a, b) && Before(b, a))
    ensures Before(a, b) && Before(b, c) ==> Before(a, c)
    ensures !Before(b, a) && !Before(c, b) ==> !Before(c, a)
  {
    if a != "" { assert a == [a[0]] + a[1..]; }
    if b != "" { assert b == [b[0]] + b[1..]; }
    if c != "" { assert c == [c[0]] + c[1..]; }
    if a != "" || b != "" || c != "" {
      BeforeIsOrder(if a == "" then a else a[1..], if b == "" then b else b[1..], if c == "" then c else c[1..]);
    }
  }

  /** The order is that of the first character in which two texts differ; a text comes before its continuations. */
  lemma {:induction false} BeforeIs(a: string, b: string, k: nat)
    requires k <= |a| && k <= |b| && a[..k] == b[..k]
    requires k < |a| && k < |b| ==> a[k] != b[k]
    ensures Before(a, b) <==> k < |b| && (k == |a| || a[k] < b[k])
  {
    if k > 0 {
      assert a[0] == a[..k][0] && b[0] == b[..k][0];
      assert a[1..][..k - 1] == a[..k][1..] && b[1..][..k - 1] == b[..k][1..];
      BeforeIs(a[1..], b[1..], k - 1);
    }
  }

  function InsertName(x: string, s: seq<string>): seq<string> {
    if s == [] then [x]
    else if x == s[0] then s
    else if Before(x, s[0]) then [x] + s
    else [s[0]] + InsertName(x, s[1..])
  }

  /** `sorted(set(permissions))` */
  function Granted(permissions: seq<string>): seq<string> {
    if permissions == [] then [] else InsertName(permissions[0], Granted(permissions[1..]))
  }

  predicate Increasing(s: seq<string>) {
    s == [] || ((forall x <- s[1..] :: Before(s[0], x)) && Increasing(s[1..]))
  }

  lemma {:induction false} InsertNameIs(x: string, s: seq<string>)
    requires Increasing(s)
    ensures Increasing(InsertName(x, s))
    ensures forall y :: y in InsertName(x, s) <==> y == x || y in s
  {
    hide Before;
    if s != [] {
      BeforeIsOrder(x, s[0], s[0]);
      assert s == [s[0]] + s[1..];
      if x == s[0] {
      } else if Before(x, s[0]) {
        assert ([x] + s)[1..] == s;
        forall y | y in s ensures Before(x, y) { BeforeIsOrder(x, s[0], y); }
      } else {
        InsertNameIs(x, s[1..]);
        assert ([s[0]] + InsertName(x, s[1..]))[1..] == InsertName(x, s[1..]);
      }
    } else {
      assert [x][1..] == [];
    }
  }

  lemma {:induction false} GrantedIs(permissions: seq<string>)
    ensures Increasing(Granted(permissions))
    ensures forall y :: y in Granted(permissions) <==> y in permissions
  {
    if permissions != [] {
      GrantedIs(permissions[1..]);
      InsertNameIs(permissions[0], Granted(permissions[1..]));
      assert permissions == [permissions[0]] + permissions[1..];
    }
  }

  predicate SameNames(a: seq<string>, b: seq<string>) {
    (forall x <- a :: x in b) && forall x <- b :: x in a
  }

  lemma {:induction false} IncreasingUnique(a: seq<string>, b: seq<string>)
    requires Increasing(a) && Increasing(b) && SameNames(a, b)
    ensures a == b
  {
    hide Before;
    assert (a != [] ==> a[0] in a) && (b != [] ==> b[0] in b);
    if a != [] {
      assert a == [a[0]] + a[1..] && b == [b[0]] + b[1..];
      BeforeIsOrder(a[0], b[0], b[0]);
      assert a[0] == b[0];
      forall x | x in a[1..] ensures x in b[1..] { NotTheHead(a, x); }
      forall x | x in b[1..] ensures x in a[1..] { NotTheHead(b, x); }
      IncreasingUnique(a[1..], b[1..]);
    }
  }

  lemma NotTheHead(a: seq<string>, x: string)
    requires a != [] && Increasing(a) && x in a[1..]
    ensures x in a && x != a[0]
  {
    BeforeIsOrder(x, x, x);
  }

  function InsertScript(x: Script, s: seq<Script>): seq<Script> {
    if s == [] || !Before(s[0].path, x.path) then [x] + s else [s[0]] + InsertScript(x, s[1..])
  }

  /** `sorted(scripts, key=path)`, which is stable. */
  function ByPath(scripts: seq<Script>): seq<Script> {
    if scripts == [] then [] else InsertScript(scripts[0], ByPath(scripts[1..]))
  }

  predicate Ordered(s: seq<Script>) {
    s == [] || ((forall x <- s[1..] :: !Before(x.path, s[0].path)) && Ordered(s[1..]))
  }

  lemma {:induction false} InsertScriptIs(x: Script, s: seq<Script>)
    requires Ordered(s)
    ensures Ordered(InsertScript(x, s))
    ensures forall y :: y in InsertScript(x, s) ==> y == x || y in s
  {
    hide Before;
    if s == [] || !Before(s[0].path, x.path) {
      assert ([x] + s)[1..] == s;
      forall y | y in s ensures !Before(y.path, x.path) {
        BeforeIsOrder(x.path, s[0].path, y.path);
        BeforeIsOrder(s[0].path, s[0].path, s[0].path);
        assert s == [s[0]] + s[1..];
      }
    } else {
      InsertScriptIs(x, s[1..]);
      BeforeIsOrder(s[0].path, x.path, x.path);
      assert ([s[0]] + InsertScript(x, s[1..]))[1..] == InsertScript(x, s[1..]);
    }
  }

  lemma {:induction false} ByPathOrdered(scripts: seq<Script>)
    ensures Ordered(ByPath(scripts))
  {
    if scripts != [] {
      ByPathOrdered(scripts[1..]);
      InsertScriptIs(scripts[0], ByPath(scripts[1..]));
    }
  }

  lemma {:induction false} InsertScriptKeeps(x: Script, s: seq<Script>)
    ensures multiset(InsertScript(x, s)) == multiset(s) + multiset{x}
  {
    if s == [] || !Before(s[0].path, x.path) {
    } else {
      InsertScriptKeeps(x, s[1..]);
      assert s == [s[0]] + s[1..];
    }
  }

  lemma {:induction false} OrderedAt(s: seq<Script>, i: nat, j: nat)
    requires Ordered(s) && i < j < |s|
    ensures !Before(s[j].path, s[i].path)
  {
    if i == 0 { assert s[j] in s[1..]; } else { OrderedAt(s[1..], i - 1, j - 1); }
  }

  /** The sorted scripts are the given ones, and no path comes before an earlier one. */
  lemma {:induction false} ByPathIs(scripts: seq<Script>)
    ensures multiset(ByPath(scripts)) == multiset(scripts)
    ensures forall i, j :: 0 <= i < j < |ByPath(scripts)| ==> !Before(ByPath(scripts)[j].path, ByPath(scripts)[i].path)
  {
    if scripts != [] {
      ByPathIs(scripts[1..]);
      InsertScriptKeeps(scripts[0], ByPath(scripts[1..]));
      assert scripts == [scripts[0]] + scripts[1..];
    }
    ByPathOrdered(scripts);
    var s := ByPath(scripts);
    forall i, j | 0 <= i < j < |s| ensures !Before(s[j].path, s[i].path) { OrderedAt(s, i, j); }
  }

  /** What is given for a path, in order; a plugin names each path once, but nothing here relies on it. */
  function Bodies(scripts: seq<Script>, path: string): seq<seq<byte>> {
    if scripts == [] then []
    else (if scripts[0].path == path then [scripts[0].body] else []) + Bodies(scripts[1..], path)
  }

  predicate SameBodiesAt(a: seq<Script>, b: seq<Script>, path: string) {
    Bodies(a, path) == Bodies(b, path)
  }

  ghost predicate SameBodies(a: seq<Script>, b: seq<Script>) {
    forall path :: SameBodiesAt(a, b, path)
  }

  lemma BodiesCons(x: Script, s: seq<Script>, path: string)
    ensures Bodies([x] + s, path) == (if x.path == path then [x.body] else []) + Bodies(s, path)
    ensures x.path != path ==> Bodies([x] + s, path) == Bodies(s, path)
    ensures x.path == path ==> Bodies([x] + s, path) == [x.body] + Bodies(s, path)
  {
    assert ([x] + s)[1..] == s;
  }

  lemma {:induction false} InsertBodies(x: Script, s: seq<Script>, path: string)
    ensures Bodies(InsertScript(x, s), path) == Bodies([x] + s, path)
  {
    if s != [] && Before(s[0].path, x.path) {
      InsertBodies(x, s[1..], path);
      BeforeIsOrder(x.path, x.path, x.path);
      assert s == [s[0]] + s[1..];
      BodiesCons(s[0], InsertScript(x, s[1..]), path);
      BodiesCons(x, s[1..], path);
      BodiesCons(s[0], s[1..], path);
      BodiesCons(x, s, path);
    }
  }

  lemma {:induction false} ByPathBodies(scripts: seq<Script>, path: string)
    ensures Bodies(ByPath(scripts), path) == Bodies(scripts, path)
  {
    if scripts != [] {
      ByPathBodies(scripts[1..], path);
      InsertBodies(scripts[0], ByPath(scripts[1..]), path);
      BodiesCons(scripts[0], ByPath(scripts[1..]), path);
      BodiesCons(scripts[0], scripts[1..], path);
      assert scripts == [scripts[0]] + scripts[1..];
    }
  }

  lemma {:induction false} FirstAppears(s: seq<Script>, path: string)
    ensures Bodies(s, path) != [] <==> exists x <- s :: x.path == path
  {
    if s != [] {
      assert s == [s[0]] + s[1..];
      FirstAppears(s[1..], path);
    }
  }

  lemma HeadIsFirst(a: seq<Script>, b: seq<Script>)
    requires Ordered(a) && Ordered(b) && SameBodies(a, b) && a != []
    ensures b != [] && !Before(a[0].path, b[0].path)
  {
    hide Before;
    var path := a[0].path;
    assert a[0] in a && SameBodiesAt(a, b, path);
    FirstAppears(a, path);
    FirstAppears(b, path);
    var x :| x in b && x.path == path;
    assert b == [b[0]] + b[1..];
    BeforeIsOrder(path, path, path);
  }

  lemma {:induction false} OrderedUnique(a: seq<Script>, b: seq<Script>)
    requires Ordered(a) && Ordered(b) && SameBodies(a, b)
    ensures a == b
  {
    hide Bodies, Before;
    if a == [] {
      if b != [] {
        SameBodiesBack(a, b);
        HeadIsFirst(b, a);
      }
    } else {
      HeadIsFirst(a, b);
      SameBodiesBack(a, b);
      HeadIsFirst(b, a);
      BeforeIsOrder(a[0].path, b[0].path, b[0].path);
      var path := a[0].path;
      assert a == [a[0]] + a[1..] && b == [b[0]] + b[1..];
      BodiesCons(a[0], a[1..], path);
      BodiesCons(b[0], b[1..], path);
      assert SameBodiesAt(a, b, path);
      assert Bodies(a, path)[0] == a[0].body && Bodies(b, path)[0] == b[0].body;
      forall p ensures SameBodiesAt(a[1..], b[1..], p) {
        assert SameBodiesAt(a, b, p);
        BodiesCons(a[0], a[1..], p);
        BodiesCons(b[0], b[1..], p);
        if p == path { assert Bodies(a, p)[1..] == Bodies(a[1..], p) && Bodies(b, p)[1..] == Bodies(b[1..], p); }
      }
      OrderedUnique(a[1..], b[1..]);
    }
  }

  lemma SameBodiesBack(a: seq<Script>, b: seq<Script>)
    requires SameBodies(a, b)
    ensures SameBodies(b, a)
  {
    forall path ensures SameBodiesAt(b, a, path) { assert SameBodiesAt(a, b, path); }
  }

  lemma ByPathSame(a: seq<Script>, b: seq<Script>)
    ensures ByPath(a) == ByPath(b) <==> SameBodies(a, b)
  {
    hide Ordered, ByPath, Bodies;
    forall path ensures SameBodiesAt(ByPath(a), ByPath(b), path) <==> SameBodiesAt(a, b, path) {
      ByPathBodies(a, path);
      ByPathBodies(b, path);
    }
    ByPathOrdered(a);
    ByPathOrdered(b);
    if SameBodies(a, b) { OrderedUnique(ByPath(a), ByPath(b)); }
  }

  // ---------- The bytes that are hashed ----------

  const COLON: byte := 0x3A
  const BAR: byte := 0x7C

  predicate Fits(payload: seq<byte>) {
    |payload| < TWO_TO_64
  }

  function Framed(name: string, payload: seq<byte>): seq<byte>
    requires Fits(payload)
  {
    Encode(name) + [COLON] + Le64(|payload|) + [COLON] + payload + [BAR]
  }

  predicate ScriptsFit(scripts: seq<Script>) {
    forall x <- scripts :: Fits(Encode(x.path)) && Fits(x.body)
  }

  function ScriptFrames(scripts: seq<Script>): seq<byte>
    requires ScriptsFit(scripts)
  {
    if scripts == [] then []
    else
      Framed("script-path", Encode(scripts[0].path)) + Framed("script-body", scripts[0].body)
      + ScriptFrames(scripts[1..])
  }

  function PermissionText(permissions: seq<string>): string {
    Join(Granted(permissions), ',')
  }

  /** No object is longer than 2^63 - 1 bytes where the script runs. */
  predicate PluginFits(p: Plugin) {
    && Fits(Encode(p.id)) && Fits(Encode(p.version)) && Fits(Encode(PermissionText(p.permissions)))
    && ScriptsFit(p.scripts)
  }

  function Preimage(p: Plugin): seq<byte>
    requires PluginFits(p)
  {
    SortedFit(p.scripts);
    Framed("id", Encode(p.id)) + (Framed("version", Encode(p.version))
                                  + (Framed("permissions", Encode(PermissionText(p.permissions)))
                                     + ScriptFrames(ByPath(p.scripts))))
  }

  lemma {:induction false} SortedFit(scripts: seq<Script>)
    requires ScriptsFit(scripts)
    ensures ScriptsFit(ByPath(scripts))
  {
    hide Fits, Encode;
    if scripts != [] {
      assert scripts[0] in scripts;
      SortedFit(scripts[1..]);
      ByPathOrdered(scripts[1..]);
      InsertScriptIs(scripts[0], ByPath(scripts[1..]));
    }
  }

  class Hasher {
    var fed: seq<byte>

    constructor ()
      ensures fed == []
    {
      fed := [];
    }

    method Update(bytes: seq<byte>)
      modifies this
      ensures fed == old(fed) + bytes
    {
      fed := fed + bytes;
    }

    method Digest(sha: Sha) returns (digest: seq<byte>)
      ensures digest == sha(fed)
    {
      digest := sha(fed);
    }

    method Field(name: string, payload: seq<byte>)
      requires Fits(payload)
      modifies this
      ensures fed == old(fed) + Framed(name, payload)
    {
      Update(Encode(name));
      Update([COLON]);
      Update(Le64(|payload|));
      Update([COLON]);
      Update(payload);
      Update([BAR]);
      assert fed == old(fed) + Framed(name, payload);
    }
  }

  method PluginDigest(sha: Sha, p: Plugin) returns (digest: seq<byte>)
    requires PluginFits(p)
    ensures digest == sha(Preimage(p))
  {
    hide Fits, Framed, Encode, Granted, ByPath, ScriptFrames, ScriptsFit;
    var hasher := new Hasher();
    hasher.Field("id", Encode(p.id));
    hasher.Field("version", Encode(p.version));
    var granted := Granted(p.permissions);
    hasher.Field("permissions", Encode(Join(granted, ',')));
    ghost var head := hasher.fed;
    SortedFit(p.scripts);
    var sorted := ByPath(p.scripts);
    FramesStart(sorted);
    for n := 0 to |sorted|
      invariant ScriptsFit(sorted[n..]) && ScriptsFit(sorted)
      invariant hasher.fed + ScriptFrames(sorted[n..]) == head + ScriptFrames(sorted)
    {
      FramesStep(sorted, n);
      ghost var before := hasher.fed;
      hasher.Field("script-path", Encode(sorted[n].path));
      hasher.Field("script-body", sorted[n].body);
      FramesMoved(before, Framed("script-path", Encode(sorted[n].path)), Framed("script-body", sorted[n].body),
                  ScriptFrames(sorted[n + 1..]));
    }
    FramesDone(sorted[|sorted|..]);
    assert hasher.fed == head + ScriptFrames(sorted);
    FramesGrouped(Framed("id", Encode(p.id)), Framed("version", Encode(p.version)),
                  Framed("permissions", Encode(PermissionText(p.permissions))), ScriptFrames(sorted));
    assert hasher.fed == Preimage(p);
    digest := hasher.Digest(sha);
  }

  lemma FramesStart(s: seq<Script>)
    ensures s[0..] == s
  {
  }

  lemma FramesStep(s: seq<Script>, n: nat)
    requires n < |s| && ScriptsFit(s[n..])
    ensures ScriptsFit(s[n + 1..]) && Fits(Encode(s[n].path)) && Fits(s[n].body)
    ensures ScriptFrames(s[n..]) ==
            Framed("script-path", Encode(s[n].path)) + Framed("script-body", s[n].body) + ScriptFrames(s[n + 1..])
  {
    hide Fits, Framed, Encode;
    assert s[n..][1..] == s[n + 1..] && s[n..][0] == s[n];
    assert s[n] in s[n..];
    assert forall x <- s[n + 1..] :: x in s[n..];
  }

  lemma FramesDone(s: seq<Script>)
    requires s == []
    ensures ScriptsFit(s) && ScriptFrames(s) == []
  {
  }

  lemma FramesMoved(a: seq<byte>, b: seq<byte>, c: seq<byte>, d: seq<byte>)
    ensures a + (b + c + d) == a + b + c + d
  {
  }

  lemma FramesGrouped(a: seq<byte>, b: seq<byte>, c: seq<byte>, d: seq<byte>)
    ensures [] + a + b + c + d == a + (b + (c + d))
  {
  }

  // ---------- Where the frames stand ----------

  function FrameSize(name: string, payload: seq<byte>): nat {
    |name| + |payload| + 11
  }

  /** From `at`: the name, a colon, eight bytes of length with the lowest first, a colon, the payload and a bar. */
  ghost predicate FrameAt(bytes: seq<byte>, at: nat, name: string, payload: seq<byte>) {
    && at + FrameSize(name, payload) <= |bytes|
    && (forall i :: 0 <= i < |name| ==> bytes[at + i] as int == name[i] as int)
    && bytes[at + |name|] == 0x3A
    && FromLittle(bytes[at + |name| + 1..at + |name| + 9]) == |payload|
    && bytes[at + |name| + 9] == 0x3A
    && bytes[at + |name| + 10..at + |name| + 10 + |payload|] == payload
    && bytes[at + |name| + 10 + |payload|] == 0x7C
  }

  lemma FramedAt(before: seq<byte>, name: string, payload: seq<byte>, after: seq<byte>)
    requires Fits(payload) && forall c <- name :: c as int < 0x80
    ensures FrameAt(before + Framed(name, payload) + after, |before|, name, payload)
    ensures |Framed(name, payload)| == FrameSize(name, payload)
  {
    EncodeAscii(name);
    Le64Read(|payload|);
    FramedUnfold(name, payload);
    hide *;
    var e, n := Encode(name), Le64(|payload|);
    var frame := e + [0x3A] + n + [0x3A] + payload + [0x7C];
    FrameParts(e, n, payload, frame);
    PlacedFrame(before, frame, after, name, payload);
  }

  lemma FramedUnfold(name: string, payload: seq<byte>)
    requires Fits(payload)
    ensures Framed(name, payload) == Encode(name) + [0x3A] + Le64(|payload|) + [0x3A] + payload + [0x7C]
    ensures |Le64(|payload|)| == 8
  {
    hide Encode, Le64;
  }

  lemma FrameParts(e: seq<byte>, n: seq<byte>, payload: seq<byte>, frame: seq<byte>)
    requires frame == e + [0x3A] + n + [0x3A] + payload + [0x7C] && |n| == 8
    ensures |frame| == |e| + |payload| + 11
    ensures frame[..|e|] == e && frame[|e|] == 0x3A && frame[|e| + 1..|e| + 9] == n && frame[|e| + 9] == 0x3A
    ensures frame[|e| + 10..|e| + 10 + |payload|] == payload && frame[|e| + 10 + |payload|] == 0x7C
  {
  }

  lemma PlacedFrame(before: seq<byte>, frame: seq<byte>, after: seq<byte>, name: string, payload: seq<byte>)
    requires |frame| == |name| + |payload| + 11
    requires forall i :: 0 <= i < |name| ==> frame[..|name|][i] == name[i] as int
    requires frame[|name|] == 0x3A && frame[|name| + 9] == 0x3A
    requires FromLittle(frame[|name| + 1..|name| + 9]) == |payload|
    requires frame[|name| + 10..|name| + 10 + |payload|] == payload && frame[|name| + 10 + |payload|] == 0x7C
    ensures FrameAt(before + frame + after, |before|, name, payload) && |frame| == FrameSize(name, payload)
  {
    hide FromLittle;
    var bytes, at := before + frame + after, |before|;
    assert bytes[at..at + |frame|] == frame;
    assert bytes[at + |name| + 1..at + |name| + 9] == frame[|name| + 1..|name| + 9];
    assert bytes[at + |name| + 10..at + |name| + 10 + |payload|] == frame[|name| + 10..|name| + 10 + |payload|];
    forall i | 0 <= i < |name| ensures bytes[at + i] as int == name[i] as int {
      assert frame[..|name|][i] == frame[i];
    }
  }

  /** How far the first `k` scripts reach. */
  function ScriptsSize(s: seq<Script>, k: nat): nat
    requires k <= |s|
  {
    if k == 0 then 0
    else
      ScriptsSize(s, k - 1) + FrameSize("script-path", Encode(s[k - 1].path)) + FrameSize("script-body", s[k - 1].body)
  }

  lemma {:induction false} ScriptsSizeTail(s: seq<Script>, k: nat)
    requires 0 < k <= |s|
    ensures ScriptsSize(s, k) == ScriptsSize(s, 1) + ScriptsSize(s[1..], k - 1)
  {
    if k > 1 {
      ScriptsSizeTail(s, k - 1);
      assert s[1..][k - 2] == s[k - 1];
    }
  }

  lemma {:induction false} ScriptFramesAt(before: seq<byte>, s: seq<Script>, k: nat)
    requires ScriptsFit(s) && k <= |s|
    ensures var bytes, at := before + ScriptFrames(s), |before| + ScriptsSize(s, k);
            && |bytes| == |before| + ScriptsSize(s, |s|)
            && (k < |s| ==>
                  && FrameAt(bytes, at, "script-path", Encode(s[k].path))
                  && FrameAt(bytes, at + FrameSize("script-path", Encode(s[k].path)), "script-body", s[k].body))
    decreases |s|
  {
    hide FrameAt, Framed, FrameSize, Encode, ScriptFrames, ScriptsSize;
    if s == [] {
      NoFrames(s);
    } else {
      FramesGroup(s);
      FirstFits(s);
      var p, b := Framed("script-path", Encode(s[0].path)), Framed("script-body", s[0].body);
      var rest := ScriptFrames(s[1..]);
      FramedAt(before, "script-path", Encode(s[0].path), b + rest);
      FramedAt(before + p, "script-body", s[0].body, rest);
      Regrouped(before, p, b, rest);
      ScriptsSizeTail(s, |s|);
      OneScript(s);
      if k == 0 {
        ScriptFramesAt(before + p + b, s[1..], 0);
        NoScripts(s);
        NoScripts(s[1..]);
      } else {
        ScriptsSizeTail(s, k);
        ScriptFramesAt(before + p + b, s[1..], k - 1);
        if k < |s| { assert s[1..][k - 1] == s[k]; }
      }
    }
  }

  lemma NoFrames(s: seq<Script>)
    requires s == []
    ensures ScriptsFit(s) && ScriptFrames(s) == [] && ScriptsSize(s, 0) == 0
  {
  }

  lemma NoScripts(s: seq<Script>)
    ensures ScriptsSize(s, 0) == 0
  {
  }

  lemma OneScript(s: seq<Script>)
    requires s != []
    ensures ScriptsSize(s, 1) == FrameSize("script-path", Encode(s[0].path)) + FrameSize("script-body", s[0].body)
  {
    NoScripts(s);
  }

  lemma FirstFits(s: seq<Script>)
    requires s != [] && ScriptsFit(s)
    ensures Fits(Encode(s[0].path)) && Fits(s[0].body)
  {
  }

  lemma Regrouped(a: seq<byte>, b: seq<byte>, c: seq<byte>, d: seq<byte>)
    ensures a + (b + (c + d)) == a + b + (c + d) && a + (b + (c + d)) == a + b + c + d
  {
  }

  /** What follows a frame may be moved into the bytes before it. */
  lemma FramedIn(before: seq<byte>, name: string, payload: seq<byte>, after: seq<byte>, bytes: seq<byte>)
    requires Fits(payload) && (forall c <- name :: c as int < 0x80)
    requires bytes == before + (Framed(name, payload) + after)
    ensures FrameAt(bytes, |before|, name, payload) && |Framed(name, payload)| == FrameSize(name, payload)
    ensures bytes == before + Framed(name, payload) + after
  {
    hide *;
    FramedAt(before, name, payload, after);
    assert before + (Framed(name, payload) + after) == before + Framed(name, payload) + after;
  }

  ghost predicate HeadFrames(pre: seq<byte>, id: seq<byte>, version: seq<byte>, permissions: seq<byte>) {
    var at1 := FrameSize("id", id);
    var at2 := at1 + FrameSize("version", version);
    FrameAt(pre, 0, "id", id) && FrameAt(pre, at1, "version", version) && FrameAt(pre, at2, "permissions", permissions)
  }

  lemma ThreeFrames(id: seq<byte>, version: seq<byte>, permissions: seq<byte>, tail: seq<byte>, pre: seq<byte>)
    requires Fits(id) && Fits(version) && Fits(permissions)
    requires pre == Framed("id", id) + (Framed("version", version) + (Framed("permissions", permissions) + tail))
    ensures HeadFrames(pre, id, version, permissions)
    ensures var head := Framed("id", id) + Framed("version", version) + Framed("permissions", permissions);
            && pre == head + tail
            && |head| == FrameSize("id", id) + FrameSize("version", version) + FrameSize("permissions", permissions)
  {
    hide Fits, Framed, FrameAt, FrameSize;
    Letters();
    var a, b, c := Framed("id", id), Framed("version", version), Framed("permissions", permissions);
    assert pre == [] + (a + (b + (c + tail)));
    FramedIn([], "id", id, b + (c + tail), pre);
    FramedIn(a, "version", version, c + tail, pre);
    FramedIn(a + b, "permissions", permissions, tail, pre);
  }

  ghost predicate ScriptsFrom(pre: seq<byte>, at: nat, s: seq<Script>) {
    forall k :: 0 <= k < |s| ==> ScriptAt(pre, at + ScriptsSize(s, k), s[k])
  }

  ghost predicate ScriptAt(pre: seq<byte>, at: nat, x: Script) {
    && FrameAt(pre, at, "script-path", Encode(x.path))
    && FrameAt(pre, at + FrameSize("script-path", Encode(x.path)), "script-body", x.body)
  }

  lemma AllScripts(head: seq<byte>, s: seq<Script>)
    requires ScriptsFit(s)
    ensures ScriptsFrom(head + ScriptFrames(s), |head|, s)
    ensures |head + ScriptFrames(s)| == |head| + ScriptsSize(s, |s|)
  {
    hide FrameAt, FrameSize, Encode, ScriptFrames, ScriptsSize, ScriptsFit;
    forall k | 0 <= k <= |s|
      ensures |head + ScriptFrames(s)| == |head| + ScriptsSize(s, |s|)
      ensures k < |s| ==> ScriptAt(head + ScriptFrames(s), |head| + ScriptsSize(s, k), s[k])
    {
      ScriptFramesAt(head, s, k);
    }
  }

  /** What is hashed, byte for byte: the id, the version, the sorted permissions joined by commas, and for each script
      by path its path and its body, each in a frame of its own, and nothing else. */
  lemma PreimageIs(p: Plugin)
    requires PluginFits(p)
    ensures var pre, s := Preimage(p), ByPath(p.scripts);
            var id, version, permissions :=
              Encode(p.id), Encode(p.version), Encode(Join(Granted(p.permissions), ','));
            var at := FrameSize("id", id) + FrameSize("version", version) + FrameSize("permissions", permissions);
            && HeadFrames(pre, id, version, permissions)
            && ScriptsFrom(pre, at, s) && |pre| == at + ScriptsSize(s, |s|)
  {
    PreimageUnfold(p);
    hide *;
    var id, version, permissions := Encode(p.id), Encode(p.version), Encode(PermissionText(p.permissions));
    ThreeFrames(id, version, permissions, ScriptFrames(ByPath(p.scripts)), Preimage(p));
    AllScripts(Framed("id", id) + Framed("version", version) + Framed("permissions", permissions), ByPath(p.scripts));
  }

  lemma Letters()
    ensures (forall c <- "id" :: c as int < 0x80) && (forall c <- "version" :: c as int < 0x80)
    ensures forall c <- "permissions" :: c as int < 0x80
  {
  }

  lemma PreimageUnfold(p: Plugin)
    requires PluginFits(p)
    ensures ScriptsFit(p.scripts) && ScriptsFit(ByPath(p.scripts))
    ensures PermissionText(p.permissions) == Join(Granted(p.permissions), ',')
    ensures Fits(Encode(p.id)) && Fits(Encode(p.version)) && Fits(Encode(PermissionText(p.permissions)))
    ensures Preimage(p) ==
            Framed("id", Encode(p.id))
            + (Framed("version", Encode(p.version))
               + (Framed("permissions", Encode(PermissionText(p.permissions))) + ScriptFrames(ByPath(p.scripts))))
  {
    SortedFit(p.scripts);
  }

  // ---------- Which plugins share a preimage ----------

  /** A frame can be told from what follows it. */
  lemma FrameSplits(name: string, p: seq<byte>, x: seq<byte>, q: seq<byte>, y: seq<byte>)
    requires Fits(p) && Fits(q) && Framed(name, p) + x == Framed(name, q) + y
    ensures p == q && x == y
  {
    hide Le64, Encode;
    var a, b := Framed(name, p) + x, Framed(name, q) + y;
    var n := |Encode(name)| + 1;
    assert a[n..n + 8] == Le64(|p|) && b[n..n + 8] == Le64(|q|);
    Le64Read(|p|);
    Le64Read(|q|);
    assert a[n + 9..n + 9 + |p|] == p && b[n + 9..n + 9 + |q|] == q;
    assert a[n + 10 + |p|..] == x && b[n + 10 + |q|..] == y;
  }

  lemma FrameNotEmpty(name: string, p: seq<byte>, x: seq<byte>)
    requires Fits(p)
    ensures Framed(name, p) + x != []
  {
  }

  lemma {:induction false} ScriptFramesInjective(a: seq<Script>, b: seq<Script>)
    requires ScriptsFit(a) && ScriptsFit(b) && ScriptFrames(a) == ScriptFrames(b)
    ensures a == b
  {
    hide Fits, Framed, Encode;
    if a == [] || b == [] {
      if a != [] { FramesAreThere(a); }
      if b != [] { FramesAreThere(b); }
    } else {
      var x, y := a[0], b[0];
      assert x in a && y in b;
      var p, q := Framed("script-body", x.body) + ScriptFrames(a[1..]), Framed("script-body", y.body)
          + ScriptFrames(b[1..]);
      FramesGroup(a);
      FramesGroup(b);
      FrameSplits("script-path", Encode(x.path), p, Encode(y.path), q);
      FrameSplits("script-body", x.body, ScriptFrames(a[1..]), y.body, ScriptFrames(b[1..]));
      EncodeInjective(x.path, y.path);
      ScriptFramesInjective(a[1..], b[1..]);
      assert a == [x] + a[1..] && b == [y] + b[1..];
    }
  }

  lemma FramesGroup(s: seq<Script>)
    requires s != [] && ScriptsFit(s)
    ensures s[0] in s && ScriptsFit(s[1..])
    ensures ScriptFrames(s) ==
            Framed("script-path", Encode(s[0].path)) + (Framed("script-body", s[0].body) + ScriptFrames(s[1..]))
  {
    hide Fits, Framed, Encode;
  }

  lemma FramesAreThere(s: seq<Script>)
    requires s != [] && ScriptsFit(s)
    ensures ScriptFrames(s) != []
  {
    hide Fits, Encode;
    FramesGroup(s);
    FrameNotEmpty("script-path", Encode(s[0].path), Framed("script-body", s[0].body) + ScriptFrames(s[1..]));
  }

  /** Two plugins are hashed from the same bytes exactly when they agree in identity, version, permission
      text and, path by path, in what they give for it. */
  lemma SamePreimageIff(p: Plugin, q: Plugin)
    requires PluginFits(p) && PluginFits(q)
    ensures Preimage(p) == Preimage(q) <==>
            && p.id == q.id && p.version == q.version
            && PermissionText(p.permissions) == PermissionText(q.permissions)
            && SameBodies(p.scripts, q.scripts)
  {
    hide Framed, Encode, ScriptFrames, PermissionText, ByPath, SameBodies;
    SortedFit(p.scripts);
    SortedFit(q.scripts);
    ByPathSame(p.scripts, q.scripts);
    if Preimage(p) == Preimage(q) {
      var s, t := ScriptFrames(ByPath(p.scripts)), ScriptFrames(ByPath(q.scripts));
      var a, b := Encode(PermissionText(p.permissions)), Encode(PermissionText(q.permissions));
      var x, y := Framed("permissions", a) + s, Framed("permissions", b) + t;
      FrameSplits("id", Encode(p.id), Framed("version", Encode(p.version)) + x,
                  Encode(q.id), Framed("version", Encode(q.version)) + y);
      FrameSplits("version", Encode(p.version), x, Encode(q.version), y);
      FrameSplits("permissions", a, s, b, t);
      EncodeInjective(p.id, q.id);
      EncodeInjective(p.version, q.version);
      EncodeInjective(PermissionText(p.permissions), PermissionText(q.permissions));
      ScriptFramesInjective(ByPath(p.scripts), ByPath(q.scripts));
    }
  }

  predicate CommaFree(permissions: seq<string>) {
    forall x <- permissions :: ',' !in x
  }

  predicate OnlyEmpty(permissions: seq<string>) {
    forall x <- permissions :: x == ""
  }

  /** Comma-free permissions are determined by their text, but that no permission and the empty one are
      written alike. */
  lemma PermissionTextIff(a: seq<string>, b: seq<string>)
    requires CommaFree(a) && CommaFree(b)
    ensures PermissionText(a) == PermissionText(b) <==> SameNames(a, b) || (OnlyEmpty(a) && OnlyEmpty(b))
  {
    hide Granted, Increasing;
    GrantedIs(a);
    GrantedIs(b);
    var x, y := Granted(a), Granted(b);
    if SameNames(a, b) { IncreasingUnique(x, y); }
    TextIsEmptyIff(a);
    TextIsEmptyIff(b);
    assert (x == [] ==> OnlyEmpty(a)) && (y == [] ==> OnlyEmpty(b));
    if PermissionText(a) == PermissionText(b) && !OnlyEmpty(a) {
      SplitJoin(x, ',');
      SplitJoin(y, ',');
      assert x == y;
    }
  }

  lemma SecondIsNotEmpty(x: seq<string>)
    requires Increasing(x) && |x| > 1
    ensures x[1] in x && x[1] != ""
  {
    assert x[1] == x[1..][0] && x[1] in x[1..];
  }

  lemma TextIsEmptyIff(a: seq<string>)
    requires CommaFree(a)
    ensures PermissionText(a) == "" <==> OnlyEmpty(a)
  {
    hide Granted, Increasing, Before;
    GrantedIs(a);
    var x := Granted(a);
    assert OnlyEmpty(a) <==> OnlyEmpty(x);
    if |x| > 1 {
      SecondIsNotEmpty(x);
      SplitJoin(x, ',');
      assert SplitOn("", ',') == [""];
    } else if |x| == 1 {
      assert x[0] in x;
    }
  }

  /** With a comma inside a permission, or with an empty one, different sets share a text. */
  lemma PermissionsCollide()
    ensures PermissionText(["a,b"]) == PermissionText(["a", "b"]) && !SameNames(["a,b"], ["a", "b"])
    ensures PermissionText([""]) == PermissionText([]) && !SameNames([""], [])
  {
    assert Granted(["b"]) == ["b"] by { assert ["b"][1..] == []; }
    assert ["a", "b"][1..] == ["b"];
    assert Before("a", "b");
    assert Granted(["a", "b"]) == ["a", "b"];
    assert ["a,b"][1..] == [] && [""][1..] == [];
    assert Join(["b"], ',') == "b" && Join(["a", "b"], ',') == "a" + "," + "b";
    assert "a,b" in ["a,b"] && "" in [""];
  }

  predicate DistinctPaths(s: seq<Script>) {
    s == [] || ((forall x <- s[1..] :: x.path != s[0].path) && DistinctPaths(s[1..]))
  }

  lemma {:induction false} OneBody(s: seq<Script>, x: Script)
    requires DistinctPaths(s) && x in s
    ensures Bodies(s, x.path) == [x.body]
  {
    assert s == [s[0]] + s[1..];
    if s[0] == x {
      FirstAppears(s[1..], x.path);
    } else {
      OneBody(s[1..], x);
    }
  }

  /** The order of the scripts, the order of the permissions and their repetitions do not matter. */
  lemma OrderIsIrrelevant(p: Plugin, q: Plugin)
    requires PluginFits(p) && PluginFits(q) && p.id == q.id && p.version == q.version
    requires SameNames(p.permissions, q.permissions)
    requires DistinctPaths(p.scripts) && DistinctPaths(q.scripts)
    requires forall x :: x in p.scripts <==> x in q.scripts
    ensures Preimage(p) == Preimage(q)
  {
    hide Granted, Increasing, DistinctPaths, Bodies;
    GrantedIs(p.permissions);
    GrantedIs(q.permissions);
    IncreasingUnique(Granted(p.permissions), Granted(q.permissions));
    var a, b := p.scripts, q.scripts;
    forall path ensures SameBodiesAt(a, b, path) {
      FirstAppears(a, path);
      FirstAppears(b, path);
      if x :| x in a && x.path == path {
        OneBody(a, x);
        OneBody(b, x);
      } else {
        assert Bodies(a, path) == [] && Bodies(b, path) == [];
      }
    }
    SamePreimageIff(p, q);
  }

  // ---------- Reading the permissions of a manifest ----------

  function StripQuotes(s: string): (r: string) {
    if s != "" && s[0] == '"' then StripQuotes(s[1..])
    else if s != "" && s[|s| - 1] == '"' then StripQuotes(s[..|s| - 1])
    else s
  }

  function Items(parts: seq<string>): seq<string> {
    if parts == [] then []
    else (if Strip(parts[0]) == "" then [] else [StripQuotes(Strip(parts[0]))]) + Items(parts[1..])
  }

  function ParseArray(value: string): seq<string> {
    var v := Strip(value);
    if |v| < 2 || v[0] != '[' || v[|v| - 1] != ']' then []
    else
      var inner := Strip(v[1..|v| - 1]);
      if inner == "" then [] else Items(SplitOn(inner, ','))
  }

  predicate Bare(s: string) {
    s == "" || (s[0] != '"' && s[|s| - 1] != '"')
  }

  lemma {:induction false} StripQuotesIs(s: string)
    ensures Bare(StripQuotes(s)) && forall c :: c in StripQuotes(s) ==> c in s
  {
    if s != "" && s[0] == '"' {
      StripQuotesIs(s[1..]);
    } else if s != "" && s[|s| - 1] == '"' {
      StripQuotesIs(s[..|s| - 1]);
    }
  }

  lemma StripKeepsOut(s: string, c: char)
    requires c !in s
    ensures c !in Strip(s)
  {
    var i := LStripSplit(s);
    var j := RStripSplit(LStrip(s));
  }

  lemma {:induction false} ItemsAre(parts: seq<string>)
    requires forall p <- parts :: ',' !in p
    ensures forall x <- Items(parts) :: ',' !in x && Bare(x)
  {
    hide Strip, StripQuotes, Bare;
    if parts != [] {
      ItemsAre(parts[1..]);
      StripKeepsOut(parts[0], ',');
      StripQuotesIs(Strip(parts[0]));
    }
  }

  /** Between the commas blank stretches are passed over, and of the others the blanks and then the quotes are taken off
      both ends. */
  lemma {:induction false} ItemsAppend(a: seq<string>, part: string, b: seq<string>)
    ensures Items(a + [part] + b) ==
            Items(a) + (if IsBlank(part) then [] else [StripQuotes(Strip(part))]) + Items(b)
    ensures Items([]) == []
  {
    hide StripQuotes, Strip, IsBlank;
    if a == [] {
      StripsToNothing(part);
      assert a + [part] + b == [part] + b && ([part] + b)[1..] == b;
    } else {
      var all, more := a + [part] + b, a[1..] + [part] + b;
      assert all[0] == a[0] && all[1..] == more;
      ItemsAppend(a[1..], part, b);
      ItemsStep(all);
      ItemsStep(a);
      hide Items;
    }
  }

  lemma ItemsStep(parts: seq<string>)
    requires parts != []
    ensures Items(parts) ==
            (if Strip(parts[0]) == "" then [] else [StripQuotes(Strip(parts[0]))]) + Items(parts[1..])
  {
    hide StripQuotes, Strip;
  }

  lemma StripsToNothing(s: string)
    ensures Strip(s) == "" <==> IsBlank(s)
  {
    var k := LStripSplit(s);
    var n := RStripSplit(LStrip(s));
    if IsBlank(s) {
      StripIs(s, "", "");
      assert s + "" + "" == s;
    }
    if Strip(s) == "" {
      assert LStrip(s)[n..] == LStrip(s) && s == s[..k] + LStrip(s);
      BlankConcat(s[..k], LStrip(s));
    }
  }

  ghost predicate OnlyQuotes(s: string) {
    forall i :: 0 <= i < |s| ==> s[i] == '"'
  }

  /** Quotes are taken off both ends, however many. */
  lemma {:induction false} StripQuotesOff(a: string, core: string, b: string)
    requires OnlyQuotes(a) && OnlyQuotes(b) && Bare(core)
    ensures StripQuotes(a + core + b) == core
    decreases |a| + |b|
  {
    var s := a + core + b;
    if a != "" {
      assert s[0] == '"' && s[1..] == a[1..] + core + b;
      StripQuotesOff(a[1..], core, b);
    } else if core == "" {
      assert s == b;
      AllQuotes(b);
    } else if b != "" {
      assert s == core + b && s[0] == core[0] && s[|s| - 1] == '"' && s[..|s| - 1] == a + core + b[..|b| - 1];
      StripQuotesOff(a, core, b[..|b| - 1]);
    } else {
      assert s == core;
    }
  }

  lemma {:induction false} AllQuotes(s: string)
    requires OnlyQuotes(s)
    ensures StripQuotes(s) == ""
  {
    if s != "" { AllQuotes(s[1..]); }
  }

  /** Every input: no permission that was read has a comma in it or a quote at an end. */
  lemma ParsedAreCommaFree(value: string)
    ensures CommaFree(ParseArray(value)) && forall x <- ParseArray(value) :: Bare(x)
  {
    hide Strip, Items, Bare;
    var v := Strip(value);
    if !(|v| < 2 || v[0] != '[' || v[|v| - 1] != ']') && Strip(v[1..|v| - 1]) != "" {
      ItemsAre(SplitOn(Strip(v[1..|v| - 1]), ','));
    }
  }

  function Quote(s: string): string {
    "\"" + s + "\""
  }

  function QuoteAll(items: seq<string>): (r: seq<string>)
    ensures |r| == |items| && forall i :: 0 <= i < |r| ==> r[i] == Quote(items[i])
  {
    if items == [] then [] else [Quote(items[0])] + QuoteAll(items[1..])
  }

  function PrintArray(items: seq<string>): string {
    "[" + Join(QuoteAll(items), ',') + "]"
  }

  lemma StripSame(s: string)
    requires s == "" || (!IsSpace(s[0]) && !IsSpace(s[|s| - 1]))
    ensures Strip(s) == s
  {
  }

  lemma {:induction false} Unquoted(s: string)
    requires Bare(s)
    ensures StripQuotes(Quote(s)) == s && StripQuotes(s) == s
  {
    var q := Quote(s);
    assert q[1..] == s + "\"";
    if s == "" {
      assert q[1..][1..] == "" && q[1..][0] == '"';
      assert StripQuotes(q[1..]) == StripQuotes("");
    } else {
      assert (s + "\"")[..|s|] == s && (s + "\"")[0] == s[0];
    }
  }

  lemma {:induction false} ItemsOfQuoted(items: seq<string>)
    requires forall x <- items :: Bare(x)
    ensures Items(QuoteAll(items)) == items
  {
    hide Strip, StripQuotes;
    if items != [] {
      var x := items[0];
      assert x in items;
      StripSame(Quote(x));
      Unquoted(x);
      ItemsOfQuoted(items[1..]);
      assert items == [x] + items[1..];
    }
  }

  lemma {:induction false} JoinEnds(parts: seq<string>, sep: char, c: char)
    requires parts != [] && forall p <- parts :: p != "" && p[0] == c && p[|p| - 1] == c
    ensures var t := Join(parts, sep); t != "" && t[0] == c && t[|t| - 1] == c
  {
    assert parts[0] in parts;
    if |parts| > 1 { JoinEnds(parts[1..], sep, c); }
  }

  /** Written as a quoted array, permissions are read back exactly when none has a comma in it or a quote
      at an end. */
  lemma ArrayReadBackIff(items: seq<string>)
    ensures ParseArray(PrintArray(items)) == items <==> CommaFree(items) && forall x <- items :: Bare(x)
  {
    hide Strip, Items;
    ParsedAreCommaFree(PrintArray(items));
    if CommaFree(items) && forall x <- items :: Bare(x) {
      var quoted := QuoteAll(items);
      var inner, text := Join(quoted, ','), PrintArray(items);
      StripSame(text);
      assert text[1..|text| - 1] == inner;
      if items == [] {
        StripSame("");
      } else {
        forall p | p in quoted ensures p != "" && p[0] == '"' && p[|p| - 1] == '"' && ',' !in p {
          var i :| 0 <= i < |quoted| && quoted[i] == p;
          assert items[i] in items;
        }
        JoinEnds(quoted, ',', '"');
        StripSame(inner);
        SplitJoin(quoted, ',');
        ItemsOfQuoted(items);
      }
    }
  }

  // ---------- What is signed ----------

  const DIGITS := "0123456789abcdef"
  const PREFIX := "ozpos-plugin-v1:"

  function Hex(bytes: seq<byte>): string {
    if bytes == [] then "" else [DIGITS[bytes[0] / 16], DIGITS[bytes[0] % 16]] + Hex(bytes[1..])
  }

  function SignedPayload(digest: seq<byte>): seq<byte> {
    Encode(PREFIX + Hex(digest))
  }

  lemma {:induction false} HexAt(bytes: seq<byte>, i: nat)
    ensures |Hex(bytes)| == 2 * |bytes|
    ensures i < |bytes| ==> Hex(bytes)[2 * i] == DIGITS[bytes[i] / 16] && Hex(bytes)[2 * i + 1] == DIGITS[bytes[i] % 16]
    decreases |bytes|
  {
    if bytes != [] { HexAt(bytes[1..], if i == 0 then 0 else i - 1); }
  }

  lemma DigitIs(n: nat)
    requires n < 16
    ensures DIGITS[n] as int == if n < 10 then '0' as int + n else 'a' as int + n - 10
  {
    assert n == 0 || n == 1 || n == 2 || n == 3 || n == 4 || n == 5 || n == 6 || n == 7 || n == 8 || n == 9 || n == 10
           || n == 11 || n == 12 || n == 13 || n == 14 || n == 15;
  }

  /** What is signed: the prefix, and each byte as two lower-case hexadecimal digits, the high one first. */
  lemma SignedPayloadIs(digest: seq<byte>, i: nat)
    requires i < |digest|
    ensures SignedPayload(digest) == Encode("ozpos-plugin-v1:" + Hex(digest)) && |Hex(digest)| == 2 * |digest|
    ensures var high, low := digest[i] as int / 16, digest[i] as int % 16;
            && Hex(digest)[2 * i] as int == (if high < 10 then '0' as int + high else 'a' as int + high - 10)
            && Hex(digest)[2 * i + 1] as int == (if low < 10 then '0' as int + low else 'a' as int + low - 10)
  {
    hide Hex, Encode;
    HexAt(digest, i);
    DigitIs(digest[i] / 16);
    DigitIs(digest[i] % 16);
  }

  lemma DigitsDiffer(i: nat, j: nat)
    requires i < 16 && j < 16 && DIGITS[i] == DIGITS[j]
    ensures i == j
  {
  }

  lemma {:induction false} HexInjective(a: seq<byte>, b: seq<byte>)
    requires Hex(a) == Hex(b)
    ensures a == b
  {
    if a != [] && b != [] {
      var x, y := Hex(a), Hex(b);
      assert x[0] == y[0] && x[1] == y[1];
      DigitsDiffer(a[0] / 16, b[0] / 16);
      DigitsDiffer(a[0] % 16, b[0] % 16);
      assert x[2..] == Hex(a[1..]) && y[2..] == Hex(b[1..]);
      HexInjective(a[1..], b[1..]);
      assert a == [a[0]] + a[1..] && b == [b[0]] + b[1..];
    }
  }

  /** Different digests are signed as different bytes. */
  lemma SignedPayloadInjective(a: seq<byte>, b: seq<byte>)
    requires SignedPayload(a) == SignedPayload(b)
    ensures a == b
  {
    hide Encode, Hex;
    EncodeInjective(PREFIX + Hex(a), PREFIX + Hex(b));
    assert (PREFIX + Hex(a))[|PREFIX|..] == Hex(a) && (PREFIX + Hex(b))[|PREFIX|..] == Hex(b);
    HexInjective(a, b);
  }
}
