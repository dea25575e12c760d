/** Dropping the repeated messages of a Fluent file: the first definition of a key wins. */
module FtlDedupe {
  import opened Options
  import opened Text
  import opened FtlPatterns
  import opened FtlShapes

  /** The key a line defines; unlike elsewhere, a term's hyphen may start it and an underscore may not. */
  function DefinedKey(l: string): Option<string> {
    if l != "" && (l[0] == '-' || IsLetter(l[0])) && NameTailEquals(l[1..]) then Some(NamePrefix(l)) else None
  }

  /** A line that begins with a letter or a hyphen, then letters, digits, underscores and hyphens, blanks and `=`
      defines that name. */
  lemma DefinedKeyIs(name: string, ws: string, x: string)
    requires name != "" && ('a' <= name[0] <= 'z' || 'A' <= name[0] <= 'Z' || name[0] == '-') && InnerName(name[1..])
    requires IsBlank(ws)
    ensures DefinedKey(name + ws + "=" + x) == Some(name)
  {
    var l := name + ws + "=" + x;
    assert l[0] == name[0] && l[1..] == name[1..] + ws + "=" + x;
    TailIs(name[1..], ws, x);
    assert NameChar(l[0]) && NamePrefix(l) == [name[0]] + name[1..];
    assert name == [name[0]] + name[1..];
  }

  /** And no other line defines a key. */
  lemma DefinedKeyShape(l: string) returns (ws: string, x: string)
    requires DefinedKey(l).Some?
    ensures var name := DefinedKey(l).value;
            && name != "" && ('a' <= name[0] <= 'z' || 'A' <= name[0] <= 'Z' || name[0] == '-') && InnerName(name[1..])
            && IsBlank(ws) && l == name + ws + "=" + x
  {
    var n;
    n, ws, x := TailShape(l[1..]);
    assert NamePrefix(l) == [l[0]] + n && ([l[0]] + n)[1..] == n;
  }

  predicate CommentLine(l: string) {
    l != "" && l[0] == '#'
  }

  predicate IsBoundary(l: string) {
    DefinedKey(l).Some? || CommentLine(l)
  }

  /** One pass with a memory of the keys met and of whether the current block is being dropped. */
  function Kept(lines: seq<string>, seen: set<string>, dropping: bool): seq<string> {
    if lines == [] then []
    else
      var l, rest := lines[0], lines[1..];
      match DefinedKey(l)
      case Some(k) => if k in seen then Kept(rest, seen, true) else [l] + Kept(rest, seen + {k}, false)
      case None =>
        if dropping && !CommentLine(l) then Kept(rest, seen, true) else [l] + Kept(rest, seen, false)
  }

  /** The file's text without its repeated messages. */
  function Deduped(text: string): string {
    Concat(Kept(SplitLines(text), {}, false))
  }

  // ---------- The block-wise loop ----------

  predicate NoBoundary(lines: seq<string>) {
    forall l <- lines :: !IsBoundary(l)
  }

  lemma {:induction false} BlockKept(block: seq<string>, rest: seq<string>, seen: set<string>, dropping: bool)
    requires NoBoundary(block) && (rest == [] || IsBoundary(rest[0]))
    ensures Kept(block + rest, seen, dropping) == (if dropping then [] else block) + Kept(rest, seen, false)
  {
    hide DefinedKey, CommentLine;
    if block == [] {
      assert block + rest == rest;
    } else {
      assert !IsBoundary(block[0]);
      assert (block + rest)[1..] == block[1..] + rest;
      BlockKept(block[1..], rest, seen, dropping);
    }
  }

  lemma HeadKept(lines: seq<string>, i: nat, j: nat, seen: set<string>)
    requires i < j <= |lines| && NoBoundary(lines[i + 1..j]) && (j < |lines| ==> IsBoundary(lines[j]))
    requires DefinedKey(lines[i]).Some?
    ensures var k := DefinedKey(lines[i]).value;
            Kept(lines[i..], seen, false) ==
            if k in seen then Kept(lines[j..], seen, false) else lines[i..j] + Kept(lines[j..], seen + {k}, false)
  {
    hide DefinedKey, IsBoundary, NoBoundary;
    var k := DefinedKey(lines[i]).value;
    var block, rest := lines[i + 1..j], lines[j..];
    assert lines[i..][1..] == block + rest;
    assert rest != [] ==> rest[0] == lines[j];
    if k in seen {
      BlockKept(block, rest, seen, true);
    } else {
      BlockKept(block, rest, seen + {k}, false);
      assert [lines[i]] + block == lines[i..j];
      assert Kept(lines[i..], seen, false) == [lines[i]] + (block + Kept(rest, seen + {k}, false));
    }
  }

  lemma LooseKept(lines: seq<string>, i: nat, seen: set<string>)
    requires i < |lines| && DefinedKey(lines[i]).None?
    ensures Kept(lines[i..], seen, false) == [lines[i]] + Kept(lines[i + 1..], seen, false)
  {
    hide DefinedKey;
    assert lines[i..][1..] == lines[i + 1..];
  }

  class LocaleFile {
    var content: string

    /** The counts are those the caller compares to report the file as changed. */
    method Process(write: bool) returns (before: nat, after: nat)
      modifies this
      ensures content == if write then Deduped(old(content)) else old(content)
      ensures before == |SplitLines(old(content))| && after == |Kept(SplitLines(old(content)), {}, false)|
    {
      hide Kept, DefinedKey, IsBoundary;
      var original := content;
      var lines := SplitLines(original);
      var seen: set<string> := {};
      var out := [];
      var i := 0;
      assert lines[0..] == lines;
      while i < |lines|
        invariant content == original && i <= |lines|
        invariant out + Kept(lines[i..], seen, false) == Kept(lines, {}, false)
      {
        var m := DefinedKey(lines[i]);
        if m.Some? {
          var j := i + 1;
          while j < |lines| && !IsBoundary(lines[j])
            invariant content == original && i < j <= |lines| && NoBoundary(lines[i + 1..j])
          {
            assert lines[i + 1..j + 1] == lines[i + 1..j] + [lines[j]];
            j := j + 1;
          }
          HeadKept(lines, i, j, seen);
          if m.value !in seen {
            ghost var tail := Kept(lines[j..], seen + {m.value}, false);
            assert out + (lines[i..j] + tail) == (out + lines[i..j]) + tail;
            seen := seen + {m.value};
            out := out + lines[i..j];
          }
          i := j;
        } else {
          LooseKept(lines, i, seen);
          ghost var tail := Kept(lines[i + 1..], seen, false);
          assert out + ([lines[i]] + tail) == (out + [lines[i]]) + tail;
          out := out + [lines[i]];
          i := i + 1;
        }
      }
      NothingKept(seen);
      assert lines[i..] == [] && out == Kept(lines, {}, false);
      var newContent := JoinLines(out);
      assert newContent == Deduped(original);
      if write && newContent != original { content := newContent; }
      return |lines|, |out|;
    }
  }

  lemma NothingKept(seen: set<string>)
    ensures Kept([], seen, false) == []
  {
  }

  method JoinLines(lines: seq<string>) returns (text: string)
    ensures text == Concat(lines)
  {
    text := "";
    for i := 0 to |lines|
      invariant text + Concat(lines[i..]) == Concat(lines)
    {
      assert lines[i..][1..] == lines[i + 1..];
      text := text + lines[i];
    }
  }

  // ---------- What a file means ----------

  /** The keys defined, in order, with their repetitions. */
  function Keys(lines: seq<string>): seq<string> {
    if lines == [] then []
    else (match DefinedKey(lines[0]) case Some(k) => [k] case None => []) + Keys(lines[1..])
  }

  predicate Distinct(keys: seq<string>) {
    forall i, j :: 0 <= i < j < |keys| ==> keys[i] != keys[j]
  }

  /** The lines up to the next block. */
  function Body(lines: seq<string>): seq<string> {
    if lines == [] || IsBoundary(lines[0]) then [] else [lines[0]] + Body(lines[1..])
  }

  /** A key's first definition. */
  function FirstBlock(lines: seq<string>, k: string): seq<string> {
    if lines == [] then []
    else if DefinedKey(lines[0]) == Some(k) then [lines[0]] + Body(lines[1..])
    else FirstBlock(lines[1..], k)
  }

  /** The lines that belong to no message: comments and what follows them, and what opens the file. */
  function Loose(lines: seq<string>, inBlock: bool): seq<string> {
    if lines == [] then []
    else if DefinedKey(lines[0]).Some? then Loose(lines[1..], true)
    else if inBlock && !CommentLine(lines[0]) then Loose(lines[1..], true)
    else [lines[0]] + Loose(lines[1..], false)
  }

  predicate Apart(keys: seq<string>, seen: set<string>) {
    Distinct(keys) && forall k <- keys :: k !in seen
  }

  lemma ApartCons(k: string, keys: seq<string>, seen: set<string>)
    ensures Apart([k] + keys, seen) <==> k !in seen && Apart(keys, seen + {k})
  {
    var all := [k] + keys;
    if Apart(all, seen) {
      assert all[0] == k;
      forall i, j | 0 <= i < j < |keys| ensures keys[i] != keys[j] { assert all[i + 1] != all[j + 1]; }
      forall x | x in keys ensures x !in seen + {k} {
        var i :| 0 <= i < |keys| && keys[i] == x;
        assert all[i + 1] == x && all[0] != all[i + 1];
      }
    }
    if k !in seen && Apart(keys, seen + {k}) {
      forall i, j | 0 <= i < j < |all| ensures all[i] != all[j] {
        assert all[j] == keys[j - 1] && keys[j - 1] in keys;
      }
    }
  }

  lemma KeysCons(l: string, rest: seq<string>)
    ensures Keys([l] + rest) == (match DefinedKey(l) case Some(k) => [k] case None => []) + Keys(rest)
    ensures ([l] + rest)[1..] == rest && ([l] + rest)[0] == l
    ensures DefinedKey(l).None? ==> Keys([l] + rest) == Keys(rest)
  {
    assert ([l] + rest)[1..] == rest;
  }

  /** No key is defined twice afterwards, and none is lost. */
  lemma {:induction false} KeysKept(lines: seq<string>, seen: set<string>, dropping: bool)
    ensures Apart(Keys(Kept(lines, seen, dropping)), seen)
    ensures forall k :: k in Keys(Kept(lines, seen, dropping)) <==> k in Keys(lines) && k !in seen
  {
    hide DefinedKey, CommentLine, Apart;
    if lines == [] {
      EmptyApart(seen);
    } else {
      var l, rest := lines[0], lines[1..];
      assert lines == [l] + rest;
      KeysCons(l, rest);
      match DefinedKey(l)
      case Some(k) =>
        if k in seen {
          KeysKept(rest, seen, true);
        } else {
          KeysKept(rest, seen + {k}, false);
          KeysCons(l, Kept(rest, seen + {k}, false));
          ApartCons(k, Keys(Kept(rest, seen + {k}, false)), seen);
        }
      case None =>
        var d := dropping && !CommentLine(l);
        KeysKept(rest, seen, d);
        KeysCons(l, Kept(rest, seen, d));
    }
  }

  lemma EmptyApart(seen: set<string>)
    ensures Apart([], seen)
  {
  }

  lemma {:induction false} DroppedToBoundary(lines: seq<string>, seen: set<string>)
    ensures Body(Kept(lines, seen, true)) == []
  {
    hide DefinedKey, CommentLine;
    if lines != [] && DefinedKey(lines[0]).None? && !CommentLine(lines[0]) {
      DroppedToBoundary(lines[1..], seen);
    } else if lines != [] && DefinedKey(lines[0]).Some? && DefinedKey(lines[0]).value in seen {
      DroppedToBoundary(lines[1..], seen);
    }
  }

  lemma {:induction false} BodyKept(lines: seq<string>, seen: set<string>)
    ensures Body(Kept(lines, seen, false)) == Body(lines)
  {
    hide DefinedKey, CommentLine;
    if lines != [] {
      var l, rest := lines[0], lines[1..];
      KeysCons(l, Kept(rest, seen, false));
      if DefinedKey(l).Some? {
        DroppedToBoundary(rest, seen);
      } else {
        BodyKept(rest, seen);
      }
    }
  }

  /** The first definition of every key is unchanged. */
  lemma {:induction false} FirstWins(lines: seq<string>, seen: set<string>, dropping: bool, k: string)
    requires k !in seen
    ensures FirstBlock(Kept(lines, seen, dropping), k) == FirstBlock(lines, k)
  {
    hide DefinedKey, CommentLine;
    if lines != [] {
      var l, rest := lines[0], lines[1..];
      match DefinedKey(l)
      case Some(key) =>
        if key in seen {
          FirstWins(rest, seen, true, k);
        } else {
          var out := Kept(rest, seen + {key}, false);
          KeysCons(l, out);
          if key == k { BodyKept(rest, seen + {key}); } else { FirstWins(rest, seen + {key}, false, k); }
        }
      case None =>
        var d := dropping && !CommentLine(l);
        FirstWins(rest, seen, d, k);
        KeysCons(l, Kept(rest, seen, d));
    }
  }

  /** Everything outside the messages survives, in order. */
  lemma {:induction false} LooseSurvives(lines: seq<string>, seen: set<string>, dropping: bool, inBlock: bool)
    ensures Loose(Kept(lines, seen, dropping), inBlock) == Loose(lines, inBlock || dropping)
  {
    hide DefinedKey, CommentLine;
    if lines != [] {
      var l, rest := lines[0], lines[1..];
      match DefinedKey(l)
      case Some(key) =>
        if key in seen {
          LooseSurvives(rest, seen, true, inBlock);
        } else {
          LooseSurvives(rest, seen + {key}, false, true);
          KeysCons(l, Kept(rest, seen + {key}, false));
        }
      case None =>
        if dropping && !CommentLine(l) {
          LooseSurvives(rest, seen, true, inBlock);
        } else {
          var b := inBlock && !CommentLine(l);
          LooseSurvives(rest, seen, false, b);
          KeysCons(l, Kept(rest, seen, false));
        }
    }
  }

  /** Lines are only ever taken out: the rest keeps its order. */
  lemma {:induction false} KeptIsSubsequence(lines: seq<string>, seen: set<string>, dropping: bool)
    ensures Subsequence(Kept(lines, seen, dropping), lines)
  {
    hide DefinedKey, CommentLine, Subsequence;
    if lines == [] {
      NothingOut(lines);
    } else {
      var l, rest := lines[0], lines[1..];
      assert lines == [l] + rest;
      match DefinedKey(l)
      case Some(k) =>
        if k in seen {
          KeptIsSubsequence(rest, seen, true);
          SkipMore(Kept(rest, seen, true), [l], rest);
        } else {
          KeptIsSubsequence(rest, seen + {k}, false);
          SameHead(l, Kept(rest, seen + {k}, false), rest);
        }
      case None =>
        var d := dropping && !CommentLine(l);
        KeptIsSubsequence(rest, seen, d);
        if d { SkipMore(Kept(rest, seen, d), [l], rest); } else { SameHead(l, Kept(rest, seen, d), rest); }
    }
  }

  lemma NothingOut(b: seq<string>)
    ensures Subsequence([], b)
  {
  }

  /** None is taken out exactly when no key is repeated. */
  lemma {:induction false} UnchangedIff(lines: seq<string>, seen: set<string>)
    ensures |Kept(lines, seen, false)| == |lines| <==> Apart(Keys(lines), seen)
    ensures Kept(lines, seen, false) == lines <==> Apart(Keys(lines), seen)
  {
    hide DefinedKey, CommentLine, Apart;
    if lines == [] {
      EmptyApart(seen);
    } else {
      var l, rest := lines[0], lines[1..];
      assert lines == [l] + rest;
      KeysCons(l, rest);
      match DefinedKey(l)
      case Some(k) =>
        ApartCons(k, Keys(rest), seen);
        if k in seen {
          NeverLonger(rest, seen, true);
        } else {
          UnchangedIff(rest, seen + {k});
        }
      case None =>
        UnchangedIff(rest, seen);
    }
  }

  lemma {:induction false} NeverLonger(lines: seq<string>, seen: set<string>, dropping: bool)
    ensures |Kept(lines, seen, dropping)| <= |lines|
  {
    hide DefinedKey, CommentLine;
    if lines != [] {
      match DefinedKey(lines[0])
      case Some(k) =>
        if k in seen { NeverLonger(lines[1..], seen, true); } else { NeverLonger(lines[1..], seen + {k}, false); }
      case None =>
        NeverLonger(lines[1..], seen, dropping && !CommentLine(lines[0]));
    }
  }

  // ---------- Line by line ----------

  /** The `i`-th line belongs to the message that the `h`-th line begins. */
  ghost predicate Owns(lines: seq<string>, h: nat, i: nat) {
    h <= i < |lines| && DefinedKey(lines[h]).Some?
    && forall j :: h < j <= i ==> DefinedKey(lines[j]).None? && (lines[j] == "" || lines[j][0] != '#')
  }

  /** That message's key was defined before. */
  ghost predicate Repeated(lines: seq<string>, h: nat)
    requires h < |lines|
  {
    exists g :: 0 <= g < h && DefinedKey(lines[g]) == DefinedKey(lines[h])
  }

  ghost predicate Dropped(lines: seq<string>, i: nat) {
    exists h: nat :: Owns(lines, h, i) && Repeated(lines, h)
  }

  ghost function Remaining(lines: seq<string>, i: nat): seq<string>
    requires i <= |lines|
    decreases |lines| - i
  {
    if i == |lines| then [] else (if Dropped(lines, i) then [] else [lines[i]]) + Remaining(lines, i + 1)
  }

  ghost function KeysBefore(lines: seq<string>, i: nat): set<string>
    requires i <= |lines|
  {
    if i == 0 then {}
    else KeysBefore(lines, i - 1) + match DefinedKey(lines[i - 1]) case Some(k) => {k} case None => {}
  }

  lemma {:induction false} KeysBeforeAre(lines: seq<string>, i: nat, k: string)
    requires i <= |lines|
    ensures k in KeysBefore(lines, i) <==> exists g :: 0 <= g < i && DefinedKey(lines[g]) == Some(k)
  {
    if i > 0 { KeysBeforeAre(lines, i - 1, k); }
  }

  lemma DroppedAt(lines: seq<string>, i: nat)
    requires i < |lines|
    ensures DefinedKey(lines[i]).Some? ==> (Dropped(lines, i) <==> DefinedKey(lines[i]).value in KeysBefore(lines, i))
    ensures DefinedKey(lines[i]).None? && CommentLine(lines[i]) ==> !Dropped(lines, i)
    ensures DefinedKey(lines[i]).None? && !CommentLine(lines[i]) ==>
              (Dropped(lines, i) <==> i > 0 && Dropped(lines, i - 1))
  {
    hide DefinedKey;
    if DefinedKey(lines[i]).Some? {
      KeysBeforeAre(lines, i, DefinedKey(lines[i]).value);
      assert Owns(lines, i, i);
    } else if !CommentLine(lines[i]) {
      if h: nat :| Owns(lines, h, i) && Repeated(lines, h) {
        assert Owns(lines, h, i - 1);
      }
      if i > 0 && Dropped(lines, i - 1) {
        var h: nat :| Owns(lines, h, i - 1) && Repeated(lines, h);
        assert Owns(lines, h, i);
      }
    }
  }

  /** For every file, line by line: a line is taken out if and only if it belongs to a message whose key was defined
      before. */
  lemma {:induction false} KeptExactly(lines: seq<string>, i: nat)
    requires i <= |lines|
    ensures Kept(lines[i..], KeysBefore(lines, i), i > 0 && Dropped(lines, i - 1)) == Remaining(lines, i)
    decreases |lines| - i
  {
    hide DefinedKey, Dropped;
    if i < |lines| {
      KeptExactly(lines, i + 1);
      DroppedAt(lines, i);
      var rest, seen := lines[i..], KeysBefore(lines, i);
      assert rest[0] == lines[i] && rest[1..] == lines[i + 1..];
      assert KeysBefore(lines, i + 1) == seen + match DefinedKey(lines[i]) case Some(k) => {k} case None => {};
      match DefinedKey(lines[i])
      case Some(k) => if k in seen { assert seen + {k} == seen; }
      case None => assert seen + {} == seen;
    }
  }

  ghost predicate Owned(lines: seq<string>, i: nat) {
    exists h: nat :: Owns(lines, h, i)
  }

  ghost function Unowned(lines: seq<string>, i: nat): seq<string>
    requires i <= |lines|
    decreases |lines| - i
  {
    if i == |lines| then [] else (if Owned(lines, i) then [] else [lines[i]]) + Unowned(lines, i + 1)
  }

  lemma OwnedAt(lines: seq<string>, i: nat)
    requires i < |lines|
    ensures DefinedKey(lines[i]).Some? ==> Owned(lines, i)
    ensures DefinedKey(lines[i]).None? && CommentLine(lines[i]) ==> !Owned(lines, i)
    ensures DefinedKey(lines[i]).None? && !CommentLine(lines[i]) ==> (Owned(lines, i) <==> i > 0 && Owned(lines, i - 1))
  {
    hide DefinedKey;
    if DefinedKey(lines[i]).Some? {
      assert Owns(lines, i, i);
    } else if !CommentLine(lines[i]) {
      if h: nat :| Owns(lines, h, i) { assert Owns(lines, h, i - 1); }
      if i > 0 && Owned(lines, i - 1) {
        var h: nat :| Owns(lines, h, i - 1);
        assert Owns(lines, h, i);
      }
    }
  }

  /** The loose lines are those that belong to no message. */
  lemma {:induction false} LooseExactly(lines: seq<string>, i: nat)
    requires i <= |lines|
    ensures Loose(lines[i..], i > 0 && Owned(lines, i - 1)) == Unowned(lines, i)
    decreases |lines| - i
  {
    hide DefinedKey, Owned;
    if i < |lines| {
      LooseExactly(lines, i + 1);
      OwnedAt(lines, i);
      assert lines[i..][0] == lines[i] && lines[i..][1..] == lines[i + 1..];
    }
  }

  /** The first block of a key is the stretch of lines that its first definition owns. */
  lemma {:induction false} FirstBlockIs(lines: seq<string>, h: nat, j: nat, k: string)
    requires h < j <= |lines| && DefinedKey(lines[h]) == Some(k)
    requires forall g :: 0 <= g < h ==> DefinedKey(lines[g]) != Some(k)
    requires forall i :: h < i < j ==> DefinedKey(lines[i]).None? && (lines[i] == "" || lines[i][0] != '#')
    requires j < |lines| ==> DefinedKey(lines[j]).Some? || (lines[j] != "" && lines[j][0] == '#')
    ensures FirstBlock(lines, k) == lines[h..j]
    decreases h
  {
    hide DefinedKey;
    if h == 0 {
      BodyIs(lines, 1, j);
      assert lines[0..j] == [lines[0]] + lines[1..j];
    } else {
      FirstBlockIs(lines[1..], h - 1, j - 1, k);
      assert lines[1..][h - 1..j - 1] == lines[h..j];
    }
  }

  lemma {:induction false} BodyIs(lines: seq<string>, i: nat, j: nat)
    requires i <= j <= |lines|
    requires forall k :: i <= k < j ==> DefinedKey(lines[k]).None? && (lines[k] == "" || lines[k][0] != '#')
    requires j < |lines| ==> DefinedKey(lines[j]).Some? || (lines[j] != "" && lines[j][0] == '#')
    ensures Body(lines[i..]) == lines[i..j]
    decreases j - i
  {
    hide DefinedKey;
    if i < j {
      BodyIs(lines, i + 1, j);
      assert lines[i..][1..] == lines[i + 1..] && lines[i..j] == [lines[i]] + lines[i + 1..j];
    }
  }

  lemma KeptWhole(lines: seq<string>)
    ensures Kept(lines, {}, false) == Remaining(lines, 0)
  {
    KeptExactly(lines, 0);
    assert lines[0..] == lines;
  }

  /** As `splitlines` leaves them: lines that end in a break, but perhaps the last. */
  ghost predicate FileLines(lines: seq<string>) {
    && (forall l <- lines :: IsLine(l))
    && forall i :: 0 <= i < |lines| - 1 ==> Terminated(lines[i])
  }

  lemma FileLinesCons(l: string, out: seq<string>, rest: seq<string>)
    requires FileLines([l] + rest) && |out| <= |rest| && FileLines(out)
    ensures FileLines([l] + out)
  {
    var all := [l] + rest;
    assert all[0] == l && l in all;
    forall i | 0 <= i < |[l] + out| - 1 ensures Terminated(([l] + out)[i]) {
      if i > 0 { assert ([l] + out)[i] == out[i - 1]; } else { assert Terminated(all[0]); }
    }
  }

  lemma FileLinesRest(lines: seq<string>)
    requires lines != [] && FileLines(lines)
    ensures FileLines(lines[1..])
  {
    forall i | 0 <= i < |lines[1..]| - 1 ensures Terminated(lines[1..][i]) {
      assert lines[1..][i] == lines[i + 1];
    }
  }

  lemma {:induction false} LinesKept(lines: seq<string>, seen: set<string>, dropping: bool)
    requires FileLines(lines)
    ensures FileLines(Kept(lines, seen, dropping))
  {
    hide DefinedKey, CommentLine, FileLines;
    if lines != [] {
      var l, rest := lines[0], lines[1..];
      assert lines == [l] + rest;
      FileLinesRest(lines);
      match DefinedKey(l)
      case Some(k) =>
        if k in seen {
          LinesKept(rest, seen, true);
        } else {
          LinesKept(rest, seen + {k}, false);
          NeverLonger(rest, seen + {k}, false);
          FileLinesCons(l, Kept(rest, seen + {k}, false), rest);
        }
      case None =>
        if dropping && !CommentLine(l) {
          LinesKept(rest, seen, true);
        } else {
          LinesKept(rest, seen, false);
          NeverLonger(rest, seen, false);
          FileLinesCons(l, Kept(rest, seen, false), rest);
        }
    }
  }

  /** Files ending in `.id.ftl` are visited twice in a run: the second visit changes nothing and finds
      the same number of lines before and after. */
  lemma DedupedAgain(text: string)
    requires NoCR(text)
    ensures Deduped(Deduped(text)) == Deduped(text)
    ensures var lines := SplitLines(Deduped(text));
            |Kept(lines, {}, false)| == |lines| && Distinct(Keys(lines))
  {
    hide Kept, Distinct, Keys;
    var lines := SplitLines(text);
    var out := Kept(lines, {}, false);
    LinesOf(text);
    LinesKept(lines, {}, false);
    SplitConcat(out);
    KeysKept(lines, {}, false);
    UnchangedIff(out, {});
  }

  /** The file is rewritten exactly when some key is defined twice. */
  lemma RewrittenIff(text: string)
    requires NoCR(text)
    ensures Deduped(text) == text <==> Distinct(Keys(SplitLines(text)))
  {
    hide Kept, Distinct, Keys;
    var lines := SplitLines(text);
    var out := Kept(lines, {}, false);
    LinesOf(text);
    LinesKept(lines, {}, false);
    SplitConcat(out);
    UnchangedIff(lines, {});
  }
}
