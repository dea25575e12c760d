/** The patterns of the Fluent tooling, read back as text: which lines they match, letter by letter. */
module FtlShapes {
  import opened Options
  import opened Text
  import opened FtlPatterns

  // ---------- Names ----------

  /** A letter or underscore, and then letters, digits, underscores and hyphens. */
  predicate IsName(n: string) {
    && n != "" && ('a' <= n[0] <= 'z' || 'A' <= n[0] <= 'Z' || n[0] == '_')
    && forall i :: 1 <= i < |n| ==>
                     'a' <= n[i] <= 'z' || 'A' <= n[i] <= 'Z' || '0' <= n[i] <= '9' || n[i] == '_' || n[i] == '-'
  }

  /** What may stand in a name behind its first character. */
  predicate InnerName(n: string) {
    forall i :: 0 <= i < |n| ==>
                  'a' <= n[i] <= 'z' || 'A' <= n[i] <= 'Z' || '0' <= n[i] <= '9' || n[i] == '_' || n[i] == '-'
  }

  lemma NameParts(n: string)
    requires IsName(n)
    ensures n != "" && NameStart(n[0]) && InnerName(n[1..]) && n == [n[0]] + n[1..]
  {
  }

  lemma NameOf(c: char, n: string)
    requires NameStart(c) && InnerName(n)
    ensures IsName([c] + n)
  {
  }

  lemma BlankEnds(ws: string, c: char)
    requires ws == "" || IsBlank(ws)
    requires !IsSpace(c) && !NameChar(c)
    ensures (ws + [c])[0] == (if ws == "" then c else ws[0]) && !NameChar((ws + [c])[0])
  {
    SpaceIsNoName((ws + [c])[0]);
  }

  lemma SpaceIsNoName(c: char)
    ensures IsSpace(c) ==> !NameChar(c) && c !in "=.${}-#"
  {
  }

  // ---------- Keys ----------

  lemma {:induction false} EqualsIs(ws: string, x: string)
    requires IsBlank(ws)
    ensures EqualsAfter(ws + "=" + x)
  {
    var s := ws + "=" + x;
    if ws != "" {
      assert IsSpace(ws[0]) && s[1..] == ws[1..] + "=" + x;
      EqualsIs(ws[1..], x);
    } else {
      assert s[0] == '=';
    }
  }

  lemma {:induction false} EqualsShape(s: string) returns (ws: string, x: string)
    requires EqualsAfter(s)
    ensures IsBlank(ws) && s == ws + "=" + x
  {
    if s[0] == '=' {
      ws, x := "", s[1..];
    } else {
      ws, x := EqualsShape(s[1..]);
      ws := [s[0]] + ws;
    }
  }

  lemma {:induction false} TailIs(n: string, ws: string, x: string)
    requires InnerName(n) && IsBlank(ws)
    ensures NameTailEquals(n + ws + "=" + x) && NamePrefix(n + ws + "=" + x) == n
  {
    var s := n + ws + "=" + x;
    if n == "" {
      assert s == ws + "=" + x;
      EqualsIs(ws, x);
      assert ws != "" ==> IsSpace(ws[0]);
      SpaceIsNoName(s[0]);
    } else {
      assert s[1..] == n[1..] + ws + "=" + x && NameChar(s[0]);
      TailIs(n[1..], ws, x);
    }
  }

  lemma {:induction false} TailShape(s: string) returns (n: string, ws: string, x: string)
    requires NameTailEquals(s)
    ensures InnerName(n) && IsBlank(ws) && s == n + ws + "=" + x && NamePrefix(s) == n
  {
    if NameChar(s[0]) {
      n, ws, x := TailShape(s[1..]);
      n := [s[0]] + n;
    } else {
      n := "";
      ws, x := EqualsShape(s);
    }
  }

  /** A line that begins with a name, blanks and `=` has that name for its key. */
  lemma KeyIs(name: string, ws: string, x: string)
    requires IsName(name) && IsBlank(ws)
    ensures KeyOf(name + ws + "=" + x) == Some(name)
  {
    var s := name + ws + "=" + x;
    NameParts(name);
    assert s[1..] == name[1..] + ws + "=" + x && s[0] == name[0];
    TailIs(name[1..], ws, x);
  }

  /** And no other line has a key. */
  lemma KeyShape(l: string) returns (ws: string, x: string)
    requires KeyOf(l).Some?
    ensures IsName(KeyOf(l).value) && IsBlank(ws) && l == KeyOf(l).value + ws + "=" + x
  {
    var n;
    n, ws, x := TailShape(l[1..]);
    NameOf(l[0], n);
    assert NameChar(l[0]) && NamePrefix(l) == [l[0]] + n;
  }

  // ---------- Attributes ----------

  /** An attribute line is blanks, a dot, a name, blanks and `=`. */
  lemma {:induction false} AttributeIs(before: string, name: string, ws: string, x: string)
    requires IsBlank(before) && IsName(name) && IsBlank(ws)
    ensures IsAttribute(before + "." + name + ws + "=" + x)
  {
    var s := before + "." + name + ws + "=" + x;
    if before == "" {
      assert s[0] == '.' && s[1..] == name + ws + "=" + x;
      KeyIs(name, ws, x);
      SpaceIsNoName('.');
    } else {
      assert IsSpace(before[0]) && s[1..] == before[1..] + "." + name + ws + "=" + x;
      AttributeIs(before[1..], name, ws, x);
    }
  }

  lemma {:induction false} AttributeShape(l: string) returns (before: string, name: string, ws: string, x: string)
    requires IsAttribute(l)
    ensures IsBlank(before) && IsName(name) && IsBlank(ws) && l == before + "." + name + ws + "=" + x
  {
    if IsSpace(l[0]) {
      before, name, ws, x := AttributeShape(l[1..]);
      assert l == [l[0]] + before + "." + name + ws + "=" + x;
      before := [l[0]] + before;
    } else {
      before, name := "", KeyOf(l[1..]).value;
      ws, x := KeyShape(l[1..]);
      assert l == "." + l[1..];
    }
  }

  // ---------- References ----------

  /** The two ends a reference can have, as they are written. */
  function Closing(end: End): string {
    match end
    case Brace => "}"
    case Arrow => "->"
  }

  lemma EndIs(end: End, x: string)
    ensures EndsHere(Closing(end) + x, end)
  {
  }

  lemma EndShape(s: string, end: End) returns (x: string)
    requires EndsHere(s, end)
    ensures s == Closing(end) + x
  {
    x := s[|Closing(end)|..];
    if end.Arrow? { assert s[0..2] == "->" && s == s[0..2] + s[2..]; }
  }

  lemma {:induction false} AfterNameIs(ws: string, end: End, x: string)
    requires IsBlank(ws)
    ensures AfterName(ws + Closing(end) + x, end)
  {
    var s := ws + Closing(end) + x;
    if ws == "" {
      assert s == Closing(end) + x;
      EndIs(end, x);
    } else {
      assert IsSpace(ws[0]) && s[1..] == ws[1..] + Closing(end) + x;
      AfterNameIs(ws[1..], end, x);
    }
  }

  lemma {:induction false} AfterNameShape(s: string, end: End) returns (ws: string, x: string)
    requires AfterName(s, end)
    ensures IsBlank(ws) && s == ws + Closing(end) + x
  {
    if EndsHere(s, end) {
      ws := "";
      x := EndShape(s, end);
    } else {
      ws, x := AfterNameShape(s[1..], end);
      assert s == [s[0]] + ws + Closing(end) + x;
      ws := [s[0]] + ws;
    }
  }

  lemma {:induction false} InNameIs(n: string, ws: string, end: End, x: string)
    requires InnerName(n) && IsBlank(ws)
    ensures InName(n + ws + Closing(end) + x, end)
  {
    var s := n + ws + Closing(end) + x;
    if n == "" {
      assert s == ws + Closing(end) + x;
      AfterNameIs(ws, end, x);
    } else {
      assert NameChar(s[0]) && s[1..] == n[1..] + ws + Closing(end) + x;
      InNameIs(n[1..], ws, end, x);
    }
  }

  lemma {:induction false} InNameShape(s: string, end: End) returns (n: string, ws: string, x: string)
    requires InName(s, end)
    ensures InnerName(n) && IsBlank(ws) && s == n + ws + Closing(end) + x
  {
    if AfterName(s, end) {
      n := "";
      ws, x := AfterNameShape(s, end);
    } else {
      n, ws, x := InNameShape(s[1..], end);
      assert s == [s[0]] + n + ws + Closing(end) + x;
      n := [s[0]] + n;
    }
  }

  lemma VariableIs(name: string, ws: string, end: End, x: string)
    requires IsName(name) && IsBlank(ws)
    ensures Variable("$" + name + ws + Closing(end) + x, end)
  {
    var s := "$" + name + ws + Closing(end) + x;
    NameParts(name);
    assert s[0] == '$' && s[1] == name[0] && s[2..] == name[1..] + ws + Closing(end) + x;
    InNameIs(name[1..], ws, end, x);
  }

  lemma {:induction false} AfterBraceIs(before: string, name: string, ws: string, end: End, x: string)
    requires IsBlank(before) && IsName(name) && IsBlank(ws)
    ensures AfterBrace(before + "$" + name + ws + Closing(end) + x, end)
  {
    var s := before + "$" + name + ws + Closing(end) + x;
    if before == "" {
      assert s == "$" + name + ws + Closing(end) + x;
      VariableIs(name, ws, end, x);
    } else {
      assert IsSpace(before[0]) && s[1..] == before[1..] + "$" + name + ws + Closing(end) + x;
      AfterBraceIs(before[1..], name, ws, end, x);
    }
  }

  lemma VariableShape(s: string, end: End) returns (name: string, ws: string, x: string)
    requires Variable(s, end)
    ensures IsName(name) && IsBlank(ws) && s == "$" + name + ws + Closing(end) + x
  {
    hide InName, IsName, Closing;
    var n;
    n, ws, x := InNameShape(s[2..], end);
    NameOf(s[1], n);
    name := [s[1]] + n;
    assert s == "$" + [s[1]] + s[2..];
  }

  lemma {:induction false} AfterBraceShape(s: string, end: End)
    returns (before: string, name: string, ws: string, x: string)
    requires AfterBrace(s, end)
    ensures IsBlank(before) && IsName(name) && IsBlank(ws) && s == before + "$" + name + ws + Closing(end) + x
  {
    hide Variable, IsName, Closing, IsSpace;
    if Variable(s, end) {
      before := "";
      name, ws, x := VariableShape(s, end);
    } else {
      before, name, ws, x := AfterBraceShape(s[1..], end);
      assert s == [s[0]] + before + "$" + name + ws + Closing(end) + x;
      before := [s[0]] + before;
    }
  }

  /** A reference is a brace, blanks, `$`, a name, blanks and a closing brace, or an arrow for a select. */
  lemma ReferenceIs(before: string, name: string, ws: string, end: End, x: string)
    requires IsBlank(before) && IsName(name) && IsBlank(ws)
    ensures Reference("{" + before + "$" + name + ws + (if end.Brace? then "}" else "->") + x, end)
  {
    var s := "{" + before + "$" + name + ws + Closing(end) + x;
    assert s[0] == '{' && s[1..] == before + "$" + name + ws + Closing(end) + x;
    AfterBraceIs(before, name, ws, end, x);
  }

  lemma ReferenceShape(s: string, end: End) returns (before: string, name: string, ws: string, x: string)
    requires Reference(s, end)
    ensures IsBlank(before) && IsName(name) && IsBlank(ws)
    ensures s == "{" + before + "$" + name + ws + (if end.Brace? then "}" else "->") + x
  {
    before, name, ws, x := AfterBraceShape(s[1..], end);
    assert s == "{" + s[1..];
  }

  /** The count is the number of places at which a reference begins. */
  lemma {:induction false} CountIs(s: string, end: End)
    ensures Count(s, end) == |set i | 0 <= i < |s| && Reference(s[i..], end)|
  {
    hide Reference;
    var here := set i | 0 <= i < |s| && Reference(s[i..], end);
    if s == "" {
      assert here == {};
    } else {
      CountIs(s[1..], end);
      var rest := set i | 0 <= i < |s[1..]| && Reference(s[1..][i..], end);
      var moved := set i | i in rest :: i + 1;
      forall i ensures i in moved <==> i - 1 in rest { if i - 1 in rest { assert (i - 1) + 1 in moved; } }
      SameSize(rest, moved);
      forall i ensures i in here <==> (i == 0 && Reference(s, end)) || i in moved {
        if i > 0 && i < |s| { assert s[1..][i - 1..] == s[i..]; }
        assert s[0..] == s;
      }
      assert here == (if Reference(s, end) then {0} else {}) + moved;
    }
  }

  lemma {:induction false} SameSize(a: set<int>, b: set<int>)
    requires forall i :: i in b <==> i - 1 in a
    ensures |b| == |a|
    decreases |a|
  {
    if |a| == 0 {
      forall i ensures i !in b { assert i - 1 !in a; }
    } else {
      var x := Member(a);
      assert x + 1 in b;
      SameSize(a - {x}, b - {x + 1});
    }
  }

  lemma Member<T>(a: set<T>) returns (x: T)
    requires |a| > 0
    ensures x in a
  {
    x :| x in a;
  }
}
