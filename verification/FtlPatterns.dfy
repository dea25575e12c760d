/** The regular expressions of the Fluent tooling, as predicates on a line or on a position of it. */
module FtlPatterns {
  import opened Options
  import opened Text

  predicate IsLetter(c: char) {
    'a' <= c <= 'z' || 'A' <= c <= 'Z'
  }

  predicate NameStart(c: char) {
    IsLetter(c) || c == '_'
  }

  predicate NameChar(c: char) {
    NameStart(c) || '0' <= c <= '9' || c == '-'
  }

  // ---------- `key =` and `.attribute =` at the start of a line ----------

  /** `\s*=` */
  predicate EqualsAfter(s: string) {
    s != "" && (s[0] == '=' || (IsSpace(s[0]) && EqualsAfter(s[1..])))
  }

  /** `[A-Za-z0-9_-]*\s*=` */
  predicate NameTailEquals(s: string) {
    s != "" && (if NameChar(s[0]) then NameTailEquals(s[1..]) else EqualsAfter(s))
  }

  /** `[A-Za-z_][A-Za-z0-9_-]*\s*=` */
  predicate NameEquals(s: string) {
    s != "" && NameStart(s[0]) && NameTailEquals(s[1..])
  }

  function NamePrefix(s: string): string {
    if s != "" && NameChar(s[0]) then [s[0]] + NamePrefix(s[1..]) else ""
  }

  /** ATTR_RE: an attribute line, possibly indented. */
  predicate IsAttribute(s: string) {
    s != "" && (if IsSpace(s[0]) then IsAttribute(s[1..]) else s[0] == '.' && NameEquals(s[1..]))
  }

  /** KEY_RE: a message key at the very start of the line. */
  function KeyOf(s: string): Option<string> {
    if NameEquals(s) then Some(NamePrefix(s)) else None
  }

  // ---------- `{ $name }` and `{ $name ->` ----------

  /** The two ends a variable reference can have: the closing brace or the select arrow. */
  datatype End = Brace | Arrow

  predicate EndsHere(s: string, end: End) {
    match end
    case Brace => s != "" && s[0] == '}'
    case Arrow => At(s, 0, "->")
  }

  /** `\s*` and the end. */
  predicate AfterName(s: string, end: End) {
    EndsHere(s, end) || (s != "" && IsSpace(s[0]) && AfterName(s[1..], end))
  }

  /** `[A-Za-z0-9_-]*\s*` and the end; a name may give its last hyphen back to the arrow. */
  predicate InName(s: string, end: End) {
    AfterName(s, end) || (s != "" && NameChar(s[0]) && InName(s[1..], end))
  }

  /** `\$[A-Za-z_]...` */
  predicate Variable(s: string, end: End) {
    |s| > 1 && s[0] == '$' && NameStart(s[1]) && InName(s[2..], end)
  }

  /** `\s*\$[A-Za-z_]...` */
  predicate AfterBrace(s: string, end: End) {
    Variable(s, end) || (s != "" && IsSpace(s[0]) && AfterBrace(s[1..], end))
  }

  predicate Reference(s: string, end: End) {
    s != "" && s[0] == '{' && AfterBrace(s[1..], end)
  }

  /** `len(findall(..))`. A match holds no second `{`, so matches never overlap and every position at
      which one starts is found. */
  function Count(s: string, end: End): nat {
    if s == "" then 0 else (if Reference(s, end) then 1 else 0) + Count(s[1..], end)
  }

  // ---------- The part up to the first `=` decides ----------

  lemma {:induction false} EqualsAfterCut(p: string, x: string, y: string)
    requires '=' !in p
    ensures EqualsAfter(p + "=" + x) <==> EqualsAfter(p + "=" + y)
  {
    if p == "" {
      assert (p + "=" + x)[0] == '=' && (p + "=" + y)[0] == '=';
    } else {
      assert (p + "=" + x)[1..] == p[1..] + "=" + x && (p + "=" + y)[1..] == p[1..] + "=" + y;
      EqualsAfterCut(p[1..], x, y);
    }
  }

  lemma {:induction false} NameTailCut(p: string, x: string, y: string)
    requires '=' !in p
    ensures NameTailEquals(p + "=" + x) <==> NameTailEquals(p + "=" + y)
    ensures NamePrefix(p + "=" + x) == NamePrefix(p + "=" + y)
  {
    EqualsAfterCut(p, x, y);
    if p != "" {
      assert (p + "=" + x)[1..] == p[1..] + "=" + x && (p + "=" + y)[1..] == p[1..] + "=" + y;
      NameTailCut(p[1..], x, y);
    }
  }

  lemma NameCut(p: string, x: string, y: string)
    requires '=' !in p
    ensures NameEquals(p + "=" + x) <==> NameEquals(p + "=" + y)
    ensures KeyOf(p + "=" + x) == KeyOf(p + "=" + y)
  {
    NameTailCut(p, x, y);
    if p != "" {
      assert (p + "=" + x)[1..] == p[1..] + "=" + x && (p + "=" + y)[1..] == p[1..] + "=" + y;
      NameTailCut(p[1..], x, y);
    }
  }

  lemma {:induction false} AttributeCut(p: string, x: string, y: string)
    requires '=' !in p
    ensures IsAttribute(p + "=" + x) <==> IsAttribute(p + "=" + y)
  {
    if p != "" {
      assert (p + "=" + x)[1..] == p[1..] + "=" + x && (p + "=" + y)[1..] == p[1..] + "=" + y;
      NameCut(p[1..], x, y);
      AttributeCut(p[1..], x, y);
    }
  }

  /** Without `=` there is neither a key nor an attribute. */
  lemma {:induction false} NoEquals(s: string)
    requires '=' !in s
    ensures !EqualsAfter(s) && !NameTailEquals(s) && !NameEquals(s) && !IsAttribute(s)
  {
    if s != "" { NoEquals(s[1..]); }
  }

  /** Text appended behind a blank makes a key or an attribute of a line without `=` only by starting
      with `=`. */
  lemma {:induction false} AppendedNoEquals(s: string, t: string)
    requires '=' !in s && s != "" && !IsSpace(s[|s| - 1])
    requires t == "" || (t[0] != '=' && !IsSpace(t[0]))
    ensures !NameTailEquals(s + " " + t) && !EqualsAfter(s + " " + t)
    ensures !NameEquals(s + " " + t) && !IsAttribute(s + " " + t)
  {
    var l := s + " " + t;
    assert !EqualsAfter(t);
    assert l[1..] == s[1..] + " " + t;
    if |s| == 1 {
      assert l[1..] == " " + t;
      assert (" " + t)[1..] == t;
      assert !NameEquals(" " + t);
    } else {
      AppendedNoEquals(s[1..], t);
    }
  }

  // ---------- Counting references ----------

  /** A tail that cannot take part in a reference begun before it. */
  predicate Dead(t: string, end: End) {
    && t != "" && !NameStart(t[0]) && t[0] != '>'
    && !AfterBrace(t, end) && !InName(t, end)
  }

  lemma {:induction false} DeadTail(s: string, t: string, end: End)
    requires Dead(t, end)
    ensures EndsHere(s + t, end) <==> EndsHere(s, end)
    ensures AfterName(s + t, end) <==> AfterName(s, end)
    ensures InName(s + t, end) <==> InName(s, end)
    ensures AfterBrace(s + t, end) <==> AfterBrace(s, end)
  {
    if s == "" {
      assert s + t == t;
    } else {
      assert (s + t)[1..] == s[1..] + t;
      DeadTail(s[1..], t, end);
      if |s| == 1 {
        assert s[1..] + t == t;
        assert (s + t)[1] == t[0];
        DiffersAt(s, 0, "->", 1);
        DiffersAt(s + t, 0, "->", 1);
      } else {
        assert (s + t)[2..] == s[2..] + t && s[1..][1..] == s[2..] && (s + t)[0..2] == s[0..2];
        DeadTail(s[2..], t, end);
      }
    }
  }

  lemma {:induction false} CountDead(s: string, t: string, end: End)
    requires Dead(t, end)
    ensures Count(s + t, end) == Count(s, end) + Count(t, end)
  {
    if s == "" {
      assert s + t == t;
    } else {
      assert (s + t)[1..] == s[1..] + t;
      DeadTail(s[1..], t, end);
      CountDead(s[1..], t, end);
    }
  }

  lemma CountAtEquals(p: string, x: string, end: End)
    ensures Count(p + "=" + x, end) == Count(p, end) + Count(x, end)
  {
    var t := "=" + x;
    assert p + "=" + x == p + t;
    assert t[1..] == x;
    CountDead(p, t, end);
  }

  lemma {:induction false} CountLStrip(s: string, end: End)
    ensures Count(LStrip(s), end) == Count(s, end)
  {
    if s != "" && IsSpace(s[0]) { CountLStrip(s[1..], end); }
  }

  lemma {:induction false} BlankIsDead(t: string, end: End)
    requires IsBlank(t)
    ensures !AfterBrace(t, end) && !InName(t, end) && !AfterName(t, end) && Count(t, end) == 0
  {
    if t != "" {
      assert IsSpace(t[0]);
      BlankIsDead(t[1..], end);
    }
  }

  /** Trailing whitespace neither makes nor breaks a reference. */
  lemma CountBlankTail(s: string, t: string, end: End)
    requires IsBlank(t)
    ensures Count(s + t, end) == Count(s, end)
  {
    BlankIsDead(t, end);
    if t == "" {
      assert s + t == s;
    } else {
      assert IsSpace(t[0]);
      CountDead(s, t, end);
    }
  }

  // ---------- Sentinels ----------

  /** Some continuation turns `s`, read after a variable's name, into the end of a reference; the other
      three likewise for the earlier stages. */
  predicate GrowsAfterName(s: string, end: End) {
    s == "" || EndsHere(s, end) || (end.Arrow? && s == "-") || (IsSpace(s[0]) && GrowsAfterName(s[1..], end))
  }

  predicate GrowsInName(s: string, end: End) {
    GrowsAfterName(s, end) || (s != "" && NameChar(s[0]) && GrowsInName(s[1..], end))
  }

  predicate GrowsVariable(s: string, end: End) {
    s == "" || (s[0] == '$' && (|s| == 1 || (NameStart(s[1]) && GrowsInName(s[2..], end))))
  }

  predicate GrowsAfterBrace(s: string, end: End) {
    GrowsVariable(s, end) || (s != "" && IsSpace(s[0]) && GrowsAfterBrace(s[1..], end))
  }

  /** `s` holds a reference, or the beginning of one that it does not finish. */
  predicate CanGrow(s: string, end: End) {
    s != "" && ((s[0] == '{' && GrowsAfterBrace(s[1..], end)) || CanGrow(s[1..], end))
  }

  /** What may be inserted into any bundle without disturbing it: it opens no reference, closes none,
      and does not begin with `=`. */
  predicate SafeSentinel(s: string) {
    && !CanGrow(s, Brace) && !CanGrow(s, Arrow)
    && !AfterBrace(s, Brace) && !AfterBrace(s, Arrow)
    && !AfterName(s, Brace) && !AfterName(s, Arrow)
    && (LStrip(s) == "" || LStrip(s)[0] != '=')
  }

  lemma {:induction false} NoGrowth(s: string, x: string, end: End)
    ensures !GrowsAfterName(s, end) ==> !AfterName(s + x, end)
    ensures !GrowsInName(s, end) ==> !InName(s + x, end)
    ensures !GrowsAfterBrace(s, end) ==> !AfterBrace(s + x, end)
  {
    if s != "" {
      assert (s + x)[1..] == s[1..] + x;
      NoGrowth(s[1..], x, end);
      if |s| > 1 {
        assert (s + x)[0..2] == s[0..2] && (s + x)[2..] == s[2..] + x && s[1..][1..] == s[2..];
        NoGrowth(s[2..], x, end);
      } else {
        assert end.Arrow? && s != "-" ==> !At(s + x, 0, "->") by { if s[0] != '-' { NotAt(s + x, "->"); } }
      }
    }
  }

  lemma {:induction false} CountAfterSafe(s: string, x: string, end: End)
    requires !CanGrow(s, end)
    ensures Count(s + x, end) == Count(x, end)
  {
    if s == "" {
      assert s + x == x;
    } else {
      assert (s + x)[1..] == s[1..] + x;
      NoGrowth(s[1..], x, end);
      CountAfterSafe(s[1..], x, end);
    }
  }

  /** The continuations that finish a reference. */
  function Finish(end: End): string {
    if end.Brace? then "}" else "->"
  }

  ghost predicate Harmless(x: string) {
    '{' !in x && '=' !in x && (x == "" || !IsSpace(x[0])) && NoBreak(x)
  }

  lemma {:induction false} GrowAfterName(s: string, end: End) returns (x: string)
    requires GrowsAfterName(s, end)
    ensures AfterName(s + x, end) && Harmless(x)
  {
    if s == "" {
      x := Finish(end);
      assert s + x == x;
    } else if EndsHere(s, end) {
      x := "";
      assert s + x == s;
    } else if end.Arrow? && s == "-" {
      x := ">";
      assert s + x == "->";
    } else {
      x := GrowAfterName(s[1..], end);
      assert (s + x)[1..] == s[1..] + x;
    }
  }

  lemma {:induction false} GrowInName(s: string, end: End) returns (x: string)
    requires GrowsInName(s, end)
    ensures InName(s + x, end) && Harmless(x)
  {
    if GrowsAfterName(s, end) {
      x := GrowAfterName(s, end);
    } else {
      x := GrowInName(s[1..], end);
      assert (s + x)[1..] == s[1..] + x;
    }
  }

  lemma Finished(end: End)
    ensures InName(Finish(end), end)
  {
  }

  lemma {:induction false} GrowAfterBrace(s: string, end: End) returns (x: string)
    requires GrowsAfterBrace(s, end)
    ensures AfterBrace(s + x, end) && Harmless(x)
  {
    hide InName, GrowsInName;
    if s == "" {
      x := "$a" + Finish(end);
      assert s + x == x && x[2..] == Finish(end);
      Finished(end);
    } else if s == "$" {
      x := "a" + Finish(end);
      assert (s + x)[2..] == Finish(end);
      Finished(end);
    } else if GrowsVariable(s, end) {
      x := GrowInName(s[2..], end);
      assert (s + x)[2..] == s[2..] + x;
    } else {
      x := GrowAfterBrace(s[1..], end);
      assert (s + x)[1..] == s[1..] + x;
    }
  }

  /** A sentinel that can grow does: some harmless value behind it becomes a reference. */
  lemma {:induction false} Grow(s: string, end: End) returns (x: string)
    requires CanGrow(s, end)
    ensures Count(s + x, end) > 0 && Harmless(x) && '{' in s
  {
    if s[0] == '{' && GrowsAfterBrace(s[1..], end) {
      x := GrowAfterBrace(s[1..], end);
    } else {
      x := Grow(s[1..], end);
    }
    assert (s + x)[1..] == s[1..] + x;
  }

  const DEFAULT_SENTINEL := "[TODO] "

  /** The sentinel the script uses when none is given. */
  lemma DefaultIsSafe()
    ensures SafeSentinel(DEFAULT_SENTINEL) && NoBreak(DEFAULT_SENTINEL)
  {
    var s := DEFAULT_SENTINEL;
    assert s[0] == '[' && |s| == 7;
    NoneGrows(s, Brace);
    NoneGrows(s, Arrow);
    DiffersAt(s, 0, "->", 0);
  }

  lemma {:induction false} NoneGrows(s: string, end: End)
    requires '{' !in s
    ensures !CanGrow(s, end)
  {
    if s != "" { NoneGrows(s[1..], end); }
  }
}
