/** Writing the scaffold from the parsed blocks: what a printed line still says. */
module FtlGenerator {
  import opened Options
  import opened Text
  import opened FtlPatterns
  import opened FtlScaffold

  // ---------- One line ----------

  /** Where the first `=` stands, or the length of the line. */
  function FindEquals(line: string): (i: nat)
    ensures i <= |line| && '=' !in line[..i] && (i < |line| ==> line[i] == '=')
  {
    if line == "" || line[0] == '=' then 0
    else
      var i := 1 + FindEquals(line[1..]);
      assert line[..i] == [line[0]] + line[1..][..i - 1];
      i
  }

  function ScaffoldValueLine(line: string, sentinel: string): string {
    var eq := FindEquals(line);
    if eq == |line| then RStrip(line) + " " + sentinel
    else
      var prefix, rest := RStrip(line[..eq + 1]), LStrip(line[eq + 1..]);
      if At(rest, 0, RStrip(sentinel)) then line else prefix + " " + sentinel + rest
  }

  function Segment(line: string, sentinel: string): string {
    (if IsComment(line) then line else ScaffoldValueLine(line, sentinel)) + "\n"
  }

  // ---------- Facts about kinds ----------

  lemma {:induction false} ChompSplit(raw: string) returns (tail: string)
    ensures raw == Chomp(raw) + tail && IsBlank(tail)
  {
    if raw != "" && raw[|raw| - 1] == '\n' {
      var t := ChompSplit(raw[..|raw| - 1]);
      tail := t + "\n";
    } else {
      tail := "";
    }
  }

  lemma {:induction false} CommentHead(u: string, t: string)
    requires !IsBlank(u)
    ensures IsComment(u + t) <==> IsComment(u)
  {
    assert (u + t)[1..] == u[1..] + t;
    if IsSpace(u[0]) {
      assert u == [u[0]] + u[1..];
      BlankConcat([u[0]], u[1..]);
      CommentHead(u[1..], t);
    }
  }

  lemma {:induction false} CommentVisible(s: string)
    requires IsComment(s)
    ensures !IsBlank(s)
  {
    if IsSpace(s[0]) {
      CommentVisible(s[1..]);
      var i :| 0 <= i < |s[1..]| && !IsSpace(s[1..][i]);
      assert s[i + 1] == s[1..][i];
    }
  }

  /** The kind of a raw line does not depend on its terminator: it can be read off the line itself. */
  lemma KindWithoutChomp(raw: string)
    ensures KindOf(raw) ==
            if IsBlank(raw) then Blank
            else if IsComment(raw) then Comment
            else if IsAttribute(raw) then Attribute
            else if KeyOf(raw).Some? then Key(KeyOf(raw).value)
            else Other
  {
    var line := Chomp(raw);
    var tail := ChompSplit(raw);
    assert IsBlank(raw) <==> IsBlank(line) by {
      if IsBlank(raw) { assert forall i :: 0 <= i < |line| ==> line[i] == raw[i]; }
    }
    if !IsBlank(line) {
      CommentHead(line, tail);
      EqualsOnlyInLine(line, tail);
    }
  }

  lemma EqualsOnlyInLine(line: string, tail: string)
    requires IsBlank(tail)
    ensures IsAttribute(line + tail) <==> IsAttribute(line)
    ensures KeyOf(line + tail) == KeyOf(line)
  {
    var i := FindEquals(line);
    if i < |line| {
      var p, x := line[..i], line[i + 1..];
      assert line == p + "=" + x && line + tail == p + "=" + (x + tail);
      AttributeCut(p, x, x + tail);
      NameCut(p, x, x + tail);
    } else {
      assert '=' !in line;
      BlankHolds(tail, '=');
      NoEquals(line);
      NoEquals(line + tail);
    }
  }

  lemma {:induction false} AttributeLStrip(s: string)
    ensures IsAttribute(LStrip(s)) <==> IsAttribute(s)
  {
    if s != "" && IsSpace(s[0]) { AttributeLStrip(s[1..]); }
  }

  ghost predicate SameMeaning(a: string, b: string) {
    KindOf(a) == KindOf(b) && TallyOf(a) == TallyOf(b)
  }

  /** A line break behind a visible line changes nothing it says. */
  lemma BreakAfter(l: string, tail: string)
    requires !IsBlank(l) && IsBlank(tail)
    ensures SameMeaning(l + tail, l)
  {
    KindWithoutChomp(l);
    KindWithoutChomp(l + tail);
    CommentHead(l, tail);
    EqualsOnlyInLine(l, tail);
    var i :| 0 <= i < |l| && !IsSpace(l[i]);
    assert (l + tail)[i] == l[i];
    CountBlankTail(l, tail, Brace);
    CountBlankTail(l, tail, Arrow);
    AttributeLStrip(l);
    AttributeLStrip(l + tail);
  }

  /** Two lines agreeing up to their first `=`, with equal counts behind it, say the same. */
  lemma SameUpToEquals(p: string, x: string, y: string)
    requires '=' !in p
    requires Count(x, Brace) == Count(y, Brace) && Count(x, Arrow) == Count(y, Arrow)
    ensures SameMeaning(p + "=" + x, p + "=" + y)
  {
    var a, b := p + "=" + x, p + "=" + y;
    KindWithoutChomp(a);
    KindWithoutChomp(b);
    assert a[|p|] == '=' && b[|p|] == '=';
    assert (p + "=")[|p|] == '=';
    CommentHead(p + "=", x);
    CommentHead(p + "=", y);
    AttributeCut(p, x, y);
    NameCut(p, x, y);
    AttributeLStrip(a);
    AttributeLStrip(b);
    CountAtEquals(p, x, Brace);
    CountAtEquals(p, y, Brace);
    CountAtEquals(p, x, Arrow);
    CountAtEquals(p, y, Arrow);
  }

  lemma CountBlankHead(s: string, end: End)
    ensures Count(" " + s, end) == Count(s, end)
  {
    assert (" " + s)[1..] == s;
  }

  // ---------- The inserted sentinel says nothing ----------

  lemma SafeFor(sentinel: string, end: End)
    requires SafeSentinel(sentinel)
    ensures !CanGrow(sentinel, end) && !AfterBrace(sentinel, end) && !AfterName(sentinel, end)
  {
    assert end == Brace || end == Arrow;
  }

  lemma InsertAtEquals(line: string, sentinel: string)
    requires !CanGrow(sentinel, Brace) && !CanGrow(sentinel, Arrow) && '=' in line
    ensures SameMeaning(ScaffoldValueLine(line, sentinel), line)
  {
    hide *;
    var i := FindEquals(line);
    var p, x := line[..i], line[i + 1..];
    assert line == p + "=" + x;
    if At(LStrip(x), 0, RStrip(sentinel)) {
      Untouched(p, sentinel, x);
      SameAsItself(line);
    } else {
      Inserted(p, sentinel, x);
      var y := " " + (sentinel + LStrip(x));
      Assoc(" ", sentinel, LStrip(x));
      Assoc(p + "=", " " + sentinel, LStrip(x));
      Assoc(p + "=", " ", sentinel);
      CountInserted(sentinel, x, Brace);
      CountInserted(sentinel, x, Arrow);
      SameUpToEquals(p, y, x);
    }
  }

  lemma SameAsItself(line: string)
    ensures SameMeaning(line, line)
  {
  }

  lemma CountInserted(sentinel: string, x: string, end: End)
    requires !CanGrow(sentinel, end)
    ensures Count(" " + (sentinel + LStrip(x)), end) == Count(x, end)
  {
    hide *;
    CountBlankHead(sentinel + LStrip(x), end);
    CountAfterSafe(sentinel, LStrip(x), end);
    CountLStrip(x, end);
  }

  lemma {:induction false} LStripFirst(s: string)
    ensures LStrip(s) == "" || !IsSpace(LStrip(s)[0])
    ensures LStrip(LStrip(s)) == LStrip(s)
  {
    if s != "" && IsSpace(s[0]) { LStripFirst(s[1..]); }
  }

  lemma {:induction false} SpacesBeforeName(s: string, end: End)
    ensures AfterName(LStrip(s), end) <==> AfterName(s, end)
    ensures AfterBrace(LStrip(s), end) <==> AfterBrace(s, end)
  {
    if s != "" && IsSpace(s[0]) {
      assert !At(s, 0, "->") by { NotAt(s, "->"); }
      SpacesBeforeName(s[1..], end);
    }
  }

  lemma AppendedCount(r: string, sentinel: string, end: End)
    requires !CanGrow(sentinel, end) && !AfterBrace(sentinel, end) && !AfterName(sentinel, end)
    ensures Count(r + " " + sentinel, end) == Count(r, end)
  {
    var t := " " + sentinel;
    assert t[1..] == sentinel && r + t == r + " " + sentinel;
    NotAt(t, "->");
    assert !AfterName(t, end) && !InName(t, end) && !AfterBrace(t, end);
    CountDead(r, t, end);
    CountBlankHead(sentinel, end);
    assert sentinel + "" == sentinel;
    CountAfterSafe(sentinel, "", end);
  }

  lemma VisibleRStrip(line: string)
    requires !IsBlank(line)
    ensures RStrip(line) != "" && !IsBlank(RStrip(line)) && !IsSpace(RStrip(line)[|RStrip(line)| - 1])
  {
    var k := RStripSplit(line);
    assert line == line[..k] + line[k..];
    BlankConcat(line[..k], line[k..]);
  }

  /** Where LStrip is only skipped over, a key or attribute needs `=` first. */
  lemma AppendAnywhere(r: string, sentinel: string)
    requires '=' !in r && r != "" && !IsSpace(r[|r| - 1])
    requires LStrip(sentinel) == "" || LStrip(sentinel)[0] != '='
    ensures !IsAttribute(r + " " + sentinel) && KeyOf(r + " " + sentinel) == None
  {
    SkipSpaces(r, sentinel);
    LStripFirst(sentinel);
    AppendedNoEquals(r, LStrip(sentinel));
  }

  lemma {:induction false} EqualsSkips(s: string)
    ensures EqualsAfter(LStrip(s)) <==> EqualsAfter(s)
  {
    if s != "" && IsSpace(s[0]) { EqualsSkips(s[1..]); }
  }

  lemma {:induction false} SkipSpaces(r: string, s: string)
    requires '=' !in r && r != "" && !IsSpace(r[|r| - 1])
    ensures NameTailEquals(r + " " + s) <==> NameTailEquals(r + " " + LStrip(s))
    ensures EqualsAfter(r + " " + s) <==> EqualsAfter(r + " " + LStrip(s))
    ensures NameEquals(r + " " + s) <==> NameEquals(r + " " + LStrip(s))
    ensures IsAttribute(r + " " + s) <==> IsAttribute(r + " " + LStrip(s))
  {
    var a, b := r + " " + s, r + " " + LStrip(s);
    assert a[1..] == r[1..] + " " + s && b[1..] == r[1..] + " " + LStrip(s);
    if |r| == 1 {
      assert a[1..] == " " + s && b[1..] == " " + LStrip(s);
      assert (" " + s)[1..] == s && (" " + LStrip(s))[1..] == LStrip(s);
      EqualsSkips(s);
    } else {
      SkipSpaces(r[1..], s);
    }
  }

  lemma AppendWithoutEquals(line: string, sentinel: string)
    requires SafeSentinel(sentinel) && '=' !in line && !IsBlank(line) && !IsComment(line)
    ensures SameMeaning(ScaffoldValueLine(line, sentinel), line)
  {
    hide CanGrow, AfterBrace, AfterName, Count, KindOf, IsComment, IsAttribute, KeyOf;
    var r := RStrip(line);
    var k := RStripSplit(line);
    VisibleRStrip(line);
    assert line == r + line[k..];
    var v := r + " " + sentinel;
    assert line[..FindEquals(line)] == line;
    assert ScaffoldValueLine(line, sentinel) == v;
    AppendAnywhere(r, sentinel);
    NoEqualsKind(line);
    assert v == r + (" " + sentinel);
    CommentHead(r, line[k..]);
    CommentHead(r, " " + sentinel);
    BlankConcat(r, " " + sentinel);
    KindWithoutChomp(v);
    KindWithoutChomp(line);
    AttributeLStrip(v);
    AttributeLStrip(line);
    forall end: End ensures Count(v, end) == Count(line, end) {
      SafeFor(sentinel, end);
      AppendedCount(r, sentinel, end);
      CountBlankTail(r, line[k..], end);
    }
  }

  lemma NoEqualsKind(line: string)
    requires '=' !in line
    ensures !IsAttribute(line) && KeyOf(line) == None
  {
    NoEquals(line);
  }

  /** A scaffolded line says what the source line said. */
  lemma ValueLineMeaning(line: string, sentinel: string)
    requires SafeSentinel(sentinel) && !IsBlank(line) && !IsComment(line)
    ensures SameMeaning(ScaffoldValueLine(line, sentinel), line)
  {
    if '=' in line {
      InsertAtEquals(line, sentinel);
    } else {
      AppendWithoutEquals(line, sentinel);
    }
  }

  // ---------- Doing it again ----------

  lemma {:induction false} KeepsFirst(s: string, t: string)
    requires !IsBlank(t)
    ensures |RStrip(s + t)| > |s|
    decreases |t|
  {
    var u := s + t;
    if IsSpace(t[|t| - 1]) {
      assert u[..|u| - 1] == s + t[..|t| - 1];
      assert t == t[..|t| - 1] + [t[|t| - 1]];
      BlankConcat(t[..|t| - 1], [t[|t| - 1]]);
      KeepsFirst(s, t[..|t| - 1]);
    }
  }

  lemma {:induction false} KeepsLast(s: string, t: string)
    requires !IsBlank(s)
    ensures |LStrip(s + t)| > |t|
  {
    if IsSpace(s[0]) {
      assert (s + t)[1..] == s[1..] + t;
      assert s == [s[0]] + s[1..];
      BlankConcat([s[0]], s[1..]);
      KeepsLast(s[1..], t);
    }
  }

  lemma {:induction false} BlankStrips(r: string, t: string)
    requires IsBlank(t) && (r == "" || !IsSpace(r[|r| - 1]))
    ensures RStrip(r + t) == r
    decreases |t|
  {
    if t == "" {
      assert r + t == r;
    } else {
      assert (r + t)[..|r + t| - 1] == r + t[..|t| - 1];
      BlankStrips(r, t[..|t| - 1]);
    }
  }

  lemma {:induction false} FirstEquals(p: string, x: string)
    requires '=' !in p
    ensures FindEquals(p + "=" + x) == |p|
  {
    if p != "" {
      assert (p + "=" + x)[1..] == p[1..] + "=" + x;
      FirstEquals(p[1..], x);
    }
  }

  lemma StripStarts(sentinel: string, rest: string)
    requires sentinel != "" && !IsSpace(sentinel[0])
    ensures LStrip(" " + sentinel + rest) == sentinel + rest && At(sentinel + rest, 0, RStrip(sentinel))
  {
    assert (" " + sentinel + rest)[1..] == sentinel + rest;
    var k := RStripSplit(sentinel);
    assert (sentinel + rest)[0..k] == sentinel[..k];
  }

  lemma EndsWithEquals(p: string)
    ensures RStrip(p + "=") == p + "="
  {
  }

  lemma MarkedAgain(p: string, sentinel: string, rest: string)
    requires '=' !in p && sentinel != "" && !IsSpace(sentinel[0])
    ensures var once := p + "=" + " " + sentinel + rest; ScaffoldValueLine(once, sentinel) == once
  {
    hide LStrip, RStrip, At, FindEquals;
    var once := p + "=" + " " + sentinel + rest;
    assert once == p + "=" + (" " + sentinel + rest);
    FirstEquals(p, " " + sentinel + rest);
    StripStarts(sentinel, rest);
    assert once[|p| + 1..] == " " + sentinel + rest;
  }

  /** A sentinel that starts with whitespace is never found again: the value is stripped before the look. */
  lemma IndentedAgain(p: string, sentinel: string, x: string)
    requires '=' !in p && !IsBlank(sentinel) && IsSpace(sentinel[0])
    ensures var once := ScaffoldValueLine(p + "=" + x, sentinel); |ScaffoldValueLine(once, sentinel)| > |once|
  {
    hide *;
    var rest := LStrip(x);
    StillIndented(sentinel);
    NotFound(x, sentinel);
    Inserted(p, sentinel, x);
    var x' := " " + sentinel + rest;
    assert p + "=" + " " + sentinel + rest == p + "=" + x';
    NotFound(x', sentinel);
    Inserted(p, sentinel, x');
    BlankConcat(" ", sentinel);
    KeepsLast(" " + sentinel, rest);
  }

  lemma StillIndented(sentinel: string)
    requires !IsBlank(sentinel) && IsSpace(sentinel[0])
    ensures RStrip(sentinel) != "" && IsSpace(RStrip(sentinel)[0])
  {
    KeepsFirst("", sentinel);
    assert "" + sentinel == sentinel;
    var k := RStripSplit(sentinel);
  }

  lemma NotFound(x: string, sentinel: string)
    requires RStrip(sentinel) != "" && IsSpace(RStrip(sentinel)[0])
    ensures !At(LStrip(x), 0, RStrip(sentinel))
  {
    var k := LStripSplit(x);
    NotAt(LStrip(x), RStrip(sentinel));
  }

  lemma Inserted(p: string, sentinel: string, x: string)
    requires '=' !in p && !At(LStrip(x), 0, RStrip(sentinel))
    ensures ScaffoldValueLine(p + "=" + x, sentinel) == p + "=" + " " + sentinel + LStrip(x)
  {
    hide LStrip, RStrip, At, FindEquals;
    var line := p + "=" + x;
    FirstEquals(p, x);
    EndsWithEquals(p);
    assert line[..|p| + 1] == p + "=" && line[|p| + 1..] == x;
  }

  lemma AgainWithEquals(line: string, sentinel: string)
    requires '=' in line
    ensures var once := ScaffoldValueLine(line, sentinel);
            ScaffoldValueLine(once, sentinel) == once <==> IsBlank(sentinel) || !IsSpace(sentinel[0])
  {
    var eq := FindEquals(line);
    var p, x := line[..eq], line[eq + 1..];
    assert line == p + "=" + x;
    hide *;
    if IsBlank(sentinel) {
      BlankUnmarked(line, sentinel);
    } else if IsSpace(sentinel[0]) {
      IndentedAgain(p, sentinel, x);
    } else if At(LStrip(x), 0, RStrip(sentinel)) {
      Untouched(p, sentinel, x);
    } else {
      Inserted(p, sentinel, x);
      MarkedAgain(p, sentinel, LStrip(x));
    }
  }

  lemma BlankUnmarked(line: string, sentinel: string)
    requires IsBlank(sentinel) && '=' in line
    ensures ScaffoldValueLine(line, sentinel) == line
  {
    BlankStrips("", sentinel);
    assert "" + sentinel == sentinel;
  }

  lemma Untouched(p: string, sentinel: string, x: string)
    requires '=' !in p && At(LStrip(x), 0, RStrip(sentinel))
    ensures ScaffoldValueLine(p + "=" + x, sentinel) == p + "=" + x
  {
    hide LStrip, RStrip, At, FindEquals;
    FirstEquals(p, x);
    assert (p + "=" + x)[|p| + 1..] == x;
  }

  /** What stands behind a sentinel's own `=` does not begin with the whole sentinel. */
  lemma NotItself(a: string, b: string)
    ensures !At(LStrip(b), 0, RStrip(a + "=" + b))
  {
    hide *;
    var s := a + "=" + b;
    var j := LStripSplit(b);
    var k := RStripSplit(s);
    Assoc(a, "=", b);
    EqualsVisible(b);
    KeepsFirst(a, "=" + b);
    if j + k - 1 < |b| {
      assert b[j + k - 1] == s[|a| + j + k] == s[k..][|a| + j];
      BlankAt(s[k..], |a| + j);
    }
    DiffersAt(LStrip(b), 0, RStrip(s), k - 1);
  }

  lemma EqualsVisible(b: string)
    ensures !IsBlank("=" + b)
  {
    assert ("=" + b)[0] == '=';
  }

  lemma BlankAt(s: string, n: nat)
    requires IsBlank(s) && n < |s|
    ensures IsSpace(s[n])
  {
  }

  lemma AgainWithout(line: string, sentinel: string)
    requires '=' !in line
    ensures var once := ScaffoldValueLine(line, sentinel);
            ScaffoldValueLine(once, sentinel) == once <==> IsBlank(sentinel)
  {
    hide *;
    var r, once := RStrip(line), ScaffoldValueLine(line, sentinel);
    var k := RStripSplit(line);
    Appended(line, sentinel);
    assert r + " " + sentinel == r + (" " + sentinel);
    if '=' in sentinel {
      var i := FindEquals(sentinel);
      var a, b := sentinel[..i], sentinel[i + 1..];
      assert sentinel == a + "=" + b;
      assert once == r + " " + a + "=" + b;
      NotItself(a, b);
      Inserted(r + " " + a, sentinel, b);
      OneBlank();
      if IsBlank(sentinel) { BlankHolds(sentinel, '='); }
    } else {
      Appended(once, sentinel);
      BlankConcat(" ", sentinel);
      OneBlank();
      if IsBlank(sentinel) { BlankStrips(r, " " + sentinel); } else { KeepsFirst(r, " " + sentinel); }
    }
  }

  lemma OneBlank()
    ensures IsBlank(" ") && !IsSpace('=')
  {
  }

  lemma Appended(line: string, sentinel: string)
    requires '=' !in line
    ensures ScaffoldValueLine(line, sentinel) == RStrip(line) + " " + sentinel
  {
    hide LStrip, RStrip, At;
  }

  /** Scaffolding a line again changes nothing exactly when the sentinel is blank, or the line has an `=` and the
      sentinel does not start with whitespace: every other line gets the sentinel once more. */
  lemma AgainIff(line: string, sentinel: string)
    ensures var once := ScaffoldValueLine(line, sentinel);
            ScaffoldValueLine(once, sentinel) == once <==>
            IsBlank(sentinel) || ('=' in line && !IsSpace(sentinel[0]))
  {
    hide ScaffoldValueLine;
    if '=' in line { AgainWithEquals(line, sentinel); } else { AgainWithout(line, sentinel); }
  }

  /** A line without `=` is marked a second time. */
  lemma AgainInstance()
    ensures ScaffoldValueLine("a", "b") == "a b" && ScaffoldValueLine("a b", "b") == "a b b"
  {
    Appended("a", "b");
    Appended("a b", "b");
    assert RStrip("a") == "a" && RStrip("a b") == "a b";
  }
}
