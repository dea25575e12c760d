/** The string notions the scripts share. */
module Text {

  // ---------- Occurrences ----------

  lemma NotAt(text: string, pat: string)
    requires pat != "" && (text == "" || text[0] != pat[0])
    ensures !At(text, 0, pat)
  {
    if |pat| <= |text| { assert text[0..|pat|][0] == text[0]; }
  }

  predicate At(text: string, i: nat, pat: string) {
    i + |pat| <= |text| && text[i..i + |pat|] == pat
  }

  lemma DiffersAt(text: string, i: nat, pat: string, k: nat)
    requires k < |pat| && (i + k >= |text| || text[i + k] != pat[k])
    ensures !At(text, i, pat)
  {
    if i + |pat| <= |text| { assert text[i..i + |pat|][k] == text[i + k]; }
  }

  ghost predicate Occurs(pat: string, text: string) {
    exists i: nat :: At(text, i, pat)
  }

  lemma OccursInside(pat: string, a: string, b: string, c: string)
    requires Occurs(pat, b)
    ensures Occurs(pat, a + b + c)
  {
    var i: nat :| At(b, i, pat);
    assert (a + b + c)[|a| + i..|a| + i + |pat|] == b[i..i + |pat|];
    assert At(a + b + c, |a| + i, pat);
  }

  lemma OccursInTail(pat: string, text: string)
    requires text != "" && Occurs(pat, text[1..])
    ensures Occurs(pat, text)
  {
    OccursInside(pat, [text[0]], text[1..], "");
    assert [text[0]] + text[1..] + "" == text;
  }

  lemma NoneInTail(pat: string, text: string)
    requires text != "" && !Occurs(pat, text)
    ensures !Occurs(pat, text[1..])
  {
    hide Occurs;
    if Occurs(pat, text[1..]) { OccursInTail(pat, text); }
  }

  /** The two texts cannot build an occurrence between them: one of the meeting characters is none
      of the pattern's. */
  predicate Unbridged(pat: string, a: string, b: string) {
    a == "" || b == "" || a[|a| - 1] !in pat || b[0] !in pat
  }

  lemma Straddles(pat: string, a: string, b: string, i: nat)
    requires At(a + b, i, pat) && i < |a| < i + |pat|
    ensures b != "" && a[|a| - 1] in pat && b[0] in pat
  {
    var t := (a + b)[i..i + |pat|];
    assert t[|a| - 1 - i] == a[|a| - 1];
    assert t[|a| - i] == b[0];
  }

  lemma AtEither(pat: string, a: string, b: string, i: nat)
    requires At(a + b, i, pat)
    ensures i + |pat| <= |a| ==> At(a, i, pat)
    ensures i >= |a| ==> At(b, i - |a|, pat)
  {
    if i + |pat| <= |a| {
      assert a[i..i + |pat|] == (a + b)[i..i + |pat|];
    } else if i >= |a| {
      var j: nat := i - |a|;
      assert b[j..j + |pat|] == (a + b)[i..i + |pat|];
    }
  }

  lemma OccursAcross(pat: string, a: string, b: string)
    requires pat != "" && Unbridged(pat, a, b)
    ensures Occurs(pat, a + b) <==> Occurs(pat, a) || Occurs(pat, b)
  {
    var t := a + b;
    if Occurs(pat, t) {
      var i: nat :| At(t, i, pat);
      AtEither(pat, a, b, i);
      hide At;
      if i + |pat| <= |a| {
        assert At(a, i, pat);
      } else if i >= |a| {
        assert At(b, i - |a|, pat);
      } else {
        Straddles(pat, a, b, i);
      }
    }
    hide At;
    if Occurs(pat, a) { OccursInside(pat, "", a, b); assert "" + a + b == t; }
    if Occurs(pat, b) { OccursInside(pat, a, b, ""); assert a + b + "" == t; }
  }

  // ---------- Scanning over known text ----------

  /** At `i` stands `p`, and behind it the rest of the text. */
  ghost predicate Here(text: string, i: nat, p: string, rest: string) {
    i <= |text| && text[i..] == p + rest
  }

  lemma Assoc(a: string, b: string, c: string)
    ensures a + b + c == a + (b + c)
  {
  }

  lemma SamePrefix(a: string, b: string, c: string)
    ensures a + b == a + c <==> b == c
  {
    assert (a + b)[|a|..] == b && (a + c)[|a|..] == c;
  }

  lemma Advance(text: string, i: nat, p: string, q: string, rest: string)
    requires Here(text, i, p + q, rest)
    ensures Here(text, i + |p|, q, rest)
    ensures Here(text, i, p, q + rest)
  {
    assert p + q + rest == p + (q + rest);
    assert text[i + |p|..] == text[i..][|p|..];
  }

  lemma Head(text: string, i: nat, p: string, rest: string)
    requires Here(text, i, p, rest) && p != ""
    ensures i < |text| && text[i] == p[0]
    ensures |p| > 1 ==> i + 1 < |text| && text[i + 1] == p[1]
    ensures |p| == 1 ==> (rest == "" <==> i + 1 == |text|) && (rest != "" ==> text[i + 1] == rest[0])
  {
    assert text[i] == text[i..][0];
    if |text| > i + 1 { assert text[i + 1] == text[i..][1]; }
  }

  lemma Slice(text: string, i: nat, p: string, rest: string)
    requires Here(text, i, p, rest)
    ensures i + |p| <= |text| && text[i..i + |p|] == p
  {
    assert text[i..i + |p|] == text[i..][..|p|];
  }

  // ---------- Whitespace ----------

  /** What Python's `str.isspace`, `str.strip` and the regex class `\\s` take for whitespace. */
  predicate IsSpace(c: char) {
    || '\t' <= c <= '\r' || '\U{1C}' <= c <= '\U{20}' || c == '\U{85}' || c == '\U{A0}' || c == '\U{1680}'
    || '\U{2000}' <= c <= '\U{200A}' || c == '\U{2028}' || c == '\U{2029}' || c == '\U{202F}' || c == '\U{205F}'
    || c == '\U{3000}'
  }

  /** The 29 whitespace characters, one by one. */
  lemma SpacesAre(c: char)
    ensures IsSpace(c) <==>
            c in {'\t', '\n', '\U{0B}', '\U{0C}', '\r', '\U{1C}', '\U{1D}', '\U{1E}', '\U{1F}', ' ', '\U{85}', '\U{A0}',
                  '\U{1680}', '\U{2000}', '\U{2001}', '\U{2002}', '\U{2003}', '\U{2004}', '\U{2005}', '\U{2006}',
                  '\U{2007}', '\U{2008}', '\U{2009}', '\U{200A}', '\U{2028}', '\U{2029}', '\U{202F}', '\U{205F}',
                  '\U{3000}'}
  {
  }

  predicate IsBlank(s: string) {
    forall i :: 0 <= i < |s| ==> IsSpace(s[i])
  }

  lemma BlankConcat(a: string, b: string)
    ensures IsBlank(a + b) <==> IsBlank(a) && IsBlank(b)
  {
    if IsBlank(a + b) {
      assert forall i :: 0 <= i < |a| ==> a[i] == (a + b)[i];
      assert forall i :: 0 <= i < |b| ==> b[i] == (a + b)[|a| + i];
    }
  }

  lemma BlankHolds(s: string, c: char)
    requires IsBlank(s) && !IsSpace(c)
    ensures c !in s
  {
  }

  function LStrip(s: string): string {
    if s != "" && IsSpace(s[0]) then LStrip(s[1..]) else s
  }

  function RStrip(s: string): string {
    if s != "" && IsSpace(s[|s| - 1]) then RStrip(s[..|s| - 1]) else s
  }

  function Strip(s: string): string {
    RStrip(LStrip(s))
  }

  lemma {:induction false} LStripSplit(s: string) returns (k: nat)
    ensures k <= |s| && LStrip(s) == s[k..] && IsBlank(s[..k])
    ensures LStrip(s) != "" ==> !IsSpace(LStrip(s)[0])
  {
    if s != "" && IsSpace(s[0]) {
      var j := LStripSplit(s[1..]);
      k := j + 1;
      assert s[k..] == s[1..][j..];
      forall i | 0 <= i < k ensures IsSpace(s[..k][i]) {
        if i > 0 { assert s[..k][i] == s[1..][..j][i - 1]; }
      }
    } else {
      k := 0;
    }
  }

  lemma {:induction false} RStripSplit(s: string) returns (k: nat)
    ensures k <= |s| && RStrip(s) == s[..k] && IsBlank(s[k..])
    ensures RStrip(s) != "" ==> !IsSpace(RStrip(s)[|RStrip(s)| - 1])
  {
    if s != "" && IsSpace(s[|s| - 1]) {
      var init := s[..|s| - 1];
      k := RStripSplit(init);
      assert s[..k] == init[..k];
      forall i | 0 <= i < |s[k..]| ensures IsSpace(s[k..][i]) {
        if i < |init[k..]| { assert s[k..][i] == init[k..][i]; }
      }
    } else {
      k := |s|;
    }
  }

  /** Stripping takes the blanks off both ends and nothing else. */
  lemma StripIs(a: string, core: string, b: string)
    requires IsBlank(a) && IsBlank(b) && (core == "" || (!IsSpace(core[0]) && !IsSpace(core[|core| - 1])))
    ensures Strip(a + core + b) == core
  {
    if core == "" {
      BlankConcat(a, b);
      assert a + core + b == a + b && (a + b) + "" == a + b;
      LStripOver(a + b, "");
    } else {
      assert a + core + b == a + (core + b) && (core + b)[0] == core[0];
      LStripOver(a, core + b);
      RStripOver(core, b);
    }
  }

  lemma {:induction false} LStripOver(a: string, t: string)
    requires IsBlank(a) && (t == "" || !IsSpace(t[0]))
    ensures LStrip(a + t) == t
  {
    if a == "" {
      assert a + t == t;
    } else {
      assert IsSpace(a[0]) && (a + t)[1..] == a[1..] + t;
      LStripOver(a[1..], t);
    }
  }

  lemma {:induction false} RStripOver(t: string, b: string)
    requires IsBlank(b) && (t == "" || !IsSpace(t[|t| - 1]))
    ensures RStrip(t + b) == t
    decreases |b|
  {
    if b == "" {
      assert t + b == t;
    } else {
      assert IsSpace(b[|b| - 1]) && (t + b)[..|t + b| - 1] == t + b[..|b| - 1];
      RStripOver(t, b[..|b| - 1]);
    }
  }

  // ---------- Lines ----------

  /** The characters at which Python's `str.splitlines` ends a line. */
  predicate IsBreak(c: char) {
    || '\n' <= c <= '\r' || '\U{1C}' <= c <= '\U{1E}' || c == '\U{85}' || c == '\U{2028}' || c == '\U{2029}'
  }

  /** The line boundaries, one by one. */
  lemma BreaksAre(c: char)
    ensures IsBreak(c) <==>
            c in {'\n', '\U{0B}', '\U{0C}', '\r', '\U{1C}', '\U{1D}', '\U{1E}', '\U{85}', '\U{2028}', '\U{2029}'}
  {
  }

  predicate NoBreak(s: string) {
    forall i :: 0 <= i < |s| ==> !IsBreak(s[i])
  }

  /** The length of the first line with its terminator; CR LF is one terminator. */
  function FirstLine(text: string): (n: nat)
    ensures n <= |text| && (text != "" ==> n > 0)
  {
    if text == "" then 0
    else if At(text, 0, "\r\n") then 2
    else if IsBreak(text[0]) then 1
    else 1 + FirstLine(text[1..])
  }

  /** `str.splitlines(keepends=True)`. */
  function SplitLines(text: string): seq<string> {
    if text == "" then [] else [text[..FirstLine(text)]] + SplitLines(text[FirstLine(text)..])
  }

  function Concat(parts: seq<string>): string {
    if parts == [] then "" else parts[0] + Concat(parts[1..])
  }

  /** A line ends behind the first boundary, or behind a carriage return and line feed taken as one, or with the text;
      it keeps what ends it. */
  lemma {:induction false} SplitAtBreak(l: string, c: char, rest: string)
    requires NoBreak(l) && IsBreak(c)
    ensures !(c == '\r' && rest != "" && rest[0] == '\n') ==> SplitLines(l + [c] + rest) == [l + [c]] + SplitLines(rest)
    ensures c == '\r' && rest != "" && rest[0] == '\n' ==>
              SplitLines(l + [c] + rest) == [l + "\r\n"] + SplitLines(rest[1..])
    ensures SplitLines(l) == if l == "" then [] else [l]
  {
    var text := l + [c] + rest;
    FirstBreak(l, c, rest);
    if c == '\r' && rest != "" && rest[0] == '\n' {
      assert text[..|l| + 2] == l + "\r\n" && text[|l| + 2..] == rest[1..];
    } else {
      assert text[..|l| + 1] == l + [c] && text[|l| + 1..] == rest;
    }
    if l != "" {
      NoneToFind(l);
      assert l[..|l|] == l && l[|l|..] == "";
    }
  }

  lemma {:induction false} FirstBreak(l: string, c: char, rest: string)
    requires NoBreak(l) && IsBreak(c)
    ensures FirstLine(l + [c] + rest) == |l| + if c == '\r' && rest != "" && rest[0] == '\n' then 2 else 1
  {
    var text := l + [c] + rest;
    if l == "" {
      assert text[0] == c && (rest != "" ==> text[1] == rest[0]);
      assert At(text, 0, "\r\n") <==> c == '\r' && rest != "" && rest[0] == '\n';
    } else {
      assert text[0] == l[0] && text[1..] == l[1..] + [c] + rest;
      assert !IsBreak(l[0]);
      DiffersAt(text, 0, "\r\n", 0);
      FirstBreak(l[1..], c, rest);
    }
  }

  lemma {:induction false} NoneToFind(l: string)
    requires NoBreak(l)
    ensures FirstLine(l) == |l|
  {
    if l != "" {
      assert !IsBreak(l[0]);
      DiffersAt(l, 0, "\r\n", 0);
      NoneToFind(l[1..]);
    }
  }

  /** A text read with universal newlines has no carriage return left. */
  predicate NoCR(text: string) {
    '\r' !in text
  }

  /** One line: no break before its last character. */
  ghost predicate IsLine(l: string) {
    l != "" && NoCR(l) && NoBreak(l[..|l| - 1])
  }

  ghost predicate Terminated(l: string) {
    l == "" || IsBreak(l[|l| - 1])
  }

  lemma {:induction false} FirstLineIs(l: string, rest: string)
    requires IsLine(l) && (Terminated(l) || rest == "")
    ensures FirstLine(l + rest) == |l|
  {
    var text := l + rest;
    NotCRLF(text);
    if |l| > 1 {
      assert text[1..] == l[1..] + rest;
      assert !IsBreak(l[..|l| - 1][0]);
      assert l[1..][..|l[1..]| - 1] == l[..|l| - 1][1..];
      FirstLineIs(l[1..], rest);
    } else if rest == "" {
      assert text[1..] == "";
    }
  }

  lemma NotCRLF(text: string)
    requires text != "" && text[0] != '\r'
    ensures !At(text, 0, "\r\n")
  {
    NotAt(text, "\r\n");
  }

  lemma SplitFirst(l: string, rest: string)
    requires IsLine(l) && (Terminated(l) || rest == "")
    ensures SplitLines(l + rest) == [l] + SplitLines(rest)
  {
    FirstLineIs(l, rest);
    assert (l + rest)[..|l|] == l && (l + rest)[|l|..] == rest;
  }

  lemma {:induction false} LinesOf(text: string)
    requires NoCR(text)
    ensures Concat(SplitLines(text)) == text
    ensures forall l <- SplitLines(text) :: IsLine(l)
    ensures forall i :: 0 <= i < |SplitLines(text)| - 1 ==> Terminated(SplitLines(text)[i])
  {
    if text != "" {
      var n := FirstLine(text);
      FirstLineShape(text);
      LinesOf(text[n..]);
      var more := SplitLines(text[n..]);
      assert SplitLines(text) == [text[..n]] + more;
      assert SplitLines(text)[1..] == more;
      assert text[..n] + text[n..] == text;
      if more != [] { assert text[n..] != ""; }
    }
  }

  lemma {:induction false} FirstLineShape(text: string)
    requires NoCR(text) && text != ""
    ensures IsLine(text[..FirstLine(text)])
    ensures FirstLine(text) < |text| ==> Terminated(text[..FirstLine(text)])
  {
    NotCRLF(text);
    var n, c := FirstLine(text), text[0];
    if IsBreak(c) {
      assert text[..1] == [c];
    } else if |text| == 1 {
      assert text[1..] == "" && text[..1] == [c];
    } else {
      FirstLineShape(text[1..]);
      assert text[..n] == [c] + text[1..][..n - 1];
      LongerLine(c, text[1..][..n - 1]);
    }
  }

  lemma LongerLine(c: char, l: string)
    requires IsLine(l) && !IsBreak(c) && c != '\r'
    ensures IsLine([c] + l) && (Terminated(l) ==> Terminated([c] + l))
  {
    assert ([c] + l)[..|l|] == [c] + l[..|l| - 1];
  }

  /** Splitting terminated lines written one after the other gives them back. */
  lemma {:induction false} SplitConcat(lines: seq<string>)
    requires forall l <- lines :: IsLine(l)
    requires forall i :: 0 <= i < |lines| - 1 ==> Terminated(lines[i])
    ensures SplitLines(Concat(lines)) == lines
  {
    if lines != [] {
      SplitConcat(lines[1..]);
      if |lines| == 1 { assert Concat(lines[1..]) == ""; }
      SplitFirst(lines[0], Concat(lines[1..]));
    }
  }

  lemma {:induction false} ConcatAppend(a: seq<string>, b: seq<string>)
    ensures Concat(a + b) == Concat(a) + Concat(b)
  {
    if a == [] {
      assert a + b == b;
    } else {
      assert (a + b)[1..] == a[1..] + b;
      ConcatAppend(a[1..], b);
    }
  }

  lemma SplitAppend(a: string, b: string)
    requires NoCR(a) && NoCR(b) && Terminated(a)
    ensures SplitLines(a + b) == SplitLines(a) + SplitLines(b)
  {
    hide *;
    var x, y := SplitLines(a), SplitLines(b);
    LinesOf(a);
    LinesOf(b);
    ConcatAppend(x, y);
    NoLines();
    if x != [] { LastLineTerminated(a); }
    assert Concat(x + y) == a + b;
    forall i | 0 <= i < |x + y| - 1 ensures Terminated((x + y)[i]) {
      if i < |x| { assert (x + y)[i] == x[i]; } else { assert (x + y)[i] == y[i - |x|]; }
    }
    SplitConcat(x + y);
  }

  lemma NoLines()
    ensures SplitLines("") == []
  {
  }

  lemma {:induction false} LastLineTerminated(a: string)
    requires NoCR(a) && a != "" && Terminated(a)
    ensures SplitLines(a) != [] && Terminated(SplitLines(a)[|SplitLines(a)| - 1])
  {
    var n := FirstLine(a);
    if n < |a| {
      LastLineTerminated(a[n..]);
    } else {
      assert a[..n] == a && a[n..] == "";
    }
  }

  // ---------- Blanking, and the ends of lines ----------

  function Shown(c: char): char { if c == '\n' then '\n' else ' ' }

  /** Blanks, but for the line breaks. */
  function Blanked(s: string): (r: string)
    ensures |r| == |s|
  {
    seq(|s|, i requires 0 <= i < |s| => Shown(s[i]))
  }

  function Breaks(s: string): nat {
    if s == "" then 0 else (if s[0] == '\n' then 1 else 0) + Breaks(s[1..])
  }

  /** Every character but a line feed becomes a space, in its place. */
  lemma BlankedAt(s: string, i: nat)
    requires i < |s|
    ensures Blanked(s)[i] == if s[i] == '\n' then '\n' else ' '
  {
  }

  lemma {:induction false} BreaksCounted(s: string)
    ensures Breaks(s) == multiset(s)['\n']
  {
    if s != "" {
      BreaksCounted(s[1..]);
      assert s == [s[0]] + s[1..];
    }
  }

  lemma {:induction false} BreaksAppend(a: string, b: string)
    ensures Breaks(a + b) == Breaks(a) + Breaks(b)
  {
    if a == "" {
      assert a + b == b;
    } else {
      assert (a + b)[1..] == a[1..] + b;
      BreaksAppend(a[1..], b);
    }
  }

  method BlankRange(out: array<char>, start: nat, stop: nat)
    requires start <= stop <= out.Length
    modifies out
    ensures out[..][..start] == old(out[..])[..start] && out[..][stop..] == old(out[..])[stop..]
    ensures out[..][start..stop] == Blanked(old(out[..])[start..stop])
  {
    for x := start to stop
      invariant forall y :: start <= y < x ==> out[y] == Shown(old(out[y]))
      invariant forall y :: 0 <= y < start || x <= y < out.Length ==> out[y] == old(out[y])
    {
      if out[x] != '\n' { out[x] := ' '; }
    }
  }

  function LineEnd(text: string, i: nat): (r: nat)
    requires i <= |text|
    ensures i <= r <= |text|
    decreases |text| - i
  {
    if i < |text| && text[i] != '\n' then LineEnd(text, i + 1) else i
  }

  lemma {:induction false} LineOver(text: string, i: nat, note: string, rest: string)
    requires Here(text, i, note, rest) && '\n' !in note && (rest == "" || rest[0] == '\n')
    ensures LineEnd(text, i) == i + |note|
    decreases |note|
  {
    if note == "" {
      assert text[i..] == rest;
    } else {
      Head(text, i, note, rest);
      assert note == [note[0]] + note[1..];
      Advance(text, i, [note[0]], note[1..], rest);
      LineOver(text, i + 1, note[1..], rest);
    }
  }

  // ---------- Splitting and joining at a character ----------

  /** `str.split` with a one-character separator: never empty. */
  function SplitOn(text: string, sep: char): (parts: seq<string>)
    ensures parts != []
    ensures forall p <- parts :: sep !in p
  {
    if text == "" then [""]
    else
      var more := SplitOn(text[1..], sep);
      if text[0] == sep then [""] + more else [[text[0]] + more[0]] + more[1..]
  }

  /** `str.join`. */
  function Join(parts: seq<string>, sep: char): string {
    if parts == [] then ""
    else if |parts| == 1 then parts[0]
    else parts[0] + [sep] + Join(parts[1..], sep)
  }

  lemma {:induction false} SplitPiece(part: string, rest: string, sep: char)
    requires sep !in part
    ensures SplitOn(part + [sep] + rest, sep) == [part] + SplitOn(rest, sep)
    ensures SplitOn(part, sep) == [part]
  {
    var text := part + [sep] + rest;
    if part == "" {
      assert text[1..] == rest;
    } else {
      assert text[1..] == part[1..] + [sep] + rest;
      SplitPiece(part[1..], rest, sep);
      assert [part[0]] + part[1..] == part;
    }
  }

  /** Splitting undoes joining. */
  lemma {:induction false} SplitJoin(parts: seq<string>, sep: char)
    requires parts != [] && forall p <- parts :: sep !in p
    ensures SplitOn(Join(parts, sep), sep) == parts
  {
    if |parts| == 1 {
      SplitPiece(parts[0], "", sep);
    } else {
      SplitJoin(parts[1..], sep);
      SplitPiece(parts[0], Join(parts[1..], sep), sep);
    }
  }

  // ---------- Lines taken out ----------

  /** `a` is `b` with some of its lines left out. */
  ghost predicate Subsequence(a: seq<string>, b: seq<string>)
    decreases |b|
  {
    a == [] || (b != [] && ((a[0] == b[0] && Subsequence(a[1..], b[1..])) || Subsequence(a, b[1..])))
  }

  function Moved(at: seq<nat>): (r: seq<nat>)
    ensures |r| == |at| && forall k :: 0 <= k < |r| ==> r[k] == at[k] + 1
  {
    seq(|at|, k requires 0 <= k < |at| => at[k] + 1)
  }

  /** Each line of `a` has a place of its own in `b`, in the same order. */
  ghost predicate Places(at: seq<nat>, a: seq<string>, b: seq<string>) {
    && |at| == |a| && (forall k :: 0 <= k < |a| ==> at[k] < |b| && b[at[k]] == a[k])
    && forall k, l :: 0 <= k < l < |a| ==> at[k] < at[l]
  }

  lemma {:induction false} SubsequencePlaces(a: seq<string>, b: seq<string>) returns (at: seq<nat>)
    requires Subsequence(a, b)
    ensures Places(at, a, b)
    decreases |b|
  {
    hide Places;
    if a == [] {
      at := [];
      NoPlaces(b);
    } else if a[0] == b[0] && Subsequence(a[1..], b[1..]) {
      var rest := SubsequencePlaces(a[1..], b[1..]);
      at := [0] + Moved(rest);
      PlacesTake(rest, a, b);
    } else {
      var rest := SubsequencePlaces(a, b[1..]);
      at := Moved(rest);
      PlacesSkip(rest, a, b);
    }
  }

  lemma NoPlaces(b: seq<string>)
    ensures Places([], [], b)
  {
  }

  lemma PlacesTake(rest: seq<nat>, a: seq<string>, b: seq<string>)
    requires a != [] && b != [] && a[0] == b[0] && Places(rest, a[1..], b[1..])
    ensures Places([0] + Moved(rest), a, b)
  {
    var at := [0] + Moved(rest);
    forall k | 1 <= k < |a| ensures at[k] == rest[k - 1] + 1 && at[k] < |b| && b[at[k]] == a[k] {
      TakenAt(rest, a, b, k);
    }
    hide Moved;
    forall k, l | 0 <= k < l < |a| ensures at[k] < at[l] {
      if k > 0 { assert rest[k - 1] < rest[l - 1]; }
    }
  }

  lemma TakenAt(rest: seq<nat>, a: seq<string>, b: seq<string>, k: nat)
    requires 1 <= k < |a| && b != [] && Places(rest, a[1..], b[1..])
    ensures ([0] + Moved(rest))[k] == rest[k - 1] + 1 && rest[k - 1] + 1 < |b| && b[rest[k - 1] + 1] == a[k]
  {
    assert b[1..][rest[k - 1]] == a[1..][k - 1];
  }

  lemma PlacesSkip(rest: seq<nat>, a: seq<string>, b: seq<string>)
    requires b != [] && Places(rest, a, b[1..])
    ensures Places(Moved(rest), a, b)
  {
  }

  lemma {:induction false} SkipMore(a: seq<string>, x: seq<string>, b: seq<string>)
    requires Subsequence(a, b)
    ensures Subsequence(a, x + b)
  {
    if x == [] {
      assert x + b == b;
    } else {
      assert (x + b)[1..] == x[1..] + b;
      SkipMore(a, x[1..], b);
    }
  }

  lemma SameHead(c: string, a: seq<string>, b: seq<string>)
    requires Subsequence(a, b)
    ensures Subsequence([c] + a, [c] + b)
  {
    assert ([c] + a)[1..] == a && ([c] + b)[1..] == b;
  }
}
