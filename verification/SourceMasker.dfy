/** The comment and string masker of the core-size check: what survives it is code. */
module SourceMasker {
  import opened Text

  datatype Mode = Code | Quote(q: char) | Block

  function Spaces(n: nat): (r: string)
    ensures |r| == n
  {
    seq(n, i => ' ')
  }

  // ---------- Where the lexical elements end ----------

  /** Behind a quote-delimited character literal that starts at `i`, or behind its lone quote. */
  function CharEnd(text: string, i: nat): (r: nat)
    requires i < |text|
    ensures i < r <= |text|
  {
    if i + 2 < |text| && text[i + 1] == '\\' then
      if i + 3 < |text| && text[i + 3] == '\'' then i + 4 else i + 3
    else if i + 2 < |text| && text[i + 2] == '\'' then i + 3
    else i + 1
  }

  function HashesEnd(text: string, j: nat): (r: nat)
    requires j <= |text|
    ensures j <= r <= |text|
    decreases |text| - j
  {
    if j < |text| && text[j] == '#' then HashesEnd(text, j + 1) else j
  }

  /** `r`, hashes and a quote: a raw string opens here. */
  predicate RawOpens(text: string, i: nat) {
    i + 1 < |text| && text[i] == 'r' && (text[i + 1] == '"' || text[i + 1] == '#')
    && HashesEnd(text, i + 1) < |text| && text[HashesEnd(text, i + 1)] == '"'
  }

  function Terminator(text: string, i: nat): string
    requires RawOpens(text, i)
  {
    "\"" + seq(HashesEnd(text, i + 1) - i - 1, k => '#')
  }

  function FindFrom(text: string, k: nat, pat: string): (r: nat)
    requires k <= |text|
    ensures k <= r <= |text| && (r < |text| ==> At(text, r, pat))
    decreases |text| - k
  {
    if k < |text| && !At(text, k, pat) then FindFrom(text, k + 1, pat) else k
  }

  predicate CommentAt(text: string, i: nat, c: char) {
    i + 1 < |text| && text[i] == '/' && text[i + 1] == c
  }

  // ---------- The masked text ----------

  datatype Move = Move(out: string, next: nat, mode: Mode)

  /** What a raw string at `i` becomes: one blank for its opener, its line breaks, and blanks. */
  function RawMove(text: string, i: nat): (m: Move)
    requires RawOpens(text, i)
    ensures i < m.next <= |text|
  {
    var open, term := HashesEnd(text, i + 1) + 1, Terminator(text, i);
    var k := FindFrom(text, open, term);
    if k < |text| then Move(" " + Blanked(text[open..k]) + Spaces(|term|), k + |term|, Code)
    else Move(" " + Blanked(text[open..k]), k, Code)
  }

  /** One turn of the loop. */
  function Turn(text: string, i: nat, mode: Mode): (m: Move)
    requires i < |text|
    ensures i < m.next <= |text|
  {
    match mode
    case Block =>
      if At(text, i, "*/") then Move("  ", i + 2, Code) else Move([Shown(text[i])], i + 1, Block)
    case Quote(q) =>
      if text[i] == '\\' && i + 1 < |text| then Move([Shown(text[i + 1]), ' '], i + 2, mode)
      else Move([Shown(text[i])], i + 1, if text[i] == q then Code else mode)
    case Code =>
      if text[i] == '\'' then Move(Spaces(CharEnd(text, i) - i), CharEnd(text, i), Code)
      else if RawOpens(text, i) then RawMove(text, i)
      else if text[i] == '"' || text[i] == '`' then Move(" ", i + 1, Quote(text[i]))
      else if CommentAt(text, i, '/') then Move(Spaces(LineEnd(text, i + 2) - i), LineEnd(text, i + 2), Code)
      else if CommentAt(text, i, '*') then Move("  ", i + 2, Block)
      else Move([text[i]], i + 1, Code)
  }

  function Mask(text: string, i: nat, mode: Mode): string
    decreases |text| - i
  {
    if i >= |text| then ""
    else
      var m := Turn(text, i, mode);
      m.out + Mask(text, m.next, m.mode)
  }

  function Masked(text: string): string { Mask(text, 0, Code) }

  // ---------- The loop ----------

  method BlankTo(text: string, from: nat, to: nat, out0: string) returns (out: string)
    requires from <= to <= |text|
    ensures out == out0 + Spaces(to - from)
  {
    out := out0;
    for i := from to to
      invariant out == out0 + Spaces(i - from)
    {
      out := out + " ";
      assert Spaces(i + 1 - from) == Spaces(i - from) + " ";
    }
  }

  method MaskUntil(text: string, from: nat, term: string) returns (body: string, k: nat)
    requires from <= |text|
    ensures k == FindFrom(text, from, term) && body == Blanked(text[from..k])
  {
    hide At;
    body, k := "", from;
    while k < |text| && !At(text, k, term)
      invariant from <= k <= |text|
      invariant FindFrom(text, k, term) == FindFrom(text, from, term)
      invariant body == Blanked(text[from..k])
    {
      assert Blanked(text[from..k + 1]) == Blanked(text[from..k]) + [Shown(text[k])];
      body := body + [Shown(text[k])];
      k := k + 1;
    }
  }

  /** The branch of the loop that has met a raw string's opener. */
  method MaskRaw(text: string, i: nat) returns (m: Move)
    requires RawOpens(text, i)
    ensures m == RawMove(text, i)
  {
    hide Blanked, Spaces, At;
    var hashes, j := 0, i + 1;
    while j < |text| && text[j] == '#'
      invariant i + 1 <= j <= |text| && hashes == j - i - 1
      invariant HashesEnd(text, j) == HashesEnd(text, i + 1)
    {
      hashes := hashes + 1;
      j := j + 1;
    }
    var term := "\"" + seq(hashes, k => '#');
    assert term == Terminator(text, i);
    var body, k := MaskUntil(text, j + 1, term);
    if k < |text| { return Move(" " + body + Spaces(|term|), k + |term|, Code); }
    return Move(" " + body, k, Code);
  }

  /** The loop's turn outside strings and block comments. */
  method CodeTurn(text: string, i: nat, out0: string) returns (out: string, next: nat, mode: Mode)
    requires i < |text|
    ensures var m := Turn(text, i, Code); out == out0 + m.out && next == m.next && mode == m.mode
  {
    hide At, CharEnd, HashesEnd, Terminator, FindFrom, LineEnd, Spaces;
    mode := Code;
    if text[i] == '\'' {
      next := CharEnd(text, i);
      out := BlankTo(text, i, next, out0);
    } else if RawOpens(text, i) {
      var raw := MaskRaw(text, i);
      out, next := out0 + raw.out, raw.next;
    } else if text[i] == '"' || text[i] == '`' {
      out, next, mode := out0 + " ", i + 1, Quote(text[i]);
    } else if CommentAt(text, i, '/') {
      next := LineEnd(text, i + 2);
      out := BlankTo(text, i, next, out0);
    } else if CommentAt(text, i, '*') {
      out, next, mode := out0 + "  ", i + 2, Block;
    } else {
      out, next := out0 + [text[i]], i + 1;
    }
  }

  /** The loop's turn inside a string or a block comment. */
  method HiddenTurn(text: string, i: nat, mode0: Mode, out0: string) returns (out: string, next: nat, mode: Mode)
    requires i < |text| && mode0 != Code
    ensures var m := Turn(text, i, mode0); out == out0 + m.out && next == m.next && mode == m.mode
  {
    mode := mode0;
    if mode0.Block? {
      if At(text, i, "*/") { return out0 + "  ", i + 2, Code; }
      return out0 + [Shown(text[i])], i + 1, Block;
    }
    if text[i] == '\\' && i + 1 < |text| { return out0 + [Shown(text[i + 1]), ' '], i + 2, mode0; }
    if text[i] == mode0.q { mode := Code; }
    return out0 + [Shown(text[i])], i + 1, mode;
  }

  method MaskCommentsAndStrings(text: string) returns (out: string)
    ensures out == Masked(text)
  {
    hide *;
    out := "";
    var i, mode := 0, Code;
    assert "" + Mask(text, 0, Code) == Masked(text) by { MaskStart(text); }
    while i < |text|
      invariant i <= |text| && out + Mask(text, i, mode) == Masked(text)
      decreases |text| - i
    {
      MaskStep(text, i, mode, out);
      if mode == Code {
        out, i, mode := CodeTurn(text, i, out);
      } else {
        out, i, mode := HiddenTurn(text, i, mode, out);
      }
    }
    MaskDone(text, i, mode);
    assert out + "" == out;
  }

  lemma MaskStart(text: string)
    ensures Mask(text, 0, Code) == Masked(text)
  {
  }

  lemma MaskDone(text: string, i: nat, mode: Mode)
    requires i >= |text|
    ensures Mask(text, i, mode) == ""
  {
  }

  lemma MaskStep(text: string, i: nat, mode: Mode, out: string)
    requires i < |text|
    ensures var m := Turn(text, i, mode);
            i < m.next <= |text| && out + Mask(text, i, mode) == out + m.out + Mask(text, m.next, m.mode)
  {
    hide Turn;
    var m := Turn(text, i, mode);
    assert out + (m.out + Mask(text, m.next, m.mode)) == out + m.out + Mask(text, m.next, m.mode);
  }

  // ---------- The masker is a projection ----------

  predicate IsQuote(c: char) { c == '"' || c == '`' || c == '\'' }

  /** Neither a quote of any kind nor the beginning of a comment. */
  ghost predicate Clean(s: string) {
    && (forall i :: 0 <= i < |s| ==> !IsQuote(s[i]))
    && (forall i: nat :: !CommentAt(s, i, '/') && !CommentAt(s, i, '*'))
  }

  ghost predicate AllShown(s: string) {
    forall i :: 0 <= i < |s| ==> s[i] == ' ' || s[i] == '\n'
  }

  lemma CleanPrefix(p: string, s: string)
    requires Clean(s) && AllShown(p)
    ensures Clean(p + s)
  {
    forall i: nat ensures !CommentAt(p + s, i, '/') && !CommentAt(p + s, i, '*') {
      if i >= |p| {
        assert !CommentAt(s, i - |p|, '/') && !CommentAt(s, i - |p|, '*');
      }
    }
  }

  lemma CleanCons(c: char, s: string)
    requires Clean(s) && !IsQuote(c) && (c == '/' && s != "" ==> s[0] != '/' && s[0] != '*')
    ensures Clean([c] + s)
  {
    forall i: nat ensures !CommentAt([c] + s, i, '/') && !CommentAt([c] + s, i, '*') {
      if i >= 1 {
        assert !CommentAt(s, i - 1, '/') && !CommentAt(s, i - 1, '*');
      }
    }
  }

  /** A turn hides what it reads, or copies one character that is neither quote nor comment. */
  lemma TurnShape(text: string, i: nat, mode: Mode)
    requires i < |text|
    ensures var m := Turn(text, i, mode);
            && m.out != ""
            && (AllShown(m.out)
                || (m == Move([text[i]], i + 1, Code) && mode == Code && !IsQuote(text[i])
                    && !CommentAt(text, i, '/') && !CommentAt(text, i, '*')))
  {
  }

  lemma {:induction false} MaskClean(text: string, i: nat, mode: Mode)
    ensures Clean(Mask(text, i, mode))
    decreases |text| - i
  {
    if i < |text| {
      hide Turn, Clean;
      var m := Turn(text, i, mode);
      TurnShape(text, i, mode);
      var rest := Mask(text, m.next, m.mode);
      MaskClean(text, m.next, m.mode);
      if AllShown(m.out) {
        CleanPrefix(m.out, rest);
      } else {
        if i + 1 < |text| { TurnShape(text, i + 1, Code); }
        CleanCons(text[i], rest);
      }
    } else {
      CleanNothing();
    }
  }

  lemma CleanNothing()
    ensures Clean("")
  {
  }

  lemma {:induction false} CleanFixed(s: string, i: nat)
    requires Clean(s) && i <= |s|
    ensures Mask(s, i, Code) == s[i..]
    decreases |s| - i
  {
    if i < |s| {
      assert !IsQuote(s[i]);
      assert !CommentAt(s, i, '/') && !CommentAt(s, i, '*');
      assert !RawOpens(s, i) by {
        if i + 1 < |s| && HashesEnd(s, i + 1) < |s| { assert !IsQuote(s[HashesEnd(s, i + 1)]); }
      }
      CleanFixed(s, i + 1);
    }
  }

  /** For every source: the masked text holds no quote and opens no comment, and masking it again
      changes nothing. */
  lemma MaskProjects(text: string)
    ensures Clean(Masked(text))
    ensures Masked(Masked(text)) == Masked(text)
  {
    MaskClean(text, 0, Code);
    CleanFixed(Masked(text), 0);
  }

  // ---------- Line breaks and offsets ----------

  lemma {:induction false} BreaksShown(s: string)
    ensures Breaks(Blanked(s)) == Breaks(s)
  {
    if s != "" {
      assert Blanked(s)[1..] == Blanked(s[1..]);
      BreaksShown(s[1..]);
    }
  }

  lemma {:induction false} NoBreaks(s: string)
    requires '\n' !in s
    ensures Breaks(s) == 0
  {
    if s != "" { NoBreaks(s[1..]); }
  }

  /** The line breaks inside quote-delimited character literals, as the masker reads the text. */
  function LiteralBreaks(text: string, i: nat, mode: Mode): nat
    decreases |text| - i
  {
    if i >= |text| then 0
    else
      var m := Turn(text, i, mode);
      (if mode == Code && text[i] == '\'' then Breaks(text[i..m.next]) else 0) + LiteralBreaks(text, m.next, m.mode)
  }

  /** The quote and hashes of raw string openers, as the masker reads the text. */
  function RawOpeners(text: string, i: nat, mode: Mode): nat
    decreases |text| - i
  {
    if i >= |text| then 0
    else
      var m := Turn(text, i, mode);
      (if mode == Code && RawOpens(text, i) then HashesEnd(text, i + 1) - i else 0) + RawOpeners(text, m.next, m.mode)
  }

  lemma {:induction false} LineEndBreaks(text: string, i: nat)
    requires i <= |text|
    ensures Breaks(text[i..LineEnd(text, i)]) == 0
    decreases |text| - i
  {
    if i < |text| && text[i] != '\n' {
      LineEndBreaks(text, i + 1);
      assert text[i..LineEnd(text, i)][1..] == text[i + 1..LineEnd(text, i)];
    }
  }

  lemma {:induction false} HashesAre(text: string, j: nat)
    requires j <= |text|
    ensures Breaks(text[j..HashesEnd(text, j)]) == 0
    decreases |text| - j
  {
    if j < |text| && text[j] == '#' {
      HashesAre(text, j + 1);
      assert text[j..HashesEnd(text, j)][1..] == text[j + 1..HashesEnd(text, j)];
    }
  }

  lemma RawOpenerBreaks(text: string, i: nat)
    requires RawOpens(text, i)
    ensures Breaks(text[i..HashesEnd(text, i + 1) + 1]) == 0
  {
    var h := HashesEnd(text, i + 1);
    HashesAre(text, i + 1);
    hide Breaks;
    assert text[i..h + 1] == [text[i]] + (text[i + 1..h] + [text[h]]);
    BreaksAppend([text[i]], text[i + 1..h] + [text[h]]);
    BreaksAppend(text[i + 1..h], [text[h]]);
    NoBreaks([text[i]]);
    NoBreaks([text[h]]);
  }

  lemma RawTailBreaks(text: string, k: nat, term: string)
    requires At(text, k, term) && '\n' !in term
    ensures Breaks(text[k..k + |term|]) == 0 && Breaks(Spaces(|term|)) == 0
  {
    NoBreaks(term);
    NoBreaks(Spaces(|term|));
  }

  lemma RawKeeps(text: string, i: nat)
    requires RawOpens(text, i)
    ensures var m := RawMove(text, i);
            && Breaks(m.out) == Breaks(text[i..m.next])
            && |m.out| + (HashesEnd(text, i + 1) - i) == m.next - i
  {
    hide Breaks, Blanked, Spaces, HashesEnd, FindFrom, At;
    var m := RawMove(text, i);
    var open, term := HashesEnd(text, i + 1) + 1, Terminator(text, i);
    var k := FindFrom(text, open, term);
    RawOpenerBreaks(text, i);
    BreaksShown(text[open..k]);
    NoBreaks(" ");
    assert '\n' !in term;
    if k < |text| { RawTailBreaks(text, k, term); }
    BreaksAppend(" ", Blanked(text[open..k]));
    assert text[i..k] == text[i..open] + text[open..k];
    BreaksAppend(text[i..open], text[open..k]);
    if k < |text| {
      assert text[i..m.next] == text[i..k] + text[k..m.next];
      BreaksAppend(text[i..k], text[k..m.next]);
      BreaksAppend(" " + Blanked(text[open..k]), Spaces(|term|));
    }
  }

  lemma OneBreak(c: char)
    ensures Breaks([Shown(c)]) == Breaks([c]) && Breaks([' ']) == 0
  {
    assert [c][1..] == "" && [Shown(c)][1..] == "" && [' '][1..] == "";
  }

  lemma QuoteTurnKeeps(text: string, i: nat, mode: Mode)
    requires i < |text| && mode != Code
    ensures var m := Turn(text, i, mode); Breaks(m.out) == Breaks(text[i..m.next]) && |m.out| == m.next - i
  {
    var m := Turn(text, i, mode);
    OneBreak(text[i]);
    if mode.Quote? && text[i] == '\\' && i + 1 < |text| {
      OneBreak(text[i + 1]);
      assert text[i..i + 2] == [text[i]] + [text[i + 1]];
      assert m.out == [Shown(text[i + 1])] + [' '];
      NoBreaks([text[i]]);
      BreaksAppend([text[i]], [text[i + 1]]);
      BreaksAppend([Shown(text[i + 1])], [' ']);
    } else if mode.Block? && At(text, i, "*/") {
      RawTailBreaks(text, i, "*/");
      NoBreaks("  ");
    } else {
      assert text[i..i + 1] == [text[i]];
    }
  }

  lemma CodeTurnKeeps(text: string, i: nat)
    requires i < |text| && !RawOpens(text, i)
    ensures var m := Turn(text, i, Code);
            && Breaks(m.out) + (if text[i] == '\'' then Breaks(text[i..m.next]) else 0) == Breaks(text[i..m.next])
            && |m.out| == m.next - i
  {
    var m := Turn(text, i, Code);
    if text[i] == '\'' {
      NoBreaks(m.out);
    } else if CommentAt(text, i, '/') {
      LineEndBreaks(text, i + 2);
      assert text[i..m.next] == text[i..i + 2] + text[i + 2..m.next];
      NoBreaks(text[i..i + 2]);
      BreaksAppend(text[i..i + 2], text[i + 2..m.next]);
      NoBreaks(m.out);
    } else if CommentAt(text, i, '*') {
      NoBreaks("  ");
      NoBreaks(text[i..i + 2]);
    } else {
      assert text[i..i + 1] == [text[i]];
      if text[i] == '"' || text[i] == '`' {
        NoBreaks(" ");
        NoBreaks([text[i]]);
      }
    }
  }

  /** What one turn does to line breaks and to the length. */
  lemma TurnKeeps(text: string, i: nat, mode: Mode)
    requires i < |text|
    ensures var m := Turn(text, i, mode);
            && Breaks(m.out) + (if mode == Code && text[i] == '\'' then Breaks(text[i..m.next]) else 0) ==
               Breaks(text[i..m.next])
            && |m.out| + (if mode == Code && RawOpens(text, i) then HashesEnd(text, i + 1) - i else 0) == m.next - i
  {
    hide Breaks, RawMove, HashesEnd, CharEnd, LineEnd;
    if mode != Code {
      QuoteTurnKeeps(text, i, mode);
    } else if RawOpens(text, i) {
      RawKeeps(text, i);
    } else {
      CodeTurnKeeps(text, i);
    }
  }

  lemma MaskUnfolds(text: string, i: nat, mode: Mode)
    ensures i >= |text| ==>
              Mask(text, i, mode) == "" && LiteralBreaks(text, i, mode) == RawOpeners(text, i, mode) == Breaks("") == 0
    ensures i < |text| ==>
              var m := Turn(text, i, mode);
              && Mask(text, i, mode) == m.out + Mask(text, m.next, m.mode)
              && LiteralBreaks(text, i, mode) ==
                 (if mode == Code && text[i] == '\'' then Breaks(text[i..m.next]) else 0)
                 + LiteralBreaks(text, m.next, m.mode)
              && RawOpeners(text, i, mode) ==
                 (if mode == Code && RawOpens(text, i) then HashesEnd(text, i + 1) - i else 0)
                 + RawOpeners(text, m.next, m.mode)
  {
    hide Turn, RawOpens, HashesEnd;
  }

  lemma {:induction false} MaskKeeps(text: string, i: nat, mode: Mode)
    requires i <= |text|
    ensures Breaks(Mask(text, i, mode)) + LiteralBreaks(text, i, mode) == Breaks(text[i..])
    ensures |Mask(text, i, mode)| + RawOpeners(text, i, mode) == |text| - i
    decreases |text| - i
  {
    hide Turn, RawOpens, Breaks, Mask, LiteralBreaks, RawOpeners;
    MaskUnfolds(text, i, mode);
    if i == |text| {
      assert text[i..] == "";
    } else {
      var m := Turn(text, i, mode);
      TurnKeeps(text, i, mode);
      MaskKeeps(text, m.next, m.mode);
      BreaksAppend(m.out, Mask(text, m.next, m.mode));
      assert text[i..] == text[i..m.next] + text[m.next..];
      BreaksAppend(text[i..m.next], text[m.next..]);
    }
  }

  /** Masking keeps every line break if and only if none stands in a character literal. */
  lemma BreaksKept(text: string)
    ensures Breaks(Masked(text)) == Breaks(text) <==> LiteralBreaks(text, 0, Code) == 0
  {
    MaskKeeps(text, 0, Code);
    assert text[0..] == text;
  }

  /** Masking keeps the length if and only if no raw string is opened: each opener is cut to one blank. */
  lemma LengthKept(text: string)
    ensures |Masked(text)| == |text| <==> RawOpeners(text, 0, Code) == 0
  {
    MaskKeeps(text, 0, Code);
  }

  /** A character literal that spans a line break loses it, and an empty raw string a character. */
  lemma LossInstances()
    ensures Masked("'\n'") == "   " && Breaks(Masked("'\n'")) != Breaks("'\n'")
    ensures Masked("r\"\"") == "  " && |Masked("r\"\"")| != |"r\"\""|
  {
    var letter, raw := "'\n'", "r\"\"";
    assert letter[1..] == "\n'" && letter[2..] == "'";
    assert Breaks(letter[1..]) == 1 && Breaks(letter) == 1;
    assert CharEnd(letter, 0) == 3;
    assert Turn(letter, 0, Code) == Move("   ", 3, Code);
    assert Masked(letter) == "   " + "" == "   ";
    assert Breaks("   "[1..][1..][1..]) == 0 && Breaks("   ") == 0;
    assert RawOpens(raw, 0) && HashesEnd(raw, 1) == 1;
    assert Terminator(raw, 0) == "\"" && FindFrom(raw, 2, "\"") == 2;
    assert RawMove(raw, 0) == Move("  ", 3, Code);
    assert Masked(raw) == "  " + "" == "  ";
  }
}
