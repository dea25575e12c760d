/** Blanking the comments of Rust source before its JSON is scanned: strings and offsets survive. */
module RustComments {
  import opened Options
  import opened Text
  import opened JsonScanner
  import opened JsonPrinter

  // ---------- What is blanked ----------

  /** Behind the next `*``/`, or the end of the text. */
  function BlockEnd(text: string, i: nat): (j: nat)
    requires i <= |text|
    ensures i <= j <= |text|
    decreases |text| - i
  {
    if i >= |text| then i else if At(text, i, "*/") then i + 2 else BlockEnd(text, i + 1)
  }

  /** What the scanner passes over in one go at `i`: up to where, and whether it is a comment. */
  datatype Stretch = Stretch(end: nat, comment: bool)

  function Next(alnum: CharClass, text: string, i: nat): (s: Option<Stretch>)
    requires i < |text|
    ensures s.Some? ==> i < s.value.end <= |text|
  {
    if text[i] == '"' then
      match StringEnd(text, i + 1)
      case None => None
      case Some(j) => Some(Stretch(j, false))
    else if MacroStart(alnum, text, i) then
      match MacroEnd(text, i)
      case None => None
      case Some(j) => Some(Stretch(j, false))
    else if At(text, i, "//") then Some(Stretch(LineEnd(text, i + 2), true))
    else if At(text, i, "/*") then Some(Stretch(BlockEnd(text, i + 2), true))
    else Some(Stretch(i + 1, false))
  }

  /** The rest of the text from `i`, stripped; None where an unterminated string raises. */
  function Stripped(alnum: CharClass, text: string, i: nat): (r: Option<string>)
    requires i <= |text|
    ensures r.Some? ==> |r.value| == |text| - i
    decreases |text| - i
  {
    if i == |text| then Some("")
    else
      match Next(alnum, text, i)
      case None => None
      case Some(s) =>
        match Stripped(alnum, text, s.end)
        case None => None
        case Some(more) => Some((if s.comment then Blanked(text[i..s.end]) else text[i..s.end]) + more)
  }

  // ---------- The loop ----------

  method FindLineEnd(text: string, i: nat) returns (j: nat)
    requires i <= |text|
    ensures j == LineEnd(text, i)
  {
    j := i;
    while j < |text| && text[j] != '\n'
      invariant i <= j <= |text| && LineEnd(text, j) == LineEnd(text, i)
    {
      j := j + 1;
    }
  }

  method FindBlockEnd(text: string, i: nat) returns (j: nat)
    requires i <= |text|
    ensures j == BlockEnd(text, i)
  {
    j := i;
    while j < |text|
      invariant i <= j <= |text| && BlockEnd(text, j) == BlockEnd(text, i)
    {
      if At(text, j, "*/") { return j + 2; }
      j := j + 1;
    }
  }

  /** Up to `i` the buffer is as it should end, unless the scan raises; from there it is still the source. */
  ghost predicate Done(alnum: CharClass, out: string, text: string, i: nat) {
    && i <= |text| == |out| && out[i..] == text[i..]
    && Stripped(alnum, text, 0) ==
       match Stripped(alnum, text, i)
       case None => None
       case Some(more) => Some(out[..i] + more)
  }

  lemma DoneStep(alnum: CharClass, out: string, text: string, i: nat, next: string)
    requires Done(alnum, out, text, i) && i < |text| && Next(alnum, text, i).Some? && |next| == |out|
    requires var s := Next(alnum, text, i).value;
             && next[..i] == out[..i] && next[s.end..] == out[s.end..]
             && next[i..s.end] == (if s.comment then Blanked(out[i..s.end]) else out[i..s.end])
    ensures Done(alnum, next, text, Next(alnum, text, i).value.end)
  {
    hide Next, Blanked, MacroEnd, StringEnd;
    var s := Next(alnum, text, i).value;
    assert out[i..][..s.end - i] == out[i..s.end] && text[i..][..s.end - i] == text[i..s.end];
    assert out[i..][s.end - i..] == out[s.end..] && text[i..][s.end - i..] == text[s.end..];
    assert next[..s.end] == out[..i] + next[i..s.end];
    if Stripped(alnum, text, s.end).Some? {
      var more := Stripped(alnum, text, s.end).value;
      Assoc(out[..i], next[i..s.end], more);
    }
  }

  lemma DoneStart(alnum: CharClass, out: string, text: string)
    requires out == text
    ensures Done(alnum, out, text, 0)
  {
    if Stripped(alnum, text, 0).Some? {
      assert out[..0] + Stripped(alnum, text, 0).value == Stripped(alnum, text, 0).value;
    }
  }

  lemma DoneRaises(alnum: CharClass, out: string, text: string, i: nat)
    requires Done(alnum, out, text, i) && i < |text| && Next(alnum, text, i).None?
    ensures Stripped(alnum, text, 0) == None
  {
  }

  lemma DoneEnd(alnum: CharClass, out: string, text: string)
    requires Done(alnum, out, text, |text|)
    ensures Stripped(alnum, text, 0) == Some(out)
  {
    assert out[..|text|] + "" == out;
  }

  lemma NextIs(alnum: CharClass, text: string, i: nat)
    requires i < |text|
    ensures text[i] == '"' ==>
              Next(alnum, text, i) == match StringEnd(text, i + 1) case None => None
                  case Some(j) => Some(Stretch(j, false))
    ensures text[i] != '"' && MacroStart(alnum, text, i) ==>
              Next(alnum, text, i) == match MacroEnd(text, i) case None => None case Some(j) => Some(Stretch(j, false))
    ensures text[i] != '"' && !MacroStart(alnum, text, i) ==>
              Next(alnum, text, i) ==
              if text[i] == '/' && i + 1 < |text| && text[i + 1] == '/' then Some(Stretch(LineEnd(text, i + 2), true))
              else if text[i] == '/' && i + 1 < |text| && text[i + 1] == '*'
                  then Some(Stretch(BlockEnd(text, i + 2), true))
              else Some(Stretch(i + 1, false))
  {
    hide StringEnd, MacroStart, MacroEnd, LineEnd, BlockEnd;
    if i + 2 <= |text| { assert text[i..i + 2] == [text[i], text[i + 1]]; }
  }

  method StripRustComments(alnum: CharClass, text: string) returns (raises: bool, out: array<char>)
    ensures fresh(out)
    ensures Stripped(alnum, text, 0) == if raises then None else Some(out[..])
  {
    hide *;
    out := new char[|text|](x requires 0 <= x < |text| => text[x]);
    var i := 0;
    DoneStart(alnum, out[..], text);
    while i < |text|
      invariant i <= |text| && out.Length == |text| && fresh(out) && Done(alnum, out[..], text, i)
      decreases |text| - i
    {
      NextIs(alnum, text, i);
      ghost var before := out[..];
      ghost var at := i;
      if text[i] == '"' {
        var j := SkipString(text, i);
        if j.None? { DoneRaises(alnum, out[..], text, i); return true, out; }
        i := j.value;
      } else if MacroStart(alnum, text, i) {
        var j := SkipMacro(text, i);
        if j.None? { DoneRaises(alnum, out[..], text, i); return true, out; }
        i := j.value;
      } else if text[i] == '/' && i + 1 < |text| && text[i + 1] == '/' {
        var j := FindLineEnd(text, i + 2);
        BlankRange(out, i, j);
        i := j;
      } else if text[i] == '/' && i + 1 < |text| && text[i + 1] == '*' {
        var j := FindBlockEnd(text, i + 2);
        BlankRange(out, i, j);
        i := j;
      } else {
        i := i + 1;
      }
      DoneStep(alnum, before, text, at, out[..]);
    }
    DoneEnd(alnum, out[..], text);
    return false, out;
  }

  // ---------- Every input ----------

  /** Every offset and newline is preserved; a character is unchanged or blanked. */
  lemma {:induction false} StrippedEach(alnum: CharClass, text: string, i: nat, x: nat)
    requires i <= x < |text| && Stripped(alnum, text, i).Some?
    ensures var out := Stripped(alnum, text, i).value;
            && |out| == |text| - i
            && (out[x - i] == text[x] || out[x - i] == ' ')
            && (out[x - i] == '\n' <==> text[x] == '\n')
    decreases |text| - i
  {
    hide Next;
    var s := Next(alnum, text, i).value;
    if x >= s.end { StrippedEach(alnum, text, s.end, x); }
  }

  // ---------- Printed source ----------

  datatype Piece = Code(code: string) | Literal(raw: string) | Line(note: string) | Block(note: string)

  function PrintPiece(p: Piece): string {
    match p
    case Code(code) => code
    case Literal(raw) => Quoted(raw)
    case Line(note) => "//" + note
    case Block(note) => "/*" + (note + "*/")
  }

  function PrintPieces(ps: seq<Piece>): string {
    if ps == [] then "" else PrintPiece(ps[0]) + PrintPieces(ps[1..])
  }

  function WithoutComments(ps: seq<Piece>): string {
    if ps == [] then ""
    else (if IsNote(ps[0]) then Blanked(PrintPiece(ps[0])) else PrintPiece(ps[0])) + WithoutComments(ps[1..])
  }

  /** Neither a quote nor the beginning of a comment. */
  predicate PlainAt(code: string, k: nat)
    requires k < |code|
  {
    code[k] != '"' && (code[k] == '/' ==> k + 1 < |code| && code[k + 1] != '/' && code[k + 1] != '*')
  }

  ghost predicate ProperPiece(p: Piece) {
    match p
    case Code(code) => forall k: nat :: k < |code| ==> PlainAt(code, k)
    case Literal(raw) => Escaped(raw)
    case Line(note) => '\n' !in note
    case Block(note) => !Occurs("*/", note)
  }

  /** A line comment runs to the end of its line, which is outside it. */
  ghost predicate ProperPieces(ps: seq<Piece>) {
    ps == []
    || (ProperPiece(ps[0]) && ProperPieces(ps[1..])
        && (ps[0].Line? ==> PrintPieces(ps[1..]) == "" || PrintPieces(ps[1..])[0] == '\n'))
  }

  predicate IsNote(p: Piece) {
    p.Line? || p.Block?
  }

  lemma {:induction false} BlockOver(text: string, i: nat, note: string, rest: string)
    requires Here(text, i, note + "*/", rest) && !Occurs("*/", note)
    ensures i <= |text| && BlockEnd(text, i) == i + |note| + 2
    decreases |note|
  {
    hide Occurs;
    Head(text, i, note + "*/", rest);
    if note == "" {
      Slice(text, i, "*/", rest);
      assert note + "*/" == "*/";
    } else {
      NotClosedYet(text, i, note);
      assert note + "*/" == note[..1] + (note[1..] + "*/");
      Advance(text, i, note[..1], note[1..] + "*/", rest);
      NoneInTail("*/", note);
      BlockOver(text, i + 1, note[1..], rest);
    }
  }

  lemma NotClosedYet(text: string, i: nat, note: string)
    requires note != "" && !Occurs("*/", note)
    requires i + 1 < |text| && text[i] == note[0] && text[i + 1] == (note + "*/")[1]
    ensures !At(text, i, "*/")
  {
    assert text[i..i + 2] == [text[i], text[i + 1]];
    assert !At(note, 0, "*/");
    if |note| > 1 { assert note[0..2] == [note[0], note[1]]; }
  }

  lemma StrippedStep(alnum: CharClass, text: string, i: nat, s: Stretch)
    requires i < |text| && Next(alnum, text, i) == Some(s) && Stripped(alnum, text, s.end).Some?
    ensures Stripped(alnum, text, i) ==
            Some((if s.comment then Blanked(text[i..s.end]) else text[i..s.end]) + Stripped(alnum, text, s.end).value)
  {
    hide Next, Blanked;
  }

  lemma StretchOver(alnum: CharClass, text: string, i: nat, p: Piece, rest: string)
    requires ProperPiece(p) && !p.Code? && Here(text, i, PrintPiece(p), rest)
    requires p.Line? ==> rest == "" || rest[0] == '\n'
    ensures i < |text| && Next(alnum, text, i) == Some(Stretch(i + |PrintPiece(p)|, IsNote(p)))
  {
    hide StringEnd, LineEnd, BlockEnd, Occurs, Escaped, Here, Next;
    Head(text, i, PrintPiece(p), rest);
    NextIs(alnum, text, i);
    match p
    case Literal(raw) => QuotedOver(text, i, raw, rest);
    case Line(note) =>
      Advance(text, i, "//", note, rest);
      LineOver(text, i + 2, note, rest);
    case Block(note) =>
      Advance(text, i, "/*", note + "*/", rest);
      BlockOver(text, i + 2, note, rest);
  }

  // ---------- How far a macro reaches ----------

  /** The pieces behind the first `n` characters, unless those end inside a literal or a comment. */
  function Rest(ps: seq<Piece>, n: nat): Option<seq<Piece>> {
    if n == 0 then Some(ps)
    else if ps == [] then None
    else if |PrintPiece(ps[0])| <= n then Rest(ps[1..], n - |PrintPiece(ps[0])|)
    else if ps[0].Code? then Some([Code(ps[0].code[n..])] + ps[1..])
    else None
  }

  /** Some comment begins among the first `n` characters. */
  predicate CommentWithin(ps: seq<Piece>, n: nat) {
    n > 0 && ps != []
    && (IsNote(ps[0]) || (|PrintPiece(ps[0])| < n && CommentWithin(ps[1..], n - |PrintPiece(ps[0])|)))
  }

  /** The `x`-th character is code. */
  predicate CodeAt(ps: seq<Piece>, x: nat) {
    ps != []
    && if x < |PrintPiece(ps[0])| then ps[0].Code? else CodeAt(ps[1..], x - |PrintPiece(ps[0])|)
  }

  /** The pieces of the text from `i` on, as the scan meets them: at the next piece, or one character of
      code further. */
  function Onward(ps: seq<Piece>): seq<Piece>
    requires ps != []
  {
    if ps[0].Code? && ps[0].code != "" then [Code(ps[0].code[1..])] + ps[1..] else ps[1..]
  }

  predicate MacroHere(alnum: CharClass, text: string, i: nat, ps: seq<Piece>) {
    ps != [] && ps[0].Code? && ps[0].code != "" && MacroStart(alnum, text, i)
  }

  function Step(ps: seq<Piece>): (n: nat)
    requires ps != []
  {
    if ps[0].Code? then (if ps[0].code == "" then 0 else 1) else |PrintPiece(ps[0])|
  }

  /** No macro the scan comes to has a comment before the parenthesis that closes it. */
  ghost predicate Clear(alnum: CharClass, text: string, i: nat, ps: seq<Piece>)
    decreases |text| - i, |ps|
  {
    if ps == [] || i > |text| then true
    else if !MacroHere(alnum, text, i, ps) then
      i + Step(ps) <= |text| && Clear(alnum, text, i + Step(ps), Onward(ps))
    else
      i < |text| && MacroEnd(text, i).Some?
      && var e := MacroEnd(text, i).value;
         !CommentWithin(ps, e - i) && (Rest(ps, e - i).Some? ==> Clear(alnum, text, e, Rest(ps, e - i).value))
  }

  /** No macro the scan comes to, and that holds no comment, ends inside a string literal. */
  ghost predicate InStep(alnum: CharClass, text: string, i: nat, ps: seq<Piece>)
    decreases |text| - i, |ps|
  {
    if ps == [] || i > |text| then true
    else if !MacroHere(alnum, text, i, ps) then
      i + Step(ps) <= |text| ==> InStep(alnum, text, i + Step(ps), Onward(ps))
    else if i < |text| && MacroEnd(text, i).Some? && !CommentWithin(ps, MacroEnd(text, i).value - i) then
      var e := MacroEnd(text, i).value;
      Rest(ps, e - i).Some? && InStep(alnum, text, e, Rest(ps, e - i).value)
    else true
  }

  lemma Moves(text: string, i: nat, ps: seq<Piece>)
    requires Here(text, i, PrintPieces(ps), "") && ProperPieces(ps) && ps != []
    ensures i + Step(ps) <= |text| && Here(text, i + Step(ps), PrintPieces(Onward(ps)), "") && ProperPieces(Onward(ps))
    ensures PrintPieces(ps)[..Step(ps)] == text[i..i + Step(ps)]
    ensures Step(ps) > 0 || |Onward(ps)| < |ps|
  {
    hide Escaped, Occurs, Here, PrintPiece, PrintPieces;
    var p, more := ps[0], ps[1..];
    assert ps == [p] + more;
    PiecesOf(p, more);
    if p.Code? && p.code != "" {
      assert Onward(ps)[1..] == more;
      PiecesOf(Code(p.code[1..]), more);
      CodePrint(p.code);
      CodePrint(p.code[1..]);
      CodeCut(p.code, 1, PrintPieces(more));
      Advance(text, i, p.code[..1], p.code[1..] + PrintPieces(more), "");
      Slice(text, i, p.code[..1], p.code[1..] + PrintPieces(more) + "");
      Placed(text, i + 1, Onward(ps));
      ProperTail(p.code);
    } else {
      if p.Code? { CodePrint(p.code); }
      Advance(text, i, PrintPiece(p), PrintPieces(more), "");
      Slice(text, i, PrintPiece(p), PrintPieces(more) + "");
      Front(PrintPiece(p), PrintPieces(more));
      if !p.Code? { NotEmpty(p); }
    }
  }

  lemma NotEmpty(p: Piece)
    requires !p.Code?
    ensures PrintPiece(p) != ""
  {
  }

  lemma ProperTail(code: string)
    requires code != "" && ProperPiece(Code(code))
    ensures ProperPiece(Code(code[1..])) && PlainAt(code, 0)
  {
    forall k: nat | k < |code[1..]| ensures PlainAt(code[1..], k) { assert PlainAt(code, k + 1); }
  }

  /** What the scan does at a piece: code goes by one character at a time, anything else as a whole. */
  lemma NextPiece(alnum: CharClass, text: string, i: nat, ps: seq<Piece>)
    requires Here(text, i, PrintPieces(ps), "") && ProperPieces(ps) && ps != [] && Step(ps) > 0
    ensures i < |text|
    ensures !MacroHere(alnum, text, i, ps) ==> Next(alnum, text, i) == Some(Stretch(i + Step(ps), IsNote(ps[0])))
    ensures MacroHere(alnum, text, i, ps) ==>
              Next(alnum, text, i) == match MacroEnd(text, i) case None => None case Some(e) => Some(Stretch(e, false))
  {
    hide Next, MacroStart, MacroEnd, Escaped, Occurs, Here, PrintPieces;
    var p, rest := ps[0], PrintPieces(ps[1..]);
    assert ps == [p] + ps[1..];
    PiecesOf(p, ps[1..]);
    Advance(text, i, PrintPiece(p), rest, "");
    assert rest + "" == rest;
    if p.Code? {
      NextCode(alnum, text, i, p.code, rest);
    } else {
      StretchOver(alnum, text, i, p, rest);
    }
  }

  lemma NextCode(alnum: CharClass, text: string, i: nat, code: string, rest: string)
    requires Here(text, i, code, rest) && code != "" && PlainAt(code, 0)
    ensures i < |text|
    ensures !MacroStart(alnum, text, i) ==> Next(alnum, text, i) == Some(Stretch(i + 1, false))
    ensures MacroStart(alnum, text, i) ==>
              Next(alnum, text, i) == match MacroEnd(text, i) case None => None case Some(e) => Some(Stretch(e, false))
  {
    hide Next, MacroStart, MacroEnd, Here;
    Head(text, i, code, rest);
    NextIs(alnum, text, i);
  }

  lemma PiecesOf(p: Piece, rest: seq<Piece>)
    ensures PrintPieces([p] + rest) == PrintPiece(p) + PrintPieces(rest)
    ensures WithoutComments([p] + rest) ==
            (if IsNote(p) then Blanked(PrintPiece(p)) else PrintPiece(p)) + WithoutComments(rest)
  {
    hide Blanked, PrintPiece;
    assert ([p] + rest)[0] == p && ([p] + rest)[1..] == rest;
  }

  lemma CodeCut(code: string, n: nat, tail: string)
    requires n <= |code|
    ensures code + tail == code[..n] + (code[n..] + tail) && (code + tail)[..n] == code[..n]
  {
  }

  lemma CodePrint(code: string)
    ensures PrintPiece(Code(code)) == code
  {
  }

  lemma WithoutOne(ps: seq<Piece>)
    requires ps != []
    ensures WithoutComments(ps) ==
            (if IsNote(ps[0]) then Blanked(PrintPieces(ps)[..Step(ps)]) else PrintPieces(ps)[..Step(ps)])
            + WithoutComments(Onward(ps))
  {
    hide Blanked, PrintPiece, WithoutComments, PrintPieces;
    var p, rest := ps[0], ps[1..];
    assert ps == [p] + rest;
    PiecesOf(p, rest);
    if p.Code? {
      CodePrint(p.code);
      if p.code != "" {
        PiecesOf(Code(p.code[1..]), rest);
        CodePrint(p.code[1..]);
        CodeCut(p.code, 1, WithoutComments(rest));
        CodeCut(p.code, 1, PrintPieces(rest));
      }
    } else {
      Front(PrintPiece(p), PrintPieces(rest));
    }
  }

  lemma Front(a: string, b: string)
    ensures (a + b)[..|a|] == a
  {
  }

  /** The characters passed over hold no comment: they are what they were. */
  lemma {:induction false} WithoutRest(ps: seq<Piece>, n: nat)
    requires !CommentWithin(ps, n) && Rest(ps, n).Some? && n <= |PrintPieces(ps)|
    ensures WithoutComments(ps) == PrintPieces(ps)[..n] + WithoutComments(Rest(ps, n).value)
    decreases |ps|
  {
    hide Blanked, PrintPiece, WithoutComments, PrintPieces;
    if n == 0 {
      assert PrintPieces(ps)[..0] + WithoutComments(ps) == WithoutComments(ps);
    } else {
      var p, more := ps[0], ps[1..];
      assert ps == [p] + more;
      PiecesOf(p, more);
      var len := |PrintPiece(p)|;
      if len <= n {
        if len < n { assert !CommentWithin(more, n - len); }
        WithoutRest(more, n - len);
        Split(PrintPiece(p), PrintPieces(more), n, WithoutComments(Rest(more, n - len).value));
      } else {
        CodePrint(p.code);
        CodePrint(p.code[n..]);
        PiecesOf(Code(p.code[n..]), more);
        CodeCut(p.code, n, PrintPieces(more));
        CodeCut(p.code, n, WithoutComments(more));
      }
    }
  }

  lemma Split(a: string, b: string, n: nat, tail: string)
    requires |a| <= n <= |a| + |b|
    ensures a + (b[..n - |a|] + tail) == (a + b)[..n] + tail
  {
    assert (a + b)[..n] == a + b[..n - |a|];
  }

  lemma {:induction false} RestHere(text: string, i: nat, ps: seq<Piece>, n: nat)
    requires Here(text, i, PrintPieces(ps), "") && ProperPieces(ps) && Rest(ps, n).Some?
    ensures Here(text, i + n, PrintPieces(Rest(ps, n).value), "") && ProperPieces(Rest(ps, n).value)
    ensures n <= |PrintPieces(ps)|
    decreases |ps|
  {
    hide Escaped, Occurs, Here, PrintPiece, PrintPieces;
    if n > 0 {
      var p, more := ps[0], ps[1..];
      assert ps == [p] + more;
      PiecesOf(p, more);
      if |PrintPiece(p)| <= n {
        Advance(text, i, PrintPiece(p), PrintPieces(more), "");
        RestHere(text, i + |PrintPiece(p)|, more, n - |PrintPiece(p)|);
      } else {
        CodePrint(p.code);
        CodePrint(p.code[n..]);
        PiecesOf(Code(p.code[n..]), more);
        CodeCut(p.code, n, PrintPieces(more));
        Advance(text, i, p.code[..n], p.code[n..] + PrintPieces(more), "");
        forall k: nat | k < |p.code[n..]| ensures PlainAt(p.code[n..], k) { assert PlainAt(p.code, n + k); }
      }
    }
  }

  /** A comment that begins among the characters would have had to lose its slash. */
  lemma {:induction false} SlashWithin(ps: seq<Piece>, n: nat) returns (x: nat)
    requires CommentWithin(ps, n)
    ensures x < n && x < |PrintPieces(ps)| == |WithoutComments(ps)|
    ensures PrintPieces(ps)[x] == '/' && WithoutComments(ps)[x] == ' '
    decreases |ps|
  {
    hide IsNote, PrintPiece, Blanked;
    SameLength(ps);
    if IsNote(ps[0]) {
      StartsSlash(ps[0]);
      x := 0;
    } else {
      SameLength(ps[1..]);
      var y := SlashWithin(ps[1..], n - |PrintPiece(ps[0])|);
      x := |PrintPiece(ps[0])| + y;
    }
  }

  lemma StartsSlash(p: Piece)
    requires IsNote(p)
    ensures PrintPiece(p) != "" && PrintPiece(p)[0] == '/' && Blanked(PrintPiece(p))[0] == ' '
  {
  }

  lemma {:induction false} SameLength(ps: seq<Piece>)
    ensures |WithoutComments(ps)| == |PrintPieces(ps)|
  {
    if ps != [] { SameLength(ps[1..]); }
  }

  /** For every source of code, string literals and comments in which no comment-free macro ends inside a
      literal: exactly the comments are blanked if and only if no macro the scan comes to has a comment
      before the parenthesis that closes it. What it takes for a macro is the guard of the macro branch. */
  lemma {:induction false} StrippedExactlyIff(alnum: CharClass, text: string, i: nat, ps: seq<Piece>)
    requires Here(text, i, PrintPieces(ps), "") && ProperPieces(ps) && InStep(alnum, text, i, ps)
    ensures Stripped(alnum, text, i) == Some(WithoutComments(ps)) <==> Clear(alnum, text, i, ps)
    decreases |text| - i, |ps|
  {
    hide Next, Stripped, MacroEnd, MacroHere, Here, ProperPieces, Blanked, CommentWithin, Rest;
    hide WithoutComments, Onward, Step, PrintPieces;
    Placed(text, i, ps);
    if ps == [] {
      NothingLeft(alnum, text);
      NothingWithout();
    } else {
      Moves(text, i, ps);
      WithoutOne(ps);
      if Step(ps) == 0 {
        NoStep(alnum, text, i, ps);
        StrippedExactlyIff(alnum, text, i, Onward(ps));
      } else {
        NextPiece(alnum, text, i, ps);
        if !MacroHere(alnum, text, i, ps) {
          StrippedExactlyIff(alnum, text, i + Step(ps), Onward(ps));
          OneStretch(alnum, text, i, Stretch(i + Step(ps), IsNote(ps[0])), WithoutComments(Onward(ps)));
        } else if MacroEnd(text, i).None? {
          Raises(alnum, text, i);
        } else {
          MacroStretch(alnum, text, i, ps);
          var n := MacroEnd(text, i).value - i;
          if !CommentWithin(ps, n) {
            RestHere(text, i, ps, n);
            StrippedExactlyIff(alnum, text, i + n, Rest(ps, n).value);
          }
        }
      }
    }
  }

  lemma Placed(text: string, i: nat, ps: seq<Piece>)
    requires Here(text, i, PrintPieces(ps), "")
    ensures i <= |text| && text[i..] == PrintPieces(ps) && |text| == i + |PrintPieces(ps)|
    ensures ps == [] ==> i == |text|
  {
    assert PrintPieces(ps) + "" == PrintPieces(ps);
  }

  lemma NothingWithout()
    ensures WithoutComments([]) == ""
  {
  }

  lemma NoStep(alnum: CharClass, text: string, i: nat, ps: seq<Piece>)
    requires ps != [] && Step(ps) == 0
    ensures !MacroHere(alnum, text, i, ps) && !IsNote(ps[0])
    ensures WithoutComments(ps) == WithoutComments(Onward(ps))
  {
    if !ps[0].Code? { NotEmpty(ps[0]); }
    assert ps[0] == Code("") && Onward(ps) == ps[1..];
    hide MacroStart, Onward, PrintPieces, Blanked;
    assert "" + WithoutComments(ps[1..]) == WithoutComments(ps[1..]);
  }

  /** One stretch read right: the rest decides. */
  lemma OneStretch(alnum: CharClass, text: string, i: nat, s: Stretch, more: string)
    requires i < |text| && Next(alnum, text, i) == Some(s)
    ensures Stripped(alnum, text, i) ==
            Some((if s.comment then Blanked(text[i..s.end]) else text[i..s.end]) + more) <==>
            Stripped(alnum, text, s.end) == Some(more)
  {
    hide Next, Blanked;
    var head := if s.comment then Blanked(text[i..s.end]) else text[i..s.end];
    if Stripped(alnum, text, s.end).Some? {
      var out := Stripped(alnum, text, s.end).value;
      assert (head + out)[|head|..] == out && (head + more)[|head|..] == more;
    }
  }

  lemma Raises(alnum: CharClass, text: string, i: nat)
    requires i < |text| && Next(alnum, text, i) == None
    ensures Stripped(alnum, text, i) == None
  {
  }

  /** A macro's stretch is kept as it is, which is right exactly when no comment begins in it and the rest
      is read right. */
  lemma MacroStretch(alnum: CharClass, text: string, i: nat, ps: seq<Piece>)
    requires Here(text, i, PrintPieces(ps), "") && i < |text| && MacroEnd(text, i).Some?
    requires Next(alnum, text, i) == Some(Stretch(MacroEnd(text, i).value, false))
    ensures var n := MacroEnd(text, i).value - i;
            && (CommentWithin(ps, n) ==> Stripped(alnum, text, i) != Some(WithoutComments(ps)))
            && (!CommentWithin(ps, n) && Rest(ps, n).Some? ==>
                  (Stripped(alnum, text, i) == Some(WithoutComments(ps)) <==>
                   Stripped(alnum, text, i + n) == Some(WithoutComments(Rest(ps, n).value))))
  {
    hide Next, MacroEnd, Stripped, WithoutComments, Rest, CommentWithin;
    Placed(text, i, ps);
    var e := MacroEnd(text, i).value;
    MacroEndFits(text, i);
    var n: nat := e - i;
    if CommentWithin(ps, n) {
      var x := SlashWithin(ps, n);
      KeptWithin(alnum, text, i, e);
      assert text[i + x] == text[i..][x] == '/';
    } else if Rest(ps, n).Some? {
      WithoutRest(ps, n);
      assert PrintPieces(ps)[..n] == text[i..e];
      OneStretch(alnum, text, i, Stretch(e, false), WithoutComments(Rest(ps, n).value));
    }
  }

  lemma MacroEndFits(text: string, i: nat)
    requires i < |text| && MacroEnd(text, i).Some?
    ensures i < MacroEnd(text, i).value <= |text|
  {
  }

  lemma KeptWithin(alnum: CharClass, text: string, i: nat, e: nat)
    requires i < |text| && Next(alnum, text, i) == Some(Stretch(e, false)) && i < e <= |text|
    ensures Stripped(alnum, text, i).Some? ==>
              var out := Stripped(alnum, text, i).value;
              |out| == |text| - i && forall x :: 0 <= x < e - i ==> out[x] == text[i + x]
  {
    hide Next;
  }

  lemma NothingLeft(alnum: CharClass, text: string)
    ensures Stripped(alnum, text, |text|) == Some("")
  {
  }

  // ---------- Sources without macros, and what a macro does ----------

  /** At no character of code does the guard of the macro branch hold. */
  ghost predicate NoMacros(alnum: CharClass, text: string, i: nat, ps: seq<Piece>) {
    forall x: nat :: CodeAt(ps, x) ==> !MacroStart(alnum, text, i + x)
  }

  lemma {:induction false} NoMacrosClear(alnum: CharClass, text: string, i: nat, ps: seq<Piece>)
    requires Here(text, i, PrintPieces(ps), "") && ProperPieces(ps) && NoMacros(alnum, text, i, ps)
    ensures Clear(alnum, text, i, ps) && InStep(alnum, text, i, ps)
    decreases |text| - i, |ps|
  {
    hide MacroStart, MacroEnd, Here, ProperPieces, CommentWithin, Rest, PrintPieces;
    if ps != [] {
      Placed(text, i, ps);
      Moves(text, i, ps);
      if ps[0].Code? && ps[0].code != "" { assert CodeAt(ps, 0) && !MacroStart(alnum, text, i + 0); }
      forall x: nat | CodeAt(Onward(ps), x) ensures !MacroStart(alnum, text, i + Step(ps) + x) {
        OnwardCode(ps, x);
        assert CodeAt(ps, Step(ps) + x);
        assert i + (Step(ps) + x) == i + Step(ps) + x;
      }
      NoMacrosClear(alnum, text, i + Step(ps), Onward(ps));
    }
  }

  lemma OnwardCode(ps: seq<Piece>, x: nat)
    requires ps != []
    ensures CodeAt(Onward(ps), x) <==> CodeAt(ps, Step(ps) + x)
  {
    if ps[0].Code? && ps[0].code != "" {
      assert Onward(ps)[1..] == ps[1..];
    }
  }

  /** For every source of code, string literals and comments without a macro, exactly the comments are
      blanked: slashes and asterisks inside a literal, and quotes and braces inside a comment, mean nothing. */
  lemma CommentsStripped(alnum: CharClass, text: string, i: nat, ps: seq<Piece>)
    requires Here(text, i, PrintPieces(ps), "") && ProperPieces(ps) && NoMacros(alnum, text, i, ps)
    ensures Stripped(alnum, text, i) == Some(WithoutComments(ps))
  {
    hide *;
    NoMacrosClear(alnum, text, i, ps);
    StrippedExactlyIff(alnum, text, i, ps);
  }

  // ---------- Where a macro can end inside a literal ----------

  lemma RestOnward(ps: seq<Piece>, n: nat)
    requires ps != [] && n >= Step(ps)
    ensures Rest(ps, n).Some? <==> Rest(Onward(ps), n - Step(ps)).Some?
    ensures CommentWithin(ps, n) <==> (n > 0 && IsNote(ps[0])) || CommentWithin(Onward(ps), n - Step(ps))
  {
    hide Rest, CommentWithin;
    RestUnfolds(ps, n);
    RestUnfolds(Onward(ps), n - Step(ps));
    if ps[0].Code? && ps[0].code != "" { assert Onward(ps)[1..] == ps[1..]; }
    if n == Step(ps) { RestNone(ps[1..]); RestNone(Onward(ps)); }
  }

  lemma RestNone(ps: seq<Piece>)
    ensures Rest(ps, 0) == Some(ps) && !CommentWithin(ps, 0)
  {
  }

  lemma RestUnfolds(ps: seq<Piece>, n: nat)
    ensures n > 0 && ps != [] ==>
              var len := |PrintPiece(ps[0])|;
              && Rest(ps, n) == (if len <= n then Rest(ps[1..], n - len)
                                 else if ps[0].Code? then Some([Code(ps[0].code[n..])] + ps[1..]) else None)
              && (CommentWithin(ps, n) <==> IsNote(ps[0]) || (len < n && CommentWithin(ps[1..], n - len)))
    ensures n == 0 ==> Rest(ps, n) == Some(ps) && !CommentWithin(ps, n)
    ensures ps == [] ==> !CommentWithin(ps, n) && (n > 0 ==> Rest(ps, n) == None)
  {
    hide PrintPiece;
  }

  /** Parentheses are matched piece by piece: from code, their end is in code, unless a comment comes first. */
  lemma {:induction false} ParensInCode(text: string, j: nat, depth: int, ps: seq<Piece>)
    requires Here(text, j, PrintPieces(ps), "") && ProperPieces(ps) && ParensEnd(text, j, depth).Some?
    ensures var e := ParensEnd(text, j, depth).value;
            e >= j && (CommentWithin(ps, e - j) || Rest(ps, e - j).Some?)
    decreases |text| - j, |ps|
  {
    hide Here, ProperPieces, PrintPieces, Rest, CommentWithin, Onward, Step, StringEnd;
    Placed(text, j, ps);
    ParensEndsLater(text, j, depth);
    Moves(text, j, ps);
    var e := ParensEnd(text, j, depth).value;
    var n: nat := e - j;
    if Step(ps) == 0 {
      ParensInCode(text, j, depth, Onward(ps));
      RestOnward(ps, n);
      StepIs(text, j, ps);
    } else if IsNote(ps[0]) {
      RestUnfolds(ps, n);
    } else {
      StepIs(text, j, ps);
      if e == j + Step(ps) {
        RestOnward(ps, n);
        RestNone(Onward(ps));
      } else if ps[0].Code? {
        ParensInCode(text, j + 1,
                     depth + (if text[j] == '(' then 1 else if text[j] == ')' then -1 else 0), Onward(ps));
        RestOnward(ps, n);
      } else {
        ParensInCode(text, j + Step(ps), depth, Onward(ps));
        ParensEndsLater(text, j + Step(ps), depth);
        RestOnward(ps, n);
      }
    }
  }

  lemma ParensEndsLater(text: string, j: nat, depth: int)
    requires ParensEnd(text, j, depth).Some?
    ensures j < |text| && j < ParensEnd(text, j, depth).value <= |text|
  {
  }

  lemma StepIs(text: string, j: nat, ps: seq<Piece>)
    requires Here(text, j, PrintPieces(ps), "") && ProperPieces(ps) && ps != []
    ensures Step(ps) == 0 ==> !IsNote(ps[0])
    ensures Step(ps) > 0 ==> j < |text|
    ensures ps[0].Code? && Step(ps) > 0 ==> Step(ps) == 1 && text[j] != '"' && text[j] == ps[0].code[0]
    ensures ps[0].Literal? ==>
              text[j] == '"' && StringEnd(text, j + 1) == Some(j + Step(ps))
                  && text[j..j + Step(ps)] == Quoted(ps[0].raw)
  {
    hide Here, StringEnd, Escaped, Occurs, PrintPieces, PrintPiece;
    var p, more := ps[0], ps[1..];
    assert ps == [p] + more;
    PiecesOf(p, more);
    if p.Code? {
      CodePrint(p.code);
      if p.code != "" {
        Head(text, j, PrintPieces(ps), "");
        ProperTail(p.code);
      }
    } else {
      NotEmpty(p);
      Head(text, j, PrintPieces(ps), "");
      if p.Literal? { LiteralStep(text, j, p.raw, PrintPieces(more)); }
    }
  }

  lemma LiteralStep(text: string, j: nat, raw: string, more: string)
    requires Here(text, j, PrintPiece(Literal(raw)) + more, "") && Escaped(raw)
    ensures j < |text| && text[j] == '"' && StringEnd(text, j + 1) == Some(j + |PrintPiece(Literal(raw))|)
    ensures j + |Quoted(raw)| <= |text| && text[j..j + |Quoted(raw)|] == Quoted(raw) == PrintPiece(Literal(raw))
  {
    hide Here, StringEnd, Escaped, Quoted;
    Advance(text, j, PrintPiece(Literal(raw)), more, "");
    QuotedOver(text, j, raw, more + "");
    Slice(text, j, Quoted(raw), more + "");
  }

  lemma {:induction false} NoParenIn(text: string, j: nat, k: nat)
    requires j <= k <= |text| && '(' !in text[j..k]
    ensures FindParen(text, j) == FindParen(text, k)
    decreases k - j
  {
    if j < k {
      assert text[j] == text[j..k][0] && text[j..k][1..] == text[j + 1..k];
      NoParenIn(text, j + 1, k);
    }
  }

  ghost predicate ParensOutside(ps: seq<Piece>) {
    forall p <- ps :: p.Literal? ==> '(' !in p.raw
  }

  lemma ParenHere(text: string, j: nat)
    requires j < |text|
    ensures FindParen(text, j) >= j && (text[j] == '(' ==> FindParen(text, j) == j)
  {
  }

  lemma NoParenStep(text: string, j: nat, ps: seq<Piece>)
    requires Here(text, j, PrintPieces(ps), "") && ProperPieces(ps) && ParensOutside(ps) && ps != []
    requires Step(ps) > 0 && !IsNote(ps[0]) && (ps[0].Code? ==> j < |text| && text[j] != '(')
    ensures j + Step(ps) <= |text| && FindParen(text, j) == FindParen(text, j + Step(ps))
  {
    hide Here, ProperPieces, PrintPieces, Step, StringEnd;
    Placed(text, j, ps);
    Moves(text, j, ps);
    StepIs(text, j, ps);
    assert ps[0] in ps;
    if ps[0].Literal? {
      assert '(' !in Quoted(ps[0].raw);
      NoParenIn(text, j, j + Step(ps));
    }
  }

  lemma {:induction false} ParenInCode(text: string, j: nat, ps: seq<Piece>)
    requires Here(text, j, PrintPieces(ps), "") && ProperPieces(ps) && ParensOutside(ps) && FindParen(text, j) < |text|
    ensures var f := FindParen(text, j);
            f >= j && (CommentWithin(ps, f + 1 - j) || Rest(ps, f - j).Some?)
    decreases |text| - j, |ps|
  {
    hide *;
    Placed(text, j, ps);
    Moves(text, j, ps);
    StepIs(text, j, ps);
    var f := FindParen(text, j);
    var n: nat := f - j;
    OutsideOnward(ps);
    if Step(ps) == 0 {
      ParenInCode(text, j, Onward(ps));
      RestOnward(ps, n);
      RestOnward(ps, n + 1);
    } else if IsNote(ps[0]) {
      RestUnfolds(ps, n + 1);
    } else if ps[0].Code? && text[j] == '(' {
      ParenHere(text, j);
      RestNone(ps);
    } else {
      NoParenStep(text, j, ps);
      ParenInCode(text, j + Step(ps), Onward(ps));
      RestOnward(ps, n);
      RestOnward(ps, n + 1);
    }
  }

  lemma OutsideOnward(ps: seq<Piece>)
    requires ps != [] && ParensOutside(ps)
    ensures ParensOutside(Onward(ps))
  {
    forall p | p in Onward(ps) && p.Literal? ensures '(' !in p.raw { assert p in ps[1..]; }
  }

  lemma {:induction false} RestTwice(ps: seq<Piece>, m: nat, n: nat)
    requires Rest(ps, m).Some?
    ensures Rest(Rest(ps, m).value, n).Some? ==> Rest(ps, m + n).Some?
    ensures CommentWithin(Rest(ps, m).value, n) ==> CommentWithin(ps, m + n)
    decreases |ps|
  {
    hide Rest, CommentWithin;
    RestUnfolds(ps, m);
    RestUnfolds(ps, m + n);
    if m > 0 {
      var len := |PrintPiece(ps[0])|;
      if len <= m {
        RestTwice(ps[1..], m - len, n);
        RestNone(ps[1..]);
      } else {
        var rest := [Code(ps[0].code[m..])] + ps[1..];
        assert rest[1..] == ps[1..] && |PrintPiece(rest[0])| == len - m;
        RestUnfolds(rest, n);
        RestNone(rest);
        RestNone(ps[1..]);
      }
    }
  }

  /** Where no literal holds an opening parenthesis, a macro without comments ends in code. */
  lemma {:induction false} OutsideInStep(alnum: CharClass, text: string, i: nat, ps: seq<Piece>)
    requires Here(text, i, PrintPieces(ps), "") && ProperPieces(ps) && ParensOutside(ps)
    ensures InStep(alnum, text, i, ps)
    decreases |text| - i, |ps|
  {
    hide Here, ProperPieces, PrintPieces, Rest, CommentWithin, MacroStart, Step, ParensOutside, Onward, MacroEnd;
    if ps != [] {
      Placed(text, i, ps);
      Moves(text, i, ps);
      OutsideOnward(ps);
      if !MacroHere(alnum, text, i, ps) {
        OutsideInStep(alnum, text, i + Step(ps), Onward(ps));
      } else if i < |text| && MacroEnd(text, i).Some? && !CommentWithin(ps, MacroEnd(text, i).value - i) {
        MacroEndFits(text, i);
        MacroInCode(alnum, text, i, ps);
        var n: nat := MacroEnd(text, i).value - i;
        RestHere(text, i, ps, n);
        OutsideRest(ps, n);
        OutsideInStep(alnum, text, i + n, Rest(ps, n).value);
      }
    }
  }

  lemma {:induction false} OutsideRest(ps: seq<Piece>, n: nat)
    requires ParensOutside(ps) && Rest(ps, n).Some?
    ensures ParensOutside(Rest(ps, n).value)
    decreases |ps|
  {
    if n > 0 {
      if |PrintPiece(ps[0])| <= n {
        assert forall p <- ps[1..] :: p in ps;
        OutsideRest(ps[1..], n - |PrintPiece(ps[0])|);
      } else {
        forall p | p in Rest(ps, n).value && p.Literal? ensures '(' !in p.raw { assert p in ps[1..]; }
      }
    }
  }

  lemma MacroInCode(alnum: CharClass, text: string, i: nat, ps: seq<Piece>)
    requires Here(text, i, PrintPieces(ps), "") && ProperPieces(ps) && ParensOutside(ps)
             && MacroHere(alnum, text, i, ps)
    requires i < |text| && MacroEnd(text, i).Some? && MacroEnd(text, i).value > i
    requires !CommentWithin(ps, MacroEnd(text, i).value - i)
    ensures Rest(ps, MacroEnd(text, i).value - i).Some?
  {
    hide Here, ProperPieces, PrintPieces, Rest, CommentWithin, MacroStart, ParensOutside, FindParen, ParensEnd;
    var e, f := MacroEnd(text, i).value, FindParen(text, i + 1);
    var n: nat := e - i;
    Moves(text, i, ps);
    OutsideOnward(ps);
    if f >= |text| {
      RestOnward(ps, 1);
      RestNone(Onward(ps));
    } else {
      RestOnward(ps, n);
      ParenInCode(text, i + 1, Onward(ps));
      ParensEndsLater(text, f, 0);
      FewerComments(Onward(ps), f + 1 - (i + 1), n - 1);
      RestHere(text, i + 1, Onward(ps), f - (i + 1));
      var rest := Rest(Onward(ps), f - (i + 1)).value;
      ParensInCode(text, f, 0, rest);
      RestTwice(Onward(ps), f - (i + 1), e - f);
    }
  }

  lemma {:induction false} FewerComments(ps: seq<Piece>, m: nat, n: nat)
    requires m <= n
    ensures CommentWithin(ps, m) ==> CommentWithin(ps, n)
  {
    if ps != [] && |PrintPiece(ps[0])| < m { FewerComments(ps[1..], m - |PrintPiece(ps[0])|, n - |PrintPiece(ps[0])|); }
  }

  /** A comment begins at the `x`-th character. */
  predicate OpensComment(ps: seq<Piece>, x: nat) {
    ps != []
    && if x < |PrintPiece(ps[0])| then x == 0 && IsNote(ps[0]) else OpensComment(ps[1..], x - |PrintPiece(ps[0])|)
  }

  lemma {:induction false} SlashAt(ps: seq<Piece>, x: nat)
    requires OpensComment(ps, x)
    ensures x < |PrintPieces(ps)| == |WithoutComments(ps)|
    ensures PrintPieces(ps)[x] == '/' && WithoutComments(ps)[x] == ' '
  {
    hide Blanked, PrintPiece, WithoutComments, PrintPieces;
    var p, more := ps[0], ps[1..];
    assert ps == [p] + more;
    PiecesOf(p, more);
    SameLength(ps);
    if x < |PrintPiece(p)| {
      OpenerBlanked(p);
    } else {
      SlashAt(more, x - |PrintPiece(p)|);
    }
  }

  lemma OpenerBlanked(p: Piece)
    requires IsNote(p)
    ensures PrintPiece(p) != "" && PrintPiece(p)[0] == '/' && Blanked(PrintPiece(p))[0] == ' '
  {
  }

  /** The first macro of the source, among its code. */
  ghost predicate FirstMacro(alnum: CharClass, text: string, i: nat, ps: seq<Piece>, x: nat) {
    && CodeAt(ps, x) && MacroStart(alnum, text, i + x)
    && forall y: nat :: y < x && CodeAt(ps, y) ==> !MacroStart(alnum, text, i + y)
  }

  lemma FirstOnward(alnum: CharClass, text: string, i: nat, ps: seq<Piece>, x: nat)
    requires ps != [] && FirstMacro(alnum, text, i, ps, x)
    ensures Step(ps) > 0 && x > 0 ==> !MacroHere(alnum, text, i, ps)
    ensures Step(ps) == 0 || x > 0 ==> x >= Step(ps) && FirstMacro(alnum, text, i + Step(ps), Onward(ps), x - Step(ps))
    ensures Step(ps) > 0 && x == 0 ==> MacroHere(alnum, text, i, ps)
  {
    hide MacroStart;
    var m := Step(ps);
    if m > 0 && x > 0 && ps[0].Code? { assert CodeAt(ps, 0) && !MacroStart(alnum, text, i + 0); }
    if m == 0 || x > 0 {
      OnwardCode(ps, x - m);
      forall y: nat | y < x - m && CodeAt(Onward(ps), y) ensures !MacroStart(alnum, text, i + m + y) {
        OnwardCode(ps, y);
        assert CodeAt(ps, m + y) && i + (m + y) == i + m + y;
      }
    }
  }

  lemma StretchLater(alnum: CharClass, text: string, i: nat, s: Stretch)
    requires i < |text| && Next(alnum, text, i) == Some(s) && Stripped(alnum, text, i).Some? && i < s.end <= |text|
    ensures Stripped(alnum, text, s.end).Some?
    ensures var out, more := Stripped(alnum, text, i).value, Stripped(alnum, text, s.end).value;
            |out| == |text| - i && |more| == |text| - s.end
            && forall y :: s.end - i <= y < |out| ==> out[y] == more[y - (s.end - i)]
  {
    hide Next;
  }

  lemma {:induction false} MacroKept(alnum: CharClass, text: string, i: nat, ps: seq<Piece>, x: nat)
    requires Here(text, i, PrintPieces(ps), "") && ProperPieces(ps) && FirstMacro(alnum, text, i, ps, x)
    requires i + x < |text| && MacroEnd(text, i + x).Some? && Stripped(alnum, text, i).Some?
    ensures var out := Stripped(alnum, text, i).value;
            |out| == |text| - i && forall y :: i + x <= y < MacroEnd(text, i + x).value ==> out[y - i] == text[y]
    decreases |text| - i, |ps|
  {
    hide Next, Stripped, MacroEnd, Here, ProperPieces, Onward, Step, PrintPieces, FirstMacro, MacroHere;
    FirstNotNone(alnum, text, i, ps, x);
    Moves(text, i, ps);
    FirstOnward(alnum, text, i, ps, x);
    MacroEndFits(text, i + x);
    var m := Step(ps);
    if m == 0 {
      MacroKept(alnum, text, i, Onward(ps), x);
    } else {
      NextPiece(alnum, text, i, ps);
      if x == 0 {
        KeptWithin(alnum, text, i, MacroEnd(text, i).value);
      } else {
        assert i + m + (x - m) == i + x;
        StretchLater(alnum, text, i, Stretch(i + m, IsNote(ps[0])));
        MacroKept(alnum, text, i + m, Onward(ps), x - m);
      }
    }
  }

  lemma FirstNotNone(alnum: CharClass, text: string, i: nat, ps: seq<Piece>, x: nat)
    requires FirstMacro(alnum, text, i, ps, x)
    ensures ps != []
  {
  }

  /** In any source, from the first macro to the parenthesis that closes it every character comes through as it
      is, and when a comment begins there, not exactly the comments are blanked. */
  lemma MacroKeepsComment(alnum: CharClass, text: string, i: nat, ps: seq<Piece>, x: nat)
    requires Here(text, i, PrintPieces(ps), "") && ProperPieces(ps) && FirstMacro(alnum, text, i, ps, x)
    requires i + x < |text| && MacroEnd(text, i + x).Some? && Stripped(alnum, text, i).Some?
    ensures var out, e := Stripped(alnum, text, i).value, MacroEnd(text, i + x).value;
            && |out| == |text| - i && (forall y :: i + x <= y < e ==> out[y - i] == text[y])
            && ((exists y: nat :: x <= y < e - i && OpensComment(ps, y)) ==> out != WithoutComments(ps))
  {
    hide Stripped, MacroEnd, FirstMacro, OpensComment, WithoutComments, PrintPieces;
    MacroKept(alnum, text, i, ps, x);
    MacroEndFits(text, i + x);
    Placed(text, i, ps);
    var e := MacroEnd(text, i + x).value;
    if y: nat :| x <= y < e - i && OpensComment(ps, y) {
      SlashAt(ps, y);
      assert text[i + y] == text[i..][y] == '/';
    }
  }

  /** A comparison is enough: behind a closing parenthesis the blank before `!=` counts as a macro's name. */
  lemma ComparisonKeepsComment(alnum: CharClass)
    requires !alnum('=') && !alnum(')')
    ensures var ps := [Code("a() != b "), Line("c"), Code("\nf()")];
            && ProperPieces(ps) && PrintPieces(ps) == "a() != b //c\nf()"
            && Stripped(alnum, "a() != b //c\nf()", 0) == Some("a() != b //c\nf()") != Some(WithoutComments(ps))
  {
    hide Stripped, WithoutComments, ProperPieces, PrintPieces;
    ComparisonPieces();
    ComparisonDiffers();
    ComparisonKept(alnum, "a() != b //c\nf()");
  }

  lemma ComparisonKept(alnum: CharClass, text: string)
    requires text == "a() != b //c\nf()" && !alnum('=') && !alnum(')')
    ensures Stripped(alnum, text, 0) == Some(text)
  {
    hide Stripped, Next, MacroEnd, StringEnd, LineEnd, BlockEnd;
    assert MacroStart(alnum, text, 3);
    assert !MacroStart(alnum, text, 0) && !MacroStart(alnum, text, 1) && !MacroStart(alnum, text, 2);
    MacroToTheEnd(alnum, text);
    NextIs(alnum, text, 0);
    NextIs(alnum, text, 1);
    NextIs(alnum, text, 2);
    StrippedStep(alnum, text, 2, Stretch(3, false));
    StrippedStep(alnum, text, 1, Stretch(2, false));
    StrippedStep(alnum, text, 0, Stretch(1, false));
    assert text[0..1] + (text[1..2] + (text[2..3] + text[3..])) == text;
  }

  lemma ComparisonPieces()
    ensures var ps := [Code("a() != b "), Line("c"), Code("\nf()")];
            ProperPieces(ps) && PrintPieces(ps) == "a() != b //c\nf()"
  {
    var ps := [Code("a() != b "), Line("c"), Code("\nf()")];
    assert ps[1..] == [Line("c"), Code("\nf()")] && ps[1..][1..] == [Code("\nf()")] && ps[1..][1..][1..] == [];
  }

  lemma ComparisonDiffers()
    ensures WithoutComments([Code("a() != b "), Line("c"), Code("\nf()")]) != "a() != b //c\nf()"
  {
    var ps := [Code("a() != b "), Line("c"), Code("\nf()")];
    ComparisonPieces();
    assert ps[1..][0] == Line("c");
    assert OpensComment(ps, 9);
    SlashAt(ps, 9);
  }

  lemma MacroToTheEnd(alnum: CharClass, text: string)
    requires text == "a() != b //c\nf()" && MacroStart(alnum, text, 3)
    ensures Stripped(alnum, text, 3) == Some(text[3..])
  {
    assert text[14] == '(' && forall k :: 4 <= k < 14 ==> text[k] != '(';
    ParenAt(text, 4, 14);
    assert ParensEnd(text, 15, 1) == Some(16);
    assert MacroEnd(text, 3) == Some(16) == Some(|text|);
    NextIs(alnum, text, 3);
    NothingLeft(alnum, text);
    StrippedStep(alnum, text, 3, Stretch(16, false));
    assert text[3..16] + "" == text[3..];
  }

  lemma {:induction false} ParenAt(text: string, j: nat, k: nat)
    requires j <= k < |text| && text[k] == '(' && forall q :: j <= q < k ==> text[q] != '('
    ensures FindParen(text, j) == k
    decreases k - j
  {
    if j < k { ParenAt(text, j + 1, k); }
  }

  /** The character literal of a quote opens a string: up to the next quote nothing is blanked, and without one the
      scan raises. */
  lemma QuoteLiteralInstance(alnum: CharClass)
    ensures Stripped(alnum, "'\"' //c\n'\"'", 0) == Some("'\"' //c\n'\"'")
    ensures Stripped(alnum, "'\"'", 0) == None
  {
    QuoteKept(alnum, "'\"' //c\n'\"'");
    QuoteRaises(alnum, "'\"'");
  }

  lemma QuoteKept(alnum: CharClass, text: string)
    requires text == "'\"' //c\n'\"'"
    ensures Stripped(alnum, text, 0) == Some(text)
  {
    hide Stripped, Next, MacroEnd, StringEnd, LineEnd, BlockEnd;
    assert |text| == 11 && text[9] == '"' && forall k :: 2 <= k < 9 ==> text[k] != '"' && text[k] != '\\';
    QuoteAt(text, 2, 9);
    NextIs(alnum, text, 0);
    NextIs(alnum, text, 1);
    NextIs(alnum, text, 10);
    NothingLeft(alnum, text);
    StrippedStep(alnum, text, 10, Stretch(11, false));
    StrippedStep(alnum, text, 1, Stretch(10, false));
    StrippedStep(alnum, text, 0, Stretch(1, false));
    assert text[0..1] + (text[1..10] + (text[10..11] + "")) == text;
  }

  lemma QuoteRaises(alnum: CharClass, text: string)
    requires text == "'\"'"
    ensures Stripped(alnum, text, 0) == None
  {
    assert StringEnd(text, 2) == None;
    NextIs(alnum, text, 0);
    NextIs(alnum, text, 1);
  }

  lemma {:induction false} QuoteAt(text: string, j: nat, k: nat)
    requires j <= k < |text| && text[k] == '"' && forall q :: j <= q < k ==> text[q] != '"' && text[q] != '\\'
    ensures StringEnd(text, j) == Some(k + 1)
    decreases k - j
  {
    if j < k { QuoteAt(text, j + 1, k); }
  }
}
