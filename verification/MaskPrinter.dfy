/** Printed Rust source, and what the masker leaves of it: exactly the code. */
module MaskPrinter {
  import opened Text
  import opened SourceMasker

  datatype Piece =
    | Plain(code: string)
    | Literal(quote: char, raw: string)
    | Line(note: string)
    | Comment(note: string)
    | Letter(c: char)
    | Escape(c: char)
    | Long(escape: string)
    | Tick
    | Raw(hashes: nat, body: string)

  function Hashes(n: nat): (s: string)
    ensures |s| == n
  {
    seq(n, k => '#')
  }

  function PrintPiece(p: Piece): string {
    match p
    case Plain(code) => code
    case Literal(q, raw) => [q] + (raw + [q])
    case Line(note) => "//" + note
    case Comment(note) => "/*" + (note + "*/")
    case Letter(c) => ['\'', c, '\'']
    case Escape(c) => ['\'', '\\', c, '\'']
    case Long(escape) => "'\\" + (escape + "'")
    case Tick => "'"
    case Raw(n, body) => "r" + (Hashes(n) + ("\"" + (body + ("\"" + Hashes(n)))))
  }

  function PrintPieces(ps: seq<Piece>): string {
    if ps == [] then "" else PrintPiece(ps[0]) + PrintPieces(ps[1..])
  }

  /** Blanks and line breaks; the break behind a backslash comes one place early. */
  function Veiled(raw: string): string {
    if raw == "" then ""
    else if raw[0] == '\\' && |raw| > 1 then [Shown(raw[1]), ' '] + Veiled(raw[2..])
    else [Shown(raw[0])] + Veiled(raw[1..])
  }

  function Kept(p: Piece): string {
    match p
    case Plain(code) => code
    case Literal(_, raw) => " " + Veiled(raw) + " "
    case Line(note) => Spaces(2 + |note|)
    case Comment(note) => "  " + Blanked(note) + "  "
    case Letter(_) => Spaces(3)
    case Escape(_) => Spaces(4)
    case Long(escape) => Spaces(3 + |escape|)
    case Tick => Spaces(1)
    case Raw(n, body) => " " + Blanked(body) + Spaces(n + 1)
  }

  function OnlyCode(ps: seq<Piece>): string {
    if ps == [] then "" else Kept(ps[0]) + OnlyCode(ps[1..])
  }

  /** The inside of a string: its own quote is escaped, and every backslash escapes something. */
  predicate EscapedFor(q: char, raw: string) {
    raw == ""
    || (raw[0] == '\\' && |raw| > 1 && EscapedFor(q, raw[2..]))
    || (raw[0] != '\\' && raw[0] != q && EscapedFor(q, raw[1..]))
  }

  /** No quote, no comment, and no `r` with hashes that a quote behind the code could turn into a raw string. */
  predicate QuietAt(code: string, k: nat, rest: string)
    requires k < |code|
  {
    && !IsQuote(code[k])
    && (code[k] == '/' ==> k + 1 < |code| && code[k + 1] != '/' && code[k + 1] != '*')
    && (code[k] == 'r' ==>
          || (exists j :: k < j < |code| && code[j] != '#')
          || rest == "" || (rest[0] != '"' && rest[0] != '#'))
  }

  /** What follows the first character of an escape that has more: `x41`, `u{1F_600}`. */
  predicate EscapeChar(c: char) {
    '0' <= c <= '9' || 'a' <= c <= 'f' || 'A' <= c <= 'F' || c == '{' || c == '}' || c == '_'
  }

  lemma EscapeCharsAre(c: char)
    ensures EscapeChar(c) <==> c in "0123456789abcdefABCDEF{}_"
  {
  }

  ghost predicate ProperPiece(p: Piece, rest: string) {
    match p
    case Plain(code) => forall k: nat :: k < |code| ==> QuietAt(code, k, rest)
    case Literal(q, raw) => (q == '"' || q == '`') && EscapedFor(q, raw)
    case Line(note) => '\n' !in note && (rest == "" || rest[0] == '\n')
    case Comment(note) => !Occurs("*/", note)
    case Letter(c) => c != '\\'
    case Escape(c) => true
    case Long(escape) => |escape| >= 2 && forall k :: 1 <= k < |escape| ==> EscapeChar(escape[k])
    case Tick => |rest| < 2 || (rest[0] != '\\' && rest[1] != '\'')
    case Raw(n, body) => !Occurs("\"" + Hashes(n), body)
  }

  ghost predicate ProperPieces(ps: seq<Piece>) {
    ps == [] || (ProperPiece(ps[0], PrintPieces(ps[1..])) && ProperPieces(ps[1..]))
  }

  lemma MaskTurn(text: string, i: nat, mode: Mode)
    requires i < |text|
    ensures var m := Turn(text, i, mode); Mask(text, i, mode) == m.out + Mask(text, m.next, m.mode)
  {
    hide Turn;
  }

  // ---------- Strings and block comments, from their inside ----------

  lemma QuoteTurn(text: string, i: nat, q: char)
    requires i < |text|
    ensures Turn(text, i, Quote(q)) ==
            if text[i] == '\\' && i + 1 < |text| then Move([Shown(text[i + 1]), ' '], i + 2, Quote(q))
            else Move([Shown(text[i])], i + 1, if text[i] == q then Code else Quote(q))
  {
  }

  lemma RawStep(q: char, raw: string)
    requires EscapedFor(q, raw)
    ensures if raw == "" then Veiled(raw) == ""
            else if raw[0] == '\\' then
              |raw| > 1 && EscapedFor(q, raw[2..]) && Veiled(raw) == [Shown(raw[1]), ' '] + Veiled(raw[2..])
            else raw[0] != q && EscapedFor(q, raw[1..]) && Veiled(raw) == [Shown(raw[0])] + Veiled(raw[1..])
  {
  }

  lemma ShownBlank(c: char)
    requires c != '\n'
    ensures [Shown(c)] == " "
  {
  }

  lemma Joined(a: string, b: string, c: string, d: string)
    ensures a + (b + c + d) == a + b + c + d
  {
  }

  lemma {:induction false} LiteralOver(text: string, i: nat, q: char, raw: string, rest: string)
    requires Here(text, i, raw + [q], rest) && EscapedFor(q, raw) && q != '\\' && q != '\n'
    ensures Mask(text, i, Quote(q)) == Veiled(raw) + " " + Mask(text, i + |raw| + 1, Code)
    decreases |raw|
  {
    hide *;
    RawStep(q, raw);
    Head(text, i, raw + [q], rest);
    QuoteTurn(text, i, q);
    MaskTurn(text, i, Quote(q));
    var more := Mask(text, i + |raw| + 1, Code);
    if raw == "" {
      ShownBlank(q);
      assert "" + " " == " ";
    } else if raw[0] == '\\' {
      assert raw + [q] == raw[..2] + (raw[2..] + [q]);
      Advance(text, i, raw[..2], raw[2..] + [q], rest);
      LiteralOver(text, i + 2, q, raw[2..], rest);
      Joined([Shown(raw[1]), ' '], Veiled(raw[2..]), " ", more);
    } else {
      assert raw + [q] == raw[..1] + (raw[1..] + [q]);
      Advance(text, i, raw[..1], raw[1..] + [q], rest);
      LiteralOver(text, i + 1, q, raw[1..], rest);
      Joined([Shown(raw[0])], Veiled(raw[1..]), " ", more);
    }
  }

  lemma ClosesAt(text: string, i: nat, note: string)
    requires i + 1 < |text| && text[i] == (note + "*/")[0] && text[i + 1] == (note + "*/")[1]
    requires !Occurs("*/", note)
    ensures At(text, i, "*/") <==> note == ""
  {
    assert text[i..i + 2] == [text[i], text[i + 1]];
    if |note| > 1 { assert note[0..2] == [note[0], note[1]] && !At(note, 0, "*/"); }
  }

  lemma {:induction false} CommentOver(text: string, i: nat, note: string, rest: string)
    requires Here(text, i, note + "*/", rest) && !Occurs("*/", note)
    ensures Mask(text, i, Block) == Blanked(note) + "  " + Mask(text, i + |note| + 2, Code)
    decreases |note|
  {
    hide Occurs, At, Mask, Here, Turn;
    Head(text, i, note + "*/", rest);
    ClosesAt(text, i, note);
    BlockTurn(text, i);
    MaskTurn(text, i, Block);
    var more := Mask(text, i + |note| + 2, Code);
    if note == "" {
      assert Blanked(note) == "" && "" + "  " == "  ";
    } else {
      assert note + "*/" == note[..1] + (note[1..] + "*/");
      Advance(text, i, note[..1], note[1..] + "*/", rest);
      NoneInTail("*/", note);
      CommentOver(text, i + 1, note[1..], rest);
      assert [Shown(note[0])] + Blanked(note[1..]) == Blanked(note);
      Joined([Shown(note[0])], Blanked(note[1..]), "  ", more);
    }
  }

  lemma BlockTurn(text: string, i: nat)
    requires i < |text|
    ensures Turn(text, i, Block) ==
            if At(text, i, "*/") then Move("  ", i + 2, Code) else Move([Shown(text[i])], i + 1, Block)
  {
  }

  // ---------- Raw strings ----------

  lemma {:induction false} HashesOver(text: string, j: nat, n: nat, rest: string)
    requires Here(text, j, Hashes(n), rest) && (rest == "" || rest[0] != '#')
    ensures HashesEnd(text, j) == j + n
    decreases n
  {
    if n == 0 {
      assert text[j..] == rest;
    } else {
      Head(text, j, Hashes(n), rest);
      assert Hashes(n) == "#" + Hashes(n - 1);
      Advance(text, j, "#", Hashes(n - 1), rest);
      HashesOver(text, j + 1, n - 1, rest);
    }
  }

  lemma NotTermYet(text: string, i: nat, body: string, n: nat, rest: string)
    requires Here(text, i, body + ("\"" + Hashes(n)), rest) && body != "" && !Occurs("\"" + Hashes(n), body)
    ensures !At(text, i, "\"" + Hashes(n))
  {
    var term := "\"" + Hashes(n);
    var t := text[i..];
    assert forall q :: 0 <= q < |t| ==> t[q] == text[i + q];
    assert !At(body, 0, term);
    if |term| <= |body| {
      assert i + |term| <= |text| && text[i..i + |term|] == body[0..|term|];
    } else {
      assert text[i + |body|] == '"' && term[|body|] == '#';
      DiffersAt(text, i, term, |body|);
    }
  }

  lemma {:induction false} BodyOver(text: string, i: nat, body: string, n: nat, rest: string)
    requires Here(text, i, body + ("\"" + Hashes(n)), rest) && !Occurs("\"" + Hashes(n), body)
    ensures i <= |text| && FindFrom(text, i, "\"" + Hashes(n)) == i + |body|
    decreases |body|
  {
    hide Occurs, At;
    var term := "\"" + Hashes(n);
    Head(text, i, body + term, rest);
    if body == "" {
      assert body + term == term;
      Slice(text, i, term, rest);
      assert At(text, i, term) by { Found(text, i, term); }
    } else {
      NotTermYet(text, i, body, n, rest);
      assert body + term == body[..1] + (body[1..] + term);
      Advance(text, i, body[..1], body[1..] + term, rest);
      NoneInTail(term, body);
      BodyOver(text, i + 1, body[1..], n, rest);
    }
  }

  lemma Found(text: string, i: nat, pat: string)
    requires i + |pat| <= |text| && text[i..i + |pat|] == pat
    ensures At(text, i, pat)
  {
  }

  lemma RawPrint(n: nat, body: string)
    ensures PrintPiece(Raw(n, body)) == "r" + (Hashes(n) + ("\"" + (body + ("\"" + Hashes(n)))))
  {
  }

  lemma OneChar(text: string, i: nat, c: char, more: string, rest: string)
    requires Here(text, i, [c] + more, rest)
    ensures i < |text| && text[i] == c && Here(text, i + 1, more, rest)
  {
    hide Here;
    Head(text, i, [c] + more, rest);
    Advance(text, i, [c], more, rest);
  }

  lemma HashOrQuote(text: string, i: nat, n: nat, tail: string, rest: string)
    requires Here(text, i, Hashes(n) + tail, rest) && tail != "" && tail[0] == '"'
    ensures i < |text| && (text[i] == '"' || text[i] == '#')
    ensures HashesEnd(text, i) == i + n && Here(text, i + n, tail, rest)
  {
    hide Here, HashesEnd;
    Head(text, i, Hashes(n) + tail, rest);
    Advance(text, i, Hashes(n), tail, rest);
    HashesOver(text, i, n, tail + rest);
  }

  lemma RawOpener(text: string, i: nat, n: nat, more: string, rest: string)
    requires Here(text, i, "r" + (Hashes(n) + ("\"" + more)), rest)
    ensures RawOpens(text, i) && HashesEnd(text, i + 1) == i + 1 + n && Here(text, i + 2 + n, more, rest)
  {
    hide Here, HashesEnd, Hashes;
    var tail := "\"" + more;
    OneChar(text, i, 'r', Hashes(n) + tail, rest);
    HashOrQuote(text, i + 1, n, tail, rest);
    OneChar(text, i + 1 + n, '"', more, rest);
  }

  lemma RawOver(text: string, i: nat, n: nat, body: string, rest: string)
    requires Here(text, i, PrintPiece(Raw(n, body)), rest) && !Occurs("\"" + Hashes(n), body)
    ensures i < |text| && Turn(text, i, Code) == Move(Kept(Raw(n, body)), i + |PrintPiece(Raw(n, body))|, Code)
  {
    hide Here, Occurs, FindFrom, HashesEnd, At, Hashes, PrintPiece, Blanked, Spaces, RawOpens;
    var term := "\"" + Hashes(n);
    RawPrint(n, body);
    RawOpener(text, i, n, body + term, rest);
    TerminatorIs(text, i, n);
    BodyOver(text, i + 2 + n, body, n, rest);
    Advance(text, i + 2 + n, body, term, rest);
    Slice(text, i + 2 + n, body, term + rest);
    Head(text, i + 2 + n + |body|, term, rest);
    RawTurn(text, i);
  }

  lemma RawTurn(text: string, i: nat)
    requires RawOpens(text, i)
    ensures Turn(text, i, Code) == RawMove(text, i)
  {
    hide HashesEnd, RawMove;
  }

  lemma TerminatorIs(text: string, i: nat, n: nat)
    requires RawOpens(text, i) && HashesEnd(text, i + 1) == i + 1 + n
    ensures Terminator(text, i) == "\"" + Hashes(n)
  {
    hide HashesEnd;
  }

  // ---------- Code ----------

  lemma {:induction false} HashesStop(text: string, j: nat, k: nat)
    requires j <= k < |text| && text[k] != '#'
    ensures HashesEnd(text, j) <= k
    ensures forall q :: j <= q < HashesEnd(text, j) ==> text[q] == '#'
    decreases k - j
  {
    if j < k && text[j] == '#' { HashesStop(text, j + 1, k); }
  }

  /** Hashes behind an `r` stop before any quote does. */
  lemma NotRaw(text: string, i: nat, code: string, k: nat, rest: string)
    requires Here(text, i, code, rest) && k < |code| && code[k] == 'r' && forall q: nat :: q < |code| ==>
             QuietAt(code, q, rest)
    ensures !RawOpens(text, i + k)
  {
    hide HashesEnd;
    var t := text[i..];
    assert forall q :: 0 <= q < |t| ==> t[q] == text[i + q];
    assert QuietAt(code, k, rest);
    var e := HashesEnd(text, i + k + 1);
    var stop := if j :| k < j < |code| && code[j] != '#' then j else |code|;
    if i + stop < |text| {
      assert text[i + stop] == if stop < |code| then code[stop] else rest[0];
      HashesStop(text, i + k + 1, i + stop);
      assert e - i < |code| ==> text[e] == code[e - i] && QuietAt(code, e - i, rest);
    }
  }

  lemma CodeStep(text: string, i: nat, code: string, k: nat, rest: string)
    requires Here(text, i, code, rest) && k < |code| && forall q: nat :: q < |code| ==> QuietAt(code, q, rest)
    ensures i + k < |text| && Turn(text, i + k, Code) == Move([code[k]], i + k + 1, Code)
  {
    hide HashesEnd;
    var t := text[i..];
    assert forall q :: 0 <= q < |t| ==> t[q] == text[i + q];
    assert QuietAt(code, k, rest) && text[i + k] == code[k];
    assert code[k] == '/' ==> text[i + k + 1] == code[k + 1];
    if code[k] == 'r' { NotRaw(text, i, code, k, rest); }
    assert !RawOpens(text, i + k);
  }

  lemma {:induction false} CodeOver(text: string, i: nat, code: string, k: nat, rest: string)
    requires Here(text, i, code, rest) && k <= |code| && forall q: nat :: q < |code| ==> QuietAt(code, q, rest)
    ensures Mask(text, i + k, Code) == code[k..] + Mask(text, i + |code|, Code)
    decreases |code| - k
  {
    hide QuietAt, Here, Turn, Mask;
    var more := Mask(text, i + |code|, Code);
    if k == |code| {
      assert code[k..] + more == more;
    } else {
      CodeStep(text, i, code, k, rest);
      MaskTurn(text, i + k, Code);
      CodeOver(text, i, code, k + 1, rest);
      assert [code[k]] + (code[k + 1..] + more) == code[k..] + more;
    }
  }

  // ---------- A whole source ----------

  lemma LiteralPiece(text: string, i: nat, q: char, raw: string, rest: string)
    requires Here(text, i, PrintPiece(Literal(q, raw)), rest) && ProperPiece(Literal(q, raw), rest)
    ensures i < |text|
    ensures Mask(text, i, Code) == Kept(Literal(q, raw)) + Mask(text, i + |PrintPiece(Literal(q, raw))|, Code)
  {
    hide Here, EscapedFor, Mask, Veiled;
    Head(text, i, PrintPiece(Literal(q, raw)), rest);
    assert Turn(text, i, Code) == Move(" ", i + 1, Quote(q));
    MaskTurn(text, i, Code);
    Advance(text, i, [q], raw + [q], rest);
    LiteralOver(text, i + 1, q, raw, rest);
  }

  lemma CommentPiece(text: string, i: nat, note: string, rest: string)
    requires Here(text, i, PrintPiece(Comment(note)), rest) && ProperPiece(Comment(note), rest)
    ensures i < |text|
    ensures Mask(text, i, Code) == Kept(Comment(note)) + Mask(text, i + |PrintPiece(Comment(note))|, Code)
  {
    hide Here, Occurs, Mask, Blanked;
    Head(text, i, PrintPiece(Comment(note)), rest);
    assert Turn(text, i, Code) == Move("  ", i + 2, Block);
    MaskTurn(text, i, Code);
    Advance(text, i, "/*", note + "*/", rest);
    CommentOver(text, i + 2, note, rest);
  }

  lemma LinePiece(text: string, i: nat, note: string, rest: string)
    requires Here(text, i, PrintPiece(Line(note)), rest) && ProperPiece(Line(note), rest)
    ensures i < |text| && Turn(text, i, Code) == Move(Kept(Line(note)), i + 2 + |note|, Code)
  {
    hide Here, LineEnd;
    Head(text, i, PrintPiece(Line(note)), rest);
    Advance(text, i, "//", note, rest);
    LineOver(text, i + 2, note, rest);
  }

  lemma CharPiece(text: string, i: nat, p: Piece, rest: string)
    requires p.Letter? || p.Escape? || p.Tick?
    requires Here(text, i, PrintPiece(p), rest) && ProperPiece(p, rest)
    ensures i < |text| && Turn(text, i, Code) == Move(Kept(p), i + |PrintPiece(p)|, Code)
  {
    var t := text[i..];
    assert forall q :: 0 <= q < |t| ==> t[q] == text[i + q];
    assert t == PrintPiece(p) + rest;
    assert CharEnd(text, i) == i + |PrintPiece(p)|;
  }

  /** Only the first character of an escape is looked at: of a longer one the rest is left as code, and the closing
      quote is read as an opening one. */
  lemma LongLeaves(text: string, i: nat, escape: string, rest: string)
    requires Here(text, i, PrintPiece(Long(escape)), rest) && ProperPiece(Long(escape), rest)
    ensures i + |escape| + 2 < |text| && text[i + |escape| + 2] == '\''
    ensures Mask(text, i, Code) == "   " + (escape[1..] + Mask(text, i + |escape| + 2, Code))
  {
    hide *;
    LongOpens(text, i, escape, rest);
    LongParts(text, i, escape, rest);
    var more := escape[1..];
    Head(text, i + 3 + |more|, "'", rest);
    MaskTurn(text, i, Code);
    PlainEscape(escape, rest, "'" + rest);
    CodeOver(text, i + 3, more, 0, "'" + rest);
    assert more[0..] == more;
  }

  lemma LongParts(text: string, i: nat, escape: string, rest: string)
    requires Here(text, i, PrintPiece(Long(escape)), rest) && |escape| >= 2
    ensures Here(text, i + 3, escape[1..], "'" + rest) && Here(text, i + 2 + |escape|, "'", rest)
  {
    LongPrint(escape);
    hide *;
    var first, more := "'\\" + escape[..1], escape[1..];
    Advance(text, i, first, more + "'", rest);
    Advance(text, i + 3, more, "'", rest);
  }

  lemma LongPrint(escape: string)
    requires |escape| >= 2
    ensures PrintPiece(Long(escape)) == "'\\" + escape[..1] + (escape[1..] + "'")
  {
    assert escape == escape[..1] + escape[1..];
  }

  lemma PlainEscape(escape: string, rest: string, after: string)
    requires ProperPiece(Long(escape), rest)
    ensures |escape| >= 2 && forall k: nat :: k < |escape[1..]| ==> QuietAt(escape[1..], k, after)
  {
  }

  lemma LongOpens(text: string, i: nat, escape: string, rest: string)
    requires Here(text, i, PrintPiece(Long(escape)), rest) && ProperPiece(Long(escape), rest)
    ensures |escape| >= 2 && i + 3 < |text| && Turn(text, i, Code) == Move("   ", i + 3, Code)
  {
    var t := text[i..];
    assert forall q :: 0 <= q < |t| ==> t[q] == text[i + q];
    assert t == PrintPiece(Long(escape)) + rest;
    assert t[0] == '\'' && t[1] == '\\' && t[3] == escape[1];
    assert CharEnd(text, i) == i + 3;
  }

  ghost predicate ShortEscapes(ps: seq<Piece>) {
    forall p <- ps :: !p.Long?
  }

  /** For every source written as code, literals and comments: masking keeps exactly the code, and blanks the rest,
      each literal and comment in its own length but for a raw string's opener, if and only if no character literal
      has an escape of more than one character. */
  lemma {:induction false} MaskExactIff(text: string, i: nat, ps: seq<Piece>)
    requires Here(text, i, PrintPieces(ps), "") && ProperPieces(ps)
    ensures Mask(text, i, Code) == OnlyCode(ps) <==> ShortEscapes(ps)
    decreases |ps|
  {
    hide Turn, Mask, PrintPiece, Kept, ProperPiece;
    if ps == [] {
      assert text[i..] == "";
      MaskEnd(text);
    } else {
      var p, rest := ps[0], PrintPieces(ps[1..]);
      assert ps == [p] + ps[1..] && PrintPieces(ps) == PrintPiece(p) + rest;
      Advance(text, i, PrintPiece(p), rest, "");
      assert rest + "" == rest;
      if p.Long? {
        LongLeaves(text, i, p.escape, rest);
        LongLost(p.escape, Mask(text, i + |p.escape| + 2, Code), OnlyCode(ps[1..]), rest);
      } else {
        MaskExactIff(text, i + |PrintPiece(p)|, ps[1..]);
        OnePiece(text, i, p, rest);
        SamePrefix(Kept(p), Mask(text, i + |PrintPiece(p)|, Code), OnlyCode(ps[1..]));
      }
    }
  }

  lemma LongLost(escape: string, more: string, other: string, rest: string)
    requires ProperPiece(Long(escape), rest)
    ensures "   " + (escape[1..] + more) != Kept(Long(escape)) + other
  {
    var a, b := "   " + (escape[1..] + more), Kept(Long(escape)) + other;
    assert EscapeChar(escape[1]) && a[3] == escape[1] && b[3] == ' ';
  }

  lemma MaskExact(text: string, i: nat, ps: seq<Piece>)
    requires Here(text, i, PrintPieces(ps), "") && ProperPieces(ps) && ShortEscapes(ps)
    ensures Mask(text, i, Code) == OnlyCode(ps)
  {
    hide *;
    MaskExactIff(text, i, ps);
  }

  lemma MaskEnd(text: string)
    ensures Mask(text, |text|, Code) == ""
  {
  }

  lemma OnePiece(text: string, i: nat, p: Piece, rest: string)
    requires Here(text, i, PrintPiece(p), rest) && ProperPiece(p, rest) && !p.Long?
    ensures i + |PrintPiece(p)| <= |text|
    ensures Mask(text, i, Code) == Kept(p) + Mask(text, i + |PrintPiece(p)|, Code)
  {
    hide Turn, Mask, Here, EscapedFor, Occurs, Kept;
    Slice(text, i, PrintPiece(p), rest);
    match p
    case Plain(code) =>
      CodeOver(text, i, code, 0, rest);
      assert code[0..] == code;
      assert Kept(p) == code by { PlainKept(code); }
    case Literal(q, raw) => LiteralPiece(text, i, q, raw, rest);
    case Line(note) => LinePiece(text, i, note, rest); MaskTurn(text, i, Code);
    case Comment(note) => CommentPiece(text, i, note, rest);
    case Letter(_) => CharPiece(text, i, p, rest); MaskTurn(text, i, Code);
    case Escape(_) => CharPiece(text, i, p, rest); MaskTurn(text, i, Code);
    case Tick => CharPiece(text, i, p, rest); MaskTurn(text, i, Code);
    case Raw(n, body) => RawOver(text, i, n, body, rest); MaskTurn(text, i, Code);
  }

  lemma PlainKept(code: string)
    ensures Kept(Plain(code)) == code
  {
  }

  lemma MaskSource(ps: seq<Piece>)
    requires ProperPieces(ps) && ShortEscapes(ps)
    ensures Masked(PrintPieces(ps)) == OnlyCode(ps)
  {
    hide ProperPieces, PrintPieces, OnlyCode, Mask;
    var text := PrintPieces(ps);
    assert text[0..] == text + "" == text;
    MaskExact(text, 0, ps);
  }

  /** Digits of an escape come out as code, and so does a brace out of the literal behind it. */
  lemma LongInstance()
    ensures Masked("'\\x41','}'") == "   41   } "
  {
    hide *;
    var text := "'\\x41','}'";
    LongText(text);
    LongLeaves(text, 0, "x41", ",'}'");
    CommaLiteral(text);
    assert "x41"[1..] == "41";
  }

  lemma LongText(text: string)
    requires text == "'\\x41','}'"
    ensures Here(text, 0, PrintPiece(Long("x41")), ",'}'") && ProperPiece(Long("x41"), ",'}'")
    ensures Masked(text) == Mask(text, 0, Code)
  {
    hide Mask;
    assert text[0..] == PrintPiece(Long("x41")) + ",'}'";
  }

  lemma CommaLiteral(text: string)
    requires |text| == 10 && text[5] == '\'' && text[6] == ',' && text[7] == '\'' && text[8] == '}' && text[9] == '\''
    ensures Mask(text, 5, Code) == "   } "
  {
    hide Mask;
    MaskTurn(text, 5, Code);
    MaskTurn(text, 8, Code);
    MaskTurn(text, 9, Code);
    MaskEnd(text);
    assert CharEnd(text, 5) == 8 && CharEnd(text, 9) == 10;
    assert Mask(text, 9, Code) == " ";
  }
}
