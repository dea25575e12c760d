/** Blanking the `<Localized>` elements of a source file, whose children are deliberate fallback copy. */
module LocalizedEraser {
  import opened Options
  import opened Text

  const OPEN := "<Localized"
  const CLOSE := "</Localized>"

  predicate OpensValue(c: char) {
    c == '"' || c == '\''
  }

  // ---------- What is erased ----------

  /** How far the tag's `>` is, past quoted values; the length of the text when there is none. */
  function TagLen(s: string, quote: Option<char>): (n: nat)
    ensures n <= |s|
  {
    if s == "" then 0
    else if quote.Some? then 1 + TagLen(s[1..], if s[0] == quote.value then None else quote)
    else if OpensValue(s[0]) then 1 + TagLen(s[1..], Some(s[0]))
    else if s[0] == '>' then 0
    else 1 + TagLen(s[1..], None)
  }

  /** Where the opening tag at the start of the text ends. */
  function TagEnd(s: string): (m: nat)
    requires At(s, 0, OPEN)
    ensures |OPEN| <= m <= |s|
  {
    |OPEN| + TagLen(s[|OPEN|..], None)
  }

  /** How much more of the text belongs to an element inside which we are `depth` deep. */
  function CloseLen(s: string, depth: nat): (n: nat)
    ensures n <= |s|
    decreases |s|
  {
    if s == "" || depth == 0 then 0
    else if At(s, 0, CLOSE) then |CLOSE| + CloseLen(s[|CLOSE|..], depth - 1)
    else if At(s, 0, OPEN) then
      var m := TagEnd(s);
      if m >= |s| then |s| else m + 1 + CloseLen(s[m + 1..], if s[m - 1] == '/' then depth else depth + 1)
    else 1 + CloseLen(s[1..], depth)
  }

  /** The extent of the element at the start of the text, or 0 when no complete opening tag is there. */
  function SpanLen(s: string): (n: nat)
    ensures n <= |s|
  {
    if !At(s, 0, OPEN) || TagEnd(s) >= |s| then 0
    else if s[TagEnd(s) - 1] == '/' then TagEnd(s) + 1
    else TagEnd(s) + 1 + CloseLen(s[TagEnd(s) + 1..], 1)
  }

  function Erased(s: string): string {
    if s == "" then ""
    else if SpanLen(s) == 0 then [s[0]] + Erased(s[1..])
    else Blanked(s[..SpanLen(s)]) + Erased(s[SpanLen(s)..])
  }

  // ---------- The loops ----------

  /** `str.startswith(pat, k)` */
  lemma StartsWith(src: string, k: nat, pat: string)
    requires k <= |src|
    ensures At(src[k..], 0, pat) <==> At(src, k, pat)
  {
    if k + |pat| <= |src| { assert src[k..][0..|pat|] == src[k..k + |pat|]; }
  }

  method ScanTag(src: string, from: nat) returns (j: nat)
    requires from <= |src|
    ensures j == from + TagLen(src[from..], None)
  {
    j := from;
    var quote := None;
    while j < |src|
      invariant from <= j <= |src| && j + TagLen(src[j..], quote) == from + TagLen(src[from..], None)
    {
      assert src[j..][1..] == src[j + 1..];
      var c := src[j];
      if quote.Some? {
        if c == quote.value { quote := None; }
      } else if OpensValue(c) {
        quote := Some(c);
      } else if c == '>' {
        break;
      }
      j := j + 1;
    }
  }

  lemma CloseStep(src: string, k: nat, depth: nat)
    requires k < |src| && depth > 0
    ensures At(src, k, CLOSE) ==>
              CloseLen(src[k..], depth) == |CLOSE| + CloseLen(src[k + |CLOSE|..], depth - 1)
    ensures !At(src, k, CLOSE) && !At(src, k, OPEN) ==>
              CloseLen(src[k..], depth) == 1 + CloseLen(src[k + 1..], depth)
    ensures !At(src, k, CLOSE) && At(src, k, OPEN) ==>
              var m := k + |OPEN| + TagLen(src[k + |OPEN|..], None);
              CloseLen(src[k..], depth) ==
              if m >= |src| then |src| - k
              else m + 1 - k + CloseLen(src[m + 1..], if src[m - 1] == '/' then depth else depth + 1)
  {
    hide TagLen, At, CloseLen;
    AtBounds(src, k);
    StartsWith(src, k, CLOSE);
    StartsWith(src, k, OPEN);
    var s := src[k..];
    CloseUnfolds(s, depth);
    forall n | 0 <= n <= |s| ensures s[n..] == src[k + n..] { }
  }

  lemma CloseUnfolds(s: string, depth: nat)
    requires s != "" && depth > 0
    ensures CloseLen(s, depth) ==
            if At(s, 0, CLOSE) then |CLOSE| + CloseLen(s[|CLOSE|..], depth - 1)
            else if At(s, 0, OPEN) then
              var m := TagEnd(s);
              if m >= |s| then |s| else m + 1 + CloseLen(s[m + 1..], if s[m - 1] == '/' then depth else depth + 1)
            else 1 + CloseLen(s[1..], depth)
  {
    hide TagLen, At;
  }

  lemma AtBounds(src: string, k: nat)
    ensures At(src, k, CLOSE) ==> k + |CLOSE| <= |src|
    ensures At(src, k, OPEN) ==> k + |OPEN| <= |src|
    ensures |OPEN| == 10
  {
  }

  method ScanElement(src: string, from: nat) returns (k: nat)
    requires from <= |src|
    ensures k >= from && (if k <= |src| then k else |src|) == from + CloseLen(src[from..], 1)
  {
    hide At, TagLen, CloseLen;
    var depth := 1;
    k := from;
    while k < |src| && depth > 0
      invariant from <= k
      invariant (if k <= |src| then k + CloseLen(src[k..], depth) else |src|) == from + CloseLen(src[from..], 1)
      decreases |src| - k
    {
      CloseStep(src, k, depth);
      AtBounds(src, k);
      if At(src, k, CLOSE) {
        depth := depth - 1;
        k := k + |CLOSE|;
        if depth == 0 { break; }
        continue;
      }
      if At(src, k, OPEN) {
        var m2 := ScanTag(src, k + |OPEN|);
        if m2 < |src| && src[m2 - 1] != '/' { depth := depth + 1; }
        k := m2 + 1;
        continue;
      }
      k := k + 1;
    }
    if k <= |src| { CloseDone(src[k..], depth); }
  }

  lemma CloseDone(s: string, depth: nat)
    requires s == "" || depth == 0
    ensures CloseLen(s, depth) == 0
  {
  }

  /** `src.find("<Localized", i)`: what is passed over is kept. */
  method FindOpen(src: string, i: nat) returns (start: nat)
    requires i <= |src|
    ensures i <= start <= |src| && (start < |src| ==> At(src, start, OPEN))
    ensures Erased(src[i..]) == src[i..start] + Erased(src[start..])
  {
    hide *;
    start := i;
    while start < |src| && !At(src, start, OPEN)
      invariant i <= start <= |src| && Erased(src[i..]) == src[i..start] + Erased(src[start..])
    {
      StartsWith(src, start, OPEN);
      NoSpan(src[start..]);
      KeepOne(src, i, start);
      start := start + 1;
    }
  }

  lemma NoSpan(s: string)
    requires !At(s, 0, OPEN)
    ensures SpanLen(s) == 0
  {
  }

  lemma KeepOne(src: string, i: nat, k: nat)
    requires i <= k < |src| && SpanLen(src[k..]) == 0
    ensures src[i..k] + Erased(src[k..]) == src[i..k + 1] + Erased(src[k + 1..])
  {
    hide SpanLen;
    assert src[k..][1..] == src[k + 1..];
    assert src[i..k + 1] == src[i..k] + [src[k]];
    assert src[i..k + 1] + Erased(src[k + 1..]) == src[i..k] + ([src[k]] + Erased(src[k + 1..]));
  }

  lemma SpanIs(src: string, start: nat)
    requires start < |src| && At(src, start, OPEN)
    ensures var j := start + |OPEN| + TagLen(src[start + |OPEN|..], None);
            SpanLen(src[start..]) ==
            if j >= |src| then 0
            else if src[j - 1] == '/' then j + 1 - start
            else j + 1 - start + CloseLen(src[j + 1..], 1)
  {
    hide At, TagLen, CloseLen;
    AtBounds(src, start);
    StartsWith(src, start, OPEN);
    var s := src[start..];
    assert forall n :: 0 <= n <= |s| ==> s[n..] == src[start + n..];
  }

  /** Up to `i` the buffer is as it should end; from there it is still the source. */
  ghost predicate Done(out: string, src: string, i: nat) {
    i <= |src| == |out| && out[i..] == src[i..] && out[..i] + Erased(src[i..]) == Erased(src)
  }

  lemma SameRest(out: string, src: string, i: nat, k: nat)
    requires i <= k <= |src| == |out| && out[i..] == src[i..]
    ensures out[i..k] == src[i..k] && out[k..] == src[k..]
  {
    assert out[i..][..k - i] == out[i..k] && src[i..][..k - i] == src[i..k];
    assert out[i..][k - i..] == out[k..] && src[i..][k - i..] == src[k..];
  }

  lemma DoneFrom(out: string, src: string, i: nat, k: nat)
    requires Done(out, src, i) && i <= k <= |src| && Erased(src[i..]) == src[i..k] + Erased(src[k..])
    ensures Done(out, src, k)
  {
    hide Erased;
    SameRest(out, src, i, k);
    assert out[..k] == out[..i] + out[i..k];
    assert out[..i] + (src[i..k] + Erased(src[k..])) == out[..k] + Erased(src[k..]);
  }

  lemma DoneBlank(out: string, src: string, i: nat, k: nat, next: string)
    requires Done(out, src, i) && i <= k <= |src| && Erased(src[i..]) == Blanked(src[i..k]) + Erased(src[k..])
    requires |next| == |out| && next[..k] == out[..i] + Blanked(out[i..k]) && next[k..] == out[k..]
    ensures Done(next, src, k)
  {
    hide Blanked, Erased;
    SameRest(out, src, i, k);
    assert out[..i] + (Blanked(src[i..k]) + Erased(src[k..])) == next[..k] + Erased(src[k..]);
  }

  lemma DoneStart(out: string, src: string)
    requires out == src
    ensures Done(out, src, 0)
  {
    assert src[0..] == src && out[..0] == "";
  }

  lemma DoneEnd(out: string, src: string)
    requires Done(out, src, |src|)
    ensures out == Erased(src)
  {
    assert src[|src|..] == "" && out[..|src|] == out;
  }

  method BlankLocalizedSubtrees(src: string) returns (out: array<char>)
    ensures fresh(out) && out[..] == Erased(src)
  {
    hide *;
    out := new char[|src|](x requires 0 <= x < |src| => src[x]);
    var i := 0;
    DoneStart(out[..], src);
    while true
      invariant i <= |src| && out.Length == |src| && fresh(out) && Done(out[..], src, i)
      decreases |src| - i
    {
      var start := FindOpen(src, i);
      DoneFrom(out[..], src, i, start);
      if start >= |src| { break; }
      SpanIs(src, start);
      AtBounds(src, start);
      var j := ScanTag(src, start + |OPEN|);
      if j >= |src| {
        KeepOne(src, start, start);
        OneKept(src, start);
        DoneFrom(out[..], src, start, start + 1);
        i := start + 1;
        continue;
      }
      var end: nat;
      if src[j - 1] == '/' {
        end := j + 1;
      } else {
        end := ScanElement(src, j + 1);
      }
      var stop := if end <= |src| then end else |src|;
      EraseSpan(src, start, stop);
      ghost var before := out[..];
      BlankRange(out, start, stop);
      DoneBlank(before, src, start, stop, out[..]);
      i := stop;
    }
    DoneEnd(out[..], src);
  }

  lemma OneKept(src: string, k: nat)
    requires k < |src| && src[k..k] + Erased(src[k..]) == src[k..k + 1] + Erased(src[k + 1..])
    ensures Erased(src[k..]) == src[k..k + 1] + Erased(src[k + 1..])
  {
    assert src[k..k] + Erased(src[k..]) == Erased(src[k..]);
  }

  lemma NothingLeft()
    ensures Erased("") == ""
  {
  }

  lemma EraseSpan(src: string, start: nat, stop: nat)
    requires start < stop <= |src| && stop - start == SpanLen(src[start..])
    ensures Erased(src[start..]) == Blanked(src[start..stop]) + Erased(src[stop..])
  {
    hide SpanLen;
    assert src[start..][..stop - start] == src[start..stop] && src[start..][stop - start..] == src[stop..];
  }

  // ---------- Every input ----------

  lemma {:induction false} ErasedLength(s: string)
    ensures |Erased(s)| == |s|
  {
    hide SpanLen;
    if s != "" { ErasedLength(if SpanLen(s) == 0 then s[1..] else s[SpanLen(s)..]); }
  }

  /** Every newline keeps its place; every other character is unchanged or a space. */
  lemma {:induction false} ErasedEach(s: string, x: nat)
    requires x < |s|
    ensures |Erased(s)| == |s|
    ensures Erased(s)[x] == s[x] || Erased(s)[x] == ' '
    ensures Erased(s)[x] == '\n' <==> s[x] == '\n'
  {
    hide SpanLen;
    ErasedLength(s);
    if SpanLen(s) == 0 {
      if x > 0 { ErasedEach(s[1..], x - 1); }
    } else if x >= SpanLen(s) {
      ErasedEach(s[SpanLen(s)..], x - SpanLen(s));
    }
  }

  /** So a position reported in the erased text is on the line it has in the source. */
  lemma {:induction false} LinesAgree(s: string, pos: nat)
    requires pos <= |s|
    ensures |Erased(s)| == |s| && Breaks(Erased(s)[..pos]) == Breaks(s[..pos])
  {
    hide Erased;
    ErasedLength(s);
    if pos > 0 {
      ErasedEach(s, pos - 1);
      LinesAgree(s, pos - 1);
      BreaksLast(s, pos - 1);
      BreaksLast(Erased(s), pos - 1);
    }
  }

  lemma BreaksLast(s: string, n: nat)
    requires n < |s|
    ensures Breaks(s[..n + 1]) == Breaks(s[..n]) + if s[n] == '\n' then 1 else 0
  {
    assert s[..n + 1] == s[..n] + [s[n]];
    BreaksAppend(s[..n], [s[n]]);
    assert [s[n]][1..] == "";
  }

  // ---------- Printed elements ----------

  datatype Piece = Plain(text: string) | Quoted(quote: char, value: string)

  function PrintPiece(p: Piece): string {
    match p
    case Plain(text) => text
    case Quoted(q, value) => [q] + value + [q]
  }

  function PrintPieces(ps: seq<Piece>): string {
    if ps == [] then "" else PrintPiece(ps[0]) + PrintPieces(ps[1..])
  }

  predicate ProperPiece(p: Piece) {
    match p
    case Plain(text) => forall c <- text :: !OpensValue(c) && c != '>'
    case Quoted(q, value) => OpensValue(q) && q !in value
  }

  /** Text interleaved with elements, each self-closing or with a forest of its own inside, and with openers that
      nothing closes, like the tag of another component whose name begins alike. */
  datatype Forest =
    | Nothing
    | Words(text: string, rest: Forest)
    | SelfClosing(attrs: seq<Piece>, rest: Forest)
    | Element(attrs: seq<Piece>, children: Forest, rest: Forest)
    | Stray(tag: seq<Piece>, rest: Forest)

  function Print(f: Forest): string {
    match f
    case Nothing => ""
    case Words(text, rest) => text + Print(rest)
    case SelfClosing(attrs, rest) => OPEN + (PrintPieces(attrs) + "/") + ">" + Print(rest)
    case Element(attrs, children, rest) =>
      OPEN + PrintPieces(attrs) + ">" + (Print(children) + (CLOSE + Print(rest)))
    case Stray(tag, rest) => OPEN + PrintPieces(tag) + ">" + Print(rest)
  }

  /** Between the opener and its `>` no other `>` stands outside quotes, and no slash at the end. */
  ghost predicate ProperTag(attrs: seq<Piece>) {
    && (forall p <- attrs :: ProperPiece(p))
    && NoSlash(PrintPieces(attrs))
  }

  predicate NoSlash(a: string) {
    a == "" || a[|a| - 1] != '/'
  }

  /** Text inside an element spells no tag of its own and is not split; text outside is arbitrary. */
  ghost predicate Proper(f: Forest, inside: bool) {
    match f
    case Nothing => true
    case Words(text, rest) =>
      (inside ==> !Occurs(OPEN, text) && !Occurs(CLOSE, text) && !rest.Words?) && Proper(rest, inside)
    case SelfClosing(attrs, rest) => (forall p <- attrs :: ProperPiece(p)) && Proper(rest, inside)
    case Element(attrs, children, rest) => ProperTag(attrs) && Proper(children, true) && Proper(rest, inside)
    case Stray(tag, rest) => ProperTag(tag) && Proper(rest, inside)
  }

  /** The openers that nothing closes. */
  function Strays(f: Forest): nat {
    match f
    case Nothing => 0
    case Words(_, rest) => Strays(rest)
    case SelfClosing(_, rest) => Strays(rest)
    case Element(_, children, rest) => Strays(children) + Strays(rest)
    case Stray(_, rest) => 1 + Strays(rest)
  }

  /** No outermost element holds such an opener. */
  predicate Tight(f: Forest) {
    match f
    case Nothing => true
    case Words(_, rest) => Tight(rest)
    case SelfClosing(_, rest) => Tight(rest)
    case Element(_, children, rest) => Strays(children) == 0 && Tight(rest)
    case Stray(_, rest) => Tight(rest)
  }

  /** At no place outside the elements stands an opener with a `>` outside quotes behind it. */
  ghost predicate NoOpener(f: Forest) {
    match f
    case Nothing => true
    case Words(text, rest) => (forall p: nat :: p < |text| ==> SpanLen(text[p..] + Print(rest)) == 0) && NoOpener(rest)
    case SelfClosing(_, rest) => NoOpener(rest)
    case Element(_, _, rest) => NoOpener(rest)
    case Stray(_, _) => false
  }

  /** The outermost elements blanked from their `<` to their last `>`, and all else as it is. */
  function OutermostBlanked(f: Forest): string {
    match f
    case Nothing => ""
    case Words(text, rest) => text + OutermostBlanked(rest)
    case SelfClosing(attrs, rest) => Blanked(OPEN + PrintPieces(attrs) + "/>") + OutermostBlanked(rest)
    case Element(attrs, children, rest) =>
      Blanked(OPEN + PrintPieces(attrs) + ">" + Print(children) + CLOSE) + OutermostBlanked(rest)
    case Stray(tag, rest) => OPEN + PrintPieces(tag) + ">" + OutermostBlanked(rest)
  }

  lemma {:induction false} PlainSkipped(text: string, x: string)
    requires forall c <- text :: !OpensValue(c) && c != '>'
    ensures TagLen(text + x, None) == |text| + TagLen(x, None)
  {
    if text == "" {
      assert text + x == x;
    } else {
      assert (text + x)[1..] == text[1..] + x;
      PlainSkipped(text[1..], x);
    }
  }

  lemma {:induction false} ValueSkipped(q: char, value: string, x: string)
    requires q !in value
    ensures TagLen(value + [q] + x, Some(q)) == |value| + 1 + TagLen(x, None)
  {
    if value == "" {
      assert (value + [q] + x)[1..] == x;
    } else {
      assert (value + [q] + x)[1..] == value[1..] + [q] + x;
      ValueSkipped(q, value[1..], x);
    }
  }

  lemma PieceSkipped(p: Piece, x: string)
    requires ProperPiece(p)
    ensures TagLen(PrintPiece(p) + x, None) == |PrintPiece(p)| + TagLen(x, None)
  {
    match p
    case Plain(text) => PlainSkipped(text, x);
    case Quoted(q, value) =>
      assert (PrintPiece(p) + x)[1..] == value + [q] + x;
      ValueSkipped(q, value, x);
  }

  lemma {:induction false} PiecesSkipped(ps: seq<Piece>, x: string)
    requires forall p <- ps :: ProperPiece(p)
    ensures TagLen(PrintPieces(ps) + x, None) == |PrintPieces(ps)| + TagLen(x, None)
  {
    hide TagLen, ProperPiece, PrintPiece;
    if ps == [] {
      assert PrintPieces(ps) + x == x;
    } else {
      var y := PrintPieces(ps[1..]) + x;
      assert ps[0] in ps;
      assert PrintPieces(ps) + x == PrintPiece(ps[0]) + y;
      PiecesSkipped(ps[1..], x);
      PieceSkipped(ps[0], y);
    }
  }

  /** The tag `<Localized` attrs `>` is read to its end. */
  lemma TagRead(attrs: string, x: string)
    requires TagLen(attrs + ">" + x, None) == |attrs| + TagLen(">" + x, None)
    ensures var s := OPEN + attrs + ">" + x;
            && At(s, 0, OPEN) && !At(s, 0, CLOSE) && TagEnd(s) == |OPEN| + |attrs| < |s|
            && s[|OPEN| + |attrs| + 1..] == x
            && s[TagEnd(s) - 1] == (if attrs == "" then 'd' else attrs[|attrs| - 1])
  {
    var s := OPEN + attrs + ">" + x;
    assert s[0..|OPEN|] == OPEN;
    assert s[|OPEN|..] == attrs + ">" + x;
    assert OPEN[1] == s[1] == 'L' && CLOSE[1] == '/';
    DiffersAt(s, 0, CLOSE, 1);
    assert TagLen(">" + x, None) == 0;
  }

  lemma ElementTag(attrs: seq<Piece>, x: string)
    requires forall p <- attrs :: ProperPiece(p)
    ensures var a := PrintPieces(attrs);
            && TagLen(a + ">" + x, None) == |a| + TagLen(">" + x, None)
            && TagLen(a + "/" + ">" + x, None) == |a + "/"| + TagLen(">" + x, None)
  {
    hide TagLen, PrintPieces;
    var a := PrintPieces(attrs);
    assert a + ">" + x == a + (">" + x) && a + "/" + ">" + x == a + ("/" + ">" + x);
    PiecesSkipped(attrs, ">" + x);
    PiecesSkipped(attrs, "/" + ">" + x);
    assert "/" + ">" + x == "/" + (">" + x);
    SlashSkipped(">" + x);
  }

  lemma SlashSkipped(x: string)
    ensures TagLen("/" + x, None) == 1 + TagLen(x, None)
  {
    assert ("/" + x)[1..] == x;
  }

  /** No tag starts inside a text that spells none, when the next character, if any, is a `<`. */
  lemma NoTagIn(text: string, x: string, pat: string)
    requires pat == OPEN || pat == CLOSE
    requires text != "" && !Occurs(pat, text) && (x == "" || x[0] == '<')
    ensures !At(text + x, 0, pat)
  {
    var s := text + x;
    assert !At(text, 0, pat);
    if |pat| <= |text| {
      assert text[0..|pat|] == s[0..|pat|];
    } else {
      assert forall k :: 0 < k < |pat| ==> pat[k] != '<';
      DiffersAt(s, 0, pat, |text|);
    }
  }

  lemma StartsWithTag(f: Forest, tail: string)
    requires !f.Words? && (tail == "" || tail[0] == '<')
    ensures Print(f) + tail == "" || (Print(f) + tail)[0] == '<'
  {
  }

  lemma {:induction false} WordsInside(text: string, x: string, depth: nat)
    requires !Occurs(OPEN, text) && !Occurs(CLOSE, text) && (x == "" || x[0] == '<') && depth > 0
    ensures CloseLen(text + x, depth) == |text| + CloseLen(x, depth)
  {
    hide At, Occurs;
    if text == "" {
      assert text + x == x;
    } else {
      NoTagIn(text, x, OPEN);
      NoTagIn(text, x, CLOSE);
      NoneInTail(OPEN, text);
      NoneInTail(CLOSE, text);
      assert (text + x)[1..] == text[1..] + x;
      WordsInside(text[1..], x, depth);
    }
  }

  lemma CloserRead(x: string, depth: nat)
    requires depth > 0
    ensures CloseLen(CLOSE + x, depth) == |CLOSE| + CloseLen(x, depth - 1)
  {
    assert (CLOSE + x)[0..|CLOSE|] == CLOSE && (CLOSE + x)[|CLOSE|..] == x;
  }

  lemma OpenerRead(attrs: string, x: string, depth: nat)
    requires TagLen(attrs + ">" + x, None) == |attrs| + TagLen(">" + x, None) && depth > 0
    ensures CloseLen(OPEN + attrs + ">" + x, depth) ==
            |OPEN| + |attrs| + 1 + CloseLen(x, if NoSlash(attrs) then depth + 1 else depth)
  {
    hide TagEnd, At, TagLen;
    TagRead(attrs, x);
  }

  lemma PrintSelfClosing(attrs: seq<Piece>, rest: Forest, tail: string)
    ensures var f := SelfClosing(attrs, rest);
            && Print(f) + tail == OPEN + (PrintPieces(attrs) + "/") + ">" + (Print(rest) + tail)
            && |Print(f)| == |OPEN| + |PrintPieces(attrs) + "/"| + 1 + |Print(rest)|
  {
    hide PrintPieces;
    Assoc(OPEN + (PrintPieces(attrs) + "/") + ">", Print(rest), tail);
  }

  lemma PrintElement(attrs: seq<Piece>, children: Forest, rest: Forest, tail: string)
    ensures var f := Element(attrs, children, rest);
            && Print(f) + tail ==
               OPEN + PrintPieces(attrs) + ">" + (Print(children) + (CLOSE + (Print(rest) + tail)))
            && |Print(f)| == |OPEN| + |PrintPieces(attrs)| + 1 + |Print(children)| + |CLOSE| + |Print(rest)|
  {
    PrintedElement(attrs, children, rest);
    hide *;
    var head, x, y := OPEN + PrintPieces(attrs) + ">", Print(children), CLOSE + Print(rest);
    Assoc(CLOSE, Print(rest), tail);
    Assoc(x, y, tail);
    Assoc(head, x + y, tail);
  }

  lemma PrintedElement(attrs: seq<Piece>, children: Forest, rest: Forest)
    ensures Print(Element(attrs, children, rest)) ==
            OPEN + PrintPieces(attrs) + ">" + (Print(children) + (CLOSE + Print(rest)))
  {
    hide PrintPieces;
  }

  lemma PrintWords(text: string, rest: Forest, tail: string)
    ensures Print(Words(text, rest)) + tail == text + (Print(rest) + tail)
    ensures Print(Nothing) + tail == tail
  {
    hide *;
    PrintedWords(text, rest);
    Assoc(text, Print(rest), tail);
    assert "" + tail == tail;
  }

  lemma PrintedWords(text: string, rest: Forest)
    ensures Print(Words(text, rest)) == text + Print(rest) && Print(Nothing) == ""
  {
  }

  lemma PrintStray(tag: seq<Piece>, rest: Forest, tail: string)
    ensures var f := Stray(tag, rest);
            && Print(f) + tail == OPEN + PrintPieces(tag) + ">" + (Print(rest) + tail)
            && |Print(f)| == |OPEN| + |PrintPieces(tag)| + 1 + |Print(rest)|
  {
    hide PrintPieces;
    Assoc(OPEN + PrintPieces(tag) + ">", Print(rest), tail);
  }

  lemma SlashLast(a: string)
    ensures !NoSlash(a + "/")
  {
  }

  /** A forest leaves the depth as it was, but for its openers that nothing closes. */
  lemma {:induction false} ForestCrossed(f: Forest, tail: string, depth: nat)
    requires Proper(f, true) && (tail == "" || tail[0] == '<') && depth > 0
    ensures CloseLen(Print(f) + tail, depth) == |Print(f)| + CloseLen(tail, depth + Strays(f))
    decreases f
  {
    hide CloseLen, TagLen, Occurs, ProperPiece, PrintPieces, Print, ProperTag, NoSlash;
    match f
    case Nothing =>
      PrintedWords("", Nothing);
      assert "" + tail == tail;
    case Words(text, rest) =>
      StartsWithTag(rest, tail);
      PrintWords(text, rest, tail);
      PrintedWords(text, rest);
      WordsInside(text, Print(rest) + tail, depth);
      ForestCrossed(rest, tail, depth);
    case SelfClosing(attrs, rest) =>
      ForestCrossed(rest, tail, depth);
      SelfClosingCrossed(attrs, rest, tail, depth);
    case Element(attrs, children, rest) =>
      CloserStarts(Print(rest) + tail);
      ForestCrossed(children, CLOSE + (Print(rest) + tail), depth + 1);
      ForestCrossed(rest, tail, depth + Strays(children));
      ElementCrossed(attrs, children, rest, tail, depth);
    case Stray(tag, rest) =>
      ForestCrossed(rest, tail, depth + 1);
      StrayCrossed(tag, rest, tail, depth);
  }

  lemma SelfClosingCrossed(attrs: seq<Piece>, rest: Forest, tail: string, depth: nat)
    requires depth > 0 && forall p <- attrs :: ProperPiece(p)
    ensures var f := SelfClosing(attrs, rest);
            CloseLen(Print(f) + tail, depth) == |Print(f)| - |Print(rest)| + CloseLen(Print(rest) + tail, depth)
  {
    hide *;
    var a, x := PrintPieces(attrs) + "/", Print(rest) + tail;
    SlashLast(PrintPieces(attrs));
    PrintSelfClosing(attrs, rest, tail);
    ElementTag(attrs, x);
    OpenerRead(a, x, depth);
  }

  lemma ElementCrossed(attrs: seq<Piece>, children: Forest, rest: Forest, tail: string, depth: nat)
    requires depth > 0 && ProperTag(attrs)
    requires var y := CLOSE + (Print(rest) + tail);
             CloseLen(Print(children) + y, depth + 1) == |Print(children)| + CloseLen(y, depth + 1 + Strays(children))
    ensures var f := Element(attrs, children, rest);
            CloseLen(Print(f) + tail, depth) ==
            |Print(f)| - |Print(rest)| + CloseLen(Print(rest) + tail, depth + Strays(children))
  {
    hide *;
    var x := Print(children) + (CLOSE + (Print(rest) + tail));
    TagPieces(attrs);
    PrintElement(attrs, children, rest, tail);
    ElementTag(attrs, x);
    OpenerRead(PrintPieces(attrs), x, depth);
    CloserRead(Print(rest) + tail, depth + 1 + Strays(children));
  }

  lemma StrayCrossed(tag: seq<Piece>, rest: Forest, tail: string, depth: nat)
    requires depth > 0 && ProperTag(tag)
    ensures var f := Stray(tag, rest);
            CloseLen(Print(f) + tail, depth) == |Print(f)| - |Print(rest)| + CloseLen(Print(rest) + tail, depth + 1)
  {
    hide *;
    var x := Print(rest) + tail;
    TagPieces(tag);
    PrintStray(tag, rest, tail);
    ElementTag(tag, x);
    OpenerRead(PrintPieces(tag), x, depth);
  }

  // ---------- What one opener erases ----------

  lemma SpanErased(span: string, x: string)
    requires span != "" && SpanLen(span + x) == |span|
    ensures Erased(span + x) == Blanked(span) + Erased(x)
  {
    hide SpanLen;
    assert (span + x)[..|span|] == span && (span + x)[|span|..] == x;
  }

  lemma SpanErasedInto(span: string, x: string, n: nat)
    requires span != "" && n <= |x| && SpanLen(span + x) == |span| + n
    ensures Erased(span + x) == Blanked(span + x[..n]) + Erased(x[n..])
  {
    hide *;
    assert span + x == span + x[..n] + x[n..];
    SpanErased(span + x[..n], x[n..]);
  }

  /** Every text behind an opener: with a slash before the first `>` outside quotes, the tag alone is blanked; without
      one, everything up to where the depth comes back to 0, or to the end. */
  lemma OpenerErased(attrs: seq<Piece>, x: string)
    requires forall p <- attrs :: ProperPiece(p)
    ensures var a := PrintPieces(attrs);
            var span := OPEN + a + ">";
            Erased(span + x) ==
            if NoSlash(a) then Blanked(span + x[..CloseLen(x, 1)]) + Erased(x[CloseLen(x, 1)..])
            else Blanked(span) + Erased(x)
  {
    hide Erased, CloseLen, TagLen, ProperPiece, PrintPieces, At, TagEnd, Blanked;
    var a := PrintPieces(attrs);
    ElementTag(attrs, x);
    TagRead(a, x);
    if NoSlash(a) {
      SpanErasedInto(OPEN + a + ">", x, CloseLen(x, 1));
    } else {
      SpanErased(OPEN + a + ">", x);
    }
  }

  /** An element is blanked as far as the depth takes to come back to 0: to its own closing tag exactly when no
      opener inside is left open, and otherwise past as many more as there are. */
  lemma ElementErased(attrs: seq<Piece>, children: Forest, x: string)
    requires ProperTag(attrs) && Proper(children, true)
    ensures var span, n := OPEN + PrintPieces(attrs) + ">" + Print(children) + CLOSE, CloseLen(x, Strays(children));
            Erased(span + x) == Blanked(span + x[..n]) + Erased(x[n..])
  {
    hide *;
    TagPieces(attrs);
    var p, y, n := Print(children), CLOSE + x, CloseLen(x, Strays(children));
    InnerLen(children, x);
    OpenErased(attrs, p + y);
    ElementParts(OPEN + PrintPieces(attrs) + ">", p, x, n);
  }

  /** Such forests there are: text, a self-closing element and one with text inside, with a `>` between quotes. */
  lemma ForestInstance()
    ensures var a := [Quoted('"', "a>b")];
            var f := Words("x", SelfClosing(a, Element(a, Words("y", Nothing), Nothing)));
            Proper(f, false) && Tight(f) && Unspelled(f) && Spelled(a) && Spelled([Quoted('\'', "a>b")])
  {
    var a := [Quoted('"', "a>b")];
    NoTagWithout("x");
    NoTagWithout("y");
    QuotedTag(a);
    hide ProperTag, ProperPiece, Occurs;
    var inner := Words("y", Nothing);
    var e := Element(a, inner, Nothing);
    assert Proper(inner, true) && Proper(e, false) && Tight(e) && Unspelled(e) && Strays(inner) == 0;
    assert Proper(SelfClosing(a, e), false) && Tight(SelfClosing(a, e)) && Unspelled(SelfClosing(a, e));
  }

  lemma QuotedTag(a: seq<Piece>)
    requires a == [Quoted('"', "a>b")]
    ensures ProperTag(a) && forall p <- a :: ProperPiece(p)
  {
    assert a[1..] == [] && PrintPieces(a) == ['"'] + "a>b" + ['"'] + "";
  }

  /** Attributes in which every `>` stands in a value between quotes of either kind. */
  ghost predicate Spelled(attrs: seq<Piece>) {
    forall p <- attrs ::
      match p
      case Plain(text) => '"' !in text && '\'' !in text && '>' !in text
      case Quoted(q, value) => (q == '"' || q == '\'') && q !in value
  }

  /** The tags as they are written: a self-closing element is blanked from `<Localized` to its `/>`. */
  lemma SelfClosingSpelled(attrs: seq<Piece>, x: string)
    requires Spelled(attrs)
    ensures Erased("<Localized" + PrintPieces(attrs) + "/>" + x) ==
            Blanked("<Localized" + PrintPieces(attrs) + "/>") + Erased(x)
  {
    SpelledProper(attrs);
    hide *;
    var a := PrintPieces(attrs);
    SelfClosingErased(attrs, x);
    Slashed(a, x);
  }

  lemma Slashed(a: string, x: string)
    ensures OPEN + (a + "/") + ">" + x == "<Localized" + a + "/>" + x && OPEN + a + "/>" == "<Localized" + a + "/>"
  {
    assert "/" + ">" == "/>" && OPEN + (a + "/") + ">" == OPEN + a + ("/" + ">");
  }

  /** And one with no tag inside from `<Localized` to `</Localized>`. */
  lemma ElementSpelled(attrs: seq<Piece>, inner: string, x: string)
    requires Spelled(attrs) && '<' !in inner
    requires PrintPieces(attrs) == "" || PrintPieces(attrs)[|PrintPieces(attrs)| - 1] != '/'
    ensures Erased("<Localized" + PrintPieces(attrs) + ">" + inner + "</Localized>" + x) ==
            Blanked("<Localized" + PrintPieces(attrs) + ">" + inner + "</Localized>") + Erased(x)
  {
    SpelledProper(attrs);
    InnerProper(attrs, inner);
    hide *;
    ElementErased(attrs, Words(inner, Nothing), x);
    NothingOpen(x, OPEN + PrintPieces(attrs) + ">" + inner + CLOSE);
    TagTexts();
  }

  lemma TagTexts()
    ensures OPEN == "<Localized" && CLOSE == "</Localized>"
  {
  }

  lemma InnerProper(attrs: seq<Piece>, inner: string)
    requires '<' !in inner && (forall p <- attrs :: ProperPiece(p))
    requires PrintPieces(attrs) == "" || PrintPieces(attrs)[|PrintPieces(attrs)| - 1] != '/'
    ensures var f := Words(inner, Nothing);
            Proper(f, true) && Print(f) == inner && Strays(f) == 0 && ProperTag(attrs)
  {
    NoTagWithout(inner);
    assert inner + "" == inner;
  }

  lemma SpelledProper(attrs: seq<Piece>)
    requires Spelled(attrs)
    ensures forall p <- attrs :: ProperPiece(p)
  {
  }

  lemma NothingOpen(x: string, span: string)
    ensures CloseLen(x, 0) == 0 && span + x[..0] == span && x[0..] == x
  {
  }

  lemma NoTagWithout(x: string)
    requires '<' !in x
    ensures !Occurs(OPEN, x) && !Occurs(CLOSE, x)
  {
    forall i: nat ensures !At(x, i, OPEN) && !At(x, i, CLOSE) {
      DiffersAt(x, i, OPEN, 0);
      DiffersAt(x, i, CLOSE, 0);
    }
  }

  lemma InnerLen(children: Forest, x: string)
    requires Proper(children, true)
    ensures CloseLen(Print(children) + (CLOSE + x), 1) == |Print(children)| + |CLOSE| + CloseLen(x, Strays(children))
  {
    hide *;
    CloserStarts(x);
    ForestCrossed(children, CLOSE + x, 1);
    CloserRead(x, 1 + Strays(children));
  }

  lemma OpenErased(attrs: seq<Piece>, x: string)
    requires forall p <- attrs :: ProperPiece(p)
    requires NoSlash(PrintPieces(attrs))
    ensures var head, n := OPEN + PrintPieces(attrs) + ">", CloseLen(x, 1);
            Erased(head + x) == Blanked(head + x[..n]) + Erased(x[n..])
  {
    hide *;
    OpenerErased(attrs, x);
  }

  lemma TagPieces(attrs: seq<Piece>)
    requires ProperTag(attrs)
    ensures forall p <- attrs :: ProperPiece(p)
    ensures NoSlash(PrintPieces(attrs))
  {
    hide ProperPiece, PrintPieces;
  }

  lemma ElementParts(head: string, p: string, x: string, n: nat)
    requires n <= |x|
    ensures var m, y := |p| + |CLOSE| + n, CLOSE + x;
            && m <= |p + y| && head + (p + y)[..m] == head + p + CLOSE + x[..n] && (p + y)[m..] == x[n..]
            && head + (p + y) == head + p + CLOSE + x
  {
    var m, y := |p| + |CLOSE| + n, CLOSE + x;
    assert (p + y)[..m] == p + (CLOSE + x[..n]) && (p + y)[m..] == x[n..];
    Assoc(head, p, CLOSE + x[..n]);
    Assoc(head + p, CLOSE, x[..n]);
    Assoc(head, p, y);
    Assoc(head + p, CLOSE, x);
  }

  lemma CloserStarts(x: string)
    ensures CLOSE + x != "" && (CLOSE + x)[0] == '<'
  {
  }

  /** Without a tag behind it an open element takes all the rest. */
  lemma RestErased(attrs: seq<Piece>, x: string)
    requires ProperTag(attrs) && !Occurs(OPEN, x) && !Occurs(CLOSE, x)
    ensures Erased(OPEN + PrintPieces(attrs) + ">" + x) == Blanked(OPEN + PrintPieces(attrs) + ">" + x)
  {
    hide Erased, PrintPieces, Occurs, CloseLen, Blanked;
    OpenerErased(attrs, x);
    WordsInside(x, "", 1);
    assert x + "" == x;
    CloseDone("", 1);
    NothingLeft();
    assert x[..|x|] == x && x[|x|..] == "";
    assert Blanked(OPEN + PrintPieces(attrs) + ">" + x) + "" == Blanked(OPEN + PrintPieces(attrs) + ">" + x);
  }

  lemma NoTagHere(x: string)
    requires forall k: nat :: 0 < k < |x| ==> x[k] != '<'
    requires x != "" ==> !At(x, 0, OPEN) && !At(x, 0, CLOSE)
    ensures !Occurs(OPEN, x) && !Occurs(CLOSE, x)
  {
    forall i: nat ensures !At(x, i, OPEN) && !At(x, i, CLOSE) {
      if i > 0 || x == "" {
        DiffersAt(x, i, OPEN, 0);
        DiffersAt(x, i, CLOSE, 0);
      }
    }
  }

  /** The tag of another component whose name begins alike opens an element that nothing closes. */
  lemma OtherComponent(x: string)
    requires !Occurs(OPEN, x) && !Occurs(CLOSE, x)
    ensures Erased("<LocalizedErrorBoundary>" + x) == Blanked("<LocalizedErrorBoundary>" + x)
  {
    hide *;
    var attrs := [Plain("ErrorBoundary")];
    OnePlain("ErrorBoundary");
    ComponentTag();
    ComponentProper(attrs);
    RestErased(attrs, x);
  }

  lemma ComponentTag()
    ensures OPEN + "ErrorBoundary" + ">" == "<LocalizedErrorBoundary>"
  {
  }

  lemma ComponentProper(attrs: seq<Piece>)
    requires attrs == [Plain("ErrorBoundary")]
    ensures ProperTag(attrs)
  {
    OnePlain("ErrorBoundary");
    PlainName("ErrorBoundary");
    hide PrintPieces;
    assert attrs[0] == Plain("ErrorBoundary");
  }

  lemma PlainName(text: string)
    requires text == "ErrorBoundary"
    ensures ProperPiece(Plain(text)) && NoSlash(text)
  {
  }

  lemma OnePlain(text: string)
    ensures PrintPieces([Plain(text)]) == text
  {
    assert [Plain(text)][1..] == [] && text + "" == text;
  }

  lemma OtherComponentInstance()
    ensures var x := "</LocalizedErrorBoundary>Total";
            Erased("<LocalizedErrorBoundary>" + x) == Blanked("<LocalizedErrorBoundary>" + x)
  {
    var x := "</LocalizedErrorBoundary>Total";
    assert x[0] == '<' && x[1] == '/' && x[11] == 'E' && forall k: nat :: 0 < k < |x| ==> x[k] != '<';
    hide Erased, Blanked, Occurs;
    DiffersAt(x, 0, OPEN, 1);
    DiffersAt(x, 0, CLOSE, 11);
    NoTagHere(x);
    OtherComponent(x);
  }

  /** A comparison in an attribute ends the tag, so a self-closing element with one stays open. */
  lemma ComparisonInstance()
    ensures var s := "<Localized id={n > 0} />Total"; Erased(s) == Blanked(s)
  {
    var x, attrs := " 0} />Total", [Plain(" id={n ")];
    ComparisonText(x);
    OnePlain(" id={n ");
    assert ProperTag(attrs) by { hide PrintPieces, Occurs; }
    hide *;
    RestErased(attrs, x);
  }

  lemma ComparisonText(x: string)
    requires x == " 0} />Total"
    ensures OPEN + " id={n " + ">" + x == "<Localized id={n > 0} />Total" && !Occurs(OPEN, x) && !Occurs(CLOSE, x)
  {
    hide Occurs;
    DiffersAt(x, 0, OPEN, 0);
    DiffersAt(x, 0, CLOSE, 0);
    NoTagHere(x);
  }

  // ---------- Exactly the outermost elements ----------

  lemma {:induction false} WordsKept(text: string, x: string)
    requires forall p: nat :: p < |text| ==> SpanLen(text[p..] + x) == 0
    ensures Erased(text + x) == text + Erased(x)
  {
    hide SpanLen;
    if text == "" {
      assert text + x == x;
    } else {
      assert text[0..] == text && SpanLen(text[0..] + x) == 0;
      assert (text + x)[1..] == text[1..] + x;
      forall p: nat | p < |text[1..]| ensures SpanLen(text[1..][p..] + x) == 0 {
        assert text[1..][p..] == text[p + 1..];
      }
      WordsKept(text[1..], x);
    }
  }

  /** Where an opener stands in the text, its `<` is lost. */
  lemma {:induction false} WordsLost(text: string, x: string, p: nat, y: string)
    requires p < |text| && SpanLen(text[p..] + x) > 0
    ensures Erased(text + x) != text + y
  {
    hide SpanLen;
    var s := text + x;
    assert text[0..] == text && s[1..] == text[1..] + x;
    if SpanLen(s) > 0 {
      SpanStarts(s);
      assert Erased(s)[0] == ' ';
    } else {
      assert text[1..][p - 1..] == text[p..];
      WordsLost(text[1..], x, p - 1, y);
      assert (text + y)[1..] == text[1..] + y && Erased(s)[1..] == Erased(s[1..]);
    }
  }

  lemma SpanStarts(s: string)
    requires SpanLen(s) > 0
    ensures s[0] == '<' && Blanked(s[..SpanLen(s)])[0] == ' '
  {
    hide CloseLen, TagLen;
    assert s[0..|OPEN|][0] == s[0];
  }

  lemma PrintParts(attrs: seq<Piece>, children: Forest, rest: Forest)
    ensures Print(Element(attrs, children, rest)) ==
            OPEN + PrintPieces(attrs) + ">" + Print(children) + CLOSE + Print(rest)
  {
    hide PrintPieces;
    var head := OPEN + PrintPieces(attrs) + ">";
    assert head + (Print(children) + (CLOSE + Print(rest))) == head + Print(children) + CLOSE + Print(rest);
  }

  /** For every printed forest whose outermost elements close what they open: exactly the outermost elements are
      blanked if and only if no opener stands in the text outside them. */
  lemma {:induction false} EraseExactIff(f: Forest)
    requires Proper(f, false) && Tight(f)
    ensures Erased(Print(f)) == OutermostBlanked(f) <==> NoOpener(f)
    decreases f
  {
    hide Erased, CloseLen, TagLen, Occurs, ProperPiece, PrintPieces, At, TagEnd, Blanked, SpanLen;
    match f
    case Nothing =>
      NothingLeft();
    case Words(text, rest) =>
      if p: nat :| p < |text| && SpanLen(text[p..] + Print(rest)) > 0 {
        WordsLost(text, Print(rest), p, OutermostBlanked(rest));
      } else {
        WordsKept(text, Print(rest));
        EraseExactIff(rest);
        SamePrefix(text, Erased(Print(rest)), OutermostBlanked(rest));
      }
    case SelfClosing(attrs, rest) =>
      SelfClosingErased(attrs, Print(rest));
      EraseExactIff(rest);
      SamePrefix(Blanked(OPEN + PrintPieces(attrs) + "/>"), Erased(Print(rest)), OutermostBlanked(rest));
    case Element(attrs, children, rest) =>
      var span, x := OPEN + PrintPieces(attrs) + ">" + Print(children) + CLOSE, Print(rest);
      PrintParts(attrs, children, rest);
      ElementErased(attrs, children, x);
      CloseDone(x, 0);
      assert x[..0] == "" && x[0..] == x && span + "" == span;
      EraseExactIff(rest);
      SamePrefix(Blanked(span), Erased(x), OutermostBlanked(rest));
    case Stray(tag, rest) =>
      StrayLost(tag, Print(rest), OutermostBlanked(rest));
  }

  lemma SelfClosingErased(attrs: seq<Piece>, x: string)
    requires forall p <- attrs :: ProperPiece(p)
    ensures Erased(OPEN + (PrintPieces(attrs) + "/") + ">" + x) == Blanked(OPEN + PrintPieces(attrs) + "/>") + Erased(x)
  {
    hide Erased, CloseLen, TagLen, ProperPiece, PrintPieces, At, TagEnd, Blanked;
    var a := PrintPieces(attrs) + "/";
    ElementTag(attrs, x);
    TagRead(a, x);
    assert OPEN + PrintPieces(attrs) + "/>" == OPEN + a + ">";
    SpanErased(OPEN + a + ">", x);
  }

  lemma StrayLost(tag: seq<Piece>, x: string, y: string)
    requires ProperTag(tag)
    ensures Erased(OPEN + PrintPieces(tag) + ">" + x) != OPEN + PrintPieces(tag) + ">" + y
  {
    TagPieces(tag);
    hide *;
    OpenerErased(tag, x);
    var t, n := PrintPieces(tag) + ">", CloseLen(x, 1);
    Assoc(OPEN, PrintPieces(tag), ">");
    Assoc(OPEN, t, x[..n]);
    Assoc(OPEN, t, y);
    BlankedStart(t + x[..n], Erased(x[n..]), t + y);
  }

  lemma BlankedStart(a: string, b: string, c: string)
    ensures Blanked(OPEN + a) + b != OPEN + c
  {
    assert (Blanked(OPEN + a) + b)[0] == ' ' && (OPEN + c)[0] == '<';
  }

  /** Outside the elements no text spells the opener, and texts are not split. */
  ghost predicate Unspelled(f: Forest) {
    match f
    case Nothing => true
    case Words(text, rest) => !Occurs(OPEN, text) && !rest.Words? && Unspelled(rest)
    case SelfClosing(_, rest) => Unspelled(rest)
    case Element(_, _, rest) => Unspelled(rest)
    case Stray(_, _) => false
  }

  lemma {:induction false} UnspelledOpens(f: Forest)
    requires Unspelled(f)
    ensures NoOpener(f)
  {
    hide Occurs, SpanLen, Print;
    match f
    case Nothing =>
    case Words(text, rest) =>
      StartsWithTag(rest, "");
      NothingAfter(Print(rest));
      NoSpanIn(text, Print(rest));
      UnspelledOpens(rest);
    case SelfClosing(_, rest) => UnspelledOpens(rest);
    case Element(_, _, rest) => UnspelledOpens(rest);
    case Stray(_, _) =>
  }

  lemma {:induction false} NoSpanIn(text: string, x: string)
    requires !Occurs(OPEN, text) && (x == "" || x[0] == '<')
    ensures forall p: nat :: p < |text| ==> SpanLen(text[p..] + x) == 0
  {
    hide Occurs, SpanLen, At;
    if text != "" {
      NoTagIn(text, x, OPEN);
      NoSpan(text + x);
      NoneInTail(OPEN, text);
      NoSpanIn(text[1..], x);
      forall p: nat | p < |text| ensures SpanLen(text[p..] + x) == 0 {
        if p == 0 { assert text[0..] == text; } else { assert text[p..] == text[1..][p - 1..]; }
      }
    }
  }

  lemma NothingAfter(x: string)
    ensures x + "" == x
  {
  }

  /** For every printed forest whose texts spell no tag, exactly the outermost elements are blanked. */
  lemma EraseExact(f: Forest)
    requires Proper(f, false) && Tight(f) && Unspelled(f)
    ensures Erased(Print(f)) == OutermostBlanked(f)
  {
    hide *;
    UnspelledOpens(f);
    EraseExactIff(f);
  }
}
