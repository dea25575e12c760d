/** The column list of a SELECT: everything up to its own FROM, split at the commas of its own level. */
module SelectList {
  import opened Options
  import opened Text

  /** What the regex class `\w` matches. */
  type WordClass = char -> bool

  // ---------- The two patterns ----------

  /** Letters compare without case; the long s folds to an s. */
  predicate Folds(c: char, upper: char)
    requires 'A' <= upper <= 'Z'
  {
    c == upper || c as int == upper as int + 32 || (upper == 'S' && c == '\U{17F}')
  }

  /** `SELECT\s` in any case, at `i`. */
  predicate HeadAt(s: string, i: nat) {
    && i + 7 <= |s|
    && Folds(s[i], 'S') && Folds(s[i + 1], 'E') && Folds(s[i + 2], 'L') && Folds(s[i + 3], 'E')
    && Folds(s[i + 4], 'C') && Folds(s[i + 5], 'T') && IsSpace(s[i + 6])
  }

  /** `\b` at `i`. */
  predicate Edge(word: WordClass, s: string, i: nat)
    requires i <= |s|
  {
    (i > 0 && word(s[i - 1])) != (i < |s| && word(s[i]))
  }

  /** `\bFROM\b` in any case, at `i`. */
  predicate FromAt(word: WordClass, s: string, i: nat) {
    && i + 4 <= |s|
    && Folds(s[i], 'F') && Folds(s[i + 1], 'R') && Folds(s[i + 2], 'O') && Folds(s[i + 3], 'M')
    && Edge(word, s, i) && Edge(word, s, i + 4)
  }

  function Step(c: char): int {
    if c == '(' then 1 else if c == ')' then -1 else 0
  }

  /** Opening parentheses less closing ones. */
  function Depth(s: string): int {
    if s == "" then 0 else Depth(s[..|s| - 1]) + Step(s[|s| - 1])
  }

  lemma DepthStep(s: string, from: nat, i: nat)
    requires from <= i < |s|
    ensures Depth(s[from..i + 1]) == Depth(s[from..i]) + Step(s[i])
    ensures Depth(s[from..from]) == 0
  {
    assert s[from..i + 1][..i - from] == s[from..i];
    assert s[from..from] == "";
  }

  lemma EmptyDepth()
    ensures Depth("") == 0
  {
  }

  lemma {:induction false} DepthAppend(a: string, b: string)
    ensures Depth(a + b) == Depth(a) + Depth(b)
  {
    if b == "" {
      assert a + b == a;
    } else {
      assert (a + b)[..|a + b| - 1] == a + b[..|b| - 1];
      DepthAppend(a, b[..|b| - 1]);
    }
  }

  /** The number of `(` less the number of `)`. */
  lemma {:induction false} DepthIs(s: string)
    ensures Depth(s) + multiset(s)[')'] == multiset(s)['(']
  {
    if s != "" {
      DepthIs(s[..|s| - 1]);
      assert s == s[..|s| - 1] + [s[|s| - 1]];
    }
  }

  /** In either case, and the long s for an s. */
  lemma KeywordLetters(c: char)
    ensures Folds(c, 'S') <==> c in "Ss\U{17F}"
    ensures (Folds(c, 'E') <==> c in "Ee") && (Folds(c, 'L') <==> c in "Ll") && (Folds(c, 'C') <==> c in "Cc")
    ensures (Folds(c, 'T') <==> c in "Tt") && (Folds(c, 'F') <==> c in "Ff") && (Folds(c, 'R') <==> c in "Rr")
    ensures (Folds(c, 'O') <==> c in "Oo") && (Folds(c, 'M') <==> c in "Mm")
  {
  }

  /** The keyword in any case, with no word character on either side: `select` and `from` as well. */
  lemma FromAtIs(word: WordClass, a: string, kw: string, b: string)
    requires |kw| == 4 && kw[0] in "Ff" && kw[1] in "Rr" && kw[2] in "Oo" && kw[3] in "Mm"
    requires word(kw[0]) && word(kw[3])
    ensures FromAt(word, a + kw + b, |a|) <==> (a == "" || !word(a[|a| - 1])) && (b == "" || !word(b[0]))
  {
    var s := a + kw + b;
    assert s[|a|] == kw[0] && s[|a| + 1] == kw[1] && s[|a| + 2] == kw[2] && s[|a| + 3] == kw[3];
    assert a != "" ==> s[|a| - 1] == a[|a| - 1];
    assert b != "" ==> s[|a| + 4] == b[0];
  }

  lemma HeadAtIs(a: string, kw: string, c: char, b: string)
    requires |kw| == 6
    requires kw[0] in "Ss" && kw[1] in "Ee" && kw[2] in "Ll" && kw[3] in "Ee" && kw[4] in "Cc" && kw[5] in "Tt"
    ensures HeadAt(a + kw + [c] + b, |a|) <==> IsSpace(c)
  {
    hide IsSpace;
    var s := a + kw + [c] + b;
    assert s[|a|] == kw[0] && s[|a| + 1] == kw[1] && s[|a| + 2] == kw[2] && s[|a| + 3] == kw[3];
    assert s[|a| + 4] == kw[4] && s[|a| + 5] == kw[5] && s[|a| + 6] == c;
  }

  // ---------- Cutting the list out ----------

  /** At `f` there is a FROM that no parenthesis opened since `from` encloses. */
  predicate OwnFrom(word: WordClass, s: string, from: nat, f: nat) {
    from <= f <= |s| && Depth(s[from..f]) == 0 && FromAt(word, s, f)
  }

  /** The first SELECT of the chunk has its list from `from`. */
  predicate FirstHead(s: string, from: nat) {
    from >= 7 && HeadAt(s, from - 7) && forall i :: 0 <= i < from - 7 ==> !HeadAt(s, i)
  }

  predicate FirstFrom(word: WordClass, s: string, from: nat, f: nat) {
    OwnFrom(word, s, from, f) && forall i: nat :: i < f ==> !OwnFrom(word, s, from, i)
  }

  method FindHead(chunk: string) returns (end: Option<nat>)
    ensures end.Some? ==> FirstHead(chunk, end.value)
    ensures end.None? ==> forall i :: 0 <= i < |chunk| ==> !HeadAt(chunk, i)
  {
    hide HeadAt;
    for i := 0 to |chunk|
      invariant forall k :: 0 <= k < i ==> !HeadAt(chunk, k)
    {
      if HeadAt(chunk, i) { return Some(i + 7); }
    }
    return None;
  }

  /** The list runs from the first SELECT to the first FROM of its own level; there is no list when
      either is missing. */
  method SelectColumnList(word: WordClass, chunk: string) returns (list: Option<string>)
    ensures list.Some? <==> exists from: nat, f: nat :: FirstHead(chunk, from) && FirstFrom(word, chunk, from, f)
    ensures forall from: nat, f: nat :: FirstHead(chunk, from) && FirstFrom(word, chunk, from, f) ==>
                                          list == Some(chunk[from..f])
  {
    hide FromAt, Depth;
    var m := FindHead(chunk);
    if m.None? { return None; }
    var from := m.value;
    OnlyHead(chunk, from);
    HeadFits(chunk, from);
    var depth := 0;
    var i := from;
    assert chunk[from..i] == "" && Depth("") == 0 by { EmptyDepth(); }
    while i < |chunk|
      invariant from <= i <= |chunk| && depth == Depth(chunk[from..i])
      invariant forall k: nat :: k < i ==> !OwnFrom(word, chunk, from, k)
    {
      var ch := chunk[i];
      DepthStep(chunk, from, i);
      NotAParenthesis(word, chunk, i);
      if ch == '(' {
        depth := depth + 1;
      } else if ch == ')' {
        depth := depth - 1;
      } else if depth == 0 {
        if FromAt(word, chunk, i) {
          assert FirstFrom(word, chunk, from, i);
          return Some(chunk[from..i]);
        }
      }
      i := i + 1;
    }
    NoFromAtEnd(word, chunk, |chunk|);
    return None;
  }

  lemma HeadNotBefore(s: string, from: nat, other: nat)
    requires FirstHead(s, from) && other >= 7 && HeadAt(s, other - 7)
    ensures other >= from
  {
    hide HeadAt;
  }

  lemma OnlyHead(s: string, from: nat)
    requires FirstHead(s, from)
    ensures forall other: nat :: FirstHead(s, other) ==> other == from
  {
    hide HeadAt;
    forall other: nat | FirstHead(s, other) ensures other == from {
      HeadNotBefore(s, from, other);
      HeadNotBefore(s, other, from);
    }
  }

  lemma HeadFits(s: string, from: nat)
    requires FirstHead(s, from)
    ensures from <= |s|
  {
  }

  lemma NotAParenthesis(word: WordClass, s: string, i: nat)
    requires i < |s|
    ensures s[i] == '(' || s[i] == ')' ==> !FromAt(word, s, i)
  {
  }

  lemma NoFromAtEnd(word: WordClass, s: string, i: nat)
    requires i == |s|
    ensures !FromAt(word, s, i)
  {
  }

  // ---------- Splitting it ----------

  /** The stretches between the commas at depth 0. */
  function Pieces(text: string, depth: int): (parts: seq<string>)
    ensures parts != []
  {
    if text == "" then [""]
    else
      var d := depth + Step(text[0]);
      var more := Pieces(text[1..], d);
      if text[0] == ',' && d == 0 then [""] + more else [[text[0]] + more[0]] + more[1..]
  }

  function Trimmed(parts: seq<string>): seq<string> {
    if parts == [] then []
    else (if Strip(parts[0]) == "" then [] else [Strip(parts[0])]) + Trimmed(parts[1..])
  }

  /** What has been read of a stretch, put before the rest of it. */
  function Prefixed(cur: string, parts: seq<string>): seq<string>
    requires parts != []
  {
    [cur + parts[0]] + parts[1..]
  }

  lemma ReadOne(text: string, i: nat, depth: int, cur: string)
    requires i < |text|
    ensures var d := depth + Step(text[i]);
            Prefixed(cur, Pieces(text[i..], depth)) ==
            if text[i] == ',' && d == 0 then [cur] + Prefixed("", Pieces(text[i + 1..], d))
            else Prefixed(cur + [text[i]], Pieces(text[i + 1..], d))
  {
    hide Pieces;
    PiecesStep(text[i..], depth);
    assert text[i..][1..] == text[i + 1..];
    var more := Pieces(text[i + 1..], depth + Step(text[i]));
    assert "" + more[0] == more[0] && cur + "" == cur;
    assert cur + ([text[i]] + more[0]) == cur + [text[i]] + more[0];
    assert ([""] + more)[1..] == more && Prefixed("", more) == more;
    assert ([[text[i]] + more[0]] + more[1..])[1..] == more[1..];
  }

  lemma PiecesStep(text: string, depth: int)
    requires text != ""
    ensures var d := depth + Step(text[0]);
            var more := Pieces(text[1..], d);
            Pieces(text, depth) == if text[0] == ',' && d == 0 then [""] + more else [[text[0]] + more[0]] + more[1..]
  {
  }

  lemma PrefixedNothing(parts: seq<string>)
    requires parts != []
    ensures Prefixed("", parts) == parts
  {
    assert "" + parts[0] == parts[0];
  }

  lemma ReadAll(text: string, depth: int, cur: string)
    ensures Prefixed(cur, Pieces("", depth)) == [cur]
    ensures text[0..] == text && text[|text|..] == ""
  {
    assert cur + "" == cur;
  }

  method SplitTopLevelCommas(text: string) returns (columns: seq<string>)
    ensures columns == Trimmed(Pieces(text, 0))
  {
    hide Trimmed, Pieces, Prefixed;
    var out: seq<string>, cur, depth := [], "", 0;
    assert text[0..] == text;
    PrefixedNothing(Pieces(text, 0));
    for i := 0 to |text|
      invariant out + Prefixed(cur, Pieces(text[i..], depth)) == Pieces(text, 0)
    {
      ReadOne(text, i, depth, cur);
      var ch := text[i];
      if ch == '(' {
        depth := depth + 1;
      } else if ch == ')' {
        depth := depth - 1;
      }
      if ch == ',' && depth == 0 {
        ghost var more := Prefixed("", Pieces(text[i + 1..], depth));
        assert out + ([cur] + more) == (out + [cur]) + more;
        out := out + [cur];
        cur := "";
      } else {
        cur := cur + [ch];
      }
    }
    ReadAll(text, depth, cur);
    out := out + [cur];
    columns := [];
    assert out[0..] == out;
    for n := 0 to |out|
      invariant columns + Trimmed(out[n..]) == Trimmed(out)
    {
      TrimOne(out, n);
      if Strip(out[n]) != "" { columns := columns + [Strip(out[n])]; }
    }
    TrimNone(out[|out|..]);
  }

  lemma TrimOne(parts: seq<string>, n: nat)
    requires n < |parts|
    ensures Trimmed(parts[n..]) ==
            (if Strip(parts[n]) == "" then [] else [Strip(parts[n])]) + Trimmed(parts[n + 1..])
  {
    assert parts[n..][1..] == parts[n + 1..];
  }

  lemma TrimNone(parts: seq<string>)
    requires parts == []
    ensures Trimmed(parts) == []
  {
  }

  lemma JoinPrefixed(c: string, more: seq<string>)
    requires more != []
    ensures Join([c + more[0]] + more[1..], ',') == c + Join(more, ',')
  {
    var parts := [c + more[0]] + more[1..];
    assert parts[1..] == more[1..];
    if |more| > 1 { assert c + more[0] + "," + Join(more[1..], ',') == c + (more[0] + "," + Join(more[1..], ',')); }
  }

  /** Every input: the stretches make up the text again. */
  lemma {:induction false} PiecesJoin(text: string, depth: int)
    ensures Join(Pieces(text, depth), ',') == text
  {
    if text != "" {
      var d := depth + Step(text[0]);
      var more := Pieces(text[1..], d);
      PiecesJoin(text[1..], d);
      if text[0] == ',' && d == 0 {
        assert ([""] + more)[1..] == more;
      } else {
        JoinPrefixed([text[0]], more);
      }
    }
  }

  // ---------- From columns and back ----------

  predicate NoOwnComma(col: string, depth: int) {
    forall i :: 0 <= i < |col| && depth + Depth(col[..i]) == 0 ==> col[i] != ','
  }

  lemma CommaTail(col: string, depth: int)
    requires col != "" && NoOwnComma(col, depth)
    ensures NoOwnComma(col[1..], depth + Step(col[0])) && Depth(col) == Step(col[0]) + Depth(col[1..])
    ensures !(col[0] == ',' && depth == 0)
  {
    assert [col[0]][..0] == "" && col[..0] == "";
    assert col == [col[0]] + col[1..];
    DepthAppend([col[0]], col[1..]);
    var tail := col[1..];
    forall i | 0 <= i < |tail| && depth + Step(col[0]) + Depth(tail[..i]) == 0 ensures tail[i] != ',' {
      assert col[..i + 1] == [col[0]] + tail[..i];
      DepthAppend([col[0]], tail[..i]);
      assert tail[i] == col[i + 1];
    }
  }

  lemma {:induction false} PieceOff(col: string, rest: string, depth: int)
    requires NoOwnComma(col, depth) && depth + Depth(col) == 0
    ensures Pieces(col + "," + rest, depth) == [col] + Pieces(rest, 0)
    ensures Pieces(col, depth) == [col]
    decreases |col|
  {
    hide *;
    if col == "" {
      EmptyDepth();
      CommaCuts(rest);
    } else {
      CommaTail(col, depth);
      PieceOff(col[1..], rest, depth + Step(col[0]));
      Longer(col, rest, depth);
      Longer(col, "", depth);
    }
  }

  lemma CommaCuts(rest: string)
    ensures Pieces("" + "," + rest, 0) == [""] + Pieces(rest, 0) && Pieces("", 0) == [""]
  {
    assert ("" + "," + rest)[1..] == rest && Step(',') == 0;
  }

  /** A character that does not cut goes to the first stretch. */
  lemma Longer(col: string, rest: string, depth: int)
    requires col != "" && !(col[0] == ',' && depth == 0)
    ensures var d := depth + Step(col[0]);
            && (Pieces(col[1..], d)[0] == col[1..] ==> Pieces(col, depth)[0] == col)
            && (Pieces(col[1..] + "," + rest, d)[0] == col[1..] ==> Pieces(col + "," + rest, depth)[0] == col)
            && Pieces(col, depth)[1..] == Pieces(col[1..], d)[1..]
            && Pieces(col + "," + rest, depth)[1..] == Pieces(col[1..] + "," + rest, d)[1..]
  {
    assert (col + "," + rest)[1..] == col[1..] + "," + rest && [col[0]] + col[1..] == col;
  }

  lemma {:induction false} PiecesOfColumns(cols: seq<string>)
    requires cols != [] && forall c <- cols :: NoOwnComma(c, 0) && Depth(c) == 0
    ensures Pieces(Join(cols, ','), 0) == cols && Depth(Join(cols, ',')) == 0
  {
    hide NoOwnComma;
    var c, more := cols[0], cols[1..];
    assert c in cols;
    if more == [] {
      PieceOff(c, "", 0);
    } else {
      PiecesOfColumns(more);
      PieceOff(c, Join(more, ','), 0);
      DepthAppend(c + ",", Join(more, ','));
      DepthAppend(c, ",");
      assert ","[..0] == "";
    }
  }

  /** No FROM of a column's own level, in whatever it stands between: its ends count as word ends. */
  ghost predicate NoOwnFrom(word: WordClass, col: string) {
    forall f: nat :: !OwnFrom(word, col, 0, f)
  }

  predicate EndsWord(word: WordClass, c: char) {
    !word(c) && c != 'F' && c != 'f' && c != 'R' && c != 'r' && c != 'O' && c != 'o' && c != 'M' && c != 'm'
  }

  /** A FROM between separators is a FROM of the text by itself. */
  lemma FromInside(word: WordClass, a: string, t: string, b: string, i: nat)
    requires |a| <= i < |a| + |t| && FromAt(word, a + t + b, i)
    requires (a == "" || EndsWord(word, a[|a| - 1])) && (b == "" || EndsWord(word, b[0]))
    ensures FromAt(word, t, i - |a|)
  {
    var s := a + t + b;
    var k: nat := i - |a|;
    hide Folds, Step, Depth;
    assert b != "" ==> s[|a| + |t|] == b[0];
    assert a != "" ==> s[|a| - 1] == a[|a| - 1];
    FromFits(word, a, t, b, i);
    assert forall q :: 0 <= q < |t| ==> t[q] == s[|a| + q];
  }

  lemma FromFits(word: WordClass, a: string, t: string, b: string, i: nat)
    requires |a| <= i < |a| + |t| && FromAt(word, a + t + b, i) && (b == "" || EndsWord(word, b[0]))
    ensures i - |a| + 4 <= |t|
  {
    var s := a + t + b;
    if b != "" { assert s[|a| + |t|] == b[0]; }
  }

  lemma {:induction false} ListHasNoFrom(word: WordClass, cols: seq<string>)
    requires EndsWord(word, ',')
    requires forall c <- cols :: Depth(c) == 0 && NoOwnFrom(word, c)
    ensures NoOwnFrom(word, Join(cols, ','))
  {
    hide FromAt, EndsWord;
    if |cols| == 1 {
      assert cols[0] in cols;
    } else if cols == [] {
      EmptyHasNoFrom(word);
    } else {
      var c, more := cols[0], cols[1..];
      assert c in cols;
      ListHasNoFrom(word, more);
      TwoHaveNoFrom(word, c, Join(more, ','));
    }
  }

  lemma EmptyHasNoFrom(word: WordClass)
    ensures NoOwnFrom(word, "")
  {
  }

  lemma TwoHaveNoFrom(word: WordClass, c: string, rest: string)
    requires EndsWord(word, ',') && Depth(c) == 0 && NoOwnFrom(word, c) && NoOwnFrom(word, rest)
    ensures NoOwnFrom(word, c + "," + rest)
  {
    hide FromAt, EndsWord, OwnFrom, Depth;
    forall f: nat ensures !OwnFrom(word, c + "," + rest, 0, f) {
      if OwnFrom(word, c + "," + rest, 0, f) { FromOfEither(word, c, rest, f); }
    }
  }

  lemma FromOfEither(word: WordClass, c: string, rest: string, f: nat)
    requires EndsWord(word, ',') && Depth(c) == 0 && OwnFrom(word, c + "," + rest, 0, f)
    ensures OwnFrom(word, c, 0, f) || (f > |c| && OwnFrom(word, rest, 0, f - |c| - 1))
  {
    hide FromAt, EndsWord, Depth;
    var s := c + "," + rest;
    FromStart(word, s, f);
    CommaNoFrom(word, s, |c|);
    if f < |c| {
      assert s == c + ("," + rest) && s[0..f] == c[0..f];
      FromOfLeft(word, c, "," + rest, f);
    } else {
      FromOfRight(word, c + ",", rest, f);
      DepthPast(c, rest, f - |c| - 1);
    }
  }

  lemma FromOfLeft(word: WordClass, a: string, b: string, f: nat)
    requires FromAt(word, a + b, f) && f < |a| && b != "" && EndsWord(word, b[0])
    ensures FromAt(word, a, f)
  {
    hide FromAt;
    assert "" + a + b == a + b;
    FromInside(word, "", a, b, f);
  }

  lemma FromOfRight(word: WordClass, a: string, b: string, f: nat)
    requires FromAt(word, a + b, f) && |a| <= f < |a| + |b| && a != "" && EndsWord(word, a[|a| - 1])
    ensures FromAt(word, b, f - |a|)
  {
    hide FromAt;
    assert a + b + "" == a + b;
    FromInside(word, a, b, "", f);
  }

  lemma DepthPast(c: string, rest: string, g: nat)
    requires Depth(c) == 0 && g <= |rest|
    ensures Depth((c + "," + rest)[0..|c| + 1 + g]) == Depth(rest[0..g])
  {
    hide Depth;
    assert (c + "," + rest)[0..|c| + 1 + g] == (c + ",") + rest[0..g];
    DepthAppend(c + ",", rest[0..g]);
    DepthAppend(c, ",");
    CommaIsFlat();
  }

  lemma CommaIsFlat()
    ensures Depth(",") == 0
  {
    assert ","[..0] == "";
  }

  lemma FromStart(word: WordClass, s: string, f: nat)
    requires FromAt(word, s, f)
    ensures f + 4 <= |s|
  {
  }

  lemma CommaNoFrom(word: WordClass, s: string, f: nat)
    requires f < |s| && s[f] == ','
    ensures !FromAt(word, s, f)
  {
  }

  predicate IsSelect(kw: string) {
    |kw| == 6 && HeadAt(kw + " ", 0)
  }

  predicate IsFromWord(kw: string) {
    |kw| == 4 && Folds(kw[0], 'F') && Folds(kw[1], 'R') && Folds(kw[2], 'O') && Folds(kw[3], 'M')
  }

  /** A word class as the regex engine has it, where it matters here. */
  ghost predicate Sane(word: WordClass) {
    && (forall c :: IsFromLetter(c) ==> word(c))
    && EndsWord(word, ',') && forall c :: IsSpace(c) ==> !word(c)
  }

  predicate IsFromLetter(c: char) {
    Folds(c, 'F') || Folds(c, 'M')
  }

  function Chunk(before: string, select: string, space: char, list: string, kw: string, after: string): string {
    before + (select + [space]) + (list + (kw + after))
  }

  lemma HeadPlaced(before: string, select: string, space: char, rest: string)
    requires IsSelect(select) && IsSpace(space) && forall i :: 0 <= i < |before| ==> !HeadAt(before, i)
    ensures FirstHead(before + (select + [space]) + rest, |before| + 7)
  {
    var s := before + (select + [space]) + rest;
    var n := |before|;
    assert forall k :: 0 <= k < 6 ==> s[n + k] == select[k] == (select + " ")[k];
    assert s[n + 6] == space;
    assert HeadAt(s, n);
    forall i | 0 <= i < n ensures !HeadAt(s, i) {
      if HeadAt(s, i) { HeadsDoNotOverlap(before, s, i); }
    }
  }

  lemma HeadsDoNotOverlap(before: string, s: string, i: nat)
    requires i < |before| < |s| && before == s[..|before|] && Folds(s[|before|], 'S') && HeadAt(s, i)
    ensures HeadAt(before, i)
  {
    assert i + 7 <= |before|;
  }

  lemma FromPlaced(word: WordClass, chunk: string, from: nat, list: string, kw: string, after: string)
    requires from > 0 && from <= |chunk| && chunk[from..] == list + (kw + after)
    requires Sane(word) && !word(chunk[from - 1])
    requires IsFromWord(kw) && Depth(list) == 0 && NoOwnFrom(word, list)
    requires (list == "" || !word(list[|list| - 1])) && (after == "" || !word(after[0]))
    ensures FirstFrom(word, chunk, from, from + |list|)
  {
    hide *;
    var f := from + |list|;
    FromHere(word, chunk, from, list, kw, after);
    NoneEarlier(word, chunk, from, list);
    FirstOf(word, chunk, from, f);
  }

  lemma FirstOf(word: WordClass, chunk: string, from: nat, f: nat)
    requires from <= f <= |chunk| && Depth(chunk[from..f]) == 0 && FromAt(word, chunk, f)
    requires forall i: nat :: i < f ==> !OwnFrom(word, chunk, from, i)
    ensures FirstFrom(word, chunk, from, f)
  {
    hide FromAt, Depth;
  }

  /** The keyword's characters stand where they were put, at the edge of a word. */
  lemma FromHere(word: WordClass, chunk: string, from: nat, list: string, kw: string, after: string)
    requires from > 0 && from <= |chunk| && chunk[from..] == list + (kw + after)
    requires Sane(word) && !word(chunk[from - 1]) && IsFromWord(kw)
    requires (list == "" || !word(list[|list| - 1])) && (after == "" || !word(after[0]))
    ensures var f := from + |list|;
            && f < |chunk| && chunk[from..f] == list && FromAt(word, chunk, f)
            && Folds(chunk[f], 'F') && word(chunk[f])
  {
    var f := from + |list|;
    var tail := chunk[from..];
    assert forall k :: 0 <= k < |tail| ==> chunk[from + k] == tail[k];
    assert forall k :: 0 <= k < 4 ==> chunk[f + k] == kw[k];
    assert chunk[from..f] == list;
    assert after != "" ==> chunk[f + 4] == after[0];
    assert IsFromLetter(kw[0]) && IsFromLetter(kw[3]);
  }

  lemma NoneEarlier(word: WordClass, chunk: string, from: nat, list: string)
    requires 0 < from && from + |list| < |chunk| && chunk[from..from + |list|] == list
    requires Sane(word) && !word(chunk[from - 1]) && NoOwnFrom(word, list)
    requires list == "" || !word(list[|list| - 1])
    requires Folds(chunk[from + |list|], 'F') && word(chunk[from + |list|])
    ensures forall i: nat :: i < from + |list| ==> !OwnFrom(word, chunk, from, i)
  {
    hide FromAt, Depth, Sane;
    var f := from + |list|;
    forall i: nat | i < f ensures !OwnFrom(word, chunk, from, i) {
      if OwnFrom(word, chunk, from, i) {
        EarlierFrom(word, chunk, from, list, i);
      }
    }
  }

  lemma EarlierFrom(word: WordClass, chunk: string, from: nat, list: string, i: nat)
    requires 0 < from && from + |list| < |chunk| && chunk[from..from + |list|] == list
    requires Sane(word) && !word(chunk[from - 1])
    requires list == "" || !word(list[|list| - 1])
    requires Folds(chunk[from + |list|], 'F') && word(chunk[from + |list|])
    requires i < from + |list| && OwnFrom(word, chunk, from, i)
    ensures OwnFrom(word, list, 0, i - from)
  {
    var f := from + |list|;
    assert forall k :: 0 <= k < |list| ==> chunk[from + k] == list[k];
    assert IsFromLetter(chunk[i + 3]) && word(chunk[i + 3]);
    assert i + 4 <= f;
    assert i + 4 < f;
    assert chunk[from..i] == list[0..i - from];
  }

  /** ASCII letters, digits and the underscore are such a class, and the keywords may be written in any case. */
  lemma UsualKeywords(kw: string)
    ensures Sane(c => 'a' <= c <= 'z' || 'A' <= c <= 'Z' || '0' <= c <= '9' || c == '_')
    ensures (|kw| == 6 && kw[0] in "Ss" && kw[1] in "Ee" && kw[2] in "Ll" && kw[3] in "Ee" && kw[4] in "Cc"
             && kw[5] in "Tt") ==> IsSelect(kw)
    ensures |kw| == 4 && kw[0] in "Ff" && kw[1] in "Rr" && kw[2] in "Oo" && kw[3] in "Mm" ==> IsFromWord(kw)
  {
    if |kw| == 6 && kw[0] in "Ss" && kw[1] in "Ee" && kw[2] in "Ll" && kw[3] in "Ee" && kw[4] in "Cc"
       && kw[5] in "Tt" {
      HeadAtIs("", kw, ' ', "");
      assert "" + kw + [' '] + "" == kw + " ";
    }
  }

  /** For every list of columns with no comma and no FROM of their own level, however it is spaced and
      whatever surrounds it: extracting and splitting returns the trimmed columns, in order. */
  lemma ColumnsReadBack(word: WordClass, before: string, select: string, space: char, cols: seq<string>,
                        kw: string, after: string)
    requires Sane(word) && IsSelect(select) && IsSpace(space) && IsFromWord(kw)
    requires forall i :: 0 <= i < |before| ==> !HeadAt(before, i)
    requires cols != [] && forall c <- cols :: Depth(c) == 0 && NoOwnComma(c, 0) && NoOwnFrom(word, c)
    requires var list := Join(cols, ','); list == "" || !word(list[|list| - 1])
    requires after == "" || !word(after[0])
    ensures var list := Join(cols, ',');
            var chunk := Chunk(before, select, space, list, kw, after);
            && FirstHead(chunk, |before| + 7) && FirstFrom(word, chunk, |before| + 7, |before| + 7 + |list|)
            && chunk[|before| + 7..|before| + 7 + |list|] == list
            && Trimmed(Pieces(list, 0)) == Trimmed(cols)
  {
    hide HeadAt, FromAt, NoOwnComma, FirstHead, FirstFrom, Depth, NoOwnFrom;
    var list := Join(cols, ',');
    PiecesOfColumns(cols);
    ListHasNoFrom(word, cols);
    HeadPlaced(before, select, space, list + (kw + after));
    var chunk := Chunk(before, select, space, list, kw, after);
    var from := |before| + 7;
    assert chunk[from - 1] == space;
    assert chunk[from..] == list + (kw + after);
    assert chunk[from..from + |list|] == list;
    FromPlaced(word, chunk, from, list, kw, after);
  }

  /** Trimming columns that are not blank keeps their number and order. */
  lemma {:induction false} TrimmedEach(cols: seq<string>)
    requires forall c <- cols :: Strip(c) != ""
    ensures |Trimmed(cols)| == |cols| && forall i :: 0 <= i < |cols| ==> Trimmed(cols)[i] == Strip(cols[i])
  {
    hide Strip;
    if cols != [] { TrimmedEach(cols[1..]); }
  }
}
