/** Masking Rust source, removing its `#[cfg(test)]` modules, and counting what is left. */
module TestModules {
  import opened Text
  import MaskPrinter
  import SourceMasker

  const ATTRIBUTE := "#[cfg(test)]"

  predicate Contains(row: string, pat: string) {
    exists i: nat :: i <= |row| && At(row, i, pat)
  }

  predicate StartsAttribute(row: string) {
    At(Strip(row), 0, ATTRIBUTE)
  }

  /** An attribute line is blanks and then the attribute, with anything behind it. */
  lemma AttributeLine(ws: string, x: string)
    requires IsBlank(ws)
    ensures StartsAttribute(ws + "#[cfg(test)]" + x)
  {
    var t := "#[cfg(test)]" + x;
    assert ws + "#[cfg(test)]" + x == ws + t && t[0] == '#';
    LStripOver(ws, t);
    var k := RStripSplit(t);
    if k < 12 { BlankHolds(t[k..], t[11]) by { assert t[11] == ']' && t[k..][11 - k] == ']'; } }
    assert t[..k][0..12] == "#[cfg(test)]";
  }

  lemma AttributeShape(row: string) returns (ws: string, x: string)
    requires StartsAttribute(row)
    ensures IsBlank(ws) && row == ws + "#[cfg(test)]" + x
  {
    var k := LStripSplit(row);
    var n := RStripSplit(LStrip(row));
    ws, x := row[..k], row[k + 12..];
    assert row[k..][0..12] == LStrip(row)[..n][0..12];
  }

  function Find(row: string, c: char): (i: nat)
    ensures i <= |row| && (c in row <==> i < |row|) && (i < |row| ==> row[i] == c) && c !in row[..i]
  {
    if row == "" || row[0] == c then 0 else 1 + Find(row[1..], c)
  }

  // ---------- The removal, line by line ----------

  /** The first line from `j` that mentions a module, within five lines of the attribute at `i`. */
  function ModAt(lines: seq<string>, i: nat, j: nat): (r: nat)
    requires i <= j
    ensures r >= j
    decreases |lines| - j
  {
    if j < |lines| && j - i <= 5 && !Contains(lines[j], "mod ") then ModAt(lines, i, j + 1) else j
  }

  predicate Within(lines: seq<string>, i: nat, j: nat) {
    j < |lines| && j - i <= 5
  }

  predicate IsDeclaration(row: string) {
    var s := Strip(row);
    At(s, 0, "mod ") && s != "" && s[|s| - 1] == ';'
  }

  /** A declared module is `mod `, anything and a semicolon, with blanks around. */
  lemma DeclarationIs(ws: string, x: string, ws': string)
    requires IsBlank(ws) && IsBlank(ws')
    ensures IsDeclaration(ws + ("mod " + x + ";") + ws')
  {
    var core := "mod " + x + ";";
    assert core[0] == 'm' && core[|core| - 1] == ';';
    StripIs(ws, core, ws');
  }

  lemma DeclarationShape(row: string) returns (ws: string, x: string, ws': string)
    requires IsDeclaration(row)
    ensures IsBlank(ws) && IsBlank(ws') && row == ws + ("mod " + x + ";") + ws'
  {
    var k := LStripSplit(row);
    var n := RStripSplit(LStrip(row));
    var s := Strip(row);
    assert s[0..4] == "mod " && s[3] == ' ' && s[|s| - 1] == ';';
    ws, x, ws' := row[..k], s[4..|s| - 1], LStrip(row)[n..];
    assert s == "mod " + x + ";";
    assert row == row[..k] + row[k..];
  }

  /** The depth at the end of a row, or 0 from where the block closes in it. */
  function ScanRow(row: string, depth: int): int {
    if row == "" then depth
    else if row[0] == '}' && depth == 1 then 0
    else ScanRow(row[1..], depth + Weight(row[0]))
  }

  function Weight(c: char): int {
    if c == '{' then 1 else if c == '}' then -1 else 0
  }

  /** The line in which a block `depth` deep closes, or the end of the file; `row` is the rest of line `k`. */
  function BlockEnd(lines: seq<string>, k: nat, row: string, depth: int): (r: nat)
    ensures r >= k
    decreases |lines| - k
  {
    if k >= |lines| then k
    else
      var d := ScanRow(row, depth);
      if d == 0 then k
      else BlockEnd(lines, k + 1, if k + 1 < |lines| then lines[k + 1] else "", d)
  }

  /** The line after the module whose attribute is in line `i`, or `i` when there is none to remove. */
  function ModuleEnd(lines: seq<string>, i: nat): (next: nat)
    requires i < |lines|
    ensures next >= i
  {
    var j := ModAt(lines, i, i);
    if !StartsAttribute(lines[i]) || !Within(lines, i, j) then i
    else if '{' in lines[j] then BlockEnd(lines, j, lines[j][Find(lines[j], '{') + 1..], 1) + 1
    else if IsDeclaration(lines[j]) then j + 1
    else i
  }

  function StripFrom(lines: seq<string>, i: nat): seq<string>
    decreases |lines| - i
  {
    if i >= |lines| then []
    else if ModuleEnd(lines, i) > i then [""] + StripFrom(lines, ModuleEnd(lines, i))
    else [lines[i]] + StripFrom(lines, i + 1)
  }

  method ScanRowFrom(row: string, start: nat, depth0: int) returns (depth: int)
    requires start <= |row|
    ensures depth == ScanRow(row[start..], depth0)
  {
    depth := depth0;
    var idx := start;
    while idx < |row|
      invariant start <= idx <= |row| && ScanRow(row[idx..], depth) == ScanRow(row[start..], depth0)
    {
      assert row[idx..][1..] == row[idx + 1..];
      if row[idx] == '{' {
        depth := depth + 1;
      } else if row[idx] == '}' {
        depth := depth - 1;
        if depth == 0 { return; }
      }
      idx := idx + 1;
    }
  }

  method SkipBlock(lines: seq<string>, modLine: nat, col: nat) returns (k: nat)
    requires modLine < |lines| && col <= |lines[modLine]|
    ensures k == BlockEnd(lines, modLine, lines[modLine][col..], 1)
  {
    hide ScanRow;
    var depth := 1;
    k := modLine;
    ghost var row := lines[modLine][col..];
    while k < |lines|
      invariant k >= modLine
      invariant BlockEnd(lines, k, row, depth) == BlockEnd(lines, modLine, lines[modLine][col..], 1)
      invariant k < |lines| ==> row == lines[k][if k == modLine then col else 0..]
      decreases |lines| - k
    {
      depth := ScanRowFrom(lines[k], if k == modLine then col else 0, depth);
      if depth == 0 { return; }
      k := k + 1;
      row := if k < |lines| then lines[k] else "";
    }
  }

  method FindModule(lines: seq<string>, i: nat) returns (j: nat)
    ensures j == ModAt(lines, i, i)
  {
    hide Contains;
    j := i;
    while j < |lines| && j - i <= 5 && !Contains(lines[j], "mod ")
      invariant i <= j && ModAt(lines, i, j) == ModAt(lines, i, i)
    {
      j := j + 1;
    }
  }

  method StripTestModules(lines: seq<string>) returns (out: seq<string>)
    ensures out == StripFrom(lines, 0)
  {
    hide *;
    out := [];
    var i := 0;
    assert [] + StripFrom(lines, 0) == StripFrom(lines, 0);
    while i < |lines|
      invariant out + StripFrom(lines, i) == StripFrom(lines, 0)
      decreases |lines| - i
    {
      NextRow(lines, i, out);
      StripStep(lines, i);
      if StartsAttribute(lines[i]) {
        var j := FindModule(lines, i);
        if Within(lines, i, j) && '{' in lines[j] {
          var k := SkipBlock(lines, j, Find(lines[j], '{') + 1);
          out := out + [""];
          i := k + 1;
          continue;
        }
        if Within(lines, i, j) && IsDeclaration(lines[j]) {
          out := out + [""];
          i := j + 1;
          continue;
        }
      }
      out := out + [lines[i]];
      i := i + 1;
    }
    StripDone(lines, i);
    assert out + [] == out;
  }

  lemma StripDone(lines: seq<string>, i: nat)
    requires i >= |lines|
    ensures StripFrom(lines, i) == []
  {
  }

  /** What stands for line `i` in the result. */
  lemma NextRow(lines: seq<string>, i: nat, out: seq<string>)
    requires i < |lines|
    ensures out + StripFrom(lines, i) ==
            if ModuleEnd(lines, i) > i then out + [""] + StripFrom(lines, ModuleEnd(lines, i))
            else out + [lines[i]] + StripFrom(lines, i + 1)
  {
    hide *;
    StripRow(lines, i);
    OneRow(out, "", StripFrom(lines, ModuleEnd(lines, i)));
    OneRow(out, lines[i], StripFrom(lines, i + 1));
  }

  lemma OneRow(out: seq<string>, row: string, more: seq<string>)
    ensures out + ([row] + more) == out + [row] + more
  {
  }

  lemma StripRow(lines: seq<string>, i: nat)
    requires i < |lines|
    ensures StripFrom(lines, i) ==
            if ModuleEnd(lines, i) > i then [""] + StripFrom(lines, ModuleEnd(lines, i))
            else [lines[i]] + StripFrom(lines, i + 1)
  {
    hide ModuleEnd;
  }

  lemma StripStep(lines: seq<string>, i: nat)
    requires i < |lines|
    ensures var j := ModAt(lines, i, i);
            && Within(lines, i, j) == (j < |lines| && j - i <= 5)
            && ModuleEnd(lines, i) ==
               if !StartsAttribute(lines[i]) || !Within(lines, i, j) then i
               else if '{' in lines[j] then BlockEnd(lines, j, lines[j][Find(lines[j], '{') + 1..], 1) + 1
               else if IsDeclaration(lines[j]) then j + 1
               else i
  {
    hide BlockEnd, Contains, IsDeclaration, StartsAttribute, ModAt;
  }

  /** The non-blank lines of a file, which is what is counted. */
  function Visible(lines: seq<string>): seq<string> {
    if lines == [] then [] else (if IsBlank(lines[0]) then [] else [lines[0]]) + Visible(lines[1..])
  }

  /** Exactly the blank lines are left out. */
  lemma {:induction false} VisibleIs(lines: seq<string>, l: string)
    ensures multiset(Visible(lines))[l] == if IsBlank(l) then 0 else multiset(lines)[l]
    ensures Subsequence(Visible(lines), lines)
  {
    if lines != [] {
      VisibleIs(lines[1..], l);
      assert lines == [lines[0]] + lines[1..];
      if IsBlank(lines[0]) {
        SkipMore(Visible(lines[1..]), [lines[0]], lines[1..]);
        assert Visible(lines) == [] + Visible(lines[1..]) == Visible(lines[1..]);
      } else {
        SameHead(lines[0], Visible(lines[1..]), lines[1..]);
      }
    }
  }

  /** The lines of masked source that are counted. */
  function Counted(masked: string): seq<string> {
    Visible(StripFrom(SplitOn(masked, '\n'), 0))
  }

  /** The text is masked, split, stripped, joined and split again; the joining loses nothing. */
  method CountLines(raw: string) returns (count: nat)
    ensures count == |Counted(SourceMasker.Masked(raw))|
  {
    hide StripFrom, SourceMasker.Masked;
    var masked := SourceMasker.MaskCommentsAndStrings(raw);
    var lines := SplitOn(masked, '\n');
    var out := StripTestModules(lines);
    StripKeepsRows(lines, 0, '\n');
    SplitJoin(out, '\n');
    var rows := SplitOn(Join(out, '\n'), '\n');
    count := 0;
    for i := 0 to |rows|
      invariant count + |Visible(rows[i..])| == |Visible(rows)|
    {
      assert rows[i..][1..] == rows[i + 1..];
      if !IsBlank(rows[i]) { count := count + 1; }
    }
  }

  lemma {:induction false} StripKeepsRows(lines: seq<string>, i: nat, sep: char)
    requires forall l <- lines :: sep !in l
    ensures forall l <- StripFrom(lines, i) :: sep !in l
    ensures i < |lines| ==> StripFrom(lines, i) != []
    decreases |lines| - i
  {
    hide ModuleEnd;
    if i < |lines| {
      if ModuleEnd(lines, i) > i {
        StripKeepsRows(lines, ModuleEnd(lines, i), sep);
      } else {
        StripKeepsRows(lines, i + 1, sep);
      }
    }
  }

  // ---------- Every input: what survives is part of it, in order ----------

  lemma VisibleOne(l: string, rest: seq<string>)
    ensures Visible([l] + rest) == (if IsBlank(l) then [] else [l]) + Visible(rest)
  {
    assert ([l] + rest)[1..] == rest;
  }

  lemma {:induction false} VisibleAppend(a: seq<string>, b: seq<string>)
    ensures Visible(a + b) == Visible(a) + Visible(b)
  {
    if a == [] {
      assert a + b == b;
    } else {
      assert (a + b)[1..] == a[1..] + b;
      VisibleAppend(a[1..], b);
    }
  }

  lemma {:induction false} Survivors(lines: seq<string>, i: nat)
    requires i <= |lines|
    ensures Subsequence(Visible(StripFrom(lines, i)), Visible(lines[i..]))
    decreases |lines| - i
  {
    hide ModuleEnd, Subsequence, Visible, IsBlank;
    if i == |lines| {
      NothingLeft(lines[i..]);
    } else if ModuleEnd(lines, i) > i {
      var next := ModuleEnd(lines, i);
      VisibleOne("", StripFrom(lines, next));
      EmptyIsBlank();
      if next <= |lines| {
        Survivors(lines, next);
        assert lines[i..] == lines[i..next] + lines[next..];
        VisibleAppend(lines[i..next], lines[next..]);
        SkipMore(Visible(StripFrom(lines, next)), Visible(lines[i..next]), Visible(lines[next..]));
      } else {
        assert Visible(StripFrom(lines, i)) == [] + Visible([]);
        NothingLeft(lines[i..]);
      }
    } else {
      assert lines[i..] == [lines[i]] + lines[i + 1..];
      VisibleOne(lines[i], lines[i + 1..]);
      Survivors(lines, i + 1);
      VisibleOne(lines[i], StripFrom(lines, i + 1));
      EmptyIsBlank();
      if !IsBlank(lines[i]) {
        SameHead(lines[i], Visible(StripFrom(lines, i + 1)), Visible(lines[i + 1..]));
      }
    }
  }

  lemma EmptyIsBlank()
    ensures IsBlank("") && forall b: seq<string> :: [] + b == b
  {
  }

  lemma NothingLeft(b: seq<string>)
    ensures Visible([]) == [] && Subsequence(Visible([]), Visible(b))
  {
  }

  // ---------- Files made of production lines and test modules ----------

  datatype Item =
    | Production(line: string)
    | Inline(header: seq<string>, body: seq<string>)
    | Declared(header: seq<string>)

  function Print(item: Item): seq<string> {
    match item
    case Production(line) => [line]
    case Inline(header, body) => header + body
    case Declared(header) => header
  }

  function PrintAll(items: seq<Item>): seq<string> {
    if items == [] then [] else Print(items[0]) + PrintAll(items[1..])
  }

  function Kept(items: seq<Item>): seq<string> {
    if items == [] then []
    else [if items[0].Production? then items[0].line else ""] + Kept(items[1..])
  }

  function ProductionLines(items: seq<Item>): seq<string> {
    if items == [] then []
    else (if items[0].Production? then [items[0].line] else []) + ProductionLines(items[1..])
  }

  /** An attribute line and, at most five lines on, the first line that mentions a module. */
  ghost predicate Header(h: seq<string>) {
    && 1 <= |h| <= 6 && StartsAttribute(h[0])
    && (forall k :: 0 <= k < |h| - 1 ==> !Contains(h[k], "mod "))
    && Contains(h[|h| - 1], "mod ")
  }

  /** Opening braces less closing ones. */
  function Excess(s: string): int {
    if s == "" then 0 else Weight(s[0]) + Excess(s[1..])
  }

  lemma {:induction false} ExcessIs(s: string)
    ensures Excess(s) + multiset(s)['}'] == multiset(s)['{']
  {
    if s != "" {
      ExcessIs(s[1..]);
      assert s == [s[0]] + s[1..];
    }
  }

  /** Entered `depth` deep, no beginning of the row leaves the block. */
  ghost predicate Inside(row: string, depth: int) {
    forall q {:trigger row[..q]} :: 0 <= q <= |row| ==> depth + Excess(row[..q]) >= 1
  }

  /** The closing brace at `p` is the first to leave the block. */
  ghost predicate LeavesAt(row: string, depth: int, p: int) {
    0 <= p < |row| && row[p] == '}' && Inside(row[..p], depth) && depth + Excess(row[..p]) == 1
  }

  ghost predicate ClosesInLast(rows: seq<string>, depth: int) {
    rows != []
    && if |rows| == 1 then exists p :: LeavesAt(rows[0], depth, p)
    else Inside(rows[0], depth) && ClosesInLast(rows[1..], depth + Excess(rows[0]))
  }

  /** What follows the module's opening brace, and the lines after. */
  function Block(h: seq<string>, body: seq<string>): seq<string>
    requires h != [] && '{' in h[|h| - 1]
  {
    [h[|h| - 1][Find(h[|h| - 1], '{') + 1..]] + body
  }

  /** What the file prints as a module is one: its header's module opens a block that ends with the body, or is a
      declaration. */
  ghost predicate Proper(item: Item) {
    match item
    case Production(_) => true
    case Inline(h, body) => Header(h) && '{' in h[|h| - 1] && ClosesInLast(Block(h, body), 1)
    case Declared(h) => Header(h) && '{' !in h[|h| - 1] && IsDeclaration(h[|h| - 1])
  }

  /** Of the first six lines, the first that mentions a module, if one does, opens no brace and declares nothing. */
  ghost predicate NoModuleNear(rows: seq<string>) {
    forall j :: 0 <= j < |rows| && j <= 5 && Contains(rows[j], "mod ")
                && (forall k :: 0 <= k < j ==> !Contains(rows[k], "mod ")) ==>
                  '{' !in rows[j] && !IsDeclaration(rows[j])
  }

  /** A production line under the attribute, a test-only function say, has no module near it. */
  ghost predicate AttributesAlone(items: seq<Item>) {
    items != [] ==>
      && (items[0].Production? && StartsAttribute(items[0].line) ==> NoModuleNear(PrintAll(items)))
      && AttributesAlone(items[1..])
  }

  lemma ExcessPrefix(row: string, q: nat)
    requires 0 < q <= |row|
    ensures row[..q][1..] == row[1..][..q - 1]
    ensures Excess(row[..q]) == Weight(row[0]) + Excess(row[1..][..q - 1])
  {
    assert row[..q][1..] == row[1..][..q - 1];
  }

  lemma InsideTail(row: string, depth: int)
    requires row != "" && Inside(row, depth)
    ensures Inside(row[1..], depth + Weight(row[0])) && depth >= 1 && depth + Weight(row[0]) >= 1
  {
    assert row[..0] == "" && Excess(row[..0]) == 0;
    ExcessPrefix(row, 1);
    assert Excess(row[1..][..0]) == 0;
    forall q | 0 <= q <= |row[1..]| ensures depth + Weight(row[0]) + Excess(row[1..][..q]) >= 1 {
      ExcessPrefix(row, q + 1);
    }
  }

  /** A row that stays inside is scanned to its end. */
  lemma {:induction false} RowStays(row: string, depth: int)
    requires Inside(row, depth)
    ensures ScanRow(row, depth) == depth + Excess(row) >= 1
    decreases |row|
  {
    hide Inside;
    if row == "" {
      InsideWhole(row, depth);
    } else {
      InsideTail(row, depth);
      RowStays(row[1..], depth + Weight(row[0]));
    }
  }

  lemma InsideWhole(row: string, depth: int)
    requires Inside(row, depth)
    ensures depth + Excess(row) >= 1
  {
    assert row[..|row|] == row;
  }

  /** A row that leaves the block is scanned to depth 0. */
  lemma {:induction false} RowLeaves(row: string, depth: int, p: int)
    requires LeavesAt(row, depth, p)
    ensures ScanRow(row, depth) == 0
    decreases |row|
  {
    if p == 0 {
      assert row[..0] == "";
    } else {
      InsideTail(row[..p], depth);
      ExcessPrefix(row, p);
      RowLeaves(row[1..], depth + Weight(row[0]), p - 1);
    }
  }

  /** The block ends with the last of its rows. */
  lemma {:induction false} BlockEndIs(lines: seq<string>, k: nat, depth: int, rows: seq<string>)
    requires rows != [] && k + |rows| <= |lines| && ClosesInLast(rows, depth)
    requires forall r :: 1 <= r < |rows| ==> rows[r] == lines[k + r]
    ensures BlockEnd(lines, k, rows[0], depth) == k + |rows| - 1
    decreases |rows|
  {
    hide ScanRow, Inside, LeavesAt, Excess;
    if |rows| == 1 {
      var p :| LeavesAt(rows[0], depth, p);
      RowLeaves(rows[0], depth, p);
    } else {
      RowStays(rows[0], depth);
      assert rows[1..][0] == rows[1] == lines[k + 1];
      assert forall r :: 1 <= r < |rows[1..]| ==> rows[1..][r] == rows[r + 1] == lines[k + 1 + r];
      BlockEndIs(lines, k + 1, depth + Excess(rows[0]), rows[1..]);
    }
  }

  lemma {:induction false} ModAtIs(lines: seq<string>, i: nat, j: nat, h: seq<string>)
    requires i <= j && j - i < |h| && i + |h| <= |lines| && Header(h)
    requires forall k :: 0 <= k < |h| ==> lines[i + k] == h[k]
    ensures ModAt(lines, i, j) == i + |h| - 1
    decreases |lines| - j
  {
    hide Contains, StartsAttribute;
    assert lines[i + (j - i)] == h[j - i];
    if j - i < |h| - 1 {
      ModAtIs(lines, i, j + 1, h);
    }
  }

  lemma HeaderFound(lines: seq<string>, i: nat, h: seq<string>)
    requires Header(h) && i + |h| <= |lines| && forall k :: 0 <= k < |h| ==> lines[i + k] == h[k]
    ensures ModAt(lines, i, i) == i + |h| - 1 && Within(lines, i, i + |h| - 1)
    ensures StartsAttribute(lines[i]) && lines[i + |h| - 1] == h[|h| - 1]
  {
    hide Contains, StartsAttribute;
    ModAtIs(lines, i, i, h);
    assert lines[i + 0] == h[0];
    assert lines[i + (|h| - 1)] == h[|h| - 1];
  }

  lemma ModuleEndIs(lines: seq<string>, i: nat, it: Item)
    requires i + |Print(it)| <= |lines| && Proper(it) && !it.Production?
    requires forall k :: 0 <= k < |Print(it)| ==> lines[i + k] == Print(it)[k]
    ensures i < |lines| && ModuleEnd(lines, i) == i + |Print(it)|
  {
    hide *;
    var h := it.header;
    HeaderNotEmpty(it);
    forall k | 0 <= k < |h| ensures lines[i + k] == h[k] {
      assert Print(it)[k] == h[k];
    }
    HeaderFound(lines, i, h);
    StripStep(lines, i);
    if it.Inline? {
      var j, rows := i + |h| - 1, Block(h, it.body);
      forall r | 1 <= r < |rows| ensures rows[r] == lines[j + r] {
        assert lines[i + (|h| - 1 + r)] == Print(it)[|h| - 1 + r];
      }
      BlockEndIs(lines, j, 1, rows);
    }
  }

  lemma HeaderNotEmpty(it: Item)
    requires Proper(it) && !it.Production?
    ensures Header(it.header) && it.header != [] && |it.header| <= |Print(it)|
    ensures forall k :: 0 <= k < |it.header| ==> Print(it)[k] == it.header[k]
    ensures it.Inline? ==>
              var h, rows := it.header, Block(it.header, it.body);
              && '{' in h[|h| - 1] && ClosesInLast(rows, 1) && rows != [] && |Print(it)| == |h| - 1 + |rows|
              && rows[0] == h[|h| - 1][Find(h[|h| - 1], '{') + 1..]
              && forall r :: 1 <= r < |rows| ==> Print(it)[|h| - 1 + r] == rows[r]
    ensures it.Declared? ==>
              var h := it.header; '{' !in h[|h| - 1] && IsDeclaration(h[|h| - 1]) && |Print(it)| == |h|
  {
    hide Contains, IsDeclaration, StartsAttribute, Find;
    if it.Inline? { assert ClosesInLast(Block(it.header, it.body), 1); }
  }

  lemma {:induction false} ModAtFirst(lines: seq<string>, i: nat, j: nat)
    requires i <= j <= |lines| && j - i <= 6
    ensures var r := ModAt(lines, i, j);
            && r <= |lines| && r - i <= 6 && (Within(lines, i, r) ==> Contains(lines[r], "mod "))
            && forall k :: j <= k < r ==> !Contains(lines[k], "mod ")
    decreases |lines| - j
  {
    hide Contains;
    if j < |lines| && j - i <= 5 && !Contains(lines[j], "mod ") { ModAtFirst(lines, i, j + 1); }
  }

  /** A line is kept if and only if it is no attribute or has no module near it. */
  lemma LineKept(lines: seq<string>, i: nat)
    requires i < |lines|
    ensures ModuleEnd(lines, i) == i <==> !StartsAttribute(lines[i]) || NoModuleNear(lines[i..])
  {
    hide Contains, StartsAttribute, IsDeclaration, BlockEnd;
    ModAtFirst(lines, i, i);
    var j, rows := ModAt(lines, i, i), lines[i..];
    assert forall k :: 0 <= k < |rows| ==> rows[k] == lines[i + k];
    if Within(lines, i, j) {
      assert rows[j - i] == lines[j];
      forall k | 0 <= k < j - i ensures !Contains(rows[k], "mod ") { assert lines[i + k] == rows[k]; }
    } else {
      forall k | 0 <= k < |rows| && k <= 5 ensures !Contains(rows[k], "mod ") { assert lines[i + k] == rows[k]; }
    }
  }

  lemma PrintOne(it: Item)
    requires Proper(it)
    ensures it.Production? ==> Print(it) == [it.line]
    ensures |Print(it)| >= 1
  {
    hide Contains, IsDeclaration, StartsAttribute, ClosesInLast;
  }

  /** For every file that interleaves production lines with test modules: exactly the production lines are kept,
      and a blank line for each module, if and only if no production line is taken for a module's attribute. */
  lemma {:induction false} StripExactIff(lines: seq<string>, i: nat, items: seq<Item>)
    requires i <= |lines| && lines[i..] == PrintAll(items) && forall it <- items :: Proper(it)
    ensures StripFrom(lines, i) == Kept(items) <==> AttributesAlone(items)
    decreases |items|
  {
    hide *;
    if items == [] {
      NoItems(lines, i);
    } else {
      var it, more := items[0], items[1..];
      var n := |Print(it)|;
      OneItem(items);
      PrintOne(it);
      var rest := lines[i..];
      assert lines[i + n..] == rest[n..] == PrintAll(more);
      forall k | 0 <= k < n ensures lines[i + k] == Print(it)[k] { assert rest[k] == Print(it)[k]; }
      StripExactIff(lines, i + n, more);
      StripRow(lines, i);
      if it.Production? {
        assert lines[i + 0] == Print(it)[0];
        LineKept(lines, i);
        if ModuleEnd(lines, i) > i {
          AttributeVisible(it.line);
          assert StripFrom(lines, i)[0] == "" != Kept(items)[0];
        } else {
          SameRest(it.line, StripFrom(lines, i + 1), Kept(more));
        }
      } else {
        ModuleEndIs(lines, i, it);
        SameRest("", StripFrom(lines, i + n), Kept(more));
      }
    }
  }

  lemma NoItems(lines: seq<string>, i: nat)
    requires i <= |lines| && lines[i..] == PrintAll([])
    ensures StripFrom(lines, i) == Kept([]) && AttributesAlone([])
  {
    assert |lines[i..]| == 0;
  }

  lemma OneItem(items: seq<Item>)
    requires items != []
    ensures PrintAll(items) == Print(items[0]) + PrintAll(items[1..])
    ensures Kept(items) == [if items[0].Production? then items[0].line else ""] + Kept(items[1..])
    ensures AttributesAlone(items) <==>
            && (items[0].Production? && StartsAttribute(items[0].line) ==> NoModuleNear(PrintAll(items)))
            && AttributesAlone(items[1..])
  {
    hide StartsAttribute, NoModuleNear;
  }

  lemma AttributeVisible(line: string)
    requires StartsAttribute(line)
    ensures line != ""
  {
  }

  lemma SameRest(row: string, a: seq<string>, b: seq<string>)
    ensures [row] + a == [row] + b <==> a == b
  {
    assert ([row] + a)[1..] == a && ([row] + b)[1..] == b;
  }

  lemma {:induction false} KeptVisible(items: seq<Item>)
    ensures Visible(Kept(items)) == Visible(ProductionLines(items))
  {
    hide Visible, IsBlank;
    if items != [] {
      var it, more := items[0], items[1..];
      KeptVisible(more);
      EmptyIsBlank();
      VisibleOne(if it.Production? then it.line else "", Kept(more));
      if it.Production? { VisibleOne(it.line, ProductionLines(more)); }
    }
  }

  /** The counted lines are exactly the production ones that are not blank. */
  lemma CountedLines(items: seq<Item>)
    requires items != [] && (forall it <- items :: Proper(it)) && AttributesAlone(items)
    requires forall l <- PrintAll(items) :: '\n' !in l
    ensures Counted(Join(PrintAll(items), '\n')) == Visible(ProductionLines(items))
  {
    hide Visible, StripFrom, Kept, ProductionLines, Proper, AttributesAlone;
    var lines := PrintAll(items);
    assert items[0] in items;
    PrintOne(items[0]);
    SplitJoin(lines, '\n');
    assert lines[0..] == lines;
    StripExactIff(lines, 0, items);
    KeptVisible(items);
  }

  /** From the raw source: when its code, without comments and the insides of literals, is production lines and
      test modules, the visible production lines are counted. */
  lemma CountedSource(ps: seq<MaskPrinter.Piece>, items: seq<Item>)
    requires MaskPrinter.ProperPieces(ps) && MaskPrinter.ShortEscapes(ps)
    requires MaskPrinter.OnlyCode(ps) == Join(PrintAll(items), '\n')
    requires items != [] && (forall it <- items :: Proper(it)) && AttributesAlone(items)
    requires forall l <- PrintAll(items) :: '\n' !in l
    ensures Counted(SourceMasker.Masked(MaskPrinter.PrintPieces(ps))) == Visible(ProductionLines(items))
  {
    hide *;
    var text := MaskPrinter.PrintPieces(ps);
    MaskPrinter.MaskSource(ps);
    CountedLines(items);
  }

  /** A test-only function shortly before a module of the program: the attribute is taken for the module's, and
      both are gone. */
  lemma HelperInstance()
    ensures var items := [Production("#[cfg(test)]"), Production("fn f() {}"), Production("mod a {"), Production("}")];
            && StripFrom(PrintAll(items), 0) != Kept(items) && !AttributesAlone(items)
  {
    var items := [Production("#[cfg(test)]"), Production("fn f() {}"), Production("mod a {"), Production("}")];
    var rows := ["#[cfg(test)]", "fn f() {}", "mod a {", "}"];
    HelperRows();
    HelperModule(rows);
    hide *;
    OneItem(items);
    assert rows[0..] == rows;
    ItemsProper(items);
    StripExactIff(rows, 0, items);
    HelperAttribute(items[0]);
  }

  lemma HelperRows()
    ensures var items := [Production("#[cfg(test)]"), Production("fn f() {}"), Production("mod a {"), Production("}")];
            PrintAll(items) == ["#[cfg(test)]", "fn f() {}", "mod a {", "}"]
  {
    var a, b, c, d := Production("#[cfg(test)]"), Production("fn f() {}"), Production("mod a {"), Production("}");
    assert [a, b, c, d][1..] == [b, c, d] && [b, c, d][1..] == [c, d] && [c, d][1..] == [d] && [d][1..] == [];
  }

  lemma ItemsProper(items: seq<Item>)
    requires forall it <- items :: it.Production?
    ensures forall it <- items :: Proper(it)
  {
  }

  lemma HelperAttribute(it: Item)
    requires it == Production("#[cfg(test)]")
    ensures StartsAttribute(it.line)
  {
    StripBare(it.line);
    assert it.line[0..12] == ATTRIBUTE;
  }

  lemma StripBare(s: string)
    requires s != "" && !IsSpace(s[0]) && !IsSpace(s[|s| - 1])
    ensures Strip(s) == s
  {
  }

  lemma HelperModule(rows: seq<string>)
    requires rows == ["#[cfg(test)]", "fn f() {}", "mod a {", "}"]
    ensures !NoModuleNear(rows)
  {
    assert At(rows[2], 0, "mod ") by { assert rows[2][0..4] == "mod "; }
    NoModuleIn(rows[0]);
    NoModuleIn(rows[1]);
    assert Contains(rows[2], "mod ") && rows[2][6] == '{';
  }

  lemma NoModuleIn(row: string)
    requires 'm' !in row
    ensures !Contains(row, "mod ")
  {
    forall i: nat | i <= |row| ensures !At(row, i, "mod ") { DiffersAt(row, i, "mod ", 0); }
  }

  /** The two shapes of a test module: a block, here on the attribute's own line, and a declaration. */
  lemma ShapesInstance()
    ensures Proper(Inline(["#[cfg(test)] mod t {"], ["}"])) && Proper(Declared(["#[cfg(test)]", "mod t;"]))
  {
    InlineInstance(["#[cfg(test)] mod t {"], ["}"]);
    DeclaredInstance(["#[cfg(test)]", "mod t;"]);
  }

  lemma InlineInstance(h: seq<string>, body: seq<string>)
    requires h == ["#[cfg(test)] mod t {"] && body == ["}"]
    ensures Proper(Inline(h, body))
  {
    var row := h[0];
    InlineRow(row);
    ClosesNext();
    SingleHeader(row);
    SingleBlock(row, body);
    hide Header, ClosesInLast, Block, Find;
    assert h == [row];
    assert Proper(Inline([row], body));
  }

  lemma SingleHeader(row: string)
    requires StartsAttribute(row) && Contains(row, "mod ")
    ensures Header([row])
  {
  }

  lemma SingleBlock(row: string, body: seq<string>)
    requires '{' in row && Find(row, '{') + 1 == |row| && body == ["}"]
    ensures Block([row], body) == ["", "}"]
  {
    hide Find;
    assert row[Find(row, '{') + 1..] == "";
  }

  lemma InlineRow(row: string)
    requires row == "#[cfg(test)] mod t {"
    ensures StartsAttribute(row) && Contains(row, "mod ") && '{' in row
    ensures Find(row, '{') + 1 == |row|
  {
    RowParts(row);
    RowModule(row);
    RowBrace(row);
    hide *;
    AttributeLine("", " mod t {");
  }

  lemma RowParts(row: string)
    requires row == "#[cfg(test)] mod t {"
    ensures row == "" + "#[cfg(test)]" + " mod t {" && IsBlank("")
  {
  }

  lemma RowModule(row: string)
    requires row == "#[cfg(test)] mod t {"
    ensures Contains(row, "mod ")
  {
    assert row[13..17] == "mod ";
    assert At(row, 13, "mod ");
  }

  lemma RowBrace(row: string)
    requires row == "#[cfg(test)] mod t {"
    ensures '{' in row && Find(row, '{') + 1 == |row|
  {
    hide Find;
    FindAt(row, '{', 19);
  }

  lemma ClosesNext()
    ensures ClosesInLast(["", "}"], 1)
  {
    var rows := ["", "}"];
    EmptyInside();
    assert rows[1..] == ["}"] && "}"[..0] == "";
    hide Inside, Excess;
    assert LeavesAt("}", 1, 0);
    assert ClosesInLast(["}"], 1);
  }

  lemma EmptyInside()
    ensures Inside("", 1) && Excess("") == 0
  {
  }

  lemma FindAt(row: string, c: char, k: nat)
    requires k < |row| && row[k] == c && forall i :: 0 <= i < k ==> row[i] != c
    ensures Find(row, c) == k
  {
    var i := Find(row, c);
    forall j | 0 <= j < i ensures row[j] != c { assert row[..i][j] == row[j] && row[..i][j] in row[..i]; }
  }

  lemma DeclaredInstance(h: seq<string>)
    requires h == ["#[cfg(test)]", "mod t;"]
    ensures Proper(Declared(h))
  {
    AttributeLine("", "");
    assert "" + "#[cfg(test)]" + "" == h[0];
    NoModuleIn(h[0]);
    assert At(h[1], 0, "mod ") by { assert h[1][0..4] == "mod "; }
    DeclarationIs("", "t", "");
    assert "" + ("mod " + "t" + ";") + "" == h[1];
  }
}
