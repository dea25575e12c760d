/** The scaffold as a whole, the validator, and when the one accepts the other. */
module FtlAgreement {
  import opened Options
  import opened Text
  import opened FtlPatterns
  import opened FtlScaffold
  import opened FtlGenerator

  // ---------- Generating ----------

  /** The comment lines the scaffold opens with. Each is written as two halves, so that `HashLine2` can take the
      halves one at a time: neither holds a line break. */
  function Banner(hint: string): seq<string> {
    ["#" + (" HINT (auto-generated by " + "translate-stub.py):") + "\n",
     "#" + ("   " + hint) + "\n",
     "#" + (" Replace each `[TODO]` sentinel " + "below with the actual Indonesian") + "\n",
     "#" + (" translation. Placeholders (e.g. " + "{ $count }) and select") + "\n",
     "#" + (" expressions must be " + "preserved verbatim.") + "\n"]
  }

  function PrintLines(lines: seq<string>, sentinel: string): string {
    if lines == [] then ""
    else
      var last := lines[|lines| - 1];
      PrintLines(lines[..|lines| - 1], sentinel) + if IsBlank(last) then "" else Segment(last, sentinel)
  }

  function PrintBlocks(blocks: seq<Block>, sentinel: string): string {
    if blocks == [] then ""
    else
      var last := blocks[|blocks| - 1];
      PrintBlocks(blocks[..|blocks| - 1], sentinel) + if last.key == BLANK then "\n"
          else PrintLines(last.lines, sentinel)
  }

  function Scaffold(text: string, sentinel: string, hint: string): string {
    var parsed := Collect(text);
    Concat(Banner(hint) + parsed.header) + PrintBlocks(parsed.blocks, sentinel)
  }

  method EmitHeader(hint: string, header: seq<string>) returns (out: string)
    ensures out == Concat(Banner(hint) + header)
  {
    hide Banner;
    out := Concat(Banner(hint));
    assert Banner(hint) + header[..0] == Banner(hint);
    for i := 0 to |header|
      invariant out == Concat(Banner(hint) + header[..i])
    {
      ConcatAppend(Banner(hint) + header[..i], [header[i]]);
      assert Banner(hint) + header[..i] + [header[i]] == Banner(hint) + header[..i + 1];
      assert [header[i]][1..] == [] && Concat([header[i]]) == header[i];
      out := out + header[i];
    }
    assert header[..|header|] == header;
  }

  lemma PrintNoLines(lines: seq<string>, sentinel: string)
    ensures PrintLines(lines[..0], sentinel) == "" && lines[..|lines|] == lines
  {
  }

  lemma PrintOneLine(lines: seq<string>, i: nat, sentinel: string)
    requires i < |lines|
    ensures PrintLines(lines[..i + 1], sentinel) ==
            PrintLines(lines[..i], sentinel) + if IsBlank(lines[i]) then "" else Segment(lines[i], sentinel)
  {
    hide IsBlank, Segment;
    assert lines[..i + 1][..i] == lines[..i];
  }

  method EmitBlock(out0: string, lines: seq<string>, sentinel: string) returns (out: string)
    ensures out == out0 + PrintLines(lines, sentinel)
  {
    hide ScaffoldValueLine, IsComment, IsBlank, PrintLines;
    out := out0;
    PrintNoLines(lines, sentinel);
    for i := 0 to |lines|
      invariant out == out0 + PrintLines(lines[..i], sentinel)
    {
      PrintOneLine(lines, i, sentinel);
      if IsBlank(lines[i]) { continue; }
      if IsComment(lines[i]) {
        out := out + (lines[i] + "\n");
        continue;
      }
      out := out + (ScaffoldValueLine(lines[i], sentinel) + "\n");
    }
    assert lines[..|lines|] == lines;
  }

  method ScaffoldBundle(text: string, sentinel: string, hint: string) returns (scaffold: string)
    ensures scaffold == Scaffold(text, sentinel, hint)
  {
    hide PrintLines, Concat, Banner, Collect;
    var parsed := CollectBlocks(text);
    var out := EmitHeader(hint, parsed.header);
    ghost var top := out;
    for b := 0 to |parsed.blocks|
      invariant out == top + PrintBlocks(parsed.blocks[..b], sentinel)
    {
      var block := parsed.blocks[b];
      assert parsed.blocks[..b + 1][..b] == parsed.blocks[..b];
      if block.key == BLANK {
        out := out + "\n";
        continue;
      }
      out := EmitBlock(out, block.lines, sentinel);
    }
    assert parsed.blocks[..|parsed.blocks|] == parsed.blocks;
    return out;
  }

  // ---------- Validating ----------

  datatype Failure =
    | Identical
    | KeysMissing(keys: set<string>)
    | KeysAdded(keys: set<string>)
    | PlaceholderDrift(key: string, src: nat, scaffold: nat)
    | SelectDrift(key: string, src: nat, scaffold: nat)
    | AttributeDrift(key: string, src: nat, scaffold: nat)

  function Keys(blocks: seq<Block>): set<string> {
    set b | b in blocks && b.key != BLANK :: b.key
  }

  /** The lines of the first block with that key, or none. */
  function FirstLines(blocks: seq<Block>, key: string): seq<string> {
    if blocks == [] then [] else if blocks[0].key == key then blocks[0].lines else FirstLines(blocks[1..], key)
  }

  function Drift(key: string, src: Tally, scaffold: Tally): seq<Failure> {
    (if src.placeholders != scaffold.placeholders
     then [PlaceholderDrift(key, src.placeholders, scaffold.placeholders)] else [])
    + (if src.selects != scaffold.selects then [SelectDrift(key, src.selects, scaffold.selects)] else [])
    + (if src.attributes != scaffold.attributes
       then [AttributeDrift(key, src.attributes, scaffold.attributes)] else [])
  }

  function Drifts(src: seq<Block>, scaffold: seq<Block>): seq<Failure> {
    if src == [] then []
    else
      var last := src[|src| - 1];
      Drifts(src[..|src| - 1], scaffold)
      + if last.key == BLANK then []
      else Drift(last.key, TallyAll(last.lines), TallyAll(FirstLines(scaffold, last.key)))
  }

  function KeyFailures(src: set<string>, scaffold: set<string>): seq<Failure> {
    (if src - scaffold != {} then [KeysMissing(src - scaffold)] else [])
    + (if scaffold - src != {} then [KeysAdded(scaffold - src)] else [])
  }

  function Failures(source: string, scaffold: string): seq<Failure> {
    var src, tgt := Collect(source).blocks, Collect(scaffold).blocks;
    (if scaffold == source then [Identical] else []) + KeyFailures(Keys(src), Keys(tgt)) + Drifts(src, tgt)
  }

  method Sum(lines: seq<string>) returns (t: Tally)
    ensures t == TallyAll(lines)
  {
    t := Tally(0, 0, 0);
    for i := 0 to |lines|
      invariant t == TallyAll(lines[..i])
    {
      assert lines[..i + 1][..i] == lines[..i];
      t := Plus(t, TallyOf(lines[i]));
    }
    assert lines[..|lines|] == lines;
  }

  method CompareBlock(block: Block, tgt: seq<Block>) returns (failures: seq<Failure>)
    ensures failures == Drift(block.key, TallyAll(block.lines), TallyAll(FirstLines(tgt, block.key)))
  {
    hide TallyAll, FirstLines;
    failures := [];
    var s := Sum(block.lines);
    var t := Sum(FirstLines(tgt, block.key));
    if s.placeholders != t.placeholders {
      failures := failures + [PlaceholderDrift(block.key, s.placeholders, t.placeholders)];
    }
    if s.selects != t.selects { failures := failures + [SelectDrift(block.key, s.selects, t.selects)]; }
    if s.attributes != t.attributes {
      failures := failures + [AttributeDrift(block.key, s.attributes, t.attributes)];
    }
  }

  method CompareBlocks(src: seq<Block>, tgt: seq<Block>) returns (failures: seq<Failure>)
    ensures failures == Drifts(src, tgt)
  {
    hide TallyAll, FirstLines, Drift;
    failures := [];
    for b := 0 to |src|
      invariant failures == Drifts(src[..b], tgt)
    {
      assert src[..b + 1][..b] == src[..b];
      if src[b].key == BLANK { continue; }
      var drift := CompareBlock(src[b], tgt);
      failures := failures + drift;
    }
    assert src[..|src|] == src;
  }

  method ValidateScaffold(source: string, scaffold: string) returns (failures: seq<Failure>)
    ensures failures == Failures(source, scaffold)
  {
    hide Collect, Drifts, Keys;
    failures := [];
    if scaffold == source { failures := failures + [Identical]; }
    var src := CollectBlocks(source);
    var tgt := CollectBlocks(scaffold);
    var srcKeys, tgtKeys := Keys(src.blocks), Keys(tgt.blocks);
    if srcKeys != tgtKeys {
      if srcKeys - tgtKeys != {} { failures := failures + [KeysMissing(srcKeys - tgtKeys)]; }
      if tgtKeys - srcKeys != {} { failures := failures + [KeysAdded(tgtKeys - srcKeys)]; }
    }
    var drifts := CompareBlocks(src.blocks, tgt.blocks);
    failures := failures + drifts;
  }

  // ---------- What an accepting validator means ----------

  function FirstTally(entries: seq<Entry>, key: string): Tally {
    if entries == [] then Tally(0, 0, 0)
    else if entries[0].key == key then entries[0].tally
    else FirstTally(entries[1..], key)
  }

  function EntryKeys(entries: seq<Entry>): set<string> {
    set e | e in entries :: e.key
  }

  /** Whenever a message key comes back later in the file, it comes back with the same counts. */
  ghost predicate RepeatsAgree(entries: seq<Entry>) {
    forall i, j :: 0 <= i < j < |entries| && entries[i].key == entries[j].key ==> entries[i].tally == entries[j].tally
  }

  lemma {:induction false} SummaryKeys(blocks: seq<Block>)
    ensures EntryKeys(Summary(blocks)) == Keys(blocks)
  {
    hide Keys, EntryKeys, Summary, TallyAll;
    if blocks == [] {
      NoKeys();
    } else {
      var init, last := blocks[..|blocks| - 1], blocks[|blocks| - 1];
      assert blocks == init + [last];
      SummaryKeys(init);
      SummaryAppend(init, last);
      KeysAppend(init, last);
      EntryKeysAppend(Summary(init), Entry(last.key, TallyAll(last.lines)));
      assert Summary(init) + [] == Summary(init) && Keys(init) + {} == Keys(init);
    }
  }

  lemma NoKeys()
    ensures EntryKeys(Summary([])) == Keys([])
  {
  }

  lemma KeysAppend(init: seq<Block>, last: Block)
    ensures Keys(init + [last]) == Keys(init) + if last.key == BLANK then {} else {last.key}
  {
  }

  lemma EntryKeysAppend(s: seq<Entry>, e: Entry)
    ensures EntryKeys(s + [e]) == EntryKeys(s) + {e.key}
  {
  }

  lemma {:induction false} SummaryCons(b: Block, rest: seq<Block>)
    ensures Summary([b] + rest) == (if b.key == BLANK then [] else [Entry(b.key, TallyAll(b.lines))]) + Summary(rest)
  {
    hide TallyAll;
    if rest == [] {
      assert [b] + rest == [b];
      SummaryAppend([], b);
      assert [] + [b] == [b];
    } else {
      var init, last := rest[..|rest| - 1], rest[|rest| - 1];
      assert ([b] + rest)[..|rest|] == [b] + init;
      SummaryCons(b, init);
    }
  }

  lemma {:induction false} FirstTallyOf(blocks: seq<Block>, key: string)
    requires key != BLANK
    ensures TallyAll(FirstLines(blocks, key)) == FirstTally(Summary(blocks), key)
  {
    if blocks == [] {
    } else {
      assert blocks == [blocks[0]] + blocks[1..];
      SummaryCons(blocks[0], blocks[1..]);
      FirstTallyOf(blocks[1..], key);
      if blocks[0].key != BLANK {
        assert Summary(blocks)[1..] == Summary(blocks[1..]);
      } else {
        assert Summary(blocks) == Summary(blocks[1..]);
      }
    }
  }

  lemma {:induction false} NoDrift(src: seq<Block>, tgt: seq<Block>)
    ensures Drifts(src, tgt) == [] <==>
            forall e <- Summary(src) :: e.tally == FirstTally(Summary(tgt), e.key)
  {
    hide TallyAll;
    if src != [] {
      var init, last := src[..|src| - 1], src[|src| - 1];
      NoDrift(init, tgt);
      SummaryAppend(init, last);
      assert src == init + [last];
      if last.key != BLANK {
        FirstTallyOf(tgt, last.key);
      }
    }
  }

  lemma {:induction false} FirstTallyAt(entries: seq<Entry>, key: string)
    requires key in EntryKeys(entries)
    ensures exists i :: 0 <= i < |entries| && entries[i] == Entry(key, FirstTally(entries, key))
  {
    if entries[0].key != key {
      assert entries == [entries[0]] + entries[1..];
      FirstTallyAt(entries[1..], key);
      var i :| 0 <= i < |entries[1..]| && entries[1..][i] == Entry(key, FirstTally(entries[1..], key));
      assert entries[i + 1] == entries[1..][i];
    } else {
      assert entries[0] == Entry(key, FirstTally(entries, key));
    }
  }

  lemma RepeatsAgreeIff(entries: seq<Entry>)
    ensures RepeatsAgree(entries) <==> forall e <- entries :: e.tally == FirstTally(entries, e.key)
  {
    forall e <- entries
      ensures exists i :: 0 <= i < |entries| && entries[i] == Entry(e.key, FirstTally(entries, e.key))
    {
      FirstTallyAt(entries, e.key);
    }
  }

  /** Against a scaffold that says the same in another text, the validator complains exactly about
      messages repeated with other counts. */
  lemma AcceptedIff(source: string, scaffold: string)
    requires scaffold != source
    requires ReadText(UNREAD, scaffold).entries == ReadText(UNREAD, source).entries
    ensures Failures(source, scaffold) == [] <==> RepeatsAgree(ReadText(UNREAD, source).entries)
  {
    var src, tgt := Collect(source).blocks, Collect(scaffold).blocks;
    ParseMeaning(source);
    ParseMeaning(scaffold);
    SummaryKeys(src);
    SummaryKeys(tgt);
    NoDrift(src, tgt);
    RepeatsAgreeIff(Summary(src));
  }

  // ---------- Reading what was printed ----------

  lemma {:induction false} ReadAppend(r: Reading, a: seq<string>, b: seq<string>)
    ensures ReadAll(r, a + b) == ReadAll(ReadAll(r, a), b)
  {
    if b == [] {
      assert a + b == a;
    } else {
      assert (a + b)[..|a + b| - 1] == a + b[..|b| - 1];
      ReadAppend(r, a, b[..|b| - 1]);
    }
  }

  lemma ReadConcat(r: Reading, a: string, b: string)
    requires NoCR(a) && NoCR(b) && Terminated(a)
    ensures ReadText(r, a + b) == ReadText(ReadText(r, a), b)
  {
    SplitAppend(a, b);
    ReadAppend(r, SplitLines(a), SplitLines(b));
  }

  lemma ReadOneLine(r: Reading, l: string)
    requires IsLine(l)
    ensures ReadText(r, l) == ReadLine(r, l)
  {
    assert l + "" == l;
    SplitFirst(l, "");
    assert [l] + SplitLines("") == [l];
    assert [l][..|[l]| - 1] == [];
    assert ReadAll(r, [l]) == ReadLine(ReadAll(r, []), l);
  }

  lemma NewlineIsBlank()
    ensures IsLine("\n") && Terminated("\n") && KindOf("\n") == Blank
  {
    KindWithoutChomp("\n");
  }

  /** What one visible line says survives an added line break, whether or not it had one. */
  lemma ReadBroken(r: Reading, v: string)
    requires v != "" && NoCR(v) && NoBreak(v[..|v| - 1]) && !IsBlank(v)
    ensures ReadText(r, v + "\n") == ReadLine(r, v)
  {
    NewlineIsBlank();
    if IsBreak(v[|v| - 1]) {
      ReadConcat(r, v, "\n");
      ReadOneLine(r, v);
      ReadOneLine(ReadLine(r, v), "\n");
    } else {
      var w := v + "\n";
      assert w[..|w| - 1] == v;
      ReadOneLine(r, w);
      BreakAfter(v, "\n");
    }
  }

  lemma NoBreakInside(line: string, i: nat)
    requires IsLine(line) && i < |line| && (i < |line| - 1 || !IsSpace(line[i]))
    ensures !IsBreak(line[i])
  {
    if i < |line| - 1 { assert line[..|line| - 1][i] == line[i]; }
  }

  lemma ValueLineShape(line: string, sentinel: string)
    requires IsLine(line) && !IsBlank(line) && NoBreak(sentinel)
    ensures var v := ScaffoldValueLine(line, sentinel);
            v != "" && NoCR(v) && NoBreak(v[..|v| - 1])
  {
    hide IsSpace, IsBreak, LStrip, RStrip, IsBlank, FindEquals, NoBreak;
    var eq := FindEquals(line);
    if eq == |line| {
      StrippedShape(line, sentinel);
    } else {
      var x := line[eq + 1..];
      var k := LStripSplit(x);
      assert RStrip(line[..eq + 1]) == line[..eq + 1] by { EndsInEquals(line[..eq + 1]); }
      HeadShape(line, eq);
      AppendShape(line[..eq + 1], sentinel);
      TailShape(line[..eq + 1] + " " + sentinel, line, eq + 1 + k);
      assert x[k..] == line[eq + 1 + k..];
    }
  }

  lemma StrippedShape(line: string, sentinel: string)
    requires IsLine(line) && !IsBlank(line) && NoBreak(sentinel)
    ensures var v := RStrip(line) + " " + sentinel; v != "" && NoCR(v) && NoBreak(v[..|v| - 1])
  {
    hide IsSpace, IsBreak, RStrip, IsBlank;
    var k := RStripSplit(line);
    VisibleRStrip(line);
    forall i: nat | i < k ensures !IsBreak(line[i]) {
      assert k > 0 && RStrip(line)[k - 1] == line[k - 1];
      NoBreakInside(line, i);
    }
    AppendShape(line[..k], sentinel);
  }

  lemma HeadShape(line: string, eq: nat)
    requires IsLine(line) && eq < |line| && line[eq] == '='
    ensures NoBreak(line[..eq + 1])
  {
    hide IsSpace, IsBreak;
    EqualsIsNoSpace();
    forall i: nat | i < eq + 1 ensures !IsBreak(line[i]) { NoBreakInside(line, i); }
  }

  lemma EqualsIsNoSpace()
    ensures !IsSpace('=')
  {
  }

  lemma EndsInEquals(s: string)
    requires s != "" && s[|s| - 1] == '='
    ensures RStrip(s) == s
  {
  }

  lemma AppendShape(a: string, sentinel: string)
    requires NoBreak(a) && NoBreak(sentinel)
    ensures NoBreak(a + " " + sentinel) && NoCR(a + " " + sentinel)
  {
    var v := a + " " + sentinel;
    forall i | 0 <= i < |v| ensures !IsBreak(v[i]) {
      if i > |a| { assert v[i] == sentinel[i - |a| - 1]; }
    }
    assert IsBreak('\r');
  }

  lemma TailShape(a: string, line: string, k: nat)
    requires NoBreak(a) && a != "" && IsLine(line) && k <= |line|
    ensures var v := a + line[k..];
            v != "" && NoCR(v) && NoBreak(v[..|v| - 1])
  {
    var v := a + line[k..];
    assert IsBreak('\r');
    var w := v[..|v| - 1];
    forall i | 0 <= i < |w| ensures !IsBreak(w[i]) {
      if i < |a| { assert w[i] == a[i]; } else { assert w[i] == line[..|line| - 1][k + i - |a|]; }
    }
  }

  lemma SegmentReads(r: Reading, line: string, sentinel: string)
    requires IsLine(line) && !IsBlank(line) && NoBreak(sentinel) && SafeSentinel(sentinel)
    ensures NoCR(Segment(line, sentinel)) && Terminated(Segment(line, sentinel))
    ensures ReadText(r, Segment(line, sentinel)) == ReadLine(r, line)
  {
    hide ScaffoldValueLine, TallyOf, KindOf, SafeSentinel, ReadText, ReadAs, IsComment, IsBlank, NoBreak, IsBreak;
    NewlineIsBlank();
    if IsComment(line) {
      ReadBroken(r, line);
    } else {
      var v := ScaffoldValueLine(line, sentinel);
      ValueLineShape(line, sentinel);
      ValueLineMeaning(line, sentinel);
      VisibleByKind(line, v);
      ReadBroken(r, v);
    }
  }

  lemma VisibleByKind(a: string, b: string)
    requires SameMeaning(a, b) || SameMeaning(b, a)
    ensures IsBlank(a) <==> IsBlank(b)
  {
    KindWithoutChomp(a);
    KindWithoutChomp(b);
  }

  lemma VisibleKind(l: string)
    requires !IsBlank(l)
    ensures KindOf(l) != Blank
  {
    KindWithoutChomp(l);
  }

  // ---------- The blocks a parse yields ----------

  /** A line that may stand in a block: visible, and no other message's key. */
  ghost predicate Fits(l: string, key: string) {
    IsLine(l) && !IsBlank(l) && (KindOf(l).Key? ==> KindOf(l).name == key)
  }

  ghost predicate GoodLines(lines: seq<string>, key: string) {
    && lines != [] && KindOf(lines[0]) == Key(key)
    && forall l <- lines :: Fits(l, key)
  }

  ghost predicate WellFormed(blocks: seq<Block>) {
    blocks == []
    || (var init, last := blocks[..|blocks| - 1], blocks[|blocks| - 1];
        && WellFormed(init)
        && (last.key == BLANK || (GoodLines(last.lines, last.key) && LastKey(init) != Some(last.key))))
  }

  ghost predicate WellBuffered(s: State) {
    && WellFormed(s.blocks) && Pending(s)
    && (forall l <- s.header :: IsLine(l) && KindOf(l) == Comment)
    && (s.key.Some? ==>
          && (forall l <- s.lines :: Fits(l, s.key.value))
          && (forall l <- s.attrs :: Fits(l, s.key.value))
          && (s.key != Some(BLANK) && LastKey(s.blocks) != s.key ==>
              s.lines != [] && KindOf(s.lines[0]) == Key(s.key.value)))
  }

  lemma WellFormedAppend(blocks: seq<Block>, b: Block)
    requires WellFormed(blocks)
    requires b.key == BLANK || (GoodLines(b.lines, b.key) && LastKey(blocks) != Some(b.key))
    ensures WellFormed(blocks + [b])
  {
    assert (blocks + [b])[..|blocks|] == blocks;
  }

  lemma {:induction false} WellFormedExtend(blocks: seq<Block>, key: string, more: seq<string>)
    requires WellFormed(blocks) && LastKey(blocks) == Some(key) && forall l <- more :: Fits(l, key)
    ensures WellFormed(ExtendLast(blocks, more))
  {
    hide Fits;
    var init, last := blocks[..|blocks| - 1], blocks[|blocks| - 1];
    if last.key == BLANK {
      WellFormedExtend(init, key, more);
      WellFormedAppend(ExtendLast(init, more), last);
    } else {
      WellFormedAppend(init, Block(last.key, last.lines + more));
    }
  }

  lemma FlushWellFormed(s: State)
    requires WellBuffered(s)
    ensures WellFormed(Flush(s).blocks)
  {
    hide Fits;
    if s.key.Some? && (s.lines != [] || s.attrs != []) {
      var more := s.lines + s.attrs;
      if LastKey(s.blocks) == s.key {
        WellFormedExtend(s.blocks, s.key.value, more);
      } else {
        WellFormedAppend(s.blocks, Block(s.key.value, more));
      }
    }
  }

  /** One more fitting line in either buffer. */
  lemma BufferFits(s: State, s': State, raw: string)
    requires WellBuffered(s) && s.key.Some? && Fits(raw, s.key.value)
    requires s' == s.(lines := s.lines + [raw]) || s' == s.(attrs := s.attrs + [raw])
    ensures WellBuffered(s')
  {
    hide Fits, KindOf, IsLine, WellFormed, LastKey;
  }

  lemma KeepHeader(s: State, raw: string)
    requires WellBuffered(s) && s.key.None? && IsLine(raw) && KindOf(raw) == Comment
    ensures WellBuffered(s.(header := s.header + [raw]))
  {
    hide Fits, KindOf, IsLine, WellFormed, LastKey;
  }

  lemma StepWellBuffered(s: State, raw: string)
    requires WellBuffered(s) && IsLine(raw)
    ensures WellBuffered(Step(s, raw))
  {
    FlushWellFormed(s);
    FlushMeaning(s);
    NoneFlushed(s);
    var f := Flush(s);
    if KindOf(raw) == Blank {
      WellFormedAppend(f.blocks, Block(BLANK, []));
      SummaryAppend(f.blocks, Block(BLANK, []));
      hide WellFormed, KindOf, Fits, IsLine, Flush, LastKey;
    } else {
      assert !IsBlank(raw) by { KindWithoutChomp(raw); }
      hide WellFormed, IsLine, Flush, LastKey, IsBlank, KindOf;
      match KindOf(raw)
      case Comment => if s.key.Some? { BufferFits(s, Step(s, raw), raw); } else { KeepHeader(s, raw); }
      case Attribute => if s.key.Some? { BufferFits(s, Step(s, raw), raw); }
      case Other => if s.key.Some? { BufferFits(s, Step(s, raw), raw); }
      case Key(k) => assert Fits(raw, k);
    }
  }

  lemma NoneFlushed(s: State)
    ensures Flush(s).key == s.key && Flush(s).header == s.header
    ensures s.key.Some? ==> Flush(s).lines == [] && Flush(s).attrs == []
  {
  }

  lemma {:induction false} FoldWellBuffered(lines: seq<string>)
    requires forall l <- lines :: IsLine(l)
    ensures WellBuffered(Fold(lines))
  {
    if lines != [] {
      FoldWellBuffered(lines[..|lines| - 1]);
      StepWellBuffered(Fold(lines[..|lines| - 1]), lines[|lines| - 1]);
    }
  }

  // ---------- Printing them and reading them again ----------

  lemma {:induction false} LinesRead(r: Reading, key: string, lines: seq<string>, sentinel: string)
    requires GoodLines(lines, key) && key != BLANK && EntryKey(r.entries) != Some(key)
    requires NoBreak(sentinel) && SafeSentinel(sentinel)
    ensures NoCR(PrintLines(lines, sentinel)) && Terminated(PrintLines(lines, sentinel))
    ensures ReadText(r, PrintLines(lines, sentinel)) ==
            Reading(r.header, r.entries + [Entry(key, TallyAll(lines))], Some(key))
  {
    hide *;
    LastGood(lines, key);
    var init, last := lines[..|lines| - 1], lines[|lines| - 1];
    PrintLast(lines, sentinel);
    VisibleKind(last);
    if init == [] {
      SegmentReads(r, last, sentinel);
      Opened(r, key, last);
      TallyOne(last);
    } else {
      LinesRead(r, key, init, sentinel);
      var mid := Reading(r.header, r.entries + [Entry(key, TallyAll(init))], Some(key));
      SegmentReads(mid, last, sentinel);
      ReadConcat(r, PrintLines(init, sentinel), Segment(last, sentinel));
      Continued(r, key, TallyAll(init), last);
      TallyAppend(init, [last]);
      TallyOne(last);
      NoCRConcat(PrintLines(init, sentinel), Segment(last, sentinel));
    }
  }

  lemma LastGood(lines: seq<string>, key: string)
    requires GoodLines(lines, key)
    ensures lines != []
    ensures var init, last := lines[..|lines| - 1], lines[|lines| - 1];
            && lines == init + [last] && IsLine(last) && !IsBlank(last)
            && (KindOf(last).Key? ==> KindOf(last).name == key)
            && if init == [] then lines == [last] && KindOf(last) == Key(key) else GoodLines(init, key)
  {
    hide KindOf, IsLine, IsBlank;
    assert Fits(lines[|lines| - 1], key);
  }

  lemma PrintLast(lines: seq<string>, sentinel: string)
    requires lines != [] && !IsBlank(lines[|lines| - 1])
    ensures var init, last := lines[..|lines| - 1], lines[|lines| - 1];
            && PrintLines(lines, sentinel) == PrintLines(init, sentinel) + Segment(last, sentinel)
            && (init == [] ==> PrintLines(lines, sentinel) == Segment(last, sentinel))
  {
    hide Segment, IsBlank;
    assert "" + Segment(lines[|lines| - 1], sentinel) == Segment(lines[|lines| - 1], sentinel);
  }

  lemma Opened(r: Reading, key: string, line: string)
    requires KindOf(line) == Key(key) && key != BLANK && EntryKey(r.entries) != Some(key)
    ensures ReadLine(r, line) == Reading(r.header, r.entries + [Entry(key, TallyOf(line))], Some(key))
  {
    hide KindOf, TallyOf;
  }

  lemma Continued(r: Reading, key: string, tally: Tally, line: string)
    requires key != BLANK && KindOf(line) != Blank && (KindOf(line).Key? ==> KindOf(line).name == key)
    ensures ReadLine(Reading(r.header, r.entries + [Entry(key, tally)], Some(key)), line) ==
            Reading(r.header, r.entries + [Entry(key, Plus(tally, TallyOf(line)))], Some(key))
  {
    hide KindOf, TallyOf;
    BumpNew(r.entries, key, tally, TallyOf(line));
  }

  lemma NoCRConcat(a: string, b: string)
    requires NoCR(a) && NoCR(b) && Terminated(b) && Terminated(a)
    ensures NoCR(a + b) && Terminated(a + b)
  {
  }

  lemma {:induction false} BlocksRead(header: nat, blocks: seq<Block>, sentinel: string)
    requires WellFormed(blocks) && NoBreak(sentinel) && SafeSentinel(sentinel)
    ensures NoCR(PrintBlocks(blocks, sentinel)) && Terminated(PrintBlocks(blocks, sentinel))
    ensures ReadText(Reading(header, [], None), PrintBlocks(blocks, sentinel)) ==
            Reading(header, Summary(blocks), LastKey(blocks))
  {
    hide PrintLines, SafeSentinel, GoodLines, NoBreak;
    var r := Reading(header, [], None);
    if blocks != [] {
      var init, last := blocks[..|blocks| - 1], blocks[|blocks| - 1];
      BlocksRead(header, init, sentinel);
      SummaryKey(init);
      var mid := Reading(header, Summary(init), LastKey(init));
      var before := PrintBlocks(init, sentinel);
      if last.key == BLANK {
        NewlineIsBlank();
        ReadOneLine(mid, "\n");
        ReadConcat(r, before, "\n");
        NoCRConcat(before, "\n");
      } else {
        LinesRead(mid, last.key, last.lines, sentinel);
        ReadConcat(r, before, PrintLines(last.lines, sentinel));
        NoCRConcat(before, PrintLines(last.lines, sentinel));
      }
    }
  }

  // ---------- The header ----------

  lemma {:induction false} CommentsRead(r: Reading, lines: seq<string>)
    requires r.key == None && forall l <- lines :: KindOf(l) == Comment
    ensures ReadAll(r, lines) == r.(header := r.header + |lines|)
  {
    hide KindOf, TallyOf;
    if lines != [] {
      CommentsRead(r, lines[..|lines| - 1]);
      assert lines[|lines| - 1] in lines;
    }
  }

  lemma HashLine(body: string)
    requires NoBreak(body)
    ensures var l := "#" + body + "\n"; IsLine(l) && Terminated(l) && KindOf(l) == Comment
  {
    var l := "#" + body + "\n";
    assert l[0] == '#' && l[..|l| - 1] == "#" + body;
    assert IsBreak('\r');
    KindWithoutChomp(l);
  }

  lemma HashLine2(a: string, b: string)
    requires NoBreak(a) && NoBreak(b)
    ensures var l := "#" + (a + b) + "\n"; IsLine(l) && Terminated(l) && KindOf(l) == Comment
  {
    assert NoBreak(a + b);
    HashLine(a + b);
  }

  lemma BannerWords(hint: string)
    requires NoBreak(hint)
    ensures NoBreak(" HINT (auto-generated by ") && NoBreak("translate-stub.py):") && NoBreak("   ")
  {
  }

  lemma BannerLegend()
    ensures NoBreak(" Replace each `[TODO]` sentinel ") && NoBreak("below with the actual Indonesian")
  {
  }

  lemma BannerLegend2()
    ensures NoBreak(" translation. Placeholders (e.g. ") && NoBreak("{ $count }) and select")
  {
  }

  lemma BannerLegend3()
    ensures NoBreak(" expressions must be ") && NoBreak("preserved verbatim.")
  {
  }

  lemma BannerLines(hint: string)
    requires NoBreak(hint)
    ensures CommentLines(Banner(hint)) && AllTerminated(Banner(hint))
  {
    hide NoBreak, IsLine, Terminated, KindOf;
    BannerWords(hint);
    BannerLegend();
    BannerLegend2();
    BannerLegend3();
    HashLine2(" HINT (auto-generated by ", "translate-stub.py):");
    HashLine2("   ", hint);
    HashLine2(" Replace each `[TODO]` sentinel ", "below with the actual Indonesian");
    HashLine2(" translation. Placeholders (e.g. ", "{ $count }) and select");
    HashLine2(" expressions must be ", "preserved verbatim.");
    forall l <- Banner(hint) ensures IsLine(l) && Terminated(l) && KindOf(l) == Comment {
      var i :| 0 <= i < 5 && Banner(hint)[i] == l;
    }
  }

  lemma HeaderRead(lines: seq<string>)
    requires CommentLines(lines) && AllTerminated(lines)
    ensures NoCR(Concat(lines)) && Terminated(Concat(lines))
    ensures ReadText(UNREAD, Concat(lines)) == Reading(|lines|, [], None)
  {
    SplitConcat(lines);
    CommentsRead(UNREAD, lines);
    ConcatShape(lines);
  }

  lemma {:induction false} ConcatShape(lines: seq<string>)
    requires forall l <- lines :: NoCR(l) && Terminated(l)
    ensures NoCR(Concat(lines)) && Terminated(Concat(lines))
  {
    if lines != [] {
      ConcatShape(lines[1..]);
      assert lines[0] in lines;
      NoCRConcat(lines[0], Concat(lines[1..]));
    }
  }

  function Newlines(n: nat): string {
    if n == 0 then "" else Newlines(n - 1) + "\n"
  }

  lemma {:induction false} NewlinesCons(n: nat)
    ensures "\n" + Newlines(n) == Newlines(n + 1)
  {
    if n > 0 { NewlinesCons(n - 1); }
  }

  lemma {:induction false} OnlySeparators(blocks: seq<Block>, sentinel: string)
    requires LastKey(blocks) == None
    ensures PrintBlocks(blocks, sentinel) == Newlines(|blocks|) && Summary(blocks) == []
  {
    if blocks != [] { OnlySeparators(blocks[..|blocks| - 1], sentinel); }
  }

  /** Only a header comment that ends the file can lack a line break, and then there is no message. */
  lemma {:induction false} HeaderLines(lines: seq<string>)
    requires forall l <- lines :: IsLine(l)
    requires forall i :: 0 <= i < |lines| - 1 ==> Terminated(lines[i])
    ensures var s := Fold(lines);
            && (forall i :: 0 <= i < |s.header| - 1 ==> Terminated(s.header[i]))
            && ((forall l <- s.header :: Terminated(l)) || s.key == None)
            && ((forall l <- lines :: Terminated(l)) ==> forall l <- s.header :: Terminated(l))
  {
    hide KindOf, IsLine;
    if lines != [] {
      var init, last := lines[..|lines| - 1], lines[|lines| - 1];
      assert forall l <- init :: Terminated(l) by {
        forall l <- init ensures Terminated(l) {
          var i :| 0 <= i < |init| && init[i] == l;
          assert lines[i] == l;
        }
      }
      HeaderLines(init);
      NoneFlushed(Fold(init));
    }
  }

  // ---------- Agreement ----------

  ghost predicate FreeText(text: string, sentinel: string, hint: string) {
    NoCR(text) && NoBreak(sentinel) && NoBreak(hint)
  }

  ghost predicate CommentLines(lines: seq<string>) {
    forall l <- lines :: IsLine(l) && KindOf(l) == Comment
  }

  ghost predicate AllTerminated(lines: seq<string>) {
    forall l <- lines :: Terminated(l)
  }

  lemma ParsedShape(text: string)
    requires NoCR(text)
    ensures var parsed := Collect(text);
            && WellFormed(parsed.blocks) && CommentLines(parsed.header)
            && (AllTerminated(parsed.header) ||
                (LastKey(parsed.blocks) == None && parsed.header != []
                 && AllTerminated(parsed.header[..|parsed.header| - 1])))
  {
    var lines := SplitLines(text);
    var s := Fold(lines);
    LinesOf(text);
    FoldWellBuffered(lines);
    FlushWellFormed(s);
    NoneFlushed(s);
    HeaderLines(lines);
    FlushMeaning(s);
    hide Fold, SplitLines, WellFormed, IsLine, KindOf, Terminated, Flush, LastKey;
    if !AllTerminated(s.header) {
      AllButLast(s.header);
    }
  }

  /** The scaffold, read again, says what the source says, under five more header comments. */
  lemma ScaffoldReads(text: string, sentinel: string, hint: string)
    requires FreeText(text, sentinel, hint) && SafeSentinel(sentinel)
    ensures ReadText(UNREAD, Scaffold(text, sentinel, hint)).entries == ReadText(UNREAD, text).entries
    ensures ReadText(UNREAD, Scaffold(text, sentinel, hint)).header == 5 + ReadText(UNREAD, text).header
  {
    hide Collect, WellFormed, IsLine, KindOf, Terminated, ReadText, Banner, SafeSentinel, PrintBlocks, LastKey,
        Summary, Concat;
    var parsed, banner := Collect(text), Banner(hint);
    ParseMeaning(text);
    ParsedShape(text);
    BannerLines(hint);
    BannerSize(hint);
    if AllTerminated(parsed.header) {
      assert CommentLines(banner + parsed.header) && AllTerminated(banner + parsed.header);
      TerminatedHeader(banner, parsed.header, parsed.blocks, sentinel);
    } else {
      LooseHeader(banner, parsed.header, parsed.blocks, sentinel);
    }
  }

  lemma JoinComments(banner: seq<string>, header: seq<string>)
    requires CommentLines(banner) && AllTerminated(banner)
    requires CommentLines(header) && header != [] && AllTerminated(header[..|header| - 1])
    ensures CommentLines(banner + header[..|header| - 1]) && AllTerminated(banner + header[..|header| - 1])
    ensures IsLine(header[|header| - 1]) && KindOf(header[|header| - 1]) == Comment
  {
    hide IsLine, KindOf, Terminated;
  }

  lemma LooseHeader(banner: seq<string>, header: seq<string>, blocks: seq<Block>, sentinel: string)
    requires CommentLines(banner) && AllTerminated(banner)
    requires CommentLines(header) && header != [] && AllTerminated(header[..|header| - 1])
    requires LastKey(blocks) == None
    ensures ReadText(UNREAD, Concat(banner + header) + PrintBlocks(blocks, sentinel)) ==
            Reading(|banner| + |header|, [], None)
    ensures Summary(blocks) == []
  {
    hide *;
    var init, last := header[..|header| - 1], header[|header| - 1];
    OnlySeparators(blocks, sentinel);
    JoinComments(banner, header);
    UnterminatedHeader(banner + init, last, |blocks|);
    assert banner + init + [last] == banner + header;
  }

  lemma AllButLast(header: seq<string>)
    requires header != [] && forall i :: 0 <= i < |header| - 1 ==> Terminated(header[i])
    ensures forall l <- header[..|header| - 1] :: l in header && Terminated(l)
  {
  }

  lemma BannerSize(hint: string)
    ensures |Banner(hint)| == 5
  {
  }

  lemma TerminatedHeader(banner: seq<string>, header: seq<string>, blocks: seq<Block>, sentinel: string)
    requires CommentLines(banner + header) && AllTerminated(banner + header)
    requires WellFormed(blocks) && NoBreak(sentinel) && SafeSentinel(sentinel)
    ensures ReadText(UNREAD, Concat(banner + header) + PrintBlocks(blocks, sentinel)) ==
            Reading(|banner| + |header|, Summary(blocks), LastKey(blocks))
  {
    hide *;
    HeaderRead(banner + header);
    BlocksRead(|banner + header|, blocks, sentinel);
    ReadConcat(UNREAD, Concat(banner + header), PrintBlocks(blocks, sentinel));
  }

  lemma UnterminatedHeader(lines: seq<string>, last: string, n: nat)
    requires CommentLines(lines) && AllTerminated(lines)
    requires IsLine(last) && KindOf(last) == Comment
    ensures ReadText(UNREAD, Concat(lines + [last]) + Newlines(n)) == Reading(|lines| + 1, [], None)
  {
    hide *;
    ConcatAppend(lines, [last]);
    ConcatOne(last);
    HeaderRead(lines);
    LastCommentRead(Reading(|lines|, [], None), last, n);
    var top, tail := Concat(lines), last + Newlines(n);
    assert top + last + Newlines(n) == top + tail;
    ReadConcat(UNREAD, top, tail);
  }

  lemma NoNewlines()
    ensures Newlines(0) == ""
  {
  }

  lemma CommentFacts(r: Reading, l: string)
    requires r.key == None && IsLine(l) && KindOf(l) == Comment
    ensures ReadLine(r, l) == r.(header := r.header + 1)
    ensures l != "" && NoCR(l) && NoBreak(l[..|l| - 1]) && !IsBlank(l)
  {
    KindWithoutChomp(l);
    hide TallyOf;
  }

  lemma LastCommentRead(r: Reading, last: string, n: nat)
    requires r.key == None && IsLine(last) && KindOf(last) == Comment
    ensures NoCR(last + Newlines(n)) && ReadText(r, last + Newlines(n)) == r.(header := r.header + 1)
  {
    hide *;
    CommentFacts(r, last);
    if n == 0 {
      assert last + Newlines(0) == last by { NoNewlines(); }
      ReadOneLine(r, last);
    } else {
      NewlinesCons(n - 1);
      NewlinesRead(ReadLine(r, last), n - 1);
      ReadBroken(r, last);
      assert last + Newlines(n) == last + "\n" + Newlines(n - 1);
      EndsWithBreak(last);
      ReadConcat(r, last + "\n", Newlines(n - 1));
      JoinNoCR(last + "\n", Newlines(n - 1));
    }
  }

  lemma ConcatOne(l: string)
    ensures Concat([l]) == l
  {
    assert [l][1..] == [];
  }

  lemma EndsWithBreak(l: string)
    requires NoCR(l)
    ensures NoCR(l + "\n") && Terminated(l + "\n")
  {
  }

  lemma JoinNoCR(a: string, b: string)
    requires NoCR(a) && NoCR(b)
    ensures NoCR(a + b)
  {
  }

  lemma {:induction false} NewlinesRead(r: Reading, n: nat)
    ensures NoCR(Newlines(n)) && Terminated(Newlines(n)) && ReadText(r, Newlines(n)) == r
  {
    if n > 0 {
      NewlinesRead(r, n - 1);
      NewlineIsBlank();
      ReadOneLine(r, "\n");
      ReadConcat(r, Newlines(n - 1), "\n");
      NoCRConcat(Newlines(n - 1), "\n");
    }
  }

  /** For every bundle, hint and safe sentinel: the validator accepts what the generator made if and
      only if message keys that are repeated are repeated with the same counts. */
  lemma Agreement(text: string, sentinel: string, hint: string)
    requires FreeText(text, sentinel, hint) && SafeSentinel(sentinel)
    ensures Failures(text, Scaffold(text, sentinel, hint)) == [] <==> RepeatsAgree(ReadText(UNREAD, text).entries)
  {
    ScaffoldReads(text, sentinel, hint);
    AcceptedIff(text, Scaffold(text, sentinel, hint));
  }

  ghost predicate DistinctKeys(entries: seq<Entry>) {
    forall i, j :: 0 <= i < j < |entries| ==> entries[i].key != entries[j].key
  }

  /** In particular a bundle that never returns to an earlier key is always accepted. */
  lemma DistinctKeysAccepted(text: string, sentinel: string, hint: string)
    requires FreeText(text, sentinel, hint) && SafeSentinel(sentinel)
    requires DistinctKeys(ReadText(UNREAD, text).entries)
    ensures Failures(text, Scaffold(text, sentinel, hint)) == []
  {
    Agreement(text, sentinel, hint);
  }

  // ---------- Every unsafe sentinel is caught by some bundle ----------

  /** A bundle of one message `k`: its key line and then only continuation lines. */
  ghost predicate OneMessage(lines: seq<string>) {
    && lines != [] && (forall l <- lines :: IsLine(l) && !IsBlank(l) && !IsComment(l))
    && (forall i :: 0 <= i < |lines| - 1 ==> Terminated(lines[i]))
    && KindOf(lines[0]) == Key("k")
    && (forall i :: 1 <= i < |lines| ==> KindOf(lines[i]) == Other)
  }

  lemma {:induction false} FoldOne(lines: seq<string>)
    requires lines != [] && KindOf(lines[0]) == Key("k")
    requires forall i :: 1 <= i < |lines| ==> KindOf(lines[i]) == Other
    ensures Fold(lines) == State([], [], Some("k"), lines, [])
  {
    hide KindOf;
    var init, last := lines[..|lines| - 1], lines[|lines| - 1];
    if init == [] {
      assert Fold(init) == START && lines == [last];
    } else {
      FoldOne(init);
      assert lines == init + [last];
    }
  }

  lemma OneBlock(lines: seq<string>)
    requires OneMessage(lines)
    ensures Collect(Concat(lines)) == Parsed([], [Block("k", lines)])
    ensures ReadText(UNREAD, Concat(lines)).entries == [Entry("k", TallyAll(lines))]
  {
    SplitConcat(lines);
    FoldOne(lines);
    assert lines + [] == lines;
    ParseMeaning(Concat(lines));
    SummaryAppend([], Block("k", lines));
    assert [] + [Block("k", lines)] == [Block("k", lines)];
  }

  /** Reading the scaffold of such a bundle is reading its scaffolded lines. */
  lemma OneScaffold(lines: seq<string>, sentinel: string, hint: string)
    requires OneMessage(lines) && |lines| <= 2 && NoBreak(sentinel) && NoBreak(hint)
    requires forall l <- lines :: !IsBlank(ScaffoldValueLine(l, sentinel))
    ensures var r := ReadLine(Reading(5, [], None), ScaffoldValueLine(lines[0], sentinel));
            ReadText(UNREAD, Scaffold(Concat(lines), sentinel, hint)) ==
            if |lines| == 1 then r else ReadLine(r, ScaffoldValueLine(lines[1], sentinel))
  {
    OneScaffoldText(lines, sentinel, hint);
    PrintedTwo(lines, sentinel);
    BannerLines(hint);
    BannerSize(hint);
    hide *;
    var banner, tail := Banner(hint), PrintLines(lines, sentinel);
    HeaderRead(banner);
    var r := Reading(5, [], None);
    OneSegment(r, lines[0], sentinel);
    if |lines| == 2 {
      var r1 := ReadLine(r, ScaffoldValueLine(lines[0], sentinel));
      OneSegment(r1, lines[1], sentinel);
      ReadConcat(r, Segment(lines[0], sentinel), Segment(lines[1], sentinel));
      NoCRConcat(Segment(lines[0], sentinel), Segment(lines[1], sentinel));
    }
    ReadConcat(UNREAD, Concat(banner), tail);
  }

  lemma OneScaffoldText(lines: seq<string>, sentinel: string, hint: string)
    requires OneMessage(lines)
    ensures Scaffold(Concat(lines), sentinel, hint) == Concat(Banner(hint)) + PrintLines(lines, sentinel)
  {
    OneBlock(lines);
    hide *;
    ScaffoldUnfold(Concat(lines), sentinel, hint);
    PrintOneBlock(lines, sentinel);
    assert Banner(hint) + [] == Banner(hint);
  }

  lemma ScaffoldUnfold(text: string, sentinel: string, hint: string)
    ensures var parsed := Collect(text);
            Scaffold(text, sentinel, hint) ==
                Concat(Banner(hint) + parsed.header) + PrintBlocks(parsed.blocks, sentinel)
  {
  }

  lemma PrintOneBlock(lines: seq<string>, sentinel: string)
    ensures PrintBlocks([Block("k", lines)], sentinel) == PrintLines(lines, sentinel)
  {
    hide PrintLines;
    var blocks := [Block("k", lines)];
    assert blocks[..0] == [] && PrintBlocks(blocks[..0], sentinel) == "";
    assert "" + PrintLines(lines, sentinel) == PrintLines(lines, sentinel);
  }

  lemma PrintedTwo(lines: seq<string>, sentinel: string)
    requires OneMessage(lines) && |lines| <= 2
    ensures forall l <- lines :: IsLine(l) && !IsBlank(l) && !IsComment(l)
    ensures PrintLines(lines, sentinel) ==
            if |lines| == 1 then Segment(lines[0], sentinel)
            else Segment(lines[0], sentinel) + Segment(lines[1], sentinel)
  {
    hide Segment, KindOf, IsLine, IsComment, IsBlank;
    var init := lines[..|lines| - 1];
    if |lines| == 2 {
      assert init[..0] == [] && init == [lines[0]];
    }
  }

  lemma OneSegment(r: Reading, line: string, sentinel: string)
    requires IsLine(line) && !IsBlank(line) && !IsComment(line) && NoBreak(sentinel)
    requires !IsBlank(ScaffoldValueLine(line, sentinel))
    ensures NoCR(Segment(line, sentinel)) && Terminated(Segment(line, sentinel))
    ensures ReadText(r, Segment(line, sentinel)) == ReadLine(r, ScaffoldValueLine(line, sentinel))
  {
    ValueLineShape(line, sentinel);
    hide ScaffoldValueLine, ReadText, ReadLine;
    ReadBroken(r, ScaffoldValueLine(line, sentinel));
  }

  /** An accepted scaffold has the source's keys and, for each, the source's counts. */
  lemma AcceptedMeans(lines: seq<string>, scaffold: string)
    requires OneMessage(lines) && Failures(Concat(lines), scaffold) == []
    ensures var entries := ReadText(UNREAD, scaffold).entries;
            EntryKeys(entries) == {"k"} && FirstTally(entries, "k") == TallyAll(lines)
  {
    OneBlock(lines);
    ParseMeaning(scaffold);
    hide *;
    var src, tgt := [Block("k", lines)], Collect(scaffold).blocks;
    SummaryKeys(tgt);
    NoDrift(src, tgt);
    SummaryOne(lines);
    NoFailures(Concat(lines), scaffold);
    assert Entry("k", TallyAll(lines)) in Summary(src);
  }

  lemma NoFailures(source: string, scaffold: string)
    requires Failures(source, scaffold) == []
    ensures var src, tgt := Collect(source).blocks, Collect(scaffold).blocks;
            Keys(src) == Keys(tgt) && Drifts(src, tgt) == []
  {
    hide Collect, Drifts, Keys;
    var a, b := Keys(Collect(source).blocks), Keys(Collect(scaffold).blocks);
    assert a - b == {} && b - a == {};
    assert a == (a - b) + (a * b) && b == (b - a) + (a * b);
  }

  lemma SummaryOne(lines: seq<string>)
    ensures Summary([Block("k", lines)]) == [Entry("k", TallyAll(lines))]
    ensures Keys([Block("k", lines)]) == {"k"}
  {
    hide TallyAll;
    SummaryAppend([], Block("k", lines));
    assert [] + [Block("k", lines)] == [Block("k", lines)];
    assert Block("k", lines) in [Block("k", lines)];
  }

  lemma KeyLine(x: string)
    requires Harmless(x)
    ensures var l := "k =" + x;
            IsLine(l) && !IsBlank(l) && !IsComment(l) && KindOf(l) == Key("k") && FindEquals(l) == 2
  {
    var l := "k =" + x;
    assert l[1..] == " =" + x && l[2..] == "=" + x && l[1..][1..] == l[2..];
    assert l[0] == 'k' && l[1] == ' ' && l[2] == '=';
    assert NoBreak(l[..|l| - 1]) by {
      assert forall i :: 3 <= i < |l| ==> l[i] == x[i - 3];
    }
    assert NoCR(l) by { assert IsBreak('\r'); }
    assert EqualsAfter(l[2..]) && EqualsAfter(l[1..]);
    assert NameTailEquals(l[1..]);
    assert NamePrefix(l[1..]) == "";
    KindWithoutChomp(l);
    assert FindEquals(l[2..]) == 0;
  }

  /** A sentinel that can grow adds a reference to some value. */
  lemma GrowingSentinel(sentinel: string, hint: string, end: End) returns (lines: seq<string>)
    requires NoBreak(sentinel) && NoBreak(hint) && CanGrow(sentinel, end)
    ensures OneMessage(lines) && Failures(Concat(lines), Scaffold(Concat(lines), sentinel, hint)) != []
  {
    hide *;
    var x := Grow(sentinel, end);
    lines := ["k =" + x];
    KeyLine(x);
    GrownLine(sentinel, x);
    GrownTally(sentinel, x, end);
    KeyLinePrefix(" " + (sentinel + x));
    assert "k = " + (sentinel + x) == "k =" + (" " + (sentinel + x));
    assert OneMessage(lines) by { OneLineMessage(lines[0]); }
    OneScaffold(lines, sentinel, hint);
    TallyOne(lines[0]);
    FirstMessage("k = " + (sentinel + x));
    var scaffold := Scaffold(Concat(lines), sentinel, hint);
    if Failures(Concat(lines), scaffold) == [] {
      AcceptedMeans(lines, scaffold);
    }
  }

  lemma OneLineMessage(l: string)
    requires IsLine(l) && !IsBlank(l) && !IsComment(l) && KindOf(l) == Key("k")
    ensures OneMessage([l])
  {
  }

  lemma FirstMessage(v: string)
    requires KindOf(v) == Key("k")
    ensures var r := ReadLine(Reading(5, [], None), v);
            r == Reading(5, [Entry("k", TallyOf(v))], Some("k")) && FirstTally(r.entries, "k") == TallyOf(v)
  {
    hide KindOf, TallyOf;
  }

  lemma GrownTally(sentinel: string, x: string, end: End)
    requires Harmless(x) && Count(sentinel + x, end) > 0
    ensures TallyOf("k = " + (sentinel + x)) != TallyOf("k =" + x)
  {
    hide Count;
    CountGrown(sentinel, x, end);
  }

  lemma KeyLinePrefix(y: string)
    ensures var l := "k =" + y; !IsBlank(l) && KindOf(l) == Key("k") && FindEquals(l) == 2
  {
    var l := "k =" + y;
    assert l[1..] == " =" + y && l[2..] == "=" + y && l[1..][1..] == l[2..];
    assert l[0] == 'k' && l[1] == ' ' && l[2] == '=';
    assert EqualsAfter(l[2..]) && EqualsAfter(l[1..]);
    assert NameTailEquals(l[1..]);
    assert NamePrefix(l[1..]) == "";
    KindWithoutChomp(l);
    assert FindEquals(l[2..]) == 0;
  }

  lemma {:induction false} BraceKept(s: string)
    requires '{' in s
    ensures '{' in RStrip(s)
  {
    if IsSpace(s[|s| - 1]) {
      assert s == s[..|s| - 1] + [s[|s| - 1]];
      BraceKept(s[..|s| - 1]);
    }
  }

  lemma PrefixChars(x: string, t: string, c: char)
    requires At(x, 0, t) && c in t
    ensures c in x
  {
    assert forall d <- x[0..|t|] :: d in x;
  }

  lemma NoSuchPrefix(x: string, t: string)
    requires '{' in t && '{' !in x
    ensures !At(x, 0, t)
  {
    if At(x, 0, t) { PrefixChars(x, t, '{'); }
  }

  lemma EqualsAtTwo(x: string)
    ensures FindEquals("k =" + x) == 2 && ("k =" + x)[..3] == "k =" && ("k =" + x)[3..] == x
  {
    var l := "k =" + x;
    assert l[1..] == " =" + x && l[2..] == "=" + x && l[1..][1..] == l[2..];
    assert FindEquals(l[2..]) == 0;
  }

  lemma GrownLine(sentinel: string, x: string)
    requires Harmless(x) && '{' in sentinel
    ensures ScaffoldValueLine("k =" + x, sentinel) == "k = " + (sentinel + x)
  {
    hide FindEquals, IsSpace, NoBreak;
    EqualsAtTwo(x);
    assert LStrip(x) == x;
    hide LStrip, RStrip;
    EndsInEquals("k =");
    BraceKept(sentinel);
    NoSuchPrefix(x, RStrip(sentinel));
    assert "k =" + " " + sentinel + x == "k = " + (sentinel + x);
  }

  lemma CountGrown(sentinel: string, x: string, end: End)
    requires Harmless(x) && Count(sentinel + x, end) > 0
    ensures Count("k =" + x, end) == 0 && Count("k = " + (sentinel + x), end) > 0
  {
    assert "k =" + x == "k " + "=" + x;
    CountAtEquals("k ", x, end);
    NoBraceNoCount("k ", end);
    NoBraceNoCount(x, end);
    assert "k = " + (sentinel + x) == "k " + "=" + (" " + (sentinel + x));
    CountAtEquals("k ", " " + (sentinel + x), end);
    CountBlankHead(sentinel + x, end);
  }

  lemma {:induction false} NoBraceNoCount(s: string, end: End)
    requires '{' !in s
    ensures Count(s, end) == 0
  {
    if s != "" { NoBraceNoCount(s[1..], end); }
  }

  // ---------- Sentinels that finish what a line began ----------

  lemma KeyLineLiteral()
    ensures var l := "k = v\n"; l == "k =" + " v\n" && l[0] == 'k' && '=' in l && IsLine(l) && Terminated(l)
  {
    var l := "k = v\n";
    assert l[2] == '=' && l[5] == '\n';
    assert l[..|l| - 1] == "k = v";
  }

  lemma TwoLineMessage(second: string)
    requires IsLine(second) && !IsBlank(second) && !IsComment(second) && KindOf(second) == Other
    ensures OneMessage(["k = v\n", second]) && '=' in "k = v\n" && KindOf("k = v\n") == Key("k")
  {
    hide KindOf, IsBlank, IsLine, Terminated;
    KeyLineLiteral();
    KeyLinePrefix(" v\n");
    VisibleLetter("k = v\n");
  }

  lemma VisibleLetter(l: string)
    requires l != "" && l[0] == 'k'
    ensures !IsBlank(l) && !IsComment(l)
  {
  }

  /** The scaffold of a key line and one continuation line that no longer says what it said. */
  lemma SpoiledSecond(second: string, sentinel: string, hint: string) returns (lines: seq<string>)
    requires NoBreak(sentinel) && NoBreak(hint) && !CanGrow(sentinel, Brace) && !CanGrow(sentinel, Arrow)
    requires IsLine(second) && !IsBlank(second) && !IsComment(second) && KindOf(second) == Other
    requires var v := ScaffoldValueLine(second, sentinel);
             && !IsBlank(v)
             && ((KindOf(v) == Other && TallyOf(v) != TallyOf(second))
                 || (KindOf(v).Key? && KindOf(v).name !in ["k", BLANK]))
    ensures OneMessage(lines) && Failures(Concat(lines), Scaffold(Concat(lines), sentinel, hint)) != []
  {
    hide *;
    var first := "k = v\n";
    lines := [first, second];
    TwoLineMessage(second);
    InsertAtEquals(first, sentinel);
    var v1, v2 := ScaffoldValueLine(first, sentinel), ScaffoldValueLine(second, sentinel);
    MeaningKind(v1, first);
    VisibleByKey(v1);
    OneScaffold(lines, sentinel, hint);
    FirstMessage(v1);
    assert TallyAll(lines) == Plus(TallyOf(first), TallyOf(second)) by { TallyTwo(first, second); }
    SameTally(v1, first);
    var r1 := ReadLine(Reading(5, [], None), v1);
    SecondLine(r1, v2);
    var scaffold := Scaffold(Concat(lines), sentinel, hint);
    if Failures(Concat(lines), scaffold) == [] {
      AcceptedMeans(lines, scaffold);
      if KindOf(v2) == Other { PlusCancels(TallyOf(first), TallyOf(v2), TallyOf(second)); }
    }
  }

  lemma MeaningKind(a: string, b: string)
    requires SameMeaning(a, b)
    ensures KindOf(a) == KindOf(b)
  {
  }

  lemma VisibleByKey(v: string)
    requires KindOf(v).Key?
    ensures !IsBlank(v)
  {
    KindWithoutChomp(v);
  }

  lemma TallyTwo(a: string, b: string)
    ensures TallyAll([a, b]) == Plus(TallyOf(a), TallyOf(b))
  {
    hide TallyOf;
    TallyAppend([a], [b]);
    TallyOne(a);
    TallyOne(b);
    assert [a] + [b] == [a, b];
  }

  lemma SameTally(a: string, b: string)
    requires SameMeaning(a, b)
    ensures TallyOf(a) == TallyOf(b)
  {
  }

  lemma PlusCancels(a: Tally, b: Tally, c: Tally)
    requires b != c
    ensures Plus(a, b) != Plus(a, c)
  {
  }

  lemma SecondLine(r: Reading, v: string)
    requires |r.entries| == 1 && r.entries[0].key == "k" && r.key == Some("k")
    requires KindOf(v) == Other || (KindOf(v).Key? && KindOf(v).name !in ["k", BLANK])
    ensures var e := ReadLine(r, v).entries;
            if KindOf(v) == Other then e == [Entry("k", Plus(r.entries[0].tally, TallyOf(v)))]
                                       && FirstTally(e, "k") == Plus(r.entries[0].tally, TallyOf(v))
            else KindOf(v).name in EntryKeys(e) && EntryKeys(e) != {"k"}
  {
    hide KindOf, TallyOf;
    var e := ReadLine(r, v).entries;
    if KindOf(v) != Other {
      assert e[1] in e && e[1].key == KindOf(v).name;
    }
  }

  lemma OpenedLine(second: string, sentinel: string)
    requires second == "{" || second == "{ $a"
    ensures IsLine(second) && !IsBlank(second) && !IsComment(second) && KindOf(second) == Other
    ensures Count(second, Brace) == 0 && Count(second, Arrow) == 0
    ensures var v := ScaffoldValueLine(second, sentinel);
            v == second + " " + sentinel && !IsBlank(v) && KindOf(v) == Other
  {
    OpenedNothing();
    hide Count, KindOf;
    assert IsLine(second) && !IsBlank(second) && !IsComment(second) by { OpenedPlain(second); }
    OpenedScaffold(second, sentinel);
    OpenedKind(second);
    OpenedKind(second + " " + sentinel);
  }

  lemma OpenedPlain(second: string)
    requires second == "{" || second == "{ $a"
    ensures IsLine(second) && !IsBlank(second) && !IsComment(second)
  {
    assert second[0] == '{';
  }

  lemma OpenedScaffold(second: string, sentinel: string)
    requires second == "{" || second == "{ $a"
    ensures ScaffoldValueLine(second, sentinel) == second + " " + sentinel && !IsBlank(second + " " + sentinel)
  {
    assert FindEquals(second) == |second|;
    assert RStrip(second) == second;
    assert (second + " " + sentinel)[0] == '{';
  }

  lemma OpenedKind(v: string)
    requires v != "" && v[0] == '{'
    ensures KindOf(v) == Other
  {
    KindWithoutChomp(v);
  }

  lemma OpenedNothing()
    ensures Count("{", Brace) == 0 && Count("{", Arrow) == 0
    ensures Count("{ $a", Brace) == 0 && Count("{ $a", Arrow) == 0
  {
    assert "{"[1..] == "" && "{ $a"[1..] == " $a" && " $a"[1..] == "$a" && "$a"[1..] == "a" && "a"[1..] == ""
        && "$a"[2..] == "";
  }

  /** A sentinel that ends a reference ends one that a continuation line left open. */
  lemma ClosingSentinel(sentinel: string, hint: string, end: End) returns (lines: seq<string>)
    requires NoBreak(sentinel) && NoBreak(hint) && !CanGrow(sentinel, Brace) && !CanGrow(sentinel, Arrow)
    requires AfterBrace(sentinel, end) || AfterName(sentinel, end)
    ensures OneMessage(lines) && Failures(Concat(lines), Scaffold(Concat(lines), sentinel, hint)) != []
  {
    var second := if AfterBrace(sentinel, end) then "{" else "{ $a";
    OpenedLine(second, sentinel);
    ClosedReference(sentinel, end);
    OtherCount(second + " " + sentinel, second, end);
    hide *;
    lines := SpoiledSecond(second, sentinel, hint);
  }

  lemma ClosedReference(sentinel: string, end: End)
    ensures AfterBrace(sentinel, end) ==> Count("{" + " " + sentinel, end) > 0
    ensures AfterName(sentinel, end) ==> Count("{ $a" + " " + sentinel, end) > 0
  {
    var t := " " + sentinel;
    assert t[1..] == sentinel;
    var v, w := "{" + " " + sentinel, "{ $a" + " " + sentinel;
    assert v[1..] == t;
    assert w[1..] == " $a" + t && (" $a" + t)[1..] == "$a" + t && ("$a" + t)[2..] == t;
    if AfterName(sentinel, end) {
      assert InName(t, end);
      assert Variable("$a" + t, end);
      assert AfterBrace("$a" + t, end) && AfterBrace(" $a" + t, end);
    }
  }

  lemma OtherCount(v: string, w: string, end: End)
    requires Count(v, end) > 0 && Count(w, Brace) == 0 && Count(w, Arrow) == 0
    ensures TallyOf(v) != TallyOf(w)
  {
    hide Count;
    assert end == Brace || end == Arrow;
  }

  /** A sentinel that begins with `=` turns a continuation line into a message of its own. */
  lemma EqualsSentinel(sentinel: string, hint: string) returns (lines: seq<string>)
    requires NoBreak(sentinel) && NoBreak(hint) && !CanGrow(sentinel, Brace) && !CanGrow(sentinel, Arrow)
    requires LStrip(sentinel) != "" && LStrip(sentinel)[0] == '='
    ensures OneMessage(lines) && Failures(Concat(lines), Scaffold(Concat(lines), sentinel, hint)) != []
  {
    var second := "foo";
    FooLine(sentinel);
    hide *;
    lines := SpoiledSecond(second, sentinel, hint);
  }

  lemma FooKey(sentinel: string)
    requires LStrip(sentinel) != "" && LStrip(sentinel)[0] == '='
    ensures KeyOf("foo" + " " + sentinel) == Some("foo")
  {
    hide LStrip;
    var v, t := "foo" + " " + sentinel, " " + sentinel;
    EqualsSkips(sentinel);
    assert t[1..] == sentinel;
    assert NameTailEquals(t) && NamePrefix(t) == "";
    hide EqualsAfter;
    OneStep('o', t);
    OneStep('o', ['o'] + t);
    OneStep('f', ['o'] + (['o'] + t));
    assert v == ['f'] + (['o'] + (['o'] + t)) && v[1..] == ['o'] + (['o'] + t);
    assert NamePrefix(v) == ['f'] + (['o'] + (['o'] + NamePrefix(t)));
    assert ['f'] + (['o'] + (['o'] + "")) == "foo";
    assert v[0] == 'f' && NameTailEquals(v[1..]);
  }

  lemma FooLine(sentinel: string)
    requires LStrip(sentinel) != "" && LStrip(sentinel)[0] == '='
    ensures IsLine("foo") && !IsBlank("foo") && !IsComment("foo") && KindOf("foo") == Other
    ensures var v := ScaffoldValueLine("foo", sentinel); !IsBlank(v) && KindOf(v) == Key("foo")
  {
    FooKey(sentinel);
    var v := "foo" + " " + sentinel;
    assert v[0] == 'f' && "foo"[0] == 'f';
    assert FindEquals("foo") == 3 && RStrip("foo") == "foo";
    KindWithoutChomp(v);
    KindWithoutChomp("foo");
    NoEquals("foo");
    hide KeyOf, LStrip;
  }

  lemma OneStep(c: char, t: string)
    requires NameChar(c)
    ensures NameTailEquals([c] + t) <==> NameTailEquals(t)
    ensures NamePrefix([c] + t) == [c] + NamePrefix(t)
  {
    assert ([c] + t)[1..] == t;
  }

  /** For every sentinel and hint of one line: the validator accepts the scaffold of every bundle that
      never returns to an earlier key if and only if the sentinel is safe. */
  lemma SentinelAccepted(sentinel: string, hint: string)
    requires NoBreak(sentinel) && NoBreak(hint)
    ensures SafeSentinel(sentinel) <==>
            forall text :: NoCR(text) && DistinctKeys(ReadText(UNREAD, text).entries) ==>
                             Failures(text, Scaffold(text, sentinel, hint)) == []
  {
    if SafeSentinel(sentinel) {
      forall text | NoCR(text) && DistinctKeys(ReadText(UNREAD, text).entries)
        ensures Failures(text, Scaffold(text, sentinel, hint)) == []
      {
        DistinctKeysAccepted(text, sentinel, hint);
      }
    } else {
      var lines := UnsafeSentinel(sentinel, hint);
      OneMessageText(lines);
    }
  }

  lemma UnsafeSentinel(sentinel: string, hint: string) returns (lines: seq<string>)
    requires NoBreak(sentinel) && NoBreak(hint) && !SafeSentinel(sentinel)
    ensures OneMessage(lines) && Failures(Concat(lines), Scaffold(Concat(lines), sentinel, hint)) != []
  {
    hide Failures, Scaffold, OneMessage, CanGrow, AfterBrace, AfterName;
    if CanGrow(sentinel, Brace) {
      lines := GrowingSentinel(sentinel, hint, Brace);
    } else if CanGrow(sentinel, Arrow) {
      lines := GrowingSentinel(sentinel, hint, Arrow);
    } else if AfterBrace(sentinel, Brace) || AfterName(sentinel, Brace) {
      lines := ClosingSentinel(sentinel, hint, Brace);
    } else if AfterBrace(sentinel, Arrow) || AfterName(sentinel, Arrow) {
      lines := ClosingSentinel(sentinel, hint, Arrow);
    } else {
      lines := EqualsSentinel(sentinel, hint);
    }
  }

  lemma OneMessageText(lines: seq<string>)
    requires OneMessage(lines)
    ensures NoCR(Concat(lines)) && DistinctKeys(ReadText(UNREAD, Concat(lines)).entries)
  {
    OneBlock(lines);
    ConcatNoCR(lines);
  }

  lemma {:induction false} ConcatNoCR(lines: seq<string>)
    requires forall l <- lines :: NoCR(l)
    ensures NoCR(Concat(lines))
  {
    if lines != [] {
      ConcatNoCR(lines[1..]);
      assert lines[0] in lines;
      JoinNoCR(lines[0], Concat(lines[1..]));
    }
  }

  /** With the default sentinel every bundle that never returns to an earlier key is accepted. */
  lemma DefaultAccepted(text: string, hint: string)
    requires NoCR(text) && NoBreak(hint) && DistinctKeys(ReadText(UNREAD, text).entries)
    ensures Failures(text, Scaffold(text, DEFAULT_SENTINEL, hint)) == []
  {
    hide *;
    DefaultIsSafe();
    SentinelAccepted(DEFAULT_SENTINEL, hint);
  }
}
