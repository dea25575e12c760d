/** The translator scaffold generator and the validator that parses its output again. */
module FtlScaffold {
  import opened Options
  import opened Text
  import opened FtlPatterns

  /** The key of separator entries. A message really named like this is taken for a separator. */
  const BLANK := "__blank__"

  datatype Block = Block(key: string, lines: seq<string>)

  datatype Parsed = Parsed(header: seq<string>, blocks: seq<Block>)

  // ---------- Kinds of lines ----------

  datatype Kind = Blank | Comment | Attribute | Key(name: string) | Other

  /** `rstrip("\n")` */
  function Chomp(raw: string): string {
    if raw != "" && raw[|raw| - 1] == '\n' then Chomp(raw[..|raw| - 1]) else raw
  }

  /** `lstrip().startswith("#")` */
  predicate IsComment(s: string) {
    s != "" && (if IsSpace(s[0]) then IsComment(s[1..]) else s[0] == '#')
  }

  function KindOf(raw: string): Kind {
    var line := Chomp(raw);
    if IsBlank(line) then Blank
    else if IsComment(line) then Comment
    else if IsAttribute(line) then Attribute
    else match KeyOf(line)
         case Some(k) => Key(k)
         case None => Other
  }

  // ---------- The block parser, as a fold over the lines ----------

  datatype State = State(header: seq<string>, blocks: seq<Block>, key: Option<string>, lines: seq<string>,
                         attrs: seq<string>)

  const START := State([], [], None, [], [])

  /** The key of the last entry that is not a separator. */
  function LastKey(blocks: seq<Block>): Option<string> {
    if blocks == [] then None
    else if blocks[|blocks| - 1].key == BLANK then LastKey(blocks[..|blocks| - 1])
    else Some(blocks[|blocks| - 1].key)
  }

  function ExtendLast(blocks: seq<Block>, more: seq<string>): seq<Block>
    requires LastKey(blocks).Some?
  {
    var init, last := blocks[..|blocks| - 1], blocks[|blocks| - 1];
    if last.key == BLANK then ExtendLast(init, more) + [last] else init + [Block(last.key, last.lines + more)]
  }

  /** Emit what is buffered, into the previous block when that has the same key. */
  function Flush(s: State): State {
    if s.key.None? || (s.lines == [] && s.attrs == []) then s
    else
      var more := s.lines + s.attrs;
      s.(blocks := if LastKey(s.blocks) == s.key then ExtendLast(s.blocks, more)
      else s.blocks + [Block(s.key.value, more)],
           lines := [], attrs := [])
  }

  function Step(s: State, raw: string): State {
    match KindOf(raw)
    case Blank => var f := Flush(s); f.(blocks := f.blocks + [Block(BLANK, [])])
    case Comment => if s.key.None? then s.(header := s.header + [raw]) else s.(lines := s.lines + [raw])
    case Attribute => if s.key.None? then s else s.(attrs := s.attrs + [raw])
    case Key(k) => Flush(s).(key := Some(k), lines := [raw], attrs := [])
    case Other => if s.key.None? then s else s.(lines := s.lines + [raw])
  }

  function Fold(lines: seq<string>): State {
    if lines == [] then START else Step(Fold(lines[..|lines| - 1]), lines[|lines| - 1])
  }

  function Collect(text: string): Parsed {
    var f := Flush(Fold(SplitLines(text)));
    Parsed(f.header, f.blocks)
  }

  // ---------- The block parser, as written ----------

  method FlushPending(blocks0: seq<Block>, key: Option<string>, lines: seq<string>, attrs: seq<string>)
    returns (blocks: seq<Block>)
    ensures blocks == Flush(State([], blocks0, key, lines, attrs)).blocks
  {
    blocks := blocks0;
    if key.None? || (lines == [] && attrs == []) { return; }
    var more := lines + attrs;
    var i := |blocks| - 1;
    assert blocks[..i + 1] == blocks;
    while i >= 0 && blocks[i].key == BLANK
      invariant -1 <= i < |blocks|
      invariant LastKey(blocks[..i + 1]) == LastKey(blocks)
      invariant forall j :: i < j < |blocks| ==> blocks[j].key == BLANK
    {
      assert blocks[..i + 1][..i] == blocks[..i];
      i := i - 1;
    }
    if i != -1 && blocks[i].key == key.value {
      ExtendAt(blocks, i, more);
      blocks := blocks[i := Block(blocks[i].key, blocks[i].lines + more)];
    } else {
      if i != -1 { assert blocks[..i + 1][i] == blocks[i]; }
      blocks := blocks + [Block(key.value, more)];
    }
  }

  lemma {:induction false} ExtendAt(blocks: seq<Block>, i: nat, more: seq<string>)
    requires i < |blocks| && blocks[i].key != BLANK
    requires forall j :: i < j < |blocks| ==> blocks[j].key == BLANK
    ensures LastKey(blocks) == Some(blocks[i].key)
    ensures ExtendLast(blocks, more) == blocks[i := Block(blocks[i].key, blocks[i].lines + more)]
  {
    if i < |blocks| - 1 {
      ExtendAt(blocks[..|blocks| - 1], i, more);
    }
  }

  lemma {:induction false} AttributeIsNoKey(s: string)
    requires IsAttribute(s)
    ensures KeyOf(s) == None
  {
  }

  method CollectBlocks(text: string) returns (parsed: Parsed)
    ensures parsed == Collect(text)
  {
    var lines := SplitLines(text);
    var header: seq<string>, blocks: seq<Block> := [], [];
    var key: Option<string>, pending: seq<string>, attrs: seq<string> := None, [], [];
    for k := 0 to |lines|
      invariant State(header, blocks, key, pending, attrs) == Fold(lines[..k])
    {
      var raw := lines[k];
      var line := Chomp(raw);
      assert lines[..k + 1][..k] == lines[..k];
      if IsBlank(line) {
        blocks := FlushPending(blocks, key, pending, attrs);
        if key.Some? { pending, attrs := [], []; }
        blocks := blocks + [Block(BLANK, [])];
        NoneBuffersNothing(lines[..k]);
        continue;
      }
      if IsComment(line) {
        if key.None? { header := header + [raw]; } else { pending := pending + [raw]; }
        continue;
      }
      if IsAttribute(line) && key.Some? {
        attrs := attrs + [raw];
        continue;
      }
      if IsAttribute(line) { AttributeIsNoKey(line); }
      var found := KeyOf(line);
      if found.Some? {
        blocks := FlushPending(blocks, key, pending, attrs);
        key, pending, attrs := Some(found.value), [raw], [];
        continue;
      }
      if key.Some? { pending := pending + [raw]; }
    }
    assert lines[..|lines|] == lines;
    blocks := FlushPending(blocks, key, pending, attrs);
    return Parsed(header, blocks);
  }

  lemma {:induction false} NoneBuffersNothing(lines: seq<string>)
    ensures var s := Fold(lines);
            s.key.None? ==> s.lines == [] && s.attrs == [] && LastKey(s.blocks) == None
  {
    if lines != [] { NoneBuffersNothing(lines[..|lines| - 1]); }
  }

  // ---------- What a text says: its messages and their counts, read line by line ----------

  datatype Tally = Tally(placeholders: nat, selects: nat, attributes: nat)

  function Plus(a: Tally, b: Tally): Tally {
    Tally(a.placeholders + b.placeholders, a.selects + b.selects, a.attributes + b.attributes)
  }

  function TallyOf(raw: string): Tally {
    Tally(Count(raw, Brace), Count(raw, Arrow), if IsAttribute(LStrip(raw)) then 1 else 0)
  }

  function TallyAll(lines: seq<string>): Tally {
    if lines == [] then Tally(0, 0, 0) else Plus(TallyAll(lines[..|lines| - 1]), TallyOf(lines[|lines| - 1]))
  }

  datatype Entry = Entry(key: string, tally: Tally)

  /** The messages among the blocks, in order, with the counts the validator compares. */
  function Summary(blocks: seq<Block>): seq<Entry> {
    if blocks == [] then []
    else
      var init, last := Summary(blocks[..|blocks| - 1]), blocks[|blocks| - 1];
      if last.key == BLANK then init else init + [Entry(last.key, TallyAll(last.lines))]
  }

  /** How many header comments, which messages, and the key that owns the next line. */
  datatype Reading = Reading(header: nat, entries: seq<Entry>, key: Option<string>)

  const UNREAD := Reading(0, [], None)

  function EntryKey(entries: seq<Entry>): Option<string> {
    if entries == [] then None else Some(entries[|entries| - 1].key)
  }

  function Bump(entries: seq<Entry>, t: Tally): seq<Entry> {
    if entries == [] then []
    else
      var last := entries[|entries| - 1];
      entries[..|entries| - 1] + [Entry(last.key, Plus(last.tally, t))]
  }

  /** A key line opens a message, or continues the last one when that has the same key; every other
      line counts towards the message it stands under. */
  function ReadAs(r: Reading, kind: Kind, t: Tally): Reading {
    match kind
    case Blank => r
    case Key(k) =>
      if k == BLANK then r.(key := Some(k))
      else if EntryKey(r.entries) == Some(k) then r.(entries := Bump(r.entries, t), key := Some(k))
      else r.(entries := r.entries + [Entry(k, t)], key := Some(k))
    case Comment => if r.key.None? then r.(header := r.header + 1) else CountTowards(r, t)
    case Attribute => CountTowards(r, t)
    case Other => CountTowards(r, t)
  }

  function CountTowards(r: Reading, t: Tally): Reading {
    if r.key.None? || r.key == Some(BLANK) then r else r.(entries := Bump(r.entries, t))
  }

  function ReadLine(r: Reading, raw: string): Reading {
    ReadAs(r, KindOf(raw), TallyOf(raw))
  }

  function ReadAll(r: Reading, lines: seq<string>): Reading {
    if lines == [] then r else ReadLine(ReadAll(r, lines[..|lines| - 1]), lines[|lines| - 1])
  }

  function ReadText(r: Reading, text: string): Reading {
    ReadAll(r, SplitLines(text))
  }

  // ---------- The parser keeps exactly that ----------

  lemma {:induction false} TallyAppend(a: seq<string>, b: seq<string>)
    ensures TallyAll(a + b) == Plus(TallyAll(a), TallyAll(b))
  {
    hide TallyOf;
    if b == [] {
      assert a + b == a;
    } else {
      assert (a + b)[..|a + b| - 1] == a + b[..|b| - 1];
      TallyAppend(a, b[..|b| - 1]);
    }
  }

  lemma TallyOne(raw: string)
    ensures TallyAll([]) == Tally(0, 0, 0) && TallyAll([raw]) == TallyOf(raw)
  {
    assert [raw][..0] == [];
  }

  lemma SummaryAppend(blocks: seq<Block>, b: Block)
    ensures Summary(blocks + [b]) == Summary(blocks) + if b.key == BLANK then [] else [Entry(b.key, TallyAll(b.lines))]
    ensures LastKey(blocks + [b]) == if b.key == BLANK then LastKey(blocks) else Some(b.key)
  {
    assert (blocks + [b])[..|blocks|] == blocks;
  }

  lemma {:induction false} SummaryKey(blocks: seq<Block>)
    ensures EntryKey(Summary(blocks)) == LastKey(blocks)
    ensures LastKey(blocks) != Some(BLANK)
  {
    if blocks != [] { SummaryKey(blocks[..|blocks| - 1]); }
  }

  lemma {:induction false} SummaryExtend(blocks: seq<Block>, more: seq<string>)
    requires LastKey(blocks).Some?
    ensures Summary(blocks) != []
    ensures Summary(ExtendLast(blocks, more)) == Bump(Summary(blocks), TallyAll(more))
    ensures LastKey(ExtendLast(blocks, more)) == LastKey(blocks)
  {
    var init, last := blocks[..|blocks| - 1], blocks[|blocks| - 1];
    SummaryKey(init);
    if last.key == BLANK {
      SummaryExtend(init, more);
      SummaryAppend(ExtendLast(init, more), last);
    } else {
      SummaryAppend(init, Block(last.key, last.lines + more));
      TallyAppend(last.lines, more);
      assert Bump(Summary(blocks), TallyAll(more))[..|Summary(init)|] == Summary(init);
    }
  }

  /** What is buffered belongs to the pending key, which has a block once nothing is buffered. */
  ghost predicate Pending(s: State) {
    match s.key
    case None => s.lines == [] && s.attrs == [] && LastKey(s.blocks) == None
    case Some(k) => k != BLANK && s.lines == [] && s.attrs == [] ==> LastKey(s.blocks) == Some(k)
  }

  function FlushedSummary(s: State): seq<Entry> { Summary(Flush(s).blocks) }

  /** The summary after flushing: the buffered lines count towards the pending key's message. */
  lemma FlushMeaning(s: State)
    requires Pending(s)
    ensures LastKey(Flush(s).blocks) == if s.key.None? || s.key == Some(BLANK) then LastKey(s.blocks) else s.key
    ensures EntryKey(FlushedSummary(s)) == LastKey(Flush(s).blocks)
    ensures FlushedSummary(s) ==
            if s.key.None? || s.key == Some(BLANK) || (s.lines == [] && s.attrs == []) then Summary(s.blocks)
            else if LastKey(s.blocks) == s.key then Bump(Summary(s.blocks), TallyAll(s.lines + s.attrs))
            else Summary(s.blocks) + [Entry(s.key.value, TallyAll(s.lines + s.attrs))]
  {
    SummaryKey(s.blocks);
    SummaryKey(Flush(s).blocks);
    if s.key.Some? && (s.lines != [] || s.attrs != []) {
      if LastKey(s.blocks) == s.key {
        SummaryExtend(s.blocks, s.lines + s.attrs);
      } else {
        SummaryAppend(s.blocks, Block(s.key.value, s.lines + s.attrs));
      }
    }
  }

  lemma {:induction false} BumpTwice(entries: seq<Entry>, a: Tally, b: Tally)
    ensures Bump(Bump(entries, a), b) == Bump(entries, Plus(a, b))
  {
  }

  lemma BumpNew(entries: seq<Entry>, k: string, a: Tally, b: Tally)
    ensures Bump(entries + [Entry(k, a)], b) == entries + [Entry(k, Plus(a, b))]
  {
  }

  /** Buffering one more line, wherever, adds its counts to the pending message. */
  lemma BufferOne(s: State, s': State, raw: string)
    requires Pending(s) && s.key.Some?
    requires s' == s.(lines := s.lines + [raw]) || s' == s.(attrs := s.attrs + [raw])
    ensures Pending(s')
    ensures s.key != Some(BLANK) ==>
              FlushedSummary(s) != [] && FlushedSummary(s') == Bump(FlushedSummary(s), TallyOf(raw))
    ensures s.key == Some(BLANK) ==> FlushedSummary(s') == FlushedSummary(s)
  {
    FlushMeaning(s);
    FlushMeaning(s');
    BufferTally(s.lines, s.attrs, raw);
    SummaryKey(s.blocks);
    hide *;
    var had, more := TallyAll(s.lines + s.attrs), TallyOf(raw);
    if s.lines == [] && s.attrs == [] {
      assert s.lines + s.attrs == [];
      TallyOne(raw);
    }
    BumpTwice(Summary(s.blocks), had, more);
    BumpNew(Summary(s.blocks), s.key.value, had, more);
  }

  lemma BufferTally(lines: seq<string>, attrs: seq<string>, raw: string)
    ensures TallyAll(lines + [raw] + attrs) == Plus(TallyAll(lines + attrs), TallyOf(raw))
    ensures TallyAll(lines + (attrs + [raw])) == Plus(TallyAll(lines + attrs), TallyOf(raw))
  {
    hide TallyOf, TallyAll;
    TallyAppend(lines, attrs);
    TallyAppend(lines + [raw], attrs);
    TallyAppend(lines, [raw]);
    TallyAppend(lines + attrs, [raw]);
    assert lines + (attrs + [raw]) == lines + attrs + [raw];
    TallyOne(raw);
  }

  ghost predicate Matches(s: State, r: Reading) {
    Pending(s) && r == Reading(|s.header|, FlushedSummary(s), s.key)
  }

  lemma StepMatches(s: State, r: Reading, raw: string)
    requires Matches(s, r)
    ensures Matches(Step(s, raw), ReadLine(r, raw))
  {
    hide KindOf, TallyOf, TallyAll, Bump, Summary, Plus, SplitLines;
    FlushMeaning(s);
    var f := Flush(s);
    match KindOf(raw)
    case Blank =>
      SummaryAppend(f.blocks, Block(BLANK, []));
      FlushMeaning(Step(s, raw));
    case Key(k) =>
      FlushMeaning(Step(s, raw));
      TallyOne(raw);
      assert [raw] + [] == [raw];
      SummaryKey(f.blocks);
    case _ =>
      if s.key.Some? {
        BufferOne(s, Step(s, raw), raw);
      } else {
        FlushMeaning(Step(s, raw));
      }
  }

  lemma {:induction false} FoldMatches(lines: seq<string>)
    ensures Matches(Fold(lines), ReadAll(UNREAD, lines))
  {
    if lines == [] {
      FlushMeaning(START);
    } else {
      FoldMatches(lines[..|lines| - 1]);
      StepMatches(Fold(lines[..|lines| - 1]), ReadAll(UNREAD, lines[..|lines| - 1]), lines[|lines| - 1]);
    }
  }

  /** The blocks a text is parsed into say what reading it line by line says. */
  lemma ParseMeaning(text: string)
    ensures Summary(Collect(text).blocks) == ReadText(UNREAD, text).entries
    ensures |Collect(text).header| == ReadText(UNREAD, text).header
  {
    FoldMatches(SplitLines(text));
  }
}
