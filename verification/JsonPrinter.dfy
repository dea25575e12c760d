/** Printed JSON, with any whitespace and any escapes, and what the scanners find in it. */
module JsonPrinter {
  import opened Options
  import opened Text
  import opened JsonScanner

  datatype Json =
    | Str(raw: string)
    | Scalar(text: string)
    | Invoked(name: string, raw: string)
    | Arr(items: Items)
    | Obj(members: Fields)

  /** Elements with the whitespace around them; what is left in the end is only whitespace. */
  datatype Items = NoItem(ws: string) | LastItem(item: Item) | MoreItems(item: Item, rest: Items)

  datatype Item = Item(before: string, value: Json, after: string)

  datatype Fields = NoField(ws: string) | LastField(field: Field) | MoreFields(field: Field, rest: Fields)

  /** `before "key" mid : gap value after` */
  datatype Field = Field(before: string, key: string, mid: string, gap: string, value: Json, after: string)

  function Quoted(raw: string): string { "\"" + raw + "\"" }

  function Print(v: Json): string {
    match v
    case Str(raw) => Quoted(raw)
    case Scalar(text) => text
    case Invoked(name, raw) => name + ("!(" + (Quoted(raw) + ")"))
    case Arr(items) => "[" + PrintItems(items) + "]"
    case Obj(members) => "{" + PrintFields(members) + "}"
  }

  function PrintItems(items: Items): string {
    match items
    case NoItem(ws) => ws
    case LastItem(item) => item.before + Print(item.value) + item.after
    case MoreItems(item, rest) => item.before + Print(item.value) + item.after + "," + PrintItems(rest)
  }

  function PrintFields(members: Fields): string {
    match members
    case NoField(ws) => ws
    case LastField(f) => PrintField(f)
    case MoreFields(f, rest) => PrintField(f) + "," + PrintFields(rest)
  }

  function PrintField(f: Field): string {
    f.before + Quoted(f.key) + f.mid + ":" + f.gap + Print(f.value) + f.after
  }

  // ---------- Well-formed trees ----------

  /** The inside of a string literal: every quote is escaped and every backslash escapes something. */
  predicate Escaped(raw: string) {
    raw == ""
    || (raw[0] == '\\' && |raw| > 1 && Escaped(raw[2..]))
    || (raw[0] != '\\' && raw[0] != '"' && Escaped(raw[1..]))
  }

  /** A character that means nothing to the scanners. */
  predicate Plain(c: char) {
    c != '"' && c != '{' && c != '}' && c != '[' && c != ']' && c != ',' && c != ':' && c != '!'
  }

  predicate AllPlain(s: string) {
    forall i :: 0 <= i < |s| ==> Plain(s[i])
  }

  predicate ScalarText(t: string) {
    t != "" && !IsSpace(t[0]) && AllPlain(t)
  }

  predicate WordChar(alnum: CharClass, c: char) {
    alnum(c) || c == '_'
  }

  /** The name of a Rust macro, of more than one character: its exclamation mark stands behind a word. */
  predicate MacroName(alnum: CharClass, name: string) {
    |name| > 1 && ScalarText(name) && WordChar(alnum, name[|name| - 2])
  }

  ghost predicate Proper(alnum: CharClass, v: Json) {
    match v
    case Str(raw) => Escaped(raw)
    case Scalar(text) => ScalarText(text)
    case Invoked(name, raw) => MacroName(alnum, name) && Escaped(raw)
    case Arr(items) => ProperItems(alnum, items)
    case Obj(members) => ProperFields(alnum, members)
  }

  ghost predicate ProperItems(alnum: CharClass, items: Items) {
    match items
    case NoItem(ws) => IsBlank(ws)
    case LastItem(item) => ProperItem(alnum, item)
    case MoreItems(item, rest) => ProperItem(alnum, item) && ProperItems(alnum, rest)
  }

  ghost predicate ProperItem(alnum: CharClass, item: Item) {
    IsBlank(item.before) && Proper(alnum, item.value) && IsBlank(item.after)
  }

  ghost predicate ProperFields(alnum: CharClass, members: Fields) {
    match members
    case NoField(ws) => IsBlank(ws)
    case LastField(f) => ProperField(alnum, f)
    case MoreFields(f, rest) => ProperField(alnum, f) && ProperFields(alnum, rest)
  }

  ghost predicate ProperField(alnum: CharClass, f: Field) {
    && IsBlank(f.before) && IsBlank(f.mid) && IsBlank(f.gap) && IsBlank(f.after)
    && Escaped(f.key) && Proper(alnum, f.value)
  }

  /** The quote before such a key reads as a macro's name: the guard of the macro branch. */
  predicate LooksLikeMacro(alnum: CharClass, key: string) {
    key != "" && key[0] == '!' && (|key| > 1 ==> !WordChar(alnum, key[1]))
  }

  /** A macro invocation is read as a scalar, up to the first separator: one in its argument cuts it short. */
  predicate Cut(v: Json) {
    v.Invoked? && exists k :: 0 <= k < |v.raw| && Separates(v.raw[k])
  }

  predicate ReadableField(alnum: CharClass, f: Field) {
    !LooksLikeMacro(alnum, f.key) && !Cut(f.value)
  }

  /** The member scanner asks this of the members it scans, and of no nested ones. */
  predicate Readable(alnum: CharClass, members: Fields) {
    match members
    case NoField(_) => true
    case LastField(f) => ReadableField(alnum, f)
    case MoreFields(f, rest) => ReadableField(alnum, f) && Readable(alnum, rest)
  }

  /** No blank and none of JSON's punctuation is alphanumeric. */
  ghost predicate Sane(alnum: CharClass) {
    && (forall c :: IsSpace(c) ==> !alnum(c))
    && !alnum('"') && !alnum(',') && !alnum('}') && !alnum(']') && !alnum(')')
  }

  // ---------- Scanning over printed text ----------

  /** What follows does not make a macro of what stands before it. */
  predicate Calm(rest: string) {
    rest == "" || rest[0] != '!'
  }

  lemma {:induction false} StringOver(text: string, i: nat, raw: string, rest: string)
    requires Here(text, i, raw + "\"", rest) && Escaped(raw)
    ensures StringEnd(text, i) == Some(i + |raw| + 1)
    decreases |raw|
  {
    Head(text, i, raw + "\"", rest);
    if raw == "" {
      assert raw + "\"" == "\"";
    } else if raw[0] == '\\' {
      assert raw + "\"" == raw[..2] + (raw[2..] + "\"");
      Advance(text, i, raw[..2], raw[2..] + "\"", rest);
      StringOver(text, i + 2, raw[2..], rest);
    } else {
      assert raw + "\"" == raw[..1] + (raw[1..] + "\"");
      Advance(text, i, raw[..1], raw[1..] + "\"", rest);
      StringOver(text, i + 1, raw[1..], rest);
    }
  }

  lemma QuotedOver(text: string, i: nat, raw: string, rest: string)
    requires Here(text, i, Quoted(raw), rest) && Escaped(raw)
    ensures i < |text| && text[i] == '"' && StringEnd(text, i + 1) == Some(i + |Quoted(raw)|)
    ensures text[i + 1..i + |Quoted(raw)| - 1] == raw
  {
    hide StringEnd, Escaped, Here;
    Head(text, i, Quoted(raw), rest);
    assert Quoted(raw) == "\"" + (raw + "\"");
    Advance(text, i, "\"", raw + "\"", rest);
    StringOver(text, i + 1, raw, rest);
    Advance(text, i + 1, raw, "\"", rest);
    Slice(text, i + 1, raw, "\"" + rest);
  }

  /** Text without delimiters, quotes and exclamation marks is walked over. */
  lemma {:induction false} PlainOver(alnum: CharClass, d: Delimiters, text: string, i: nat, p: string, rest: string,
                                     depth: int)
    requires Here(text, i, p, rest) && Calm(rest)
    requires forall k :: 0 <= k < |p| ==> p[k] != '"' && p[k] != '!' && !Opens(d, p[k]) && !Closes(d, p[k])
    ensures Track(alnum, d, text, i, depth) == Track(alnum, d, text, i + |p|, depth)
    decreases |p|
  {
    if p != "" {
      Head(text, i, p, rest);
      assert p == p[..1] + p[1..];
      Advance(text, i, p[..1], p[1..], rest);
      PlainOver(alnum, d, text, i + 1, p[1..], rest, depth);
    }
  }

  lemma PlainBlank(ws: string)
    requires IsBlank(ws)
    ensures AllPlain(ws)
  {
    forall i | 0 <= i < |ws| ensures Plain(ws[i]) { assert IsSpace(ws[i]); }
  }

  lemma PrintVisible(alnum: CharClass, v: Json)
    requires Proper(alnum, v)
    ensures Print(v) != "" && !IsSpace(Print(v)[0]) && Print(v)[0] != '!'
  {
    if v.Scalar? { assert Plain(v.text[0]); }
    if v.Invoked? { assert Plain(v.name[0]); }
  }

  /** A single delimiter with calm text behind it is no macro. */
  lemma NoMacro(alnum: CharClass, text: string, i: nat, p: string, rest: string)
    requires Here(text, i, p, rest) && |p| == 1 && Calm(rest)
    ensures i < |text| && text[i] == p[0] && !MacroStart(alnum, text, i)
  {
    Head(text, i, p, rest);
  }

  /** A pair of delimiters around some text: neither is a macro's name. */
  lemma Enclosed(alnum: CharClass, text: string, i: nat, open: string, inside: string, close: string, rest: string)
    requires Here(text, i, open + (inside + close), rest) && |open| == 1 && |close| == 1
    requires Calm(inside + (close + rest)) && Calm(rest)
    ensures Here(text, i + 1, inside, close + rest)
    ensures i < |text| && text[i] == open[0] && !MacroStart(alnum, text, i)
    ensures var k := i + 1 + |inside|; k < |text| && text[k] == close[0] && !MacroStart(alnum, text, k)
  {
    hide Here, Calm, MacroStart;
    Advance(text, i, open, inside + close, rest);
    assert inside + close + rest == inside + (close + rest);
    NoMacro(alnum, text, i, open, inside + close + rest);
    Advance(text, i + 1, inside, close, rest);
    NoMacro(alnum, text, i + 1 + |inside|, close, rest);
  }

  /** A printed value leaves the depth as it found it. */
  lemma {:induction false} ValueOver(alnum: CharClass, d: Delimiters, text: string, i: nat, v: Json, rest: string,
                                     depth: int)
    requires Here(text, i, Print(v), rest) && Proper(alnum, v) && Calm(rest) && depth >= 1
    ensures Track(alnum, d, text, i, depth) == Track(alnum, d, text, i + |Print(v)|, depth)
    decreases v, 1
  {
    match v
    case Str(raw) =>
      QuotedTracked(alnum, d, text, i, raw, rest, depth);
    case Scalar(t) =>
      assert forall k :: 0 <= k < |t| ==> Plain(t[k]);
      PlainOver(alnum, d, text, i, t, rest, depth);
    case Invoked(name, raw) =>
      InvokedOver(alnum, d, text, i, name, raw, rest, depth);
    case Arr(items) =>
      ArrayOver(alnum, d, text, i, items, rest, depth);
    case Obj(members) =>
      ObjectOver(alnum, d, text, i, v, rest, depth);
  }

  /** A macro with a longer name is walked over like a scalar and a string. */
  lemma InvokedOver(alnum: CharClass, d: Delimiters, text: string, i: nat, name: string, raw: string, rest: string,
                    depth: int)
    requires Here(text, i, Print(Invoked(name, raw)), rest) && MacroName(alnum, name) && Escaped(raw) && Calm(rest)
    ensures Track(alnum, d, text, i, depth) == Track(alnum, d, text, i + |Print(Invoked(name, raw))|, depth)
  {
    hide *;
    InvokedParts(text, i, name, raw, rest);
    var n := |name|;
    NameOver(alnum, d, text, i, name, "!(" + (Quoted(raw) + ")") + rest, depth);
    QuoteCalm(raw, ")" + rest);
    Assoc(Quoted(raw), ")", rest);
    BangOver(alnum, d, text, i + n, Quoted(raw) + ")" + rest, depth);
    QuotedTracked(alnum, d, text, i + n + 2, raw, ")" + rest, depth);
    ParenOver(alnum, d, text, i + n + 2 + |Quoted(raw)|, rest, depth);
  }

  lemma QuoteCalm(raw: string, rest: string)
    ensures Calm(Quoted(raw) + rest)
  {
  }

  lemma InvokedParts(text: string, i: nat, name: string, raw: string, rest: string)
    requires Here(text, i, Print(Invoked(name, raw)), rest)
    ensures var q := Quoted(raw);
            && Here(text, i, name, "!(" + (q + ")") + rest) && Here(text, i + |name|, "!(", q + ")" + rest)
            && Here(text, i + |name| + 2, q, ")" + rest) && Here(text, i + |name| + 2 + |q|, ")", rest)
            && |Print(Invoked(name, raw))| == |name| + 2 + |q| + 1
  {
    PrintInvoked(name, raw);
    hide *;
    var q := Quoted(raw);
    Advance(text, i, name, "!(" + (q + ")"), rest);
    Advance(text, i + |name|, "!(", q + ")", rest);
    Advance(text, i + |name| + 2, q, ")", rest);
  }

  lemma PrintInvoked(name: string, raw: string)
    ensures Print(Invoked(name, raw)) == name + ("!(" + (Quoted(raw) + ")"))
  {
  }

  lemma NameOver(alnum: CharClass, d: Delimiters, text: string, i: nat, name: string, rest: string, depth: int)
    requires Here(text, i, name, rest) && MacroName(alnum, name)
    ensures Track(alnum, d, text, i, depth) == Track(alnum, d, text, i + |name|, depth)
  {
    var n := |name| - 1;
    var p, last := name[..n], [name[n]];
    assert name == p + last && Plain(name[n]);
    hide Track, Here;
    Advance(text, i, p, last, rest);
    Slice(text, i, p, last + rest);
    Head(text, i + n, last, rest);
    assert text[i + n - 1] == text[i..i + n][n - 1] == name[n - 1];
    PlainOver(alnum, d, text, i, p, last + rest, depth);
    StepOver(alnum, d, text, i + n, depth);
  }

  lemma StepOver(alnum: CharClass, d: Delimiters, text: string, i: nat, depth: int)
    requires i < |text| && text[i] != '"' && !Opens(d, text[i]) && !Closes(d, text[i]) && !MacroStart(alnum, text, i)
    ensures Track(alnum, d, text, i, depth) == Track(alnum, d, text, i + 1, depth)
  {
  }

  lemma BangOver(alnum: CharClass, d: Delimiters, text: string, i: nat, rest: string, depth: int)
    requires Here(text, i, "!(", rest) && Calm(rest)
    ensures Track(alnum, d, text, i, depth) == Track(alnum, d, text, i + 2, depth)
  {
    Head(text, i, "!(", rest);
    assert "!(" == "!" + "(";
    Advance(text, i, "!", "(", rest);
    hide Track, Here;
    NoMacro(alnum, text, i + 1, "(", rest);
    StepOver(alnum, d, text, i, depth);
    StepOver(alnum, d, text, i + 1, depth);
  }

  lemma ParenOver(alnum: CharClass, d: Delimiters, text: string, i: nat, rest: string, depth: int)
    requires Here(text, i, ")", rest) && Calm(rest)
    ensures Track(alnum, d, text, i, depth) == Track(alnum, d, text, i + 1, depth)
  {
    hide Track, Here;
    NoMacro(alnum, text, i, ")", rest);
    StepOver(alnum, d, text, i, depth);
  }

  lemma {:induction false} ArrayOver(alnum: CharClass, d: Delimiters, text: string, i: nat, items: Items,
                                     rest: string, depth: int)
    requires Here(text, i, Print(Arr(items)), rest) && ProperItems(alnum, items) && Calm(rest)
    requires depth >= 1 || (d.Both? && depth == 0)
    ensures Track(alnum, d, text, i, depth) ==
            if depth == 0 then Some(i + |Print(Arr(items))|) else Track(alnum, d, text, i + |Print(Arr(items))|, depth)
    decreases items, 2
  {
    hide PrintItems, Here, MacroStart, Calm, ProperItems;
    AfterCalm("]", rest);
    ItemsCalm(alnum, items, "]" + rest);
    assert Print(Arr(items)) == "[" + (PrintItems(items) + "]");
    Enclosed(alnum, text, i, "[", PrintItems(items), "]", rest);
    ItemsOver(alnum, d, text, i + 1, items, "]" + rest, if d.Both? then depth + 1 else depth);
  }

  lemma {:induction false} ObjectOver(alnum: CharClass, d: Delimiters, text: string, i: nat, v: Json, rest: string,
                                      depth: int)
    requires v.Obj? && Here(text, i, Print(v), rest) && Proper(alnum, v) && Calm(rest) && depth >= 0
    ensures Track(alnum, d, text, i, depth) ==
            if depth == 0 then Some(i + |Print(v)|) else Track(alnum, d, text, i + |Print(v)|, depth)
    decreases v, 0
  {
    hide PrintFields, Here, MacroStart, Calm, ProperFields;
    AfterCalm("}", rest);
    FieldsCalm(alnum, v.members, "}" + rest);
    assert Print(v) == "{" + (PrintFields(v.members) + "}");
    Enclosed(alnum, text, i, "{", PrintFields(v.members), "}", rest);
    FieldsOver(alnum, d, text, i + 1, v.members, "}" + rest, depth + 1);
  }

  lemma AfterCalm(close: string, rest: string)
    requires close == "]" || close == "}"
    ensures Calm(close + rest)
  {
  }

  lemma FirstCalm(p: string, rest: string)
    requires p != "" && p[0] != '!'
    ensures Calm(p + rest)
  {
  }

  lemma BlankCalm(ws: string, rest: string)
    requires IsBlank(ws) && Calm(rest)
    ensures Calm(ws + rest)
  {
    if ws != "" { assert IsSpace(ws[0]); }
  }

  lemma ItemsCalm(alnum: CharClass, items: Items, rest: string)
    requires ProperItems(alnum, items) && Calm(rest)
    ensures Calm(PrintItems(items) + rest)
  {
    match items
    case NoItem(ws) => BlankCalm(ws, rest);
    case LastItem(item) => PrintVisible(alnum, item.value); BlankCalm(item.before, Print(item.value));
    case MoreItems(item, _) => PrintVisible(alnum, item.value); BlankCalm(item.before, Print(item.value));
  }

  lemma FieldsCalm(alnum: CharClass, members: Fields, rest: string)
    requires ProperFields(alnum, members) && Calm(rest)
    ensures Calm(PrintFields(members) + rest)
  {
    match members
    case NoField(ws) => BlankCalm(ws, rest);
    case LastField(f) => BlankCalm(f.before, Quoted(f.key));
    case MoreFields(f, _) => BlankCalm(f.before, Quoted(f.key));
  }

  lemma {:induction false} ItemsOver(alnum: CharClass, d: Delimiters, text: string, i: nat, items: Items,
                                     rest: string, depth: int)
    requires Here(text, i, PrintItems(items), rest) && ProperItems(alnum, items) && Calm(rest) && depth >= 1
    ensures Track(alnum, d, text, i, depth) == Track(alnum, d, text, i + |PrintItems(items)|, depth)
    decreases items, 1
  {
    hide Track, Here, Escaped, IsBlank, MacroStart, StringEnd, Calm, IsSpace, Print, Opens, Closes, ProperItem;
    CommaOpensNothing(d);
    match items
    case NoItem(ws) =>
      BlankOver(alnum, d, text, i, ws, rest, depth);
    case LastItem(item) =>
      ItemOver(alnum, d, text, i, item, rest, depth);
    case MoreItems(item, more) =>
      var one, tail := item.before + Print(item.value) + item.after, PrintItems(more);
      assert PrintItems(items) == one + ("," + tail);
      Advance(text, i, one, "," + tail, rest);
      FirstCalm("," + tail, rest);
      ItemOver(alnum, d, text, i, item, "," + tail + rest, depth);
      Advance(text, i + |one|, ",", tail, rest);
      ItemsCalm(alnum, more, rest);
      PlainOver(alnum, d, text, i + |one|, ",", tail + rest, depth);
      ItemsOver(alnum, d, text, i + |one| + 1, more, rest, depth);
  }

  lemma BlankOver(alnum: CharClass, d: Delimiters, text: string, i: nat, ws: string, rest: string, depth: int)
    requires Here(text, i, ws, rest) && IsBlank(ws) && Calm(rest)
    ensures Track(alnum, d, text, i, depth) == Track(alnum, d, text, i + |ws|, depth)
  {
    PlainBlank(ws);
    assert forall k :: 0 <= k < |ws| ==> Plain(ws[k]);
    PlainOver(alnum, d, text, i, ws, rest, depth);
  }

  lemma ItemParts(alnum: CharClass, item: Item)
    requires ProperItem(alnum, item)
    ensures IsBlank(item.before) && IsBlank(item.after) && Proper(alnum, item.value)
  {
  }

  lemma {:induction false} ItemOver(alnum: CharClass, d: Delimiters, text: string, i: nat, item: Item, rest: string,
                                    depth: int)
    requires Here(text, i, item.before + Print(item.value) + item.after, rest) && ProperItem(alnum, item)
             && Calm(rest) && depth >= 1
    ensures Track(alnum, d, text, i, depth) ==
            Track(alnum, d, text, i + |item.before + Print(item.value) + item.after|, depth)
    decreases item, 0
  {
    hide *;
    var p := Print(item.value);
    ItemParts(alnum, item);
    Assoc(item.before, p, item.after);
    Assoc(p, item.after, rest);
    Advance(text, i, item.before, p + item.after, rest);
    Advance(text, i + |item.before|, p, item.after, rest);
    PrintVisible(alnum, item.value);
    FirstCalm(p + item.after, rest);
    BlankOver(alnum, d, text, i, item.before, p + item.after + rest, depth);
    BlankCalm(item.after, rest);
    ValueOver(alnum, d, text, i + |item.before|, item.value, item.after + rest, depth);
    BlankOver(alnum, d, text, i + |item.before| + |p|, item.after, rest, depth);
  }

  lemma CommaOpensNothing(d: Delimiters)
    ensures !Opens(d, ',') && !Closes(d, ',')
  {
  }

  lemma {:induction false} FieldsOver(alnum: CharClass, d: Delimiters, text: string, i: nat, members: Fields,
                                      rest: string, depth: int)
    requires Here(text, i, PrintFields(members), rest) && ProperFields(alnum, members) && Calm(rest) && depth >= 1
    ensures Track(alnum, d, text, i, depth) == Track(alnum, d, text, i + |PrintFields(members)|, depth)
    decreases members, 1
  {
    hide Track, Here, Escaped, IsBlank, MacroStart, StringEnd, Calm, IsSpace, Print, PrintField, ProperField, Opens,
        Closes;
    CommaOpensNothing(d);
    match members
    case NoField(ws) =>
      BlankOver(alnum, d, text, i, ws, rest, depth);
    case LastField(f) =>
      FieldOver(alnum, d, text, i, f, rest, depth);
    case MoreFields(f, more) =>
      var one, tail := PrintField(f), PrintFields(more);
      assert PrintFields(members) == one + ("," + tail);
      Advance(text, i, one, "," + tail, rest);
      FirstCalm("," + tail, rest);
      FieldOver(alnum, d, text, i, f, "," + tail + rest, depth);
      Advance(text, i + |one|, ",", tail, rest);
      FieldsCalm(alnum, more, rest);
      PlainOver(alnum, d, text, i + |one|, ",", tail + rest, depth);
      FieldsOver(alnum, d, text, i + |one| + 1, more, rest, depth);
  }

  /** Where the parts of a printed member stand. */
  lemma FieldParts(text: string, i: nat, f: Field, rest: string)
    requires Here(text, i, PrintField(f), rest)
    ensures var p5 := Print(f.value) + f.after;
            var p4 := f.gap + p5;
            var p3 := ":" + p4;
            var p2 := f.mid + p3;
            var i1 := i + |f.before|;
            var i2 := i1 + |Quoted(f.key)|;
            var i3 := i2 + |f.mid|;
            var i5 := i3 + 1 + |f.gap|;
            && Here(text, i, f.before, Quoted(f.key) + p2 + rest)
            && Here(text, i1, Quoted(f.key), p2 + rest)
            && Here(text, i2, f.mid, p3 + rest)
            && Here(text, i3, ":", p4 + rest)
            && Here(text, i3 + 1, f.gap, p5 + rest)
            && Here(text, i5, Print(f.value), f.after + rest)
            && Here(text, i5 + |Print(f.value)|, f.after, rest)
            && |PrintField(f)| == i5 + |Print(f.value)| + |f.after| - i
  {
    hide Here, Print, Quoted, PrintField;
    var p5 := Print(f.value) + f.after;
    var p4 := f.gap + p5;
    var p3 := ":" + p4;
    var p2 := f.mid + p3;
    var p1 := Quoted(f.key) + p2;
    PrintFieldIs(f);
    var i1 := i + |f.before|;
    var i2 := i1 + |Quoted(f.key)|;
    var i3 := i2 + |f.mid|;
    Advance(text, i, f.before, p1, rest);
    Advance(text, i1, Quoted(f.key), p2, rest);
    Advance(text, i2, f.mid, p3, rest);
    Advance(text, i3, ":", p4, rest);
    Advance(text, i3 + 1, f.gap, p5, rest);
    Advance(text, i3 + 1 + |f.gap|, Print(f.value), f.after, rest);
  }

  lemma PrintFieldIs(f: Field)
    ensures PrintField(f) == f.before + (Quoted(f.key) + (f.mid + (":" + (f.gap + (Print(f.value) + f.after)))))
  {
    hide Print, Quoted;
    var x := Print(f.value) + f.after;
    assert ":" + f.gap + x == ":" + (f.gap + x);
    assert Quoted(f.key) + f.mid + (":" + f.gap + x) == Quoted(f.key) + (f.mid + (":" + f.gap + x));
  }

  lemma FieldCalm(alnum: CharClass, f: Field, rest: string)
    requires ProperField(alnum, f) && Calm(rest)
    ensures var p5 := Print(f.value) + f.after;
            var p3 := ":" + (f.gap + p5);
            && Calm(Quoted(f.key) + (f.mid + p3) + rest) && Calm(p3 + rest) && Calm(f.gap + p5 + rest)
               && Calm(p5 + rest)
            && Calm(f.after + rest)
  {
    hide Print, IsBlank, Escaped, IsSpace;
    PrintVisible(alnum, f.value);
    var p5 := Print(f.value) + f.after;
    FirstCalm(p5, rest);
    BlankCalm(f.gap, p5 + rest);
    assert f.gap + p5 + rest == f.gap + (p5 + rest);
    BlankCalm(f.after, rest);
  }

  lemma {:induction false} FieldOver(alnum: CharClass, d: Delimiters, text: string, i: nat, f: Field, rest: string,
                                     depth: int)
    requires Here(text, i, PrintField(f), rest) && ProperField(alnum, f) && Calm(rest) && depth >= 1
    ensures Track(alnum, d, text, i, depth) == Track(alnum, d, text, i + |PrintField(f)|, depth)
    decreases f, 0
  {
    hide Print, PrintField, Quoted, Track, Here, Escaped, IsBlank, MacroStart, StringEnd, Calm, IsSpace;
    FieldParts(text, i, f, rest);
    FieldCalm(alnum, f, rest);
    var p5 := Print(f.value) + f.after;
    var p4 := f.gap + p5;
    var p3 := ":" + p4;
    var p2 := f.mid + p3;
    var i1 := i + |f.before|;
    var i2 := i1 + |Quoted(f.key)|;
    var i3 := i2 + |f.mid|;
    var i5 := i3 + 1 + |f.gap|;
    BlankOver(alnum, d, text, i, f.before, Quoted(f.key) + p2 + rest, depth);
    QuotedTracked(alnum, d, text, i1, f.key, p2 + rest, depth);
    BlankOver(alnum, d, text, i2, f.mid, p3 + rest, depth);
    ColonTracked(alnum, d, text, i3, p4 + rest, depth);
    BlankOver(alnum, d, text, i3 + 1, f.gap, p5 + rest, depth);
    ValueOver(alnum, d, text, i5, f.value, f.after + rest, depth);
    BlankOver(alnum, d, text, i5 + |Print(f.value)|, f.after, rest, depth);
  }

  lemma QuotedTracked(alnum: CharClass, d: Delimiters, text: string, i: nat, raw: string, rest: string, depth: int)
    requires Here(text, i, Quoted(raw), rest) && Escaped(raw)
    ensures Track(alnum, d, text, i, depth) == Track(alnum, d, text, i + |Quoted(raw)|, depth)
  {
    QuotedOver(text, i, raw, rest);
  }

  lemma ColonTracked(alnum: CharClass, d: Delimiters, text: string, i: nat, rest: string, depth: int)
    requires Here(text, i, ":", rest) && Calm(rest)
    ensures Track(alnum, d, text, i, depth) == Track(alnum, d, text, i + 1, depth)
  {
    PlainOver(alnum, d, text, i, ":", rest, depth);
  }

  // ---------- The object's inside ----------

  /** Wherever a printed object stands, the brace scanner returns exactly its inside. */
  lemma ObjectBodyExact(alnum: CharClass, text: string, start: nat, members: Fields, rest: string)
    requires Here(text, start, Print(Obj(members)), rest) && ProperFields(alnum, members) && Calm(rest)
    ensures Track(alnum, Braces, text, start, 0) == Some(start + |Print(Obj(members))|)
    ensures text[start + 1..start + |Print(Obj(members))| - 1] == PrintFields(members)
  {
    var inside := PrintFields(members) + "}";
    assert Print(Obj(members)) == "{" + inside && Proper(alnum, Obj(members));
    hide *;
    ObjectOver(alnum, Braces, text, start, Obj(members), rest, 0);
    Assoc(PrintFields(members), "}", rest);
    Advance(text, start, "{", inside, rest);
    Advance(text, start + 1, PrintFields(members), "}", rest);
    Slice(text, start + 1, PrintFields(members), "}" + rest);
  }

  // ---------- The member names ----------

  /** A value that ends at the next separator. */
  predicate IsBare(v: Json) {
    v.Scalar? || v.Invoked?
  }

  /** The text taken for a value: a scalar keeps what stands between it and the next member. */
  function ValueText(f: Field, tail: string): string {
    if IsBare(f.value) then Print(f.value) + f.after + tail else Print(f.value)
  }

  function MembersOf(members: Fields): seq<Member> {
    match members
    case NoField(_) => []
    case LastField(f) => [Member(Some(f.key), ValueText(f, ""))]
    case MoreFields(f, rest) => [Member(Some(f.key), ValueText(f, ","))] + MembersOf(rest)
  }

  lemma {:induction false} BlankSkipped(alnum: CharClass, body: string, i: nat, ws: string, rest: string)
    requires Here(body, i, ws, rest) && IsBlank(ws)
    ensures Members(alnum, body, i) == Members(alnum, body, i + |ws|)
    decreases |ws|
  {
    if ws != "" {
      Head(body, i, ws, rest);
      assert IsSpace(ws[0]);
      assert ws == ws[..1] + ws[1..];
      Advance(body, i, ws[..1], ws[1..], rest);
      BlankSkipped(alnum, body, i + 1, ws[1..], rest);
    }
  }

  lemma {:induction false} SpacesSkipped(body: string, i: nat, ws: string, rest: string)
    requires Here(body, i, ws, rest) && IsBlank(ws) && (rest == "" || !IsSpace(rest[0]))
    ensures SkipSpaces(body, i) == i + |ws|
    decreases |ws|
  {
    if ws == "" {
      if rest != "" {
        assert ws + rest == rest + "";
        Head(body, i, rest, "");
      }
    } else {
      Head(body, i, ws, rest);
      assert IsSpace(ws[0]);
      assert ws == ws[..1] + ws[1..];
      Advance(body, i, ws[..1], ws[1..], rest);
      SpacesSkipped(body, i + 1, ws[1..], rest);
    }
  }

  predicate NoSeparator(p: string) {
    forall k :: 0 <= k < |p| ==> !Separates(p[k])
  }

  lemma {:induction false} ScalarOver(body: string, i: nat, p: string, rest: string)
    requires Here(body, i, p, rest) && NoSeparator(p) && (rest == "" || rest[0] == ',')
    ensures ScalarEnd(body, i) == i + |p| + (if rest == "" then 0 else 1)
    decreases |p|
  {
    if p == "" {
      if rest != "" {
        assert p + rest == rest + "";
        Head(body, i, rest, "");
      }
    } else {
      Head(body, i, p, rest);
      assert !Separates(p[0]);
      assert p == p[..1] + p[1..];
      Advance(body, i, p[..1], p[1..], rest);
      ScalarOver(body, i + 1, p[1..], rest);
    }
  }

  /** Where the value's text ends: behind the value, or behind a scalar's separator. */
  function AfterValue(f: Field, start: nat, rest: string): nat {
    start + |Print(f.value)| + if IsBare(f.value) then |f.after| + (if rest == "" then 0 else 1) else 0
  }

  /** A value that is no string, no delimiter and no macro of a one-letter name goes up to the next separator. */
  lemma BareStarts(alnum: CharClass, body: string, i: nat, v: Json, rest: string)
    requires Here(body, i, Print(v), rest) && Proper(alnum, v) && IsBare(v) && Calm(rest)
    ensures i < |body| && ValueEnd(alnum, body, i) == Some(ScalarEnd(body, i))
  {
    hide StringEnd, MacroEnd, ScalarEnd, Track, Here;
    Head(body, i, Print(v), rest);
    if v.Scalar? {
      assert Plain(v.text[0]) && (|v.text| > 1 ==> Plain(v.text[1]));
    } else {
      assert Plain(v.name[0]) && Plain(v.name[1]);
      assert Print(v)[0] == v.name[0] && Print(v)[1] == v.name[1];
    }
  }

  lemma BareEndsHere(alnum: CharClass, body: string, i: nat, v: Json, after: string, rest: string)
    requires Here(body, i, Print(v), after + rest) && Proper(alnum, v) && IsBare(v) && !Cut(v) && IsBlank(after)
    requires rest == "" || rest[0] == ','
    ensures ValueEnd(alnum, body, i) == Some(i + |Print(v)| + |after| + if rest == "" then 0 else 1)
  {
    NoSeparatorIn(alnum, v, after);
    hide ValueEnd, ScalarEnd, IsBlank, Here, Print, Proper, NoSeparator;
    BlankCalm(after, rest);
    BareStarts(alnum, body, i, v, after + rest);
    SameHere(body, i, Print(v), after, rest);
    ScalarOver(body, i, Print(v) + after, rest);
  }

  lemma NoSeparatorIn(alnum: CharClass, v: Json, after: string)
    requires Proper(alnum, v) && IsBare(v) && !Cut(v) && IsBlank(after)
    ensures NoSeparator(Print(v) + after)
  {
    PlainBlank(after);
    PlainSeparates(after);
    if v.Scalar? {
      PlainSeparates(v.text);
    } else {
      PlainSeparates(v.name);
      assert NoSeparator("!(" + (Quoted(v.raw) + ")"));
    }
  }

  lemma PlainSeparates(p: string)
    requires AllPlain(p)
    ensures NoSeparator(p)
  {
    forall k | 0 <= k < |p| ensures !Separates(p[k]) { assert Plain(p[k]); }
  }

  /** A separator in the argument ends the value there. */
  lemma CutShort(alnum: CharClass, body: string, i: nat, v: Json, rest: string)
    requires Here(body, i, Print(v), rest) && Proper(alnum, v) && Cut(v) && Calm(rest)
    ensures ValueEnd(alnum, body, i).Some? && i < ValueEnd(alnum, body, i).value < i + |Print(v)|
  {
    var k :| 0 <= k < |v.raw| && Separates(v.raw[k]);
    hide *;
    BareStarts(alnum, body, i, v, rest) by { CutIsBare(v); }
    InvokedParts(body, i, v.name, v.raw, rest);
    var q := i + |v.name| + 2;
    Slice(body, q, Quoted(v.raw), ")" + rest);
    QuotedAt(v.raw, k);
    assert body[q + 1 + k] == body[q..q + |Quoted(v.raw)|][k + 1];
    SeparatorEnds(body, i, q + 1 + k);
  }

  lemma CutIsBare(v: Json)
    requires Cut(v)
    ensures IsBare(v)
  {
  }

  lemma QuotedAt(raw: string, k: nat)
    requires k < |raw|
    ensures |Quoted(raw)| == |raw| + 2 && Quoted(raw)[k + 1] == raw[k]
  {
  }

  lemma {:induction false} SeparatorEnds(body: string, i: nat, k: nat)
    requires i <= k < |body| && Separates(body[k])
    ensures i < ScalarEnd(body, i) <= k + 1
    decreases k - i
  {
    if i < k && !Separates(body[i]) { SeparatorEnds(body, i + 1, k); }
  }

  lemma SameHere(text: string, i: nat, p: string, q: string, rest: string)
    requires Here(text, i, p, q + rest)
    ensures Here(text, i, p + q, rest)
  {
    assert p + q + rest == p + (q + rest);
  }

  lemma TrackedValue(alnum: CharClass, body: string, i: nat, v: Json, rest: string)
    requires Here(body, i, Print(v), rest) && Proper(alnum, v) && Calm(rest) && (v.Arr? || v.Obj?)
    ensures ValueEnd(alnum, body, i) == Some(i + |Print(v)|)
  {
    hide StringEnd, MacroEnd, MacroStart, ScalarEnd, Track, Here, ProperItems, ProperFields, PrintItems, PrintFields,
        Calm;
    DelimiterNoMacro(alnum, body, i, v, rest);
    if v.Arr? {
      ArrayOver(alnum, Both, body, i, v.items, rest, 0);
    } else {
      ObjectOver(alnum, Both, body, i, v, rest, 0);
    }
  }

  lemma QuotedValue(alnum: CharClass, body: string, i: nat, raw: string, rest: string)
    requires Here(body, i, Quoted(raw), rest) && Escaped(raw)
    ensures ValueEnd(alnum, body, i) == Some(i + |Quoted(raw)|)
  {
    hide StringEnd, MacroEnd, MacroStart, ScalarEnd, Track, Here, Escaped;
    QuotedOver(body, i, raw, rest);
  }

  lemma ValueEndIs(alnum: CharClass, body: string, i: nat, f: Field, rest: string)
    requires Here(body, i, Print(f.value), f.after + rest) && ProperField(alnum, f) && !Cut(f.value)
    requires rest == "" || rest[0] == ','
    ensures ValueEnd(alnum, body, i) == Some(AfterValue(f, i, rest))
    ensures i < |body|
  {
    hide ValueEnd, IsBlank, Here, ProperItems, ProperFields, PrintItems, PrintFields, Escaped, ScalarText, Quoted, Cut;
    PrintVisible(alnum, f.value);
    Head(body, i, Print(f.value), f.after + rest);
    BlankCalm(f.after, rest);
    match f.value
    case Str(raw) => QuotedValue(alnum, body, i, raw, f.after + rest);
    case Scalar(_) => BareEndsHere(alnum, body, i, f.value, f.after, rest);
    case Invoked(_, _) => BareEndsHere(alnum, body, i, f.value, f.after, rest);
    case Arr(_) => TrackedValue(alnum, body, i, f.value, f.after + rest);
    case Obj(_) => TrackedValue(alnum, body, i, f.value, f.after + rest);
  }

  lemma DelimiterNoMacro(alnum: CharClass, text: string, i: nat, v: Json, rest: string)
    requires Here(text, i, Print(v), rest) && Proper(alnum, v) && (v.Arr? || v.Obj?)
    ensures i < |text| && text[i] == (if v.Arr? then '[' else '{') && !MacroStart(alnum, text, i)
  {
    var open := if v.Arr? then "[" else "{";
    var inside := if v.Arr? then PrintItems(v.items) + "]" else PrintFields(v.members) + "}";
    assert Print(v) == open + inside;
    Advance(text, i, open, inside, rest);
    if v.Arr? {
      ItemsCalm(alnum, v.items, "]" + rest);
      assert inside + rest == PrintItems(v.items) + ("]" + rest);
    } else {
      FieldsCalm(alnum, v.members, "}" + rest);
      assert inside + rest == PrintFields(v.members) + ("}" + rest);
    }
    NoMacro(alnum, text, i, open, inside + rest);
  }

  lemma KeyNoMacro(alnum: CharClass, text: string, i: nat, key: string, rest: string)
    requires Here(text, i, Quoted(key), rest) && !LooksLikeMacro(alnum, key)
    ensures i < |text| && text[i] == '"' && !MacroStart(alnum, text, i)
  {
    KeyChars(text, i, key, rest);
  }

  lemma KeyChars(text: string, i: nat, key: string, rest: string)
    requires Here(text, i, Quoted(key), rest)
    ensures i + 1 < |text| && text[i] == '"' && text[i + 1] == (if key == "" then '"' else key[0])
    ensures key != "" ==> i + 2 < |text| && text[i + 2] == if |key| == 1 then '"' else key[1]
  {
    var t := text[i..];
    assert t == Quoted(key) + rest;
    assert forall q :: 0 <= q < |t| ==> t[q] == text[i + q];
  }

  /** A printed member, read up to wherever its value is taken to end. */
  lemma FieldReadTo(alnum: CharClass, body: string, i: nat, f: Field, rest: string, e: nat)
    requires Here(body, i, PrintField(f), rest) && ProperField(alnum, f) && !LooksLikeMacro(alnum, f.key)
    requires var v := i + |PrintField(f)| - |f.after| - |Print(f.value)|;
             v <= e <= |body| && ValueEnd(alnum, body, v) == Some(e)
    ensures var v := i + |PrintField(f)| - |f.after| - |Print(f.value)|;
            Members(alnum, body, i) == Prepend(Member(Some(f.key), body[v..e]), Members(alnum, body, e))
  {
    var p5 := Print(f.value) + f.after;
    var p4 := f.gap + p5;
    var p3 := ":" + p4;
    var p2 := f.mid + p3;
    var i1 := i + |f.before|;
    var i2 := i1 + |Quoted(f.key)|;
    var i3 := i2 + |f.mid|;
    hide *;
    FieldParts(body, i, f, rest);
    ProperParts(alnum, f);
    BlankSkipped(alnum, body, i, f.before, Quoted(f.key) + p2 + rest);
    KeyNoMacro(alnum, body, i1, f.key, p2 + rest);
    QuotedOver(body, i1, f.key, p2 + rest);
    ColonHead(body, i3, p4 + rest);
    PrintVisible(alnum, f.value);
    assert p3 + rest == ":" + (p4 + rest) && p5 + rest == Print(f.value) + (f.after + rest);
    SpacesSkipped(body, i2, f.mid, p3 + rest);
    SpacesSkipped(body, i3 + 1, f.gap, p5 + rest);
    KeyedMember(alnum, body, i1, i2, i3, i3 + 1 + |f.gap|, e);
  }

  lemma ReadableParts(alnum: CharClass, f: Field)
    requires ReadableField(alnum, f)
    ensures !LooksLikeMacro(alnum, f.key) && !Cut(f.value)
  {
    hide LooksLikeMacro, Cut;
  }

  /** One printed member, read. */
  lemma FieldRead(alnum: CharClass, body: string, i: nat, f: Field, rest: string)
    requires Here(body, i, PrintField(f), rest) && ProperField(alnum, f) && (rest == "" || rest[0] == ',')
    requires ReadableField(alnum, f)
    ensures var v := i + |PrintField(f)| - |f.after| - |Print(f.value)|;
            var e := AfterValue(f, v, rest);
            && v <= e <= |body|
            && Members(alnum, body, i) == Prepend(Member(Some(f.key), body[v..e]), Members(alnum, body, e))
  {
    hide *;
    ReadableParts(alnum, f);
    FieldParts(body, i, f, rest);
    var v := i + |PrintField(f)| - |f.after| - |Print(f.value)|;
    ValueEndIs(alnum, body, v, f, rest);
    EndAfterValue(alnum, body, v, f, rest);
    FieldReadTo(alnum, body, i, f, rest, AfterValue(f, v, rest));
  }

  lemma ProperParts(alnum: CharClass, f: Field)
    requires ProperField(alnum, f)
    ensures IsBlank(f.before) && IsBlank(f.mid) && IsBlank(f.gap) && IsBlank(f.after)
    ensures Escaped(f.key) && Proper(alnum, f.value)
  {
  }

  lemma EndAfterValue(alnum: CharClass, body: string, i: nat, f: Field, rest: string)
    requires i < |body| && ValueEnd(alnum, body, i) == Some(AfterValue(f, i, rest))
    ensures i <= AfterValue(f, i, rest) <= |body|
  {
  }

  lemma KeyedMember(alnum: CharClass, body: string, i: nat, j: nat, k: nat, v: nat, e: nat)
    requires i < |body| && body[i] == '"' && !MacroStart(alnum, body, i)
    requires StringEnd(body, i + 1) == Some(j) && SkipSpaces(body, j) == k
    requires k < |body| && body[k] == ':' && SkipSpaces(body, k + 1) == v
    requires ValueEnd(alnum, body, v) == Some(e) && v <= e <= |body|
    ensures i + 1 < j && Members(alnum, body, i) ==
            Prepend(Member(Some(body[i + 1..j - 1]), body[v..e]), Members(alnum, body, e))
  {
    hide StringEnd, SkipSpaces, ValueEnd, MacroStart, IsSpace, Members;
    AtString(alnum, body, i);
  }

  lemma ColonHead(body: string, i: nat, rest: string)
    requires Here(body, i, ":", rest)
    ensures i < |body| && body[i] == ':' && !IsSpace(':')
  {
    Head(body, i, ":", rest);
  }

  /** The text between the value's start and end is the value's text. */
  lemma ValueTextIs(body: string, v: nat, f: Field, rest: string, tail: string)
    requires Here(body, v, Print(f.value), f.after + rest)
    requires if rest == "" then tail == "" else rest[0] == ',' && tail == ","
    ensures v <= AfterValue(f, v, rest) <= |body|
    ensures body[v..AfterValue(f, v, rest)] == ValueText(f, tail)
  {
    var p := ValueText(f, tail);
    if IsBare(f.value) {
      var more := if rest == "" then "" else rest[1..];
      assert rest == tail + more;
      assert Print(f.value) + (f.after + rest) == p + more;
      Slice(body, v, p, more);
    } else {
      Slice(body, v, p, f.after + rest);
    }
  }

  /** Behind the value the scan resumes: at the end, or at the next member. */
  lemma Resumed(alnum: CharClass, body: string, i: nat, f: Field, rest: string)
    requires Here(body, i, Print(f.value), f.after + rest) && ProperField(alnum, f)
    requires rest == "" || rest[0] == ','
    ensures var e := AfterValue(f, i, rest);
            Members(alnum, body, e) ==
            if rest == "" then Some([]) else Members(alnum, body, i + |Print(f.value)| + |f.after| + 1)
  {
    hide Members, Here, Print, Proper;
    var p := Print(f.value);
    Advance2(body, i, p, f.after, rest);
    if !IsBare(f.value) {
      BlankSkipped(alnum, body, i + |p|, f.after, rest);
    }
    if rest == "" {
      MembersEnd(alnum, body);
    } else {
      CommaSkipped(alnum, body, i + |p| + |f.after|, rest);
    }
  }

  lemma MembersEnd(alnum: CharClass, body: string)
    ensures Members(alnum, body, |body|) == Some([])
  {
  }

  lemma CommaSkipped(alnum: CharClass, body: string, j: nat, rest: string)
    requires Here(body, j, rest, "") && rest != "" && rest[0] == ','
    ensures Members(alnum, body, j) == Members(alnum, body, j + 1)
  {
    Head(body, j, rest, "");
  }

  lemma Advance2(text: string, i: nat, p: string, q: string, rest: string)
    requires Here(text, i, p, q + rest)
    ensures Here(text, i + |p|, q, rest) && Here(text, i + |p| + |q|, rest, "")
    ensures i + |p| + |q| + |rest| == |text|
  {
    assert text[i + |p|..] == text[i..][|p|..];
    assert text[i + |p| + |q|..] == text[i..][|p| + |q|..];
    assert rest + "" == rest;
  }

  /** Scanning the inside of a printed object returns exactly its member names, in order, each with its
      own value. */
  lemma {:induction false} MembersRead(alnum: CharClass, body: string, i: nat, members: Fields)
    requires Here(body, i, PrintFields(members), "") && ProperFields(alnum, members) && Readable(alnum, members)
    ensures Members(alnum, body, i) == Some(MembersOf(members))
    decreases members
  {
    hide Members, Here, PrintField, ProperField, ReadableField, IsBlank, ValueText;
    match members
    case NoField(ws) =>
      BlankSkipped(alnum, body, i, ws, "");
      NoMembers(alnum, body, i, ws);
    case LastField(f) =>
      OneMember(alnum, body, i, f, "", "");
      var m := Member(Some(f.key), ValueText(f, ""));
      assert [m] + [] == [m];
    case MoreFields(f, more) =>
      var rest := "," + PrintFields(more);
      NextField(body, i, f, PrintFields(more));
      OneMember(alnum, body, i, f, rest, ",");
      MembersRead(alnum, body, i + |PrintField(f)| + 1, more);
  }

  lemma NoMembers(alnum: CharClass, body: string, i: nat, ws: string)
    requires Here(body, i, ws, "")
    ensures Members(alnum, body, i + |ws|) == Some([])
  {
  }

  lemma NextField(body: string, i: nat, f: Field, more: string)
    requires Here(body, i, PrintField(f) + "," + more, "")
    ensures Here(body, i, PrintField(f), "," + more) && Here(body, i + |PrintField(f)| + 1, more, "")
  {
    hide *;
    var p := PrintField(f);
    assert p + "," + more == p + ("," + more) && "," + more + "" == "," + more;
    Advance(body, i, p, "," + more, "");
    Advance(body, i, p + ",", more, "");
  }

  lemma OneMember(alnum: CharClass, body: string, i: nat, f: Field, rest: string, tail: string)
    requires Here(body, i, PrintField(f), rest) && ProperField(alnum, f) && ReadableField(alnum, f)
    requires if rest == "" then tail == "" else rest[0] == ',' && tail == ","
    ensures Members(alnum, body, i) ==
            Prepend(Member(Some(f.key), ValueText(f, tail)),
                    if rest == "" then Some([]) else Members(alnum, body, i + |PrintField(f)| + 1))
  {
    hide *;
    FieldParts(body, i, f, rest);
    FieldRead(alnum, body, i, f, rest);
    var v := i + |PrintField(f)| - |f.after| - |Print(f.value)|;
    ValueTextIs(body, v, f, rest, tail);
    Resumed(alnum, body, v, f, rest);
  }

  /** A key that looks like a macro is not read: the scan goes on behind the macro, without that member. */
  lemma KeyLost(alnum: CharClass, body: string, i: nat, f: Field, rest: string)
    requires Here(body, i, PrintField(f), rest) && ProperField(alnum, f) && LooksLikeMacro(alnum, f.key) && Sane(alnum)
    requires i == 0 || !WordChar(alnum, body[i - 1])
    ensures var q := i + |f.before|;
            && q < |body| && body[q] == '"'
            && Members(alnum, body, i) == match MacroEnd(body, q) case None => None
               case Some(j) => Members(alnum, body, j)
  {
    hide Members, Here, MacroEnd, PrintField, Quoted, IsBlank, IsSpace, Escaped, Proper, LooksLikeMacro, Print;
    var q := i + |f.before|;
    var p2 := f.mid + (":" + (f.gap + (Print(f.value) + f.after)));
    FieldParts(body, i, f, rest);
    BlankSkipped(alnum, body, i, f.before, Quoted(f.key) + p2 + rest);
    if f.before != "" { BlankBefore(alnum, body, i, f.before, Quoted(f.key) + p2 + rest); }
    KeyIsMacro(alnum, body, q, f.key, p2 + rest);
    AtMacro(alnum, body, q);
  }

  lemma BlankBefore(alnum: CharClass, body: string, i: nat, ws: string, rest: string)
    requires Here(body, i, ws, rest) && ws != "" && IsBlank(ws) && Sane(alnum)
    ensures i + |ws| <= |body| && !WordChar(alnum, body[i + |ws| - 1])
  {
    Slice(body, i, ws, rest);
    assert body[i + |ws| - 1] == ws[|ws| - 1] && IsSpace(ws[|ws| - 1]);
    UnderscoreIsVisible();
  }

  lemma UnderscoreIsVisible()
    ensures !IsSpace('_') && !IsSpace('"')
  {
  }

  lemma KeyIsMacro(alnum: CharClass, body: string, q: nat, key: string, rest: string)
    requires Here(body, q, Quoted(key), rest) && LooksLikeMacro(alnum, key) && Sane(alnum)
    requires q == 0 || q > |body| || !WordChar(alnum, body[q - 1])
    ensures q < |body| && body[q] == '"' && MacroStart(alnum, body, q)
  {
    KeyChars(body, q, key, rest);
  }

  lemma AtMacro(alnum: CharClass, body: string, q: nat)
    requires q < |body| && body[q] == '"' && MacroStart(alnum, body, q)
    ensures Members(alnum, body, q) == match MacroEnd(body, q) case None => None case Some(j) => Members(alnum, body, j)
  {
    hide MacroEnd, MacroStart, StringEnd, ValueEnd, IsSpace;
    UnderscoreIsVisible();
  }

  /** Where the scan stands, no word character is right before: at the start, behind a blank, a separator, a
      value or a macro. */
  predicate AtEdge(alnum: CharClass, body: string, i: nat) {
    i == 0 || i >= |body| || !WordChar(alnum, body[i - 1])
  }

  lemma {:induction false} StringEdge(text: string, i: nat)
    requires StringEnd(text, i).Some?
    ensures text[StringEnd(text, i).value - 1] == '"'
    decreases |text| - i
  {
    if text[i] == '\\' {
      StringEdge(text, i + 2);
    } else if text[i] != '"' {
      StringEdge(text, i + 1);
    }
  }

  lemma {:induction false} ParensEdge(text: string, j: nat, depth: int)
    requires ParensEnd(text, j, depth).Some?
    ensures text[ParensEnd(text, j, depth).value - 1] == ')'
    decreases |text| - j
  {
    hide StringEnd;
    if text[j] == '"' {
      ParensEdge(text, StringEnd(text, j + 1).value, depth);
    } else if text[j] == '(' {
      ParensEdge(text, j + 1, depth + 1);
    } else if text[j] != ')' {
      ParensEdge(text, j + 1, depth);
    } else if depth != 1 {
      ParensEdge(text, j + 1, depth - 1);
    }
  }

  /** Behind a macro stands its parenthesis, or its exclamation mark. */
  lemma MacroEdge(text: string, i: nat)
    requires i < |text| && MacroEnd(text, i).Some?
    ensures var e := MacroEnd(text, i).value; e == i + 1 || text[e - 1] == ')'
  {
    hide ParensEnd;
    var j := FindParen(text, i + 1);
    if j < |text| { ParensEdge(text, j, 0); }
  }

  lemma {:induction false} TrackEdge(alnum: CharClass, text: string, i: nat, depth: int)
    requires Track(alnum, Both, text, i, depth).Some?
    ensures Closes(Both, text[Track(alnum, Both, text, i, depth).value - 1])
    decreases |text| - i
  {
    hide StringEnd, MacroStart, MacroEnd;
    if text[i] == '"' {
      TrackEdge(alnum, text, StringEnd(text, i + 1).value, depth);
    } else if MacroStart(alnum, text, i) {
      TrackEdge(alnum, text, MacroEnd(text, i).value, depth);
    } else if Opens(Both, text[i]) {
      TrackEdge(alnum, text, i + 1, depth + 1);
    } else if !Closes(Both, text[i]) {
      TrackEdge(alnum, text, i + 1, depth);
    } else if depth != 1 {
      TrackEdge(alnum, text, i + 1, depth - 1);
    }
  }

  lemma {:induction false} ScalarEdge(body: string, i: nat)
    requires i < |body|
    ensures ScalarEnd(body, i) == |body| || Separates(body[ScalarEnd(body, i) - 1])
    decreases |body| - i
  {
    if !Separates(body[i]) && i + 1 < |body| { ScalarEdge(body, i + 1); }
  }

  /** A quote that is not at a word's edge is never where the scan stands. */
  lemma ValueEdge(alnum: CharClass, body: string, i: nat)
    requires ValueEnd(alnum, body, i).Some? && Sane(alnum)
    ensures var e := ValueEnd(alnum, body, i).value; e < |body| && body[e] == '"' ==> AtEdge(alnum, body, e)
  {
    hide StringEnd, MacroEnd, Track, ScalarEnd;
    if i < |body| {
      if body[i] == '"' {
        StringEdge(body, i + 1);
      } else if MacroStart(alnum, body, i) {
        MacroEdge(body, i);
      } else if !Opens(Both, body[i]) {
        ScalarEdge(body, i);
      } else {
        TrackEdge(alnum, body, i, 0);
      }
    }
  }

  predicate QuoteAtEdge(alnum: CharClass, body: string, i: nat) {
    i < |body| && body[i] == '"' ==> AtEdge(alnum, body, i)
  }

  /** Every body: no member whose name looks like a macro is ever read. */
  lemma {:induction false} NoMacroNames(alnum: CharClass, body: string, i: nat)
    requires Sane(alnum) && QuoteAtEdge(alnum, body, i)
    ensures Members(alnum, body, i).Some? ==>
              forall m <- Members(alnum, body, i).value :: m.name.Some? ==> !LooksLikeMacro(alnum, m.name.value)
    decreases |body| - i
  {
    hide Members, StringEnd, MacroEnd, ValueEnd, SkipSpaces, IsSpace, LooksLikeMacro, Sane, MacroStart, AtEdge,
        Separates;
    if i >= |body| {
      MembersPastEnd(alnum, body, i);
    } else if IsSpace(body[i]) || Separates(body[i]) {
      AtBlank(alnum, body, i);
      BlankEdge(alnum, body, i);
      NoMacroNames(alnum, body, i + 1);
    } else if MacroStart(alnum, body, i) {
      AtAnyMacro(alnum, body, i);
      if MacroEnd(body, i).Some? {
        MacroQuoteEdge(alnum, body, i);
        NoMacroNames(alnum, body, MacroEnd(body, i).value);
      }
    } else if body[i] == '"' {
      StringNames(alnum, body, i);
      AtString(alnum, body, i);
      if StringEnd(body, i + 1).Some? {
        var j := StringEnd(body, i + 1).value;
        var k := SkipSpaces(body, j);
        StringQuoteEdge(alnum, body, i);
        if k < |body| && body[k] == ':' {
          var v := SkipSpaces(body, k + 1);
          SpacesForward(body, k + 1);
          SpacesForward(body, j);
          ValueEndAfter(alnum, body, v);
          if ValueEnd(alnum, body, v).Some? {
            var e := ValueEnd(alnum, body, v).value;
            ValueEdge(alnum, body, v);
            NoMacroNames(alnum, body, e);
          }
        } else {
          NoMacroNames(alnum, body, j);
        }
      }
    } else {
      AtOther(alnum, body, i);
      if ValueEnd(alnum, body, i).Some? {
        ValueEdge(alnum, body, i);
        ValueEndAfter(alnum, body, i);
        NoMacroNames(alnum, body, ValueEnd(alnum, body, i).value);
      }
    }
  }

  lemma SpacesForward(body: string, k: nat)
    requires k <= |body|
    ensures k <= SkipSpaces(body, k) <= |body|
  {
  }

  lemma MembersPastEnd(alnum: CharClass, body: string, i: nat)
    requires i >= |body|
    ensures Members(alnum, body, i) == Some([])
  {
  }

  lemma AtBlank(alnum: CharClass, body: string, i: nat)
    requires i < |body| && (IsSpace(body[i]) || Separates(body[i]))
    ensures Members(alnum, body, i) == Members(alnum, body, i + 1)
  {
  }

  lemma BlankEdge(alnum: CharClass, body: string, i: nat)
    requires i < |body| && (IsSpace(body[i]) || Separates(body[i])) && Sane(alnum)
    ensures QuoteAtEdge(alnum, body, i + 1)
  {
    UnderscoreIsVisible();
  }

  lemma AtAnyMacro(alnum: CharClass, body: string, i: nat)
    requires i < |body| && !IsSpace(body[i]) && !Separates(body[i]) && MacroStart(alnum, body, i)
    ensures Members(alnum, body, i) == match MacroEnd(body, i) case None => None case Some(j) => Members(alnum, body, j)
    ensures MacroEnd(body, i).Some? ==> i < MacroEnd(body, i).value <= |body|
  {
    hide MacroEnd, MacroStart, StringEnd, ValueEnd, IsSpace;
    MacroFits(body, i);
  }

  lemma MacroFits(body: string, i: nat)
    requires i < |body|
    ensures MacroEnd(body, i).Some? ==> i < MacroEnd(body, i).value <= |body|
  {
  }

  lemma MacroQuoteEdge(alnum: CharClass, body: string, i: nat)
    requires i < |body| && MacroStart(alnum, body, i) && MacroEnd(body, i).Some? && Sane(alnum)
    ensures QuoteAtEdge(alnum, body, MacroEnd(body, i).value)
  {
    hide MacroEnd;
    MacroEdge(body, i);
  }

  lemma StringQuoteEdge(alnum: CharClass, body: string, i: nat)
    requires i < |body| && StringEnd(body, i + 1).Some? && Sane(alnum)
    ensures QuoteAtEdge(alnum, body, StringEnd(body, i + 1).value)
  {
    hide StringEnd;
    StringEdge(body, i + 1);
  }

  /** A string that is read at an edge has no name that would have been taken for a macro there. */
  lemma StringNames(alnum: CharClass, body: string, i: nat)
    requires i < |body| && body[i] == '"' && !MacroStart(alnum, body, i) && QuoteAtEdge(alnum, body, i) && Sane(alnum)
    ensures StringEnd(body, i + 1).Some? ==>
              var j := StringEnd(body, i + 1).value;
              i + 1 < j <= |body| && !LooksLikeMacro(alnum, body[i + 1..j - 1])
  {
    hide StringEnd;
    if StringEnd(body, i + 1).Some? {
      StringFits(body, i + 1);
      StringEdge(body, i + 1);
    }
  }

  lemma StringFits(body: string, i: nat)
    requires StringEnd(body, i).Some?
    ensures i < StringEnd(body, i).value <= |body|
  {
  }

  lemma AtOther(alnum: CharClass, body: string, i: nat)
    requires i < |body| && !IsSpace(body[i]) && !Separates(body[i]) && !MacroStart(alnum, body, i) && body[i] != '"'
    ensures Members(alnum, body, i) == match ValueEnd(alnum, body, i) case None => None
            case Some(j) => Members(alnum, body, j)
  {
    hide MacroStart, StringEnd, ValueEnd, IsSpace;
  }

  /** For all printed members: they are read, each at its place, if and only if no key looks like a macro and no
      macro invocation among the values has a separator in its argument. */
  lemma MembersReadIff(alnum: CharClass, members: Fields)
    requires ProperFields(alnum, members) && Sane(alnum)
    ensures Members(alnum, PrintFields(members), 0) == Some(MembersOf(members)) <==> Readable(alnum, members)
  {
    hide Members, Sane, LooksLikeMacro, ReadableField;
    var body := PrintFields(members);
    if Readable(alnum, members) { WholeBody(alnum, members); }
    NoMacroNames(alnum, body, 0);
    if Members(alnum, body, 0) == Some(MembersOf(members)) {
      KeysFine(alnum, members);
      assert body[0..] == body + "";
      ReadNotCut(alnum, body, 0, members);
    }
  }

  predicate GoodKeys(alnum: CharClass, members: Fields) {
    forall k <- KeysOf(members) :: !LooksLikeMacro(alnum, k)
  }

  lemma KeysFine(alnum: CharClass, members: Fields)
    requires forall m <- MembersOf(members) :: m.name.Some? ==> !LooksLikeMacro(alnum, m.name.value)
    ensures GoodKeys(alnum, members)
  {
    hide LooksLikeMacro;
    NamesAreKeys(members);
    forall k <- KeysOf(members) ensures !LooksLikeMacro(alnum, k) {
      var n :| 0 <= n < |KeysOf(members)| && KeysOf(members)[n] == k;
      assert MembersOf(members)[n] in MembersOf(members);
    }
  }

  /** Members that come back as they were written have no value that was cut short. */
  lemma {:induction false} ReadNotCut(alnum: CharClass, body: string, i: nat, members: Fields)
    requires Here(body, i, PrintFields(members), "") && ProperFields(alnum, members) && GoodKeys(alnum, members)
    requires Members(alnum, body, i) == Some(MembersOf(members))
    ensures Readable(alnum, members)
    decreases members
  {
    hide Members, Here, PrintField, ProperField, LooksLikeMacro, IsBlank, ValueText, Cut;
    match members
    case NoField(_) =>
    case LastField(f) =>
      assert f.key in KeysOf(members);
      if Cut(f.value) { FirstCut(alnum, body, i, f, "", ""); }
    case MoreFields(f, more) =>
      var rest := "," + PrintFields(more);
      assert f.key in KeysOf(members) && forall k <- KeysOf(more) :: k in KeysOf(members);
      NextField(body, i, f, PrintFields(more));
      if Cut(f.value) {
        FirstCut(alnum, body, i, f, rest, ",");
      } else {
        OneMember(alnum, body, i, f, rest, ",");
        assert MembersOf(members)[1..] == MembersOf(more);
        ReadNotCut(alnum, body, i + |PrintField(f)| + 1, more);
      }
  }

  /** A value that is cut short is not the member's text. */
  lemma FirstCut(alnum: CharClass, body: string, i: nat, f: Field, rest: string, tail: string)
    requires Here(body, i, PrintField(f), rest) && ProperField(alnum, f) && (rest == "" || rest[0] == ',')
    requires !LooksLikeMacro(alnum, f.key) && Cut(f.value)
    ensures Members(alnum, body, i).Some? ==>
              var ms := Members(alnum, body, i).value; ms != [] && ms[0] != Member(Some(f.key), ValueText(f, tail))
  {
    FieldParts(body, i, f, rest);
    var v := i + |PrintField(f)| - |f.after| - |Print(f.value)|;
    assert |ValueText(f, tail)| >= |Print(f.value)| by { hide Print; }
    hide *;
    ProperParts(alnum, f);
    RestCalm(rest);
    BlankCalm(f.after, rest);
    CutShort(alnum, body, v, f.value, f.after + rest);
    var e := ValueEnd(alnum, body, v).value;
    HereFits(body, v, Print(f.value), f.after + rest);
    FieldReadTo(alnum, body, i, f, rest, e);
    Prepended(Member(Some(f.key), body[v..e]), Members(alnum, body, e));
  }

  lemma RestCalm(rest: string)
    requires rest == "" || rest[0] == ','
    ensures Calm(rest)
  {
  }

  lemma HereFits(body: string, v: nat, p: string, rest: string)
    requires Here(body, v, p, rest)
    ensures v + |p| <= |body|
  {
  }

  lemma Prepended(m: Member, rest: Option<seq<Member>>)
    ensures Prepend(m, rest).Some? ==> Prepend(m, rest).value != [] && Prepend(m, rest).value[0] == m
  {
  }

  /** An argument without separators is read whole; one with a comma is cut there. */
  lemma InvokedInstance(alnum: CharClass)
    requires Sane(alnum) && alnum('n')
    ensures var f := Field("", "k", "", "", Invoked("env", "A"), "");
            var g := f.(value := Invoked("env", "A,B"));
            && Members(alnum, PrintFields(LastField(f)), 0) == Some(MembersOf(LastField(f)))
            && Members(alnum, PrintFields(LastField(g)), 0) != Some(MembersOf(LastField(g)))
  {
    var f := Field("", "k", "", "", Invoked("env", "A"), "");
    var g := f.(value := Invoked("env", "A,B"));
    InstanceProper(alnum, "A");
    InstanceProper(alnum, "A,B");
    assert g.value.raw[1] == ',' && Cut(g.value) && !Cut(f.value);
    hide Members, Proper, ProperField, Sane;
    MembersReadIff(alnum, LastField(f));
    MembersReadIff(alnum, LastField(g));
  }

  lemma InstanceProper(alnum: CharClass, raw: string)
    requires (raw == "A" || raw == "A,B") && alnum('n')
    ensures ProperFields(alnum, LastField(Field("", "k", "", "", Invoked("env", raw), "")))
  {
    assert "k"[1..] == "" && "A"[1..] == "" && "A,B"[1..] == ",B" && ",B"[1..] == "B" && "B"[1..] == "";
    assert Escaped("B");
    assert Escaped(",B");
    assert Escaped(raw) && Escaped("k");
    assert MacroName(alnum, "env");
  }

  /** A key that is `!` is such a key; one that is `!a` is not, and neither is `!` in a nested object. */
  lemma BangKeyLost(alnum: CharClass)
    requires Sane(alnum) && alnum('a')
    ensures var f := Field("", "!", "", "", Scalar("1"), "");
            && Members(alnum, PrintFields(LastField(f)), 0) == Some([])
            && Members(alnum, PrintFields(LastField(f.(key := "!a"))), 0) == Some(MembersOf(LastField(f.(key := "!a"))))
            && Members(alnum, PrintFields(LastField(f.(key := "k", value := Obj(LastField(f))))), 0) ==
               Some(MembersOf(LastField(f.(key := "k", value := Obj(LastField(f))))))
  {
    hide Members;
    var f := Field("", "!", "", "", Scalar("1"), "");
    var g, h := f.(key := "!a"), f.(key := "k", value := Obj(LastField(f)));
    BangRest(alnum);
    assert ProperField(alnum, f);
    assert ProperField(alnum, g) by { assert Escaped(g.key[1..]); }
    assert ProperField(alnum, h) by { assert ProperField(alnum, f); }
    WholeBody(alnum, LastField(g));
    WholeBody(alnum, LastField(h));
  }

  lemma BangRest(alnum: CharClass)
    requires Sane(alnum)
    ensures Members(alnum, PrintFields(LastField(Field("", "!", "", "", Scalar("1"), ""))), 0) == Some([])
  {
    var body := "\"!\":1";
    assert PrintField(Field("", "!", "", "", Scalar("1"), "")) == body;
    assert MacroStart(alnum, body, 0) && FindParen(body, 1) == 5;
    assert ScalarEnd(body, 1) == 5;
    assert Members(alnum, body, 5) == Some([]);
    assert ValueEnd(alnum, body, 1) == Some(5);
    assert Members(alnum, body, 1) == Some([]);
  }

  function KeysOf(members: Fields): seq<string> {
    match members
    case NoField(_) => []
    case LastField(f) => [f.key]
    case MoreFields(f, rest) => [f.key] + KeysOf(rest)
  }

  lemma {:induction false} NamesAreKeys(members: Fields)
    ensures |MembersOf(members)| == |KeysOf(members)|
    ensures forall k :: 0 <= k < |KeysOf(members)| ==> MembersOf(members)[k].name == Some(KeysOf(members)[k])
  {
    match members
    case NoField(_) =>
    case LastField(_) =>
    case MoreFields(_, rest) => NamesAreKeys(rest);
  }

  // ---------- The schemas of a document ----------

  type Schemas = map<Option<string>, set<Option<string>>>

  /** `schema_text.lstrip()[1:-1]` */
  function Inside(text: string): string {
    var t := LStrip(text);
    if |t| < 2 then "" else t[1..|t| - 1]
  }

  function Names(members: seq<Member>): set<Option<string>> {
    set m | m in members :: m.name
  }

  /** The inside of the first member called `properties`. */
  function PropertiesOf(members: seq<Member>): Option<string> {
    if members == [] then None
    else if members[0].name == Some("properties") then Some(Inside(members[0].value))
    else PropertiesOf(members[1..])
  }

  function SchemaNames(alnum: CharClass, schema: string): Option<set<Option<string>>> {
    match Members(alnum, schema, 0)
    case None => None
    case Some(members) =>
      match PropertiesOf(members)
      case None => Some({})
      case Some(props) =>
        match Members(alnum, props, 0)
        case None => None
        case Some(ms) => Some(Names(ms))
  }

  function JoinSchema(out: Schemas, name: Option<string>, names: set<Option<string>>): Schemas {
    out[name := (if name in out then out[name] else {}) + names]
  }

  function SchemasFrom(alnum: CharClass, out: Schemas, members: seq<Member>): Option<Schemas>
    decreases |members|
  {
    if members == [] then Some(out)
    else
      var m := members[0];
      if !(LStrip(m.value) != "" && LStrip(m.value)[0] == '{') then SchemasFrom(alnum, out, members[1..])
      else
        match SchemaNames(alnum, Inside(m.value))
        case None => None
        case Some(names) => SchemasFrom(alnum, JoinSchema(out, m.name, names), members[1..])
  }

  /** The extraction loop over one builder's block. */
  method SpecSchemas(alnum: CharClass, out0: Schemas, block: string) returns (r: Option<Schemas>)
    ensures r == match Members(alnum, block, 0)
                 case None => None
                 case Some(members) => SchemasFrom(alnum, out0, members)
  {
    hide Members, LStrip, Inside;
    var found := TopLevelMembers(alnum, block);
    if found.None? { return None; }
    var out := out0;
    for n := 0 to |found.value|
      invariant SchemasFrom(alnum, out0, found.value) == SchemasFrom(alnum, out, found.value[n..])
    {
      var m := found.value[n];
      assert found.value[n..][0] == m && found.value[n..][1..] == found.value[n + 1..];
      if !(LStrip(m.value) != "" && LStrip(m.value)[0] == '{') { continue; }
      var inner := TopLevelMembers(alnum, Inside(m.value));
      if inner.None? { return None; }
      var props := PropertiesOf(inner.value);
      var names: set<Option<string>> := {};
      if props.Some? {
        var members := TopLevelMembers(alnum, props.value);
        if members.None? { return None; }
        names := Names(members.value);
      }
      out := JoinSchema(out, m.name, names);
    }
    return Some(out);
  }

  // ---------- What the extraction returns on a printed document ----------

  function FieldsSeq(members: Fields): seq<Field> {
    match members
    case NoField(_) => []
    case LastField(f) => [f]
    case MoreFields(f, rest) => [f] + FieldsSeq(rest)
  }

  /** The value of the first member called `properties`. */
  function PropertiesIn(fields: seq<Field>): Option<Json> {
    if fields == [] then None
    else if fields[0].key == "properties" then Some(fields[0].value)
    else PropertiesIn(fields[1..])
  }

  /** A schema: when it has `properties`, they are an object. */
  ghost predicate IsSchema(v: Json) {
    v.Obj? ==> PropertiesIn(FieldsSeq(v.members)).Some? ==> PropertiesIn(FieldsSeq(v.members)).value.Obj?
  }

  /** The keys the extraction scans in a schema: its own, and those of its properties. */
  ghost predicate ReadableSchema(alnum: CharClass, v: Json) {
    v.Obj? ==>
      && Readable(alnum, v.members)
      && var props := PropertiesIn(FieldsSeq(v.members));
         props.Some? && props.value.Obj? ==> Readable(alnum, props.value.members)
  }

  function DeclaredNames(schema: Fields): set<Option<string>> {
    match PropertiesIn(FieldsSeq(schema))
    case None => {}
    case Some(v) => if v.Obj? then set k | k in KeysOf(v.members) :: Some(k) else {}
  }

  function DeclaredSchemas(out: Schemas, fields: seq<Field>): Schemas
    decreases |fields|
  {
    if fields == [] then out
    else
      var f := fields[0];
      var joined := if f.value.Obj? then JoinSchema(out, Some(f.key), DeclaredNames(f.value.members)) else out;
      DeclaredSchemas(joined, fields[1..])
  }

  lemma ObjectInside(members: Fields)
    ensures LStrip(Print(Obj(members))) == Print(Obj(members)) && Inside(Print(Obj(members))) == PrintFields(members)
  {
    var t := Print(Obj(members));
    assert t == "{" + (PrintFields(members) + "}");
    assert t[0] == '{';
    assert t[1..|t| - 1] == PrintFields(members);
  }

  lemma WholeBody(alnum: CharClass, members: Fields)
    requires ProperFields(alnum, members) && Readable(alnum, members)
    ensures Members(alnum, PrintFields(members), 0) == Some(MembersOf(members))
  {
    var body := PrintFields(members);
    assert body[0..] == body + "";
    hide Members;
    MembersRead(alnum, body, 0, members);
  }

  lemma {:induction false} NamesAre(members: Fields)
    ensures Names(MembersOf(members)) == set k | k in KeysOf(members) :: Some(k)
  {
    NamesAreKeys(members);
    var ms, ks := MembersOf(members), KeysOf(members);
    forall k <- ks ensures Some(k) in Names(ms) {
      var n :| 0 <= n < |ks| && ks[n] == k;
      assert ms[n] in ms;
    }
  }

  lemma {:induction false} PropertiesAre(members: Fields)
    ensures PropertiesOf(MembersOf(members)).Some? <==> PropertiesIn(FieldsSeq(members)).Some?
    ensures PropertiesIn(FieldsSeq(members)).Some? && PropertiesIn(FieldsSeq(members)).value.Obj? ==>
              PropertiesOf(MembersOf(members)) == Some(PrintFields(PropertiesIn(FieldsSeq(members)).value.members))
  {
    hide Print, Inside, PrintFields;
    match members
    case NoField(_) =>
    case LastField(f) =>
      assert [f][1..] == [] && MembersOf(members)[1..] == [];
      if f.value.Obj? { ObjectInside(f.value.members); }
    case MoreFields(f, rest) =>
      assert FieldsSeq(members)[1..] == FieldsSeq(rest) && MembersOf(members)[1..] == MembersOf(rest);
      if f.value.Obj? { ObjectInside(f.value.members); }
      PropertiesAre(rest);
  }

  lemma {:induction false} ProperProperties(alnum: CharClass, members: Fields)
    requires ProperFields(alnum, members) && PropertiesIn(FieldsSeq(members)).Some?
    ensures Proper(alnum, PropertiesIn(FieldsSeq(members)).value)
  {
    match members
    case NoField(_) =>
    case LastField(f) =>
      assert [f][1..] == [];
    case MoreFields(f, rest) =>
      assert FieldsSeq(members)[1..] == FieldsSeq(rest);
      if f.key != "properties" { ProperProperties(alnum, rest); }
  }

  lemma SchemaNamesAre(alnum: CharClass, schema: Fields)
    requires ProperFields(alnum, schema) && IsSchema(Obj(schema)) && ReadableSchema(alnum, Obj(schema))
    ensures SchemaNames(alnum, PrintFields(schema)) == Some(DeclaredNames(schema))
  {
    hide Members, MembersOf, PrintFields, KeysOf, PropertiesOf, PropertiesIn, FieldsSeq, Names;
    WholeBody(alnum, schema);
    PropertiesAre(schema);
    var props := PropertiesIn(FieldsSeq(schema));
    if props.Some? {
      ProperProperties(alnum, schema);
      WholeBody(alnum, props.value.members);
      NamesAre(props.value.members);
    }
  }

  /** Only an object's text starts with a brace. */
  lemma BraceMeansObject(alnum: CharClass, f: Field, tail: string)
    requires ProperField(alnum, f)
    ensures LStrip(ValueText(f, tail)) == ValueText(f, tail) && ValueText(f, tail) != ""
    ensures ValueText(f, tail)[0] == '{' <==> f.value.Obj?
  {
    PrintVisible(alnum, f.value);
    if f.value.Scalar? { assert Plain(f.value.text[0]); }
    if f.value.Invoked? { assert Plain(f.value.name[0]); }
  }

  lemma {:induction false} SchemasAre(alnum: CharClass, out: Schemas, members: Fields)
    requires ProperFields(alnum, members)
    requires forall f <- FieldsSeq(members) :: IsSchema(f.value) && ReadableSchema(alnum, f.value)
    ensures SchemasFrom(alnum, out, MembersOf(members)) == Some(DeclaredSchemas(out, FieldsSeq(members)))
    decreases members
  {
    hide SchemaNames, DeclaredNames, Print, LStrip, Inside, IsSchema, Proper, ReadableSchema;
    match members
    case NoField(_) =>
    case LastField(f) =>
      assert f in FieldsSeq(members);
      OneSchema(alnum, f, "");
      assert [f][1..] == [] && MembersOf(members)[1..] == [];
    case MoreFields(f, rest) =>
      assert FieldsSeq(members)[0] == f && f in FieldsSeq(members);
      assert FieldsSeq(members)[1..] == FieldsSeq(rest) && MembersOf(members)[1..] == MembersOf(rest);
      OneSchema(alnum, f, ",");
      var joined := if f.value.Obj? then JoinSchema(out, Some(f.key), DeclaredNames(f.value.members)) else out;
      SchemasAre(alnum, joined, rest);
  }

  lemma OneSchema(alnum: CharClass, f: Field, tail: string)
    requires ProperField(alnum, f) && IsSchema(f.value) && ReadableSchema(alnum, f.value)
    ensures LStrip(ValueText(f, tail)) != "" && (LStrip(ValueText(f, tail))[0] == '{' <==> f.value.Obj?)
    ensures f.value.Obj? ==> SchemaNames(alnum, Inside(ValueText(f, tail))) == Some(DeclaredNames(f.value.members))
  {
    hide SchemaNames, DeclaredNames, PrintFields;
    BraceMeansObject(alnum, f, tail);
    if f.value.Obj? {
      ObjectInside(f.value.members);
      SchemaNamesAre(alnum, f.value.members);
    }
  }

  /** On a printed document of schemas the two-level extraction returns exactly each schema's declared
      members. */
  lemma ExtractionExact(alnum: CharClass, out: Schemas, document: Fields)
    requires ProperFields(alnum, document) && Readable(alnum, document)
    requires forall f <- FieldsSeq(document) :: IsSchema(f.value) && ReadableSchema(alnum, f.value)
    ensures Members(alnum, PrintFields(document), 0) == Some(MembersOf(document))
    ensures SchemasFrom(alnum, out, MembersOf(document)) == Some(DeclaredSchemas(out, FieldsSeq(document)))
  {
    WholeBody(alnum, document);
    SchemasAre(alnum, out, document);
  }
}
