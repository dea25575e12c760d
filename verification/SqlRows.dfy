/** The literals and the VALUES rows the schema compiler writes, and the lexing that reads them back. */
module SqlRows {
  import opened Options
  import opened Text
  import opened Reconciliation

  // ---------- Writing ----------

  function Doubled(v: string): string {
    if v == "" then ""
    else (if v[0] == '\'' then "''" else [v[0]]) + Doubled(v[1..])
  }

  function SqlLiteral(v: string): string {
    "'" + Doubled(v) + "'"
  }

  const INDENT := "            ("

  function RenderDefault(d: Default): string {
    match d
    case NoDefault => "NULL::text"
    case Expression(sql) => SqlLiteral(sql)
  }

  function RenderRow(s: Spec): string {
    INDENT + SqlLiteral(s.table) + ", " + SqlLiteral(s.column) + ", " + SqlLiteral(s.typ) + ", "
    + RenderDefault(s.default) + ", " + (if s.notNull then "true" else "false") + ")"
  }

  function RenderRows(specs: seq<Spec>): string {
    if specs == [] then ""
    else if |specs| == 1 then RenderRow(specs[0])
    else RenderRow(specs[0]) + ",\n" + RenderRows(specs[1..])
  }

  // ---------- Reading under the doubled-quote rule ----------

  datatype Read<+T> = Read(value: T, rest: string)

  /** What follows an opening quote: the content up to the first quote that is not doubled. */
  function ReadContent(text: string): Option<Read<string>> {
    if text == "" then None
    else if text[0] != '\'' then
      match ReadContent(text[1..])
      case None => None
      case Some(r) => Some(Read([text[0]] + r.value, r.rest))
    else if |text| > 1 && text[1] == '\'' then
      match ReadContent(text[2..])
      case None => None
      case Some(r) => Some(Read("'" + r.value, r.rest))
    else Some(Read("", text[1..]))
  }

  function ReadLiteral(text: string): Option<Read<string>> {
    if text != "" && text[0] == '\'' then ReadContent(text[1..]) else None
  }

  function Expect(pat: string, text: string): Option<string> {
    if At(text, 0, pat) then Some(text[|pat|..]) else None
  }

  function ReadField(text: string): Option<Read<string>> {
    match ReadLiteral(text)
    case None => None
    case Some(r) =>
      match Expect(", ", r.rest)
      case None => None
      case Some(rest) => Some(Read(r.value, rest))
  }

  function ReadDefault(text: string): Option<Read<Default>> {
    match Expect("NULL::text, ", text)
    case Some(rest) => Some(Read(NoDefault, rest))
    case None =>
      match ReadField(text)
      case None => None
      case Some(r) => Some(Read(Expression(r.value), r.rest))
  }

  function ReadFlag(text: string): Option<Read<bool>> {
    match Expect("true)", text)
    case Some(rest) => Some(Read(true, rest))
    case None =>
      match Expect("false)", text)
      case Some(rest) => Some(Read(false, rest))
      case None => None
  }

  function ReadRow(text: string): Option<Read<Spec>> {
    match Expect(INDENT, text)
    case None => None
    case Some(t0) =>
      match ReadField(t0)
      case None => None
      case Some(table) =>
        match ReadField(table.rest)
        case None => None
        case Some(column) =>
          match ReadField(column.rest)
          case None => None
          case Some(typ) =>
            match ReadDefault(typ.rest)
            case None => None
            case Some(default) =>
              match ReadFlag(default.rest)
              case None => None
              case Some(flag) => Some(Read(Spec(table.value, column.value, typ.value, default.value, flag.value),
                                           flag.rest))
  }

  function ReadRows(text: string): Option<seq<Spec>>
    decreases |text|
  {
    match ReadRow(text)
    case None => None
    case Some(row) =>
      if row.rest == "" then Some([row.value])
      else
        match Expect(",\n", row.rest)
        case None => None
        case Some(rest) =>
          if |rest| >= |text| then None
          else
            match ReadRows(rest)
            case None => None
            case Some(rows) => Some([row.value] + rows)
  }

  // ---------- Reading inverts writing ----------

  ghost predicate NoQuoteFirst(text: string) {
    text == "" || text[0] != '\''
  }

  lemma {:induction false} ContentRoundTrip(v: string, rest: string)
    requires NoQuoteFirst(rest)
    ensures ReadContent(Doubled(v) + "'" + rest) == Some(Read(v, rest))
  {
    if v == "" {
      assert "" + "'" + rest == "'" + rest;
      ReadQuote(rest);
    } else {
      var x, tail := if v[0] == '\'' then "''" else [v[0]], Doubled(v[1..]) + "'" + rest;
      ContentRoundTrip(v[1..], rest);
      hide *;
      DoubledStep(v);
      Assoc(x, Doubled(v[1..]), "'");
      Assoc(x, Doubled(v[1..]) + "'", rest);
      assert [v[0]] + v[1..] == v;
      if v[0] == '\'' { ReadDouble(tail); } else { ReadPlain(v[0], tail); }
    }
  }

  lemma DoubledStep(v: string)
    requires v != ""
    ensures Doubled(v) == (if v[0] == '\'' then "''" else [v[0]]) + Doubled(v[1..])
  {
  }

  lemma ReadQuote(rest: string)
    requires NoQuoteFirst(rest)
    ensures ReadContent("'" + rest) == Some(Read("", rest))
  {
    assert ("'" + rest)[1..] == rest;
  }

  lemma ReadDouble(tail: string)
    ensures ReadContent("''" + tail) ==
            match ReadContent(tail) case None => None case Some(r) => Some(Read(['\''] + r.value, r.rest))
  {
    assert ("''" + tail)[2..] == tail;
  }

  lemma ReadPlain(c: char, tail: string)
    requires c != '\''
    ensures ReadContent([c] + tail) ==
            match ReadContent(tail) case None => None case Some(r) => Some(Read([c] + r.value, r.rest))
  {
    assert ([c] + tail)[1..] == tail;
  }

  /** A literal reads back to its content whatever the content is: nothing in it can end it. */
  lemma LiteralRoundTrip(v: string, rest: string)
    requires NoQuoteFirst(rest)
    ensures ReadLiteral(SqlLiteral(v) + rest) == Some(Read(v, rest))
  {
    ContentRoundTrip(v, rest);
    var text := SqlLiteral(v) + rest;
    assert text[1..] == Doubled(v) + "'" + rest;
  }

  lemma LiteralInjective(v: string, w: string, x: string, y: string)
    requires NoQuoteFirst(x) && NoQuoteFirst(y)
    requires SqlLiteral(v) + x == SqlLiteral(w) + y
    ensures v == w && x == y
  {
    LiteralRoundTrip(v, x);
    LiteralRoundTrip(w, y);
  }

  lemma ExpectPrefix(pat: string, rest: string)
    ensures Expect(pat, pat + rest) == Some(rest)
  {
  }

  lemma FieldRoundTrip(v: string, rest: string)
    ensures ReadField(SqlLiteral(v) + ", " + rest) == Some(Read(v, rest))
  {
    hide SqlLiteral, ReadLiteral;
    assert SqlLiteral(v) + ", " + rest == SqlLiteral(v) + (", " + rest);
    LiteralRoundTrip(v, ", " + rest);
    ExpectPrefix(", ", rest);
  }

  lemma DefaultRoundTrip(d: Default, rest: string)
    ensures ReadDefault(RenderDefault(d) + ", " + rest) == Some(Read(d, rest))
  {
    var text := RenderDefault(d) + ", " + rest;
    if d.NoDefault? {
      assert text == "NULL::text, " + rest;
      ExpectPrefix("NULL::text, ", rest);
    } else {
      FieldRoundTrip(d.sql, rest);
      assert text[0] == '\'';
      NotAt(text, "NULL::text, ");
    }
  }

  lemma FlagRoundTrip(b: bool, rest: string)
    ensures ReadFlag((if b then "true" else "false") + ")" + rest) == Some(Read(b, rest))
  {
    var text := (if b then "true" else "false") + ")" + rest;
    if b {
      assert text == "true)" + rest;
    } else {
      assert text == "false)" + rest;
      NotAt(text, "true)");
    }
  }

  lemma RowRoundTrip(s: Spec, rest: string)
    ensures ReadRow(RenderRow(s) + rest) == Some(Read(s, rest))
  {
    hide SqlLiteral, RenderDefault, ReadField, ReadDefault, ReadFlag, Expect;
    var flag := (if s.notNull then "true" else "false") + ")" + rest;
    var t4 := RenderDefault(s.default) + ", " + flag;
    var t3 := SqlLiteral(s.typ) + ", " + t4;
    var t2 := SqlLiteral(s.column) + ", " + t3;
    var t1 := SqlLiteral(s.table) + ", " + t2;
    assert RenderRow(s) + rest == INDENT + t1;
    ExpectPrefix(INDENT, t1);
    FieldRoundTrip(s.table, t2);
    FieldRoundTrip(s.column, t3);
    FieldRoundTrip(s.typ, t4);
    DefaultRoundTrip(s.default, flag);
    FlagRoundTrip(s.notNull, rest);
  }

  /** The emitted rows, lexed as SQL, are exactly the column specifications they were written from. */
  lemma {:induction false} RowsRoundTrip(specs: seq<Spec>)
    requires specs != []
    ensures ReadRows(RenderRows(specs)) == Some(specs)
  {
    hide RenderRow, ReadRow, Expect;
    var text := RenderRows(specs);
    if |specs| == 1 {
      assert RenderRow(specs[0]) + "" == text;
      RowRoundTrip(specs[0], "");
      assert [specs[0]] == specs;
    } else {
      var more := RenderRows(specs[1..]);
      assert text == RenderRow(specs[0]) + (",\n" + more);
      RowRoundTrip(specs[0], ",\n" + more);
      ExpectPrefix(",\n", more);
      RowsRoundTrip(specs[1..]);
      assert [specs[0]] + specs[1..] == specs;
    }
  }

  lemma {:induction false} NothingDoubled(v: string)
    requires '\'' !in v
    ensures Doubled(v) == v
  {
    if v != "" { NothingDoubled(v[1..]); }
  }

  /** A row as it is written, where no quote has to be doubled. */
  lemma RowText(s: Spec)
    requires '\'' !in s.table && '\'' !in s.column && '\'' !in s.typ
    requires s.default.Expression? ==> '\'' !in s.default.sql
    ensures RenderRow(s) ==
            "            ('" + s.table + "', '" + s.column + "', '" + s.typ + "', "
            + (if s.default.Expression? then "'" + s.default.sql + "'" else "NULL::text") + ", "
            + (if s.notNull then "true" else "false") + ")"
  {
    NothingDoubled(s.table);
    NothingDoubled(s.column);
    NothingDoubled(s.typ);
    if s.default.Expression? { NothingDoubled(s.default.sql); }
    hide Doubled;
    RowJoin(s.table, s.column, s.typ, RenderDefault(s.default), if s.notNull then "true" else "false");
  }

  lemma RowJoin(a: string, b: string, c: string, d: string, e: string)
    ensures INDENT + ("'" + a + "'") + ", " + ("'" + b + "'") + ", " + ("'" + c + "'") + ", " + d + ", " + e + ")" ==
            "            ('" + a + "', '" + b + "', '" + c + "', " + d + ", " + e + ")"
  {
    assert INDENT + "'" == "            ('" && "'" + ", " + "'" == "', '" && "'" + ", " == "', ";
    calc {
      INDENT + ("'" + a + "'") + ", " + ("'" + b + "'") + ", " + ("'" + c + "'") + ", " + d + ", " + e + ")";
      (INDENT + "'") + a + ("'" + ", " + "'") + b + ("'" + ", " + "'") + c + ("'" + ", ") + d + ", " + e + ")";
      "            ('" + a + "', '" + b + "', '" + c + "', " + d + ", " + e + ")";
    }
  }

  // ---------- The dollar-quoted body around the rows ----------

  const TAG := "$oz_reconcile$"

  /** The strings a specification brings into the rows. */
  ghost predicate Mentions(s: Spec, pat: string) {
    || Occurs(pat, s.table) || Occurs(pat, s.column) || Occurs(pat, s.typ)
    || (s.default.Expression? && Occurs(pat, s.default.sql))
  }

  lemma {:induction false} DoubledPrefix(v: string, pat: string)
    requires '\'' !in pat
    ensures At(Doubled(v), 0, pat) <==> At(v, 0, pat)
  {
    if v != "" && pat != "" {
      var d := Doubled(v);
      if v[0] != pat[0] || v[0] == '\'' {
        NotAt(v, pat);
        NotAt(d, pat);
      } else {
        DoubledPrefix(v[1..], pat[1..]);
        assert d == [v[0]] + Doubled(v[1..]);
        ConsAt(v[0], v[1..], pat);
        ConsAt(v[0], Doubled(v[1..]), pat);
        assert v == [v[0]] + v[1..];
      }
    }
  }

  lemma ConsAt(c: char, t: string, pat: string)
    requires pat != "" && pat[0] == c
    ensures At([c] + t, 0, pat) <==> At(t, 0, pat[1..])
  {
    var text := [c] + t;
    if |pat| <= |text| {
      assert text[0..|pat|] == [c] + t[0..|pat| - 1];
      assert pat == [c] + pat[1..];
    }
  }

  lemma OccursStep(pat: string, c: char, t: string)
    ensures Occurs(pat, [c] + t) <==> At([c] + t, 0, pat) || Occurs(pat, t)
  {
    var text := [c] + t;
    if Occurs(pat, text) && !At(text, 0, pat) {
      var i: nat :| At(text, i, pat);
      assert t[i - 1..i - 1 + |pat|] == text[i..i + |pat|];
      assert At(t, i - 1, pat);
    }
    if Occurs(pat, t) {
      OccursInside(pat, [c], t, "");
      assert [c] + t + "" == text;
    }
  }

  /** Doubling quotes neither makes nor breaks an occurrence of a text without quotes. */
  lemma {:induction false} DoubledOccurs(v: string, pat: string)
    requires pat != "" && '\'' !in pat
    ensures Occurs(pat, Doubled(v)) <==> Occurs(pat, v)
  {
    if v != "" {
      var t, d := v[1..], Doubled(v[1..]);
      DoubledOccurs(t, pat);
      DoubledPrefix(v, pat);
      assert v == [v[0]] + t;
      OccursStep(pat, v[0], t);
      if v[0] == '\'' {
        assert Doubled(v) == "'" + ("'" + d);
        OccursStep(pat, '\'', "'" + d);
        OccursStep(pat, '\'', d);
        NotAt("'" + d, pat);
      } else {
        OccursStep(pat, v[0], d);
      }
    }
  }

  lemma LiteralOccurs(v: string, pat: string)
    requires pat != "" && '\'' !in pat
    ensures Occurs(pat, SqlLiteral(v)) <==> Occurs(pat, v)
  {
    DoubledOccurs(v, pat);
    OccursAcross(pat, "'" + Doubled(v), "'");
    OccursAcross(pat, "'", Doubled(v));
    NoQuoteOccurs(pat);
  }

  lemma NoQuoteOccurs(pat: string)
    requires pat != "" && '\'' !in pat
    ensures !Occurs(pat, "'")
  {
    assert pat[0] in pat;
    forall i: nat ensures !At("'", i, pat) {
      if i == 0 && |pat| == 1 { assert "'"[0..1] == "'"; }
    }
  }

  lemma TooShort(pat: string, text: string)
    requires |text| < |pat|
    ensures !Occurs(pat, text)
  {
  }

  lemma FieldOccurs(before: string, v: string)
    ensures Occurs(TAG, before + SqlLiteral(v) + ", ") <==> Occurs(TAG, before) || Occurs(TAG, v)
  {
    LiteralOccurs(v, TAG);
    OccursAcross(TAG, before, SqlLiteral(v));
    OccursAcross(TAG, before + SqlLiteral(v), ", ");
    TooShort(TAG, ", ");
  }

  lemma RowOccurs(s: Spec)
    ensures Occurs(TAG, RenderRow(s)) <==> Mentions(s, TAG)
  {
    hide Occurs, At, Doubled;
    var t1 := INDENT + SqlLiteral(s.table) + ", ";
    var t2 := t1 + SqlLiteral(s.column) + ", ";
    var t3 := t2 + SqlLiteral(s.typ) + ", ";
    var t4 := t3 + RenderDefault(s.default) + ", ";
    var flag := (if s.notNull then "true" else "false") + ")";
    TooShort(TAG, INDENT);
    FieldOccurs(INDENT, s.table);
    FieldOccurs(t1, s.column);
    FieldOccurs(t2, s.typ);
    if s.default.Expression? {
      FieldOccurs(t3, s.default.sql);
    } else {
      TooShort(TAG, "NULL::text");
      TooShort(TAG, ", ");
      OccursAcross(TAG, t3, "NULL::text");
      OccursAcross(TAG, t3 + "NULL::text", ", ");
    }
    TooShort(TAG, flag);
    OccursAcross(TAG, t4, flag);
    assert RenderRow(s) == t4 + flag;
  }

  lemma RowEdges(s: Spec)
    ensures RenderRow(s) != "" && RenderRow(s)[0] == ' ' && RenderRow(s)[|RenderRow(s)| - 1] == ')'
  {
  }

  lemma {:induction false} RowsOccur(specs: seq<Spec>)
    ensures Occurs(TAG, RenderRows(specs)) <==> exists s :: s in specs && Mentions(s, TAG)
  {
    hide Occurs, At, RenderRow, Mentions;
    if specs == [] {
      TooShort(TAG, "");
    } else {
      RowOccurs(specs[0]);
      RowEdges(specs[0]);
      if |specs| > 1 {
        var more := RenderRows(specs[1..]);
        RowsOccur(specs[1..]);
        TooShort(TAG, ",\n");
        OccursAcross(TAG, RenderRow(specs[0]), ",\n");
        OccursAcross(TAG, RenderRow(specs[0]) + ",\n", more);
        assert specs == [specs[0]] + specs[1..];
      }
    }
  }

  /** The DO statement's body, written as `head`, the rows and `tail`, runs up to the closing tag if and
      only if no table, column, type or default contains that tag: quoting alone does not contain it. */
  lemma BodyEndsAtItsTag(specs: seq<Spec>, head: string, tail: string, rest: string)
    requires !Occurs(TAG, head) && !Occurs(TAG, tail)
    requires head != "" && head[|head| - 1] == '\n'
    requires tail != "" && tail[0] == '\n' && tail[|tail| - 1] == '\n'
    ensures var body := head + RenderRows(specs) + tail;
            (forall i: nat :: i < |body| ==> !At(body + (TAG + rest), i, TAG))
            <==> !exists s :: s in specs && Mentions(s, TAG)
  {
    hide RenderRows, Mentions, Occurs;
    var rows := RenderRows(specs);
    var body := head + rows + tail;
    OccursAcross(TAG, head, rows);
    OccursAcross(TAG, head + rows, tail);
    RowsOccur(specs);
    EndsInside(body, rest);
  }

  lemma TagEndsEarly(tag: string, quoted: string) returns (i: nat)
    requires tag == TAG && quoted == "'" + TAG + "'"
    ensures var rows := RenderRows([Spec("t", "c", "TEXT", Expression(quoted), false)]);
            i < |"\n" + rows + "\n"| && At("\n" + rows + "\n" + (tag + ""), i, tag)
  {
    var s := Spec("t", "c", "TEXT", Expression(quoted), false);
    hide RenderRows;
    assert At(quoted, 1, TAG);
    assert Mentions(s, TAG);
    TooShort(TAG, "\n");
    assert s in [s];
    BodyEndsAtItsTag([s], "\n", "\n", "");
    var k: nat :| k < |"\n" + RenderRows([s]) + "\n"| && At("\n" + RenderRows([s]) + "\n" + (TAG + ""), k, TAG);
    i := k;
  }

  /** A default that contains the tag is enough to end the body early. */
  lemma TagInstance() returns (i: nat)
    ensures var rows := RenderRows([Spec("t", "c", "TEXT", Expression("'$oz_reconcile$'"), false)]);
            i < |"\n" + rows + "\n"| && At("\n" + rows + "\n" + ("$oz_reconcile$" + ""), i, "$oz_reconcile$")
  {
    hide RenderRows, At;
    i := TagEndsEarly("$oz_reconcile$", "'$oz_reconcile$'");
  }

  /** Before the body ends, only an occurrence inside it can end the statement. */
  lemma EndsInside(body: string, rest: string)
    requires body != "" && body[|body| - 1] == '\n'
    ensures Occurs(TAG, body) <==> exists i: nat :: i < |body| && At(body + (TAG + rest), i, TAG)
  {
    hide At;
    forall i: nat | i < |body| ensures At(body + (TAG + rest), i, TAG) <==> At(body, i, TAG) {
      SamePlace(body, rest, i);
    }
    if Occurs(TAG, body) {
      var i: nat :| At(body, i, TAG);
      PlaceInside(body, i);
    }
  }

  lemma PlaceInside(body: string, i: nat)
    requires At(body, i, TAG)
    ensures i < |body|
  {
  }

  lemma SamePlace(body: string, rest: string, i: nat)
    requires i < |body| && body[|body| - 1] == '\n'
    ensures At(body + (TAG + rest), i, TAG) <==> At(body, i, TAG)
  {
    var text := body + (TAG + rest);
    if i + |TAG| <= |body| {
      assert text[i..i + |TAG|] == body[i..i + |TAG|];
    } else if At(text, i, TAG) {
      Straddles(TAG, body, TAG + rest, i);
    }
  }
}
