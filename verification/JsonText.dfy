/** The index loops of the JSON scanners on raw text: where each of them ends, counted in characters. */
module JsonText {
  import opened Options
  import opened Text
  import opened JsonScanner
  import opened JsonPrinter

  // ---------- What reads as a macro ----------

  /** One character and a `!`, with no alphanumeric character and no underscore on either side. */
  lemma MacroStartIs(alnum: CharClass, before: string, name: char, after: string)
    ensures MacroStart(alnum, before + [name] + "!" + after, |before|) <==>
            && (before == "" || !(alnum(before[|before| - 1]) || before[|before| - 1] == '_'))
            && (after == "" || !(alnum(after[0]) || after[0] == '_'))
  {
    var text, i := before + [name] + "!" + after, |before|;
    assert text[i] == name && text[i + 1] == '!';
    assert before != "" ==> text[i - 1] == before[|before| - 1];
    assert after != "" ==> text[i + 2] == after[0];
  }

  lemma MacroHasBang(alnum: CharClass, text: string, i: nat)
    requires MacroStart(alnum, text, i)
    ensures i + 1 < |text| && text[i + 1] == '!'
  {
  }

  // ---------- Strings ----------

  /** Where a string is found to end there is a quote, and everything before it is escaped as it must be. */
  lemma {:induction false} StringEndIs(text: string, i: nat)
    requires StringEnd(text, i).Some?
    ensures var j := StringEnd(text, i).value;
            i < j <= |text| && text[j - 1] == '"' && Escaped(text[i..j - 1])
    decreases |text| - i
  {
    var j := StringEnd(text, i).value;
    if text[i] == '\\' {
      StringEndIs(text, i + 2);
      assert text[i..j - 1][2..] == text[i + 2..j - 1] && text[i..j - 1][0] == '\\';
    } else if text[i] != '"' {
      StringEndIs(text, i + 1);
      assert text[i..j - 1][1..] == text[i + 1..j - 1] && text[i..j - 1][0] == text[i];
    } else {
      assert text[i..j - 1] == "";
    }
  }

  // ---------- Counting delimiters ----------

  /** How often `c` stands in the text from `i` to `k`. */
  function Times(text: string, i: nat, k: nat, c: char): nat
    requires i <= k <= |text|
  {
    multiset(text[i..k])[c]
  }

  lemma TimesStep(text: string, i: nat, k: nat, c: char)
    requires i < k <= |text|
    ensures Times(text, i, k, c) == (if text[i] == c then 1 else 0) + Times(text, i + 1, k, c)
  {
    assert text[i..k] == [text[i]] + text[i + 1..k];
  }

  /** How deep in parentheses the text is at `k`, from `i` on. */
  ghost predicate ParensClose(text: string, i: nat, depth: int, k: nat) {
    i < k <= |text| && text[k - 1] == ')' && depth + Times(text, i, k, '(') - Times(text, i, k, ')') == 0
  }

  function ParenChange(c: char): int {
    if c == '(' then 1 else if c == ')' then -1 else 0
  }

  lemma ParensStep(text: string, i: nat, depth: int)
    requires i < |text| && '"' !in text[i..]
    ensures '"' !in text[i + 1..]
    ensures ParensEnd(text, i, depth) ==
            if text[i] == ')' && depth - 1 == 0 then Some(i + 1)
            else ParensEnd(text, i + 1, depth + ParenChange(text[i]))
  {
    assert text[i] == text[i..][0] && text[i + 1..] == text[i..][1..];
  }

  lemma ParensMove(text: string, i: nat, depth: int, k: nat)
    requires i < k <= |text|
    ensures k > i + 1 ==>
              (ParensClose(text, i, depth, k) <==> ParensClose(text, i + 1, depth + ParenChange(text[i]), k))
    ensures k == i + 1 ==> (ParensClose(text, i, depth, k) <==> text[i] == ')' && depth - 1 == 0)
  {
    TimesStep(text, i, k, '(');
    TimesStep(text, i, k, ')');
  }

  lemma ParensFit(text: string, i: nat, depth: int)
    ensures ParensEnd(text, i, depth).Some? ==> i < ParensEnd(text, i, depth).value <= |text|
    ensures i == |text| ==> ParensEnd(text, i, depth) == None
  {
  }

  /** In text without strings the parentheses end where as many have been closed as opened, for the first time. */
  lemma {:induction false} ParensEndIs(text: string, i: nat, depth: int)
    requires i <= |text| && '"' !in text[i..]
    ensures match ParensEnd(text, i, depth)
            case Some(e) => ParensClose(text, i, depth, e) && forall k :: i < k < e ==> !ParensClose(text, i, depth, k)
            case None => forall k :: i < k <= |text| ==> !ParensClose(text, i, depth, k)
    decreases |text| - i
  {
    hide *;
    ParensFit(text, i, depth);
    if i < |text| {
      ParensStep(text, i, depth);
      ParensEndIs(text, i + 1, depth + ParenChange(text[i]));
      ParensFit(text, i + 1, depth + ParenChange(text[i]));
      forall k | i < k <= |text|
        ensures k > i + 1 ==> (ParensClose(text, i, depth, k) <==>
                               ParensClose(text, i + 1, depth + ParenChange(text[i]), k))
        ensures k == i + 1 ==> (ParensClose(text, i, depth, k) <==> text[i] == ')' && depth - 1 == 0)
      {
        ParensMove(text, i, depth, k);
      }
    }
  }

  /** A macro without strings in its argument ends at the closing parenthesis of the first opening one; one without any
      parenthesis is its name alone. */
  lemma MacroEndIs(text: string, i: nat, p: nat)
    requires i < p <= |text| && '(' !in text[i + 1..p] && (p < |text| ==> text[p] == '(')
    ensures MacroEnd(text, i) == if p == |text| then Some(i + 1) else ParensEnd(text, p, 0)
  {
    FirstParen(text, i + 1, p);
  }

  lemma {:induction false} FirstParen(text: string, j: nat, p: nat)
    requires j <= p <= |text| && '(' !in text[j..p] && (p < |text| ==> text[p] == '(')
    ensures FindParen(text, j) == p
    decreases p - j
  {
    if j < p {
      assert text[j] == text[j..p][0] && text[j + 1..p] == text[j..p][1..];
      FirstParen(text, j + 1, p);
    }
  }

  ghost predicate BracesClose(text: string, i: nat, depth: int, k: nat) {
    i < k <= |text| && text[k - 1] == '}' && depth + Times(text, i, k, '{') - Times(text, i, k, '}') == 0
  }

  /** Brackets count as much as braces: the one kind may close what the other opened. */
  ghost predicate BothClose(text: string, i: nat, depth: int, k: nat) {
    && i < k <= |text| && (text[k - 1] == '}' || text[k - 1] == ']')
    && depth + Times(text, i, k, '{') - Times(text, i, k, '}') + Times(text, i, k, '[') - Times(text, i, k, ']') == 0
  }

  ghost predicate Close(d: Delimiters, text: string, i: nat, depth: int, k: nat) {
    match d
    case Braces => BracesClose(text, i, depth, k)
    case Both => BothClose(text, i, depth, k)
  }

  function Change(d: Delimiters, c: char): int {
    if c == '{' || (d.Both? && c == '[') then 1 else if c == '}' || (d.Both? && c == ']') then -1 else 0
  }

  lemma TrackStep(alnum: CharClass, d: Delimiters, text: string, i: nat, depth: int)
    requires i < |text| && '"' !in text[i..] && '!' !in text[i..]
    ensures '"' !in text[i + 1..] && '!' !in text[i + 1..]
    ensures Track(alnum, d, text, i, depth) ==
            if Change(d, text[i]) == -1 && depth - 1 == 0 then Some(i + 1)
            else Track(alnum, d, text, i + 1, depth + Change(d, text[i]))
  {
    assert text[i] == text[i..][0] && text[i + 1..] == text[i..][1..];
    if i + 1 < |text| { assert text[i + 1] == text[i..][1]; }
  }

  lemma CloseMoves(d: Delimiters, text: string, i: nat, depth: int, k: nat)
    requires i < k <= |text|
    ensures k > i + 1 ==> (Close(d, text, i, depth, k) <==> Close(d, text, i + 1, depth + Change(d, text[i]), k))
    ensures k == i + 1 ==> (Close(d, text, i, depth, k) <==> Change(d, text[i]) == -1 && depth - 1 == 0)
  {
    FourTimes(text, i, k);
  }

  /** In text without strings and exclamation marks the object scanner stops where as many braces have been closed as
      opened, for the first time, and the value scanner where that holds of braces and brackets together. */
  lemma {:induction false} TrackIs(alnum: CharClass, d: Delimiters, text: string, i: nat, depth: int)
    requires i <= |text| && '"' !in text[i..] && '!' !in text[i..]
    ensures match Track(alnum, d, text, i, depth)
            case Some(e) => Close(d, text, i, depth, e) && forall k :: i < k < e ==> !Close(d, text, i, depth, k)
            case None => forall k :: i < k <= |text| ==> !Close(d, text, i, depth, k)
    decreases |text| - i
  {
    hide *;
    Fits(alnum, d, text, i, depth);
    if i < |text| {
      TrackStep(alnum, d, text, i, depth);
      TrackIs(alnum, d, text, i + 1, depth + Change(d, text[i]));
      forall k | i < k <= |text|
        ensures k > i + 1 ==> (Close(d, text, i, depth, k) <==> Close(d, text, i + 1, depth + Change(d, text[i]), k))
        ensures k == i + 1 ==> (Close(d, text, i, depth, k) <==> Change(d, text[i]) == -1 && depth - 1 == 0)
      {
        CloseMoves(d, text, i, depth, k);
      }
      Fits(alnum, d, text, i + 1, depth + Change(d, text[i]));
    }
  }

  lemma Fits(alnum: CharClass, d: Delimiters, text: string, i: nat, depth: int)
    ensures Track(alnum, d, text, i, depth).Some? ==> i < Track(alnum, d, text, i, depth).value <= |text|
    ensures i == |text| ==> Track(alnum, d, text, i, depth) == None
  {
  }

  lemma FourTimes(text: string, i: nat, k: nat)
    requires i < k <= |text|
    ensures Times(text, i, k, '{') == (if text[i] == '{' then 1 else 0) + Times(text, i + 1, k, '{')
    ensures Times(text, i, k, '}') == (if text[i] == '}' then 1 else 0) + Times(text, i + 1, k, '}')
    ensures Times(text, i, k, '[') == (if text[i] == '[' then 1 else 0) + Times(text, i + 1, k, '[')
    ensures Times(text, i, k, ']') == (if text[i] == ']' then 1 else 0) + Times(text, i + 1, k, ']')
  {
    TimesStep(text, i, k, '{');
    TimesStep(text, i, k, '}');
    TimesStep(text, i, k, '[');
    TimesStep(text, i, k, ']');
  }

  // ---------- Scalars, and strings that are no keys ----------

  /** A scalar goes up to the next comma, brace or bracket that closes, and takes it along. */
  lemma {:induction false} ScalarEndIs(body: string, i: nat)
    requires i < |body|
    ensures var e := ScalarEnd(body, i);
            && i < e <= |body|
            && (forall k :: i <= k < e - 1 ==> body[k] != ',' && body[k] != '}' && body[k] != ']')
            && (e == |body| || body[e - 1] == ',' || body[e - 1] == '}' || body[e - 1] == ']')
    decreases |body| - i
  {
    if !Separates(body[i]) && i + 1 < |body| { ScalarEndIs(body, i + 1); }
  }

  /** A string with no colon behind it is a member without a name, and its text is the string with its quotes. */
  lemma NamelessRead(alnum: CharClass, body: string, i: nat, raw: string, ws: string, rest: string)
    requires Here(body, i, Quoted(raw), ws + rest) && Escaped(raw) && !LooksLikeMacro(alnum, raw) && IsBlank(ws)
    requires rest == "" || (!IsSpace(rest[0]) && rest[0] != ':')
    ensures Members(alnum, body, i) == Prepend(Member(None, Quoted(raw)), Members(alnum, body, i + |Quoted(raw)|))
  {
    hide *;
    KeyNoMacro(alnum, body, i, raw, ws + rest);
    QuotedOver(body, i, raw, ws + rest);
    Advance2(body, i, Quoted(raw), ws, rest);
    var j := i + |Quoted(raw)|;
    SpacesSkipped(body, j, ws, rest);
    AtString(alnum, body, i);
    Slice(body, i, Quoted(raw), ws + rest);
    if rest != "" { Head(body, j + |ws|, rest, ""); }
  }

  // ---------- What the schemas are joined to ----------

  /** Behind leading blanks the first and the last character are taken off; of less than two characters nothing is
      left. */
  lemma InsideIs(ws: string, first: char, inner: string, last: char)
    requires IsBlank(ws) && !IsSpace(first)
    ensures Inside(ws + ([first] + inner + [last])) == inner
    ensures Inside(ws + [first]) == "" && Inside(ws) == ""
  {
    LStripOver(ws, [first] + inner + [last]);
    LStripOver(ws, [first]);
    LStripOver(ws, "");
    assert ws + "" == ws;
    assert ([first] + inner + [last])[1..|inner| + 1] == inner;
  }

  lemma {:induction false} KeysInOrder(members: Fields)
    ensures |KeysOf(members)| == |FieldsSeq(members)|
    ensures forall k :: 0 <= k < |KeysOf(members)| ==> KeysOf(members)[k] == FieldsSeq(members)[k].key
  {
    if members.MoreFields? { KeysInOrder(members.rest); }
  }

  /** After the extraction a name stands for every object of the document with that key, together with what it stood for
      before: it has the members of all of them, and nothing else. */
  lemma {:induction false} SchemasJoined(out: Schemas, fields: seq<Field>, name: Option<string>, m: Option<string>)
    ensures var all := DeclaredSchemas(out, fields);
            && (name in all <==>
                name in out || exists f :: f in fields && f.value.Obj? && name == Some(f.key))
            && (name in all && m in all[name] <==>
                || (name in out && m in out[name])
                || exists f :: && f in fields && f.value.Obj? && name == Some(f.key)
                               && m in DeclaredNames(f.value.members))
    decreases |fields|
  {
    if fields != [] {
      var f := fields[0];
      var joined := if f.value.Obj? then JoinSchema(out, Some(f.key), DeclaredNames(f.value.members)) else out;
      SchemasJoined(joined, fields[1..], name, m);
      assert forall g :: g in fields <==> g == f || g in fields[1..];
    }
  }
}
