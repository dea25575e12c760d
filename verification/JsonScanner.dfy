/** The JSON-in-Rust scanners of the client type checker: index loops over the raw text. What counts as
    an alphanumeric character is the Unicode table's business and comes in as `alnum`. */
module JsonScanner {
  import opened Options
  import opened Text

  type CharClass = char -> bool

  // ---------- Skipping a string ----------

  /** From inside a string: the index behind its closing quote, or no result where the scanner raises. */
  function StringEnd(text: string, i: nat): (r: Option<nat>)
    ensures r.Some? ==> i < r.value <= |text|
    decreases |text| - i
  {
    if i >= |text| then None
    else if text[i] == '\\' then StringEnd(text, i + 2)
    else if text[i] == '"' then Some(i + 1)
    else StringEnd(text, i + 1)
  }

  method SkipString(text: string, start: nat) returns (r: Option<nat>)
    requires start < |text|
    ensures r == StringEnd(text, start + 1)
  {
    var i := start + 1;
    while i < |text|
      invariant StringEnd(text, i) == StringEnd(text, start + 1)
      decreases |text| - i
    {
      if text[i] == '\\' {
        i := i + 2;
        continue;
      }
      if text[i] == '"' { return Some(i + 1); }
      i := i + 1;
    }
    return None;
  }

  // ---------- Macros ----------

  predicate MacroStart(alnum: CharClass, text: string, i: nat) {
    && i + 1 < |text| && text[i + 1] == '!'
    && !(i + 2 < |text| && (alnum(text[i + 2]) || text[i + 2] == '_'))
    && (i == 0 || i > |text| || !(alnum(text[i - 1]) || text[i - 1] == '_'))
  }

  function FindParen(text: string, j: nat): (r: nat)
    ensures r >= j
    decreases |text| - j
  {
    if j < |text| && text[j] != '(' then FindParen(text, j + 1) else j
  }

  function ParensEnd(text: string, j: nat, depth: int): (r: Option<nat>)
    ensures r.Some? ==> j < r.value <= |text|
    decreases |text| - j
  {
    if j >= |text| then None
    else if text[j] == '"' then
      match StringEnd(text, j + 1)
      case None => None
      case Some(k) => ParensEnd(text, k, depth)
    else if text[j] == '(' then ParensEnd(text, j + 1, depth + 1)
    else if text[j] == ')' then (if depth - 1 == 0 then Some(j + 1) else ParensEnd(text, j + 1, depth - 1))
    else ParensEnd(text, j + 1, depth)
  }

  function MacroEnd(text: string, i: nat): (r: Option<nat>)
    requires i < |text|
    ensures r.Some? ==> i < r.value <= |text|
  {
    var j := FindParen(text, i + 1);
    if j >= |text| then Some(i + 1) else ParensEnd(text, j, 0)
  }

  method SkipMacro(text: string, i: nat) returns (r: Option<nat>)
    requires i < |text|
    ensures r == MacroEnd(text, i)
  {
    var j := i + 1;
    while j < |text| && text[j] != '('
      invariant FindParen(text, j) == FindParen(text, i + 1)
    {
      j := j + 1;
    }
    if j >= |text| { return Some(i + 1); }
    ghost var open := j;
    var depth := 0;
    while j < |text|
      invariant ParensEnd(text, j, depth) == ParensEnd(text, open, 0)
      decreases |text| - j
    {
      if text[j] == '"' {
        var k := SkipString(text, j);
        if k.None? { return None; }
        j := k.value;
        continue;
      }
      if text[j] == '(' {
        depth := depth + 1;
      } else if text[j] == ')' {
        depth := depth - 1;
        if depth == 0 { return Some(j + 1); }
      }
      j := j + 1;
    }
    return None;
  }

  // ---------- Depth tracking ----------

  /** `_balanced` counts braces only, `_skip_value` braces and brackets together. */
  datatype Delimiters = Braces | Both

  predicate Opens(d: Delimiters, c: char) {
    c == '{' || (d.Both? && c == '[')
  }

  predicate Closes(d: Delimiters, c: char) {
    c == '}' || (d.Both? && c == ']')
  }

  function Track(alnum: CharClass, d: Delimiters, text: string, i: nat, depth: int): (r: Option<nat>)
    ensures r.Some? ==> i < r.value <= |text|
    decreases |text| - i
  {
    if i >= |text| then None
    else if text[i] == '"' then
      match StringEnd(text, i + 1)
      case None => None
      case Some(j) => Track(alnum, d, text, j, depth)
    else if MacroStart(alnum, text, i) then
      match MacroEnd(text, i)
      case None => None
      case Some(j) => Track(alnum, d, text, j, depth)
    else if Opens(d, text[i]) then Track(alnum, d, text, i + 1, depth + 1)
    else if Closes(d, text[i]) then (if depth - 1 == 0 then Some(i + 1) else Track(alnum, d, text, i + 1, depth - 1))
    else Track(alnum, d, text, i + 1, depth)
  }

  method TrackLoop(alnum: CharClass, d: Delimiters, text: string, start: nat) returns (r: Option<nat>)
    ensures r == Track(alnum, d, text, start, 0)
  {
    var i, depth := start, 0;
    while i < |text|
      invariant Track(alnum, d, text, i, depth) == Track(alnum, d, text, start, 0)
      decreases |text| - i
    {
      if text[i] == '"' {
        var j := SkipString(text, i);
        if j.None? { return None; }
        i := j.value;
        continue;
      }
      if MacroStart(alnum, text, i) {
        var j := SkipMacro(text, i);
        if j.None? { return None; }
        i := j.value;
        continue;
      }
      if Opens(d, text[i]) {
        depth := depth + 1;
      } else if Closes(d, text[i]) {
        depth := depth - 1;
        if depth == 0 { return Some(i + 1); }
      }
      i := i + 1;
    }
    return None;
  }

  /** The inside of the object whose opening brace is at `start`. */
  method ObjectBody(alnum: CharClass, text: string, start: nat) returns (r: Option<string>)
    requires start < |text|
    ensures r == match Track(alnum, Braces, text, start, 0)
                 case None => None
                 case Some(end) => if end - 1 >= start + 1 then Some(text[start + 1..end - 1]) else Some("")
  {
    var end := TrackLoop(alnum, Braces, text, start);
    if end.None? { return None; }
    return Some(if end.value - 1 >= start + 1 then text[start + 1..end.value - 1] else "");
  }

  // ---------- Skipping a value ----------

  predicate Separates(c: char) {
    c == ',' || c == '}' || c == ']'
  }

  function ScalarEnd(body: string, i: nat): (r: nat)
    requires i <= |body|
    ensures i <= r <= |body| && (i < |body| ==> r > i)
    decreases |body| - i
  {
    if i >= |body| then |body| else if Separates(body[i]) then i + 1 else ScalarEnd(body, i + 1)
  }

  function ValueEnd(alnum: CharClass, body: string, i: nat): (r: Option<nat>)
    ensures r.Some? ==> r.value <= |body| && (i < |body| ==> i < r.value)
  {
    if i >= |body| then Some(|body|)
    else if body[i] == '"' then StringEnd(body, i + 1)
    else if MacroStart(alnum, body, i) then MacroEnd(body, i)
    else if !Opens(Both, body[i]) then Some(ScalarEnd(body, i))
    else Track(alnum, Both, body, i, 0)
  }

  method SkipValue(alnum: CharClass, body: string, start: nat) returns (r: Option<nat>)
    ensures r == ValueEnd(alnum, body, start)
  {
    if start >= |body| { return Some(|body|); }
    if body[start] == '"' {
      r := SkipString(body, start);
      return;
    }
    if MacroStart(alnum, body, start) {
      r := SkipMacro(body, start);
      return;
    }
    if !Opens(Both, body[start]) {
      var i := start;
      while i < |body| && !Separates(body[i])
        invariant i <= |body| && ScalarEnd(body, i) == ScalarEnd(body, start)
      {
        i := i + 1;
      }
      return Some(if i < |body| then i + 1 else |body|);
    }
    r := TrackLoop(alnum, Both, body, start);
  }

  // ---------- The members of an object ----------

  /** A member's name, or none for a string that is not a key, and its value's text. */
  datatype Member = Member(name: Option<string>, value: string)

  function SkipSpaces(body: string, k: nat): (r: nat)
    requires k <= |body|
    ensures k <= r <= |body|
    decreases |body| - k
  {
    if k < |body| && IsSpace(body[k]) then SkipSpaces(body, k + 1) else k
  }

  lemma SkipOne(body: string, k: nat)
    requires k <= |body|
    ensures SkipSpaces(body, k) == if k < |body| && IsSpace(body[k]) then SkipSpaces(body, k + 1) else k
  {
  }

  function Prepend(m: Member, rest: Option<seq<Member>>): Option<seq<Member>> {
    match rest
    case None => None
    case Some(ms) => Some([m] + ms)
  }

  function Members(alnum: CharClass, body: string, i: nat): Option<seq<Member>>
    decreases |body| - i
  {
    if i >= |body| then Some([])
    else if IsSpace(body[i]) || Separates(body[i]) then Members(alnum, body, i + 1)
    else if MacroStart(alnum, body, i) then
      match MacroEnd(body, i)
      case None => None
      case Some(j) => Members(alnum, body, j)
    else if body[i] == '"' then
      match StringEnd(body, i + 1)
      case None => None
      case Some(j) =>
        var k := SkipSpaces(body, j);
        if k < |body| && body[k] == ':' then
          var v := SkipSpaces(body, k + 1);
          match ValueEnd(alnum, body, v)
          case None => None
          case Some(e) => Prepend(Member(Some(body[i + 1..j - 1]), if v <= e then body[v..e] else ""),
                                  Members(alnum, body, e))
        else Prepend(Member(None, body[i..j]), Members(alnum, body, j))
    else
      match ValueEnd(alnum, body, i)
      case None => None
      case Some(j) => Members(alnum, body, j)
  }

  lemma AtString(alnum: CharClass, body: string, i: nat)
    requires i < |body| && body[i] == '"' && !MacroStart(alnum, body, i)
    ensures var end := StringEnd(body, i + 1);
            end.None? ==> Members(alnum, body, i) == None
    ensures var end := StringEnd(body, i + 1);
            end.Some? ==>
              var j := end.value;
              var k := SkipSpaces(body, j);
              i + 1 < j <= |body|
              && Members(alnum, body, i) ==
                 if k < |body| && body[k] == ':' then
                   var v := SkipSpaces(body, k + 1);
                   match ValueEnd(alnum, body, v)
                   case None => None
                   case Some(e) =>
                     Prepend(Member(Some(body[i + 1..j - 1]), if v <= e then body[v..e] else ""),
                             Members(alnum, body, e))
                 else Prepend(Member(None, body[i..j]), Members(alnum, body, j))
  {
    hide MacroEnd, MacroStart, Track, ScalarEnd, ValueEnd, StringEnd, SkipSpaces;
  }

  lemma ValueEndAfter(alnum: CharClass, body: string, v: nat)
    requires v <= |body|
    ensures var e := ValueEnd(alnum, body, v); e.Some? ==> v <= e.value <= |body|
  {
    hide MacroEnd, MacroStart, Track, ScalarEnd, StringEnd;
  }

  /** The branch of the loop that has found a string. */
  method NextMember(alnum: CharClass, body: string, i: nat) returns (m: Option<Member>, next: nat)
    requires i < |body| && body[i] == '"' && !MacroStart(alnum, body, i)
    ensures m.Some? ==> i < next <= |body|
    ensures Members(alnum, body, i) == if m.None? then None else Prepend(m.value, Members(alnum, body, next))
  {
    hide *;
    AtString(alnum, body, i);
    var j := SkipString(body, i);
    if j.None? { return None, i; }
    var name := body[i + 1..j.value - 1];
    var k := j.value;
    while k < |body| && IsSpace(body[k])
      invariant j.value <= k <= |body| && SkipSpaces(body, k) == SkipSpaces(body, j.value)
    {
      SkipOne(body, k);
      k := k + 1;
    }
    SkipOne(body, k);
    if k < |body| && body[k] == ':' {
      k := k + 1;
      ghost var colon := k;
      while k < |body| && IsSpace(body[k])
        invariant colon <= k <= |body| && SkipSpaces(body, k) == SkipSpaces(body, colon)
      {
        SkipOne(body, k);
        k := k + 1;
      }
      SkipOne(body, k);
      var e := SkipValue(alnum, body, k);
      if e.None? { return None, i; }
      ValueEndAfter(alnum, body, k);
      return Some(Member(Some(name), body[k..e.value])), e.value;
    }
    return Some(Member(None, body[i..j.value])), j.value;
  }

  method TopLevelMembers(alnum: CharClass, body: string) returns (r: Option<seq<Member>>)
    ensures r == Members(alnum, body, 0)
  {
    hide SkipSpaces, ValueEnd, StringEnd, MacroEnd, IsSpace;
    var out: seq<Member> := [];
    var i := 0;
    ResumeNone(Members(alnum, body, 0));
    while i < |body|
      invariant Members(alnum, body, 0) == Resume(out, Members(alnum, body, i))
      decreases |body| - i
    {
      if IsSpace(body[i]) || Separates(body[i]) {
        i := i + 1;
        continue;
      }
      if MacroStart(alnum, body, i) {
        var j := SkipMacro(body, i);
        if j.None? { return None; }
        i := j.value;
        continue;
      }
      if body[i] == '"' {
        var m, next := NextMember(alnum, body, i);
        if m.None? { return None; }
        ResumeOne(out, m.value, Members(alnum, body, next));
        out := out + [m.value];
        i := next;
        continue;
      }
      var j := SkipValue(alnum, body, i);
      if j.None? { return None; }
      i := j.value;
    }
    assert out + [] == out;
    return Some(out);
  }

  lemma ResumeNone(rest: Option<seq<Member>>)
    ensures Resume([], rest) == rest
  {
    if rest.Some? { assert [] + rest.value == rest.value; }
  }

  function Resume(out: seq<Member>, rest: Option<seq<Member>>): Option<seq<Member>> {
    match rest
    case None => None
    case Some(ms) => Some(out + ms)
  }

  lemma ResumeOne(out: seq<Member>, m: Member, rest: Option<seq<Member>>)
    ensures Resume(out, Prepend(m, rest)) == Resume(out + [m], rest)
  {
    if rest.Some? { assert out + ([m] + rest.value) == out + [m] + rest.value; }
  }
}
