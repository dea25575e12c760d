/** Printed Fluent bundles: what the parser makes of them, and what the scaffold looks like. */
module FtlBundles {
  import opened Options
  import opened Text
  import opened FtlPatterns
  import opened FtlShapes
  import opened FtlScaffold
  import opened FtlGenerator
  import opened FtlAgreement

  // ---------- The kinds of lines, as text ----------

  lemma {:induction false} CommentIs(ws: string, x: string)
    requires IsBlank(ws)
    ensures IsComment(ws + "#" + x)
  {
    var s := ws + "#" + x;
    if ws == "" {
      assert s[0] == '#';
      SpaceIsNoName('#');
    } else {
      assert IsSpace(ws[0]) && s[1..] == ws[1..] + "#" + x;
      CommentIs(ws[1..], x);
    }
  }

  lemma {:induction false} CommentShape(l: string) returns (ws: string, x: string)
    requires IsComment(l)
    ensures IsBlank(ws) && l == ws + "#" + x
  {
    if IsSpace(l[0]) {
      ws, x := CommentShape(l[1..]);
      assert l == [l[0]] + ws + "#" + x;
      ws := [l[0]] + ws;
    } else {
      ws, x := "", l[1..];
    }
  }

  /** Blanks, and then a character that is none, is no blank line; a comment if that is a `#`, else none. */
  lemma {:induction false} FirstVisible(ws: string, c: char, x: string)
    requires IsBlank(ws) && !IsSpace(c)
    ensures !IsBlank(ws + [c] + x) && (IsComment(ws + [c] + x) <==> c == '#')
  {
    var l := ws + [c] + x;
    assert l[|ws|] == c;
    if ws != "" {
      assert IsSpace(ws[0]) && l[1..] == ws[1..] + [c] + x;
      FirstVisible(ws[1..], c, x);
    }
  }

  /** The kind of a line, from its text. */
  lemma KindIs(before: string, name: string, ws: string, x: string)
    requires IsBlank(before) && IsName(name) && IsBlank(ws)
    ensures KindOf(before) == Blank
    ensures KindOf(before + "#" + x) == Comment
    ensures KindOf(before + "." + name + ws + "=" + x) == Attribute
    ensures KindOf(name + ws + "=" + x) == Key(name)
  {
    KindWithoutChomp(before);
    KindWithoutChomp(before + "#" + x);
    CommentIs(before, x);
    FirstVisible(before, '#', x);
    AttributeKind(before, name, ws, x);
    KeyKind(name, ws, x);
  }

  lemma AttributeKind(before: string, name: string, ws: string, x: string)
    requires IsBlank(before) && IsName(name) && IsBlank(ws)
    ensures KindOf(before + "." + name + ws + "=" + x) == Attribute
  {
    var l := before + "." + name + ws + "=" + x;
    KindWithoutChomp(l);
    AttributeIs(before, name, ws, x);
    SpaceIsNoName('.');
    FirstVisible(before, '.', name + ws + "=" + x);
    assert l == before + ['.'] + (name + ws + "=" + x);
  }

  lemma KeyKind(name: string, ws: string, x: string)
    requires IsName(name) && IsBlank(ws)
    ensures KindOf(name + ws + "=" + x) == Key(name)
  {
    var l := name + ws + "=" + x;
    NameParts(name);
    SpaceIsNoName(name[0]);
    hide *;
    KindWithoutChomp(l);
    KeyIs(name, ws, x);
    NothingBlank();
    FirstVisible("", name[0], name[1..] + ws + "=" + x);
    FirstOfName(name, ws, x);
    if IsAttribute(l) { AttributeIsNoKey(l); }
  }

  lemma FirstOfName(name: string, ws: string, x: string)
    requires name != ""
    ensures name + ws + "=" + x == "" + [name[0]] + (name[1..] + ws + "=" + x)
  {
  }

  lemma NothingBlank()
    ensures IsBlank("")
  {
  }

  /** And the text of a line, from its kind; every other line says nothing of its own. */
  lemma KindShape(l: string) returns (before: string, name: string, ws: string, x: string)
    ensures IsBlank(before) && IsBlank(ws)
    ensures match KindOf(l)
            case Blank => IsBlank(l)
            case Comment => l == before + "#" + x
            case Attribute => IsName(name) && l == before + "." + name + ws + "=" + x
            case Key(k) => IsName(k) && l == k + ws + "=" + x
            case Other => true
  {
    before, name, ws, x := "", "", "", "";
    KindWithoutChomp(l);
    match KindOf(l)
    case Blank =>
    case Comment => before, x := CommentShape(l);
    case Attribute => before, name, ws, x := AttributeShape(l);
    case Key(k) => ws, x := KeyShape(l);
    case Other =>
  }

  // ---------- Bundles ----------

  /** A message: its key line, the lines under it, and the blank lines behind. */
  datatype Paragraph = Paragraph(name: string, ws: string, value: string, more: seq<string>, blanks: nat)

  function Head(p: Paragraph): string {
    p.name + p.ws + "=" + (p.value + "\n")
  }

  function BlankLines(n: nat): (lines: seq<string>)
    ensures |lines| == n && forall l <- lines :: l == "\n"
  {
    seq(n, i => "\n")
  }

  function LinesOfOne(p: Paragraph): seq<string> {
    [Head(p)] + p.more + BlankLines(p.blanks)
  }

  function LinesOfAll(ps: seq<Paragraph>): seq<string> {
    if ps == [] then [] else LinesOfAll(ps[..|ps| - 1]) + LinesOfOne(ps[|ps| - 1])
  }

  /** A comment, an attribute or a continuation, with its line break. */
  ghost predicate Inner(l: string) {
    IsLine(l) && Terminated(l) && (KindOf(l) == Comment || KindOf(l) == Attribute || KindOf(l) == Other)
  }

  ghost predicate ProperParagraph(p: Paragraph) {
    && IsName(p.name) && p.name != "__blank__" && IsBlank(p.ws) && NoBreak(p.ws) && NoBreak(p.value)
    && forall l <- p.more :: Inner(l)
  }

  /** Proper paragraphs, of which no two neighbours have the same name. */
  ghost predicate ProperBundle(ps: seq<Paragraph>) {
    && (forall p <- ps :: ProperParagraph(p))
    && forall i :: 0 <= i < |ps| - 1 ==> ps[i].name != ps[i + 1].name
  }

  /** The attribute lines, or the others. */
  function Select(lines: seq<string>, attributes: bool): seq<string> {
    if lines == [] then []
    else
      Select(lines[..|lines| - 1], attributes)
      + if (KindOf(lines[|lines| - 1]) == Attribute) == attributes then [lines[|lines| - 1]] else []
  }

  /** The key line, the comments and continuations, and then the attributes. */
  function BlockLines(p: Paragraph): seq<string> {
    [Head(p)] + Select(p.more, false) + Select(p.more, true)
  }

  function Separators(n: nat): (blocks: seq<Block>)
    ensures |blocks| == n && forall b <- blocks :: b == Block("__blank__", [])
  {
    seq(n, i => Block("__blank__", []))
  }

  function BlocksOfAll(ps: seq<Paragraph>): seq<Block> {
    if ps == [] then []
    else
      var p := ps[|ps| - 1];
      BlocksOfAll(ps[..|ps| - 1]) + [Block(p.name, BlockLines(p))] + Separators(p.blanks)
  }

  lemma HeadIs(p: Paragraph)
    requires ProperParagraph(p)
    ensures KindOf(Head(p)) == Key(p.name) && IsLine(Head(p)) && Terminated(Head(p))
  {
    KeyKind(p.name, p.ws, p.value + "\n");
    var l := Head(p);
    assert l == (p.name + p.ws + "=" + p.value) + "\n";
    forall i | 0 <= i < |l| - 1 ensures !IsBreak(l[i]) && l[i] != '\r' {
      assert l[i] == (p.name + p.ws + "=" + p.value)[i];
      if i < |p.name| {
        assert l[i] == p.name[i];
      } else if i < |p.name| + |p.ws| {
        assert l[i] == p.ws[i - |p.name|];
      } else if i > |p.name| + |p.ws| {
        assert l[i] == p.value[i - |p.name| - |p.ws| - 1];
      }
    }
  }

  lemma {:induction false} HeaderFold(header: seq<string>)
    requires forall l <- header :: KindOf(l) == Comment
    ensures Fold(header) == State(header, [], None, [], [])
  {
    if header != [] {
      HeaderFold(header[..|header| - 1]);
      assert header == header[..|header| - 1] + [header[|header| - 1]];
    }
  }

  lemma {:induction false} FoldAppend(a: seq<string>, l: string)
    ensures Fold(a + [l]) == Step(Fold(a), l)
  {
    assert (a + [l])[..|a|] == a;
  }

  /** What a message has buffered before its blank lines. */
  lemma {:induction false} MoreFold(before: seq<string>, p: Paragraph, header: seq<string>, blocks: seq<Block>, k: nat)
    requires ProperParagraph(p) && k <= |p.more|
    requires Flush(Fold(before)).header == header && Flush(Fold(before)).blocks == blocks
    ensures Fold(before + [Head(p)] + p.more[..k]) ==
            State(header, blocks, Some(p.name), [Head(p)] + Select(p.more[..k], false), Select(p.more[..k], true))
  {
    hide KindOf, Flush;
    if k == 0 {
      HeadIs(p);
      FoldAppend(before, Head(p));
      assert before + [Head(p)] + p.more[..0] == before + [Head(p)];
      assert [Head(p)] + [] == [Head(p)];
    } else {
      MoreFold(before, p, header, blocks, k - 1);
      var l := p.more[k - 1];
      assert p.more[..k] == p.more[..k - 1] + [l];
      assert before + [Head(p)] + p.more[..k] == before + [Head(p)] + p.more[..k - 1] + [l];
      FoldAppend(before + [Head(p)] + p.more[..k - 1], l);
      assert Inner(l);
      assert [Head(p)] + Select(p.more[..k - 1], false) + [l] == [Head(p)] + (Select(p.more[..k - 1], false) + [l]);
    }
  }

  lemma {:induction false} BlanksFold(lines: seq<string>, n: nat)
    requires Fold(lines).key.Some?
    ensures var f, s := Flush(Fold(lines)), Flush(Fold(lines + BlankLines(n)));
            && s.header == f.header && s.key == f.key && s.key.Some? && s.blocks == f.blocks + Separators(n)
            && Fold(lines + BlankLines(n)).key.Some?
  {
    if n == 0 {
      assert lines + BlankLines(0) == lines;
      assert Flush(Fold(lines)).blocks + Separators(0) == Flush(Fold(lines)).blocks;
    } else {
      BlanksFold(lines, n - 1);
      NewlineIsBlank();
      assert lines + BlankLines(n) == lines + BlankLines(n - 1) + ["\n"];
      FoldAppend(lines + BlankLines(n - 1), "\n");
      assert Separators(n) == Separators(n - 1) + [Block("__blank__", [])];
    }
  }

  lemma LastKeyPast(blocks: seq<Block>, b: Block, n: nat)
    requires b.key != "__blank__"
    ensures LastKey(blocks + [b] + Separators(n)) == Some(b.key)
  {
    var all := blocks + [b] + Separators(n);
    if n == 0 {
      assert all[|all| - 1] == b;
    } else {
      LastKeyPast(blocks, b, n - 1);
      assert Separators(n)[..n - 1] == Separators(n - 1);
      assert all[..|all| - 1] == blocks + [b] + Separators(n - 1);
      assert all[|all| - 1] == Separators(n)[n - 1];
    }
  }

  lemma {:induction false} BundleFold(header: seq<string>, ps: seq<Paragraph>)
    requires (forall l <- header :: KindOf(l) == Comment) && ProperBundle(ps)
    ensures var s := Flush(Fold(header + LinesOfAll(ps)));
            && s.header == header && s.blocks == BlocksOfAll(ps)
            && LastKey(s.blocks) == if ps == [] then None else Some(ps[|ps| - 1].name)
  {
    if ps == [] {
      assert header + LinesOfAll(ps) == header;
      HeaderFold(header);
    } else {
      var init, p := ps[..|ps| - 1], ps[|ps| - 1];
      InitProper(ps);
      hide *;
      BundleFold(header, init);
      OneMore(header, header + LinesOfAll(init), BlocksOfAll(init), p);
      AllUnfold(header, ps);
    }
  }

  lemma InitProper(ps: seq<Paragraph>)
    requires ps != [] && ProperBundle(ps)
    ensures var init, p := ps[..|ps| - 1], ps[|ps| - 1];
            ProperBundle(init) && ProperParagraph(p) && (init != [] ==> init[|init| - 1].name != p.name)
  {
    var init := ps[..|ps| - 1];
    assert forall i :: 0 <= i < |init| ==> init[i] == ps[i];
  }

  lemma AllUnfold(header: seq<string>, ps: seq<Paragraph>)
    requires ps != []
    ensures var init, p := ps[..|ps| - 1], ps[|ps| - 1];
            && header + LinesOfAll(ps) == header + LinesOfAll(init) + LinesOfOne(p)
            && BlocksOfAll(ps) == BlocksOfAll(init) + [Block(p.name, BlockLines(p))] + Separators(p.blanks)
  {
    hide LinesOfOne, BlockLines, Separators;
  }

  lemma OneMore(header: seq<string>, before: seq<string>, blocks: seq<Block>, p: Paragraph)
    requires ProperParagraph(p) && Flush(Fold(before)).header == header && Flush(Fold(before)).blocks == blocks
    requires LastKey(blocks) != Some(p.name)
    ensures var s := Flush(Fold(before + LinesOfOne(p)));
            && s.header == header && s.key == Some(p.name) && LastKey(s.blocks) == Some(p.name)
            && s.blocks == blocks + [Block(p.name, BlockLines(p))] + Separators(p.blanks)
  {
    hide KindOf, Select, LastKey, Fold;
    MoreFold(before, p, header, blocks, |p.more|);
    assert p.more[..|p.more|] == p.more;
    BlanksFold(before + [Head(p)] + p.more, p.blanks);
    assert before + LinesOfOne(p) == before + [Head(p)] + p.more + BlankLines(p.blanks);
    LastKeyPast(blocks, Block(p.name, BlockLines(p)), p.blanks);
  }

  // ---------- Parsing a bundle ----------

  lemma {:induction false} BundleLines(ps: seq<Paragraph>)
    requires ProperBundle(ps)
    ensures forall l <- LinesOfAll(ps) :: IsLine(l) && Terminated(l)
  {
    if ps != [] {
      BundleLines(ps[..|ps| - 1]);
      var p := ps[|ps| - 1];
      HeadIs(p);
      NewlineIsBlank();
      hide KindOf, IsLine, Terminated;
      forall l <- LinesOfOne(p) ensures IsLine(l) && Terminated(l) {
        if l in p.more { assert Inner(l) && IsLine(l) && Terminated(l) by { InnerLine(p, l); } }
      }
    }
  }

  lemma InnerLine(p: Paragraph, l: string)
    requires ProperParagraph(p) && l in p.more
    ensures Inner(l) && IsLine(l) && Terminated(l)
  {
  }

  /** A bundle is collected into exactly its messages, in order, with a separator for each blank line: of each message
      the key line, then its comments and continuations, then its attributes. */
  lemma BundleCollected(header: seq<string>, ps: seq<Paragraph>)
    requires (forall l <- header :: IsLine(l) && Terminated(l) && KindOf(l) == Comment) && ProperBundle(ps)
    ensures Collect(Concat(header + LinesOfAll(ps))) == Parsed(header, BlocksOfAll(ps))
  {
    hide KindOf, Fold, Flush, LinesOfAll, BlocksOfAll;
    BundleLines(ps);
    var lines := header + LinesOfAll(ps);
    SplitConcat(lines);
    BundleFold(header, ps);
    CollectIs(Concat(lines));
  }

  lemma CollectIs(text: string)
    ensures var f := Flush(Fold(SplitLines(text))); Collect(text) == Parsed(f.header, f.blocks)
  {
  }

  lemma {:induction false} SelectedKinds(lines: seq<string>, attributes: bool)
    ensures forall l <- Select(lines, attributes) :: l in lines && ((KindOf(l) == Attribute) == attributes)
  {
    hide KindOf;
    if lines != [] { SelectedKinds(lines[..|lines| - 1], attributes); }
  }

  /** No comment and no continuation behind an attribute. */
  ghost predicate AttributesLast(lines: seq<string>) {
    forall i, j :: 0 <= i < j < |lines| && KindOf(lines[i]) == Attribute ==> KindOf(lines[j]) == Attribute
  }

  lemma SelectStep(lines: seq<string>, attributes: bool)
    ensures lines == [] ==> Select(lines, attributes) == []
    ensures lines != [] ==>
              var init, last := lines[..|lines| - 1], lines[|lines| - 1];
              Select(lines, attributes) ==
              if (KindOf(last) == Attribute) == attributes then Select(init, attributes) + [last]
              else Select(init, attributes)
  {
    hide KindOf;
  }

  lemma LastsInit(lines: seq<string>)
    requires AttributesLast(lines) && lines != []
    ensures var init := lines[..|lines| - 1];
            AttributesLast(init)
            && (KindOf(lines[|lines| - 1]) != Attribute && init != [] ==> KindOf(init[|init| - 1]) != Attribute)
  {
    hide KindOf;
  }

  lemma {:induction false} LastInOrder(lines: seq<string>)
    requires AttributesLast(lines)
    ensures Select(lines, false) + Select(lines, true) == lines
    ensures lines != [] && KindOf(lines[|lines| - 1]) != Attribute ==> Select(lines, true) == []
  {
    hide *;
    SelectStep(lines, false);
    SelectStep(lines, true);
    if lines != [] {
      var init, last := lines[..|lines| - 1], lines[|lines| - 1];
      LastsInit(lines);
      LastInOrder(init);
      Appended3(Select(init, false), Select(init, true), last);
      assert lines == init + [last];
      if KindOf(last) != Attribute && init == [] { SelectStep(init, true); }
    }
  }

  lemma Appended3(a: seq<string>, b: seq<string>, last: string)
    ensures a + (b + [last]) == (a + b) + [last]
    ensures b == [] ==> (a + [last]) + b == (a + b) + [last]
  {
  }

  /** The lines of a message keep their order if and only if no comment and no continuation stands behind an attribute:
      the value of an attribute that goes on in the next line is separated from it. */
  lemma OrderKeptIff(p: Paragraph)
    ensures BlockLines(p) == [Head(p)] + p.more <==> AttributesLast(p.more)
  {
    var a, b := Select(p.more, false), Select(p.more, true);
    assert BlockLines(p) == [Head(p)] + a + b;
    hide *;
    SelectedKinds(p.more, false);
    SelectedKinds(p.more, true);
    assert [Head(p)] + a + b == [Head(p)] + (a + b);
    assert ([Head(p)] + (a + b))[1..] == a + b && ([Head(p)] + p.more)[1..] == p.more;
    if AttributesLast(p.more) { LastInOrder(p.more); }
    if a + b == p.more { InTwoParts(p.more, a, b); }
  }

  lemma InTwoParts(lines: seq<string>, a: seq<string>, b: seq<string>)
    requires lines == a + b && (forall l <- a :: KindOf(l) != Attribute) && forall l <- b :: KindOf(l) == Attribute
    ensures AttributesLast(lines)
  {
    hide KindOf;
    forall k | 0 <= k < |lines| ensures KindOf(lines[k]) == Attribute <==> k >= |a| {
      if k < |a| { assert lines[k] == a[k]; } else { assert lines[k] == b[k - |a|]; }
    }
  }

  /** An attribute whose value stands on the next line. */
  lemma AttributeMoved()
    ensures var p := Paragraph("k", " ", " v", [".a =\n", "  x\n"], 0);
            ProperParagraph(p) && BlockLines(p) == ["k = v\n", "  x\n", ".a =\n"]
  {
    var p := Paragraph("k", " ", " v", [".a =\n", "  x\n"], 0);
    ALine(".a =\n");
    XLine("  x\n");
    HeadText(p);
    hide KindOf, IsLine, Terminated, Select, Head;
    SelectTwo(".a =\n", "  x\n");
  }

  lemma HeadText(p: Paragraph)
    requires p.name == "k" && p.ws == " " && p.value == " v"
    ensures Head(p) == "k = v\n" && IsName(p.name) && p.name != "__blank__"
    ensures IsBlank(p.ws) && NoBreak(p.ws) && NoBreak(p.value)
  {
  }

  lemma SelectTwo(a: string, b: string)
    requires KindOf(a) == Attribute && KindOf(b) != Attribute
    ensures Select([a, b], false) == [b] && Select([a, b], true) == [a]
  {
    hide KindOf;
    assert [a, b][..1] == [a] && [a][..0] == [];
    assert Select([], true) == [] && Select([], false) == [];
    assert Select([a], true) == [a] && Select([a], false) == [];
  }

  lemma ALine(l: string)
    requires l == ".a =\n"
    ensures KindOf(l) == Attribute && IsLine(l) && Terminated(l)
  {
    assert l == "" + "." + "a" + " " + "=" + "\n";
    AttributeKind("", "a", " ", "\n");
  }

  lemma XLine(l: string)
    requires l == "  x\n"
    ensures KindOf(l) == Other && IsLine(l) && Terminated(l)
  {
    KindWithoutChomp(l);
    FirstVisible("  ", 'x', "\n");
    assert l == "  " + ['x'] + "\n" && '=' !in l;
    NoEquals(l);
  }

  /** So the keys of a bundle are those of its messages, hyphens and all. */
  lemma {:induction false} KeysAre(ps: seq<Paragraph>)
    requires ProperBundle(ps)
    ensures forall k :: k in Keys(BlocksOfAll(ps)) <==> exists i :: 0 <= i < |ps| && ps[i].name == k
  {
    if ps != [] {
      var init, p := ps[..|ps| - 1], ps[|ps| - 1];
      KeysAre(init);
      var blocks := BlocksOfAll(init);
      var all := BlocksOfAll(ps);
      assert all == blocks + ([Block(p.name, BlockLines(p))] + Separators(p.blanks));
      assert ProperParagraph(p);
      forall k ensures k in Keys(all) <==> k in Keys(blocks) || k == p.name {
        KeysOfMore(blocks, p, k);
      }
      forall k ensures k in Keys(all) <==> exists i :: 0 <= i < |ps| && ps[i].name == k {
        if k == p.name { assert ps[|ps| - 1].name == k; }
        if k in Keys(blocks) {
          var i :| 0 <= i < |init| && init[i].name == k;
          assert ps[i].name == k;
        }
        if i :| 0 <= i < |ps| && ps[i].name == k {
          if i < |init| { assert init[i].name == k; }
        }
      }
    }
  }

  lemma KeysOfMore(blocks: seq<Block>, p: Paragraph, k: string)
    requires p.name != "__blank__"
    ensures k in Keys(blocks + ([Block(p.name, BlockLines(p))] + Separators(p.blanks))) <==>
            k in Keys(blocks) || k == p.name
  {
    var b := Block(p.name, BlockLines(p));
    var all := blocks + ([b] + Separators(p.blanks));
    assert b in all && b.key == p.name;
    if k in Keys(blocks) {
      var c :| c in blocks && c.key != "__blank__" && c.key == k;
      assert c in all;
    }
    if k in Keys(all) {
      var c :| c in all && c.key != "__blank__" && c.key == k;
      assert c in blocks || c == b || c in Separators(p.blanks);
    }
  }

  // ---------- The scaffold of a bundle ----------

  /** A comment is copied; behind the first `=` goes the sentinel, unless the value starts with it; a line without `=`
      gets it at the end. Whatever the line ended with, a line break follows. */
  lemma SegmentIs(l: string, p: string, x: string, sentinel: string)
    ensures IsComment(l) ==> Segment(l, sentinel) == l + "\n"
    ensures !IsComment(l) && '=' !in p && l == p + "=" + x ==>
              Segment(l, sentinel) ==
              if At(LStrip(x), 0, RStrip(sentinel)) then l + "\n" else p + "= " + sentinel + LStrip(x) + "\n"
    ensures !IsComment(l) && '=' !in l ==> Segment(l, sentinel) == RStrip(l) + " " + sentinel + "\n"
  {
    hide ScaffoldValueLine, IsComment, LStrip, RStrip, At;
    if '=' !in p && l == p + "=" + x {
      if At(LStrip(x), 0, RStrip(sentinel)) {
        Untouched(p, sentinel, x);
      } else {
        Inserted(p, sentinel, x);
        assert p + "=" + " " + sentinel + LStrip(x) == p + "= " + sentinel + LStrip(x);
      }
    }
    if '=' !in l { Appended(l, sentinel); }
  }

  function Segments(lines: seq<string>, sentinel: string): string {
    if lines == [] then "" else Segments(lines[..|lines| - 1], sentinel) + Segment(lines[|lines| - 1], sentinel)
  }

  function ScaffoldOf(ps: seq<Paragraph>, sentinel: string): string {
    if ps == [] then ""
    else
      var p := ps[|ps| - 1];
      ScaffoldOf(ps[..|ps| - 1], sentinel) + Segments(BlockLines(p), sentinel) + Newlines(p.blanks)
  }

  lemma {:induction false} AllPrinted(lines: seq<string>, sentinel: string)
    requires forall l <- lines :: !IsBlank(l)
    ensures PrintLines(lines, sentinel) == Segments(lines, sentinel)
  {
    if lines != [] { AllPrinted(lines[..|lines| - 1], sentinel); }
  }

  lemma {:induction false} Selected(lines: seq<string>, attributes: bool)
    ensures forall l <- Select(lines, attributes) :: l in lines
  {
    if lines != [] { Selected(lines[..|lines| - 1], attributes); }
  }

  lemma VisibleLines(p: Paragraph)
    requires ProperParagraph(p)
    ensures forall l <- BlockLines(p) :: !IsBlank(l)
  {
    HeadIs(p);
    Selected(p.more, false);
    Selected(p.more, true);
    forall l <- BlockLines(p) ensures !IsBlank(l) {
      KindWithoutChomp(l);
      if l != Head(p) { InnerLine(p, l); }
    }
  }

  lemma PrintOneMore(blocks: seq<Block>, b: Block, sentinel: string)
    ensures PrintBlocks(blocks + [b], sentinel) ==
            PrintBlocks(blocks, sentinel) + if b.key == "__blank__" then "\n" else PrintLines(b.lines, sentinel)
  {
    assert (blocks + [b])[..|blocks|] == blocks;
  }

  lemma {:induction false} PrintSeparators(blocks: seq<Block>, n: nat, sentinel: string)
    ensures PrintBlocks(blocks + Separators(n), sentinel) == PrintBlocks(blocks, sentinel) + Newlines(n)
  {
    hide PrintBlocks;
    if n == 0 {
      assert blocks + Separators(0) == blocks;
    } else {
      PrintSeparators(blocks, n - 1, sentinel);
      assert blocks + Separators(n) == blocks + Separators(n - 1) + [Block("__blank__", [])];
      PrintOneMore(blocks + Separators(n - 1), Block("__blank__", []), sentinel);
    }
  }

  lemma {:induction false} BlocksPrinted(ps: seq<Paragraph>, sentinel: string)
    requires ProperBundle(ps)
    ensures PrintBlocks(BlocksOfAll(ps), sentinel) == ScaffoldOf(ps, sentinel)
  {
    if ps != [] {
      var init, p := ps[..|ps| - 1], ps[|ps| - 1];
      InitProper(ps);
      AllUnfold([], ps);
      hide BlockLines, Segments, PrintBlocks, PrintLines, Separators, Newlines, BlocksOfAll, ProperBundle;
      BlocksPrinted(init, sentinel);
      VisibleLines(p);
      AllPrinted(BlockLines(p), sentinel);
      PrintOneMore(BlocksOfAll(init), Block(p.name, BlockLines(p)), sentinel);
      PrintSeparators(BlocksOfAll(init) + [Block(p.name, BlockLines(p))], p.blanks, sentinel);
    }
  }

  /** The scaffold of a bundle: five comments, the bundle's own, and then line for line its messages, each line as
      `SegmentIs` has it and each blank line as it was. */
  lemma BundleScaffold(header: seq<string>, ps: seq<Paragraph>, sentinel: string, hint: string)
    requires (forall l <- header :: IsLine(l) && Terminated(l) && KindOf(l) == Comment) && ProperBundle(ps)
    ensures Scaffold(Concat(header + LinesOfAll(ps)), sentinel, hint) ==
            Concat(Banner(hint)) + Concat(header) + ScaffoldOf(ps, sentinel)
  {
    BundleCollected(header, ps);
    hide *;
    ScaffoldUnfold(Concat(header + LinesOfAll(ps)), sentinel, hint);
    BlocksPrinted(ps, sentinel);
    ConcatAppend(Banner(hint), header);
  }

  /** The five comments, word for word. */
  lemma BannerIs(hint: string)
    ensures |Banner(hint)| == 5
    ensures Banner(hint)[0] == "# HINT (auto-generated by " + "translate-stub.py):\n"
    ensures Banner(hint)[1] == "#   " + (hint + "\n")
    ensures Banner(hint)[2] == "# Replace each `[TODO]` sentinel " + "below with the actual Indonesian\n"
    ensures Banner(hint)[3] == "# translation. Placeholders (e.g. " + "{ $count }) and select\n"
    ensures Banner(hint)[4] == "# expressions must be " + "preserved verbatim.\n"
  {
    BannerSize(hint);
    BannerFirst(hint);
    BannerHint(hint);
    BannerThird(hint);
    BannerFourth(hint);
    BannerLast(hint);
  }

  lemma BannerFirst(hint: string)
    ensures |Banner(hint)| == 5 && Banner(hint)[0] == "# HINT (auto-generated by " + "translate-stub.py):\n"
  {
    HashJoin(" HINT (auto-generated by ", "# HINT (auto-generated by ", "translate-stub.py):", "translate-stub.py):\n");
  }

  lemma BannerHint(hint: string)
    ensures |Banner(hint)| == 5 && Banner(hint)[1] == "#   " + (hint + "\n")
  {
    HashJoin("   ", "#   ", hint, hint + "\n");
  }

  lemma BannerThird(hint: string)
    ensures |Banner(hint)| == 5
    ensures Banner(hint)[2] == "# Replace each `[TODO]` sentinel " + "below with the actual Indonesian\n"
  {
    HashJoin(" Replace each `[TODO]` sentinel ", "# Replace each `[TODO]` sentinel ",
             "below with the actual Indonesian", "below with the actual Indonesian\n");
  }

  lemma BannerFourth(hint: string)
    ensures |Banner(hint)| == 5
    ensures Banner(hint)[3] == "# translation. Placeholders (e.g. " + "{ $count }) and select\n"
  {
    HashJoin(" translation. Placeholders (e.g. ", "# translation. Placeholders (e.g. ",
             "{ $count }) and select", "{ $count }) and select\n");
  }

  lemma BannerLast(hint: string)
    ensures |Banner(hint)| == 5 && Banner(hint)[4] == "# expressions must be " + "preserved verbatim.\n"
  {
    HashJoin(" expressions must be ", "# expressions must be ", "preserved verbatim.", "preserved verbatim.\n");
  }

  lemma HashJoin(a: string, a': string, b: string, b': string)
    requires a' == "#" + a && b' == b + "\n"
    ensures "#" + (a + b) + "\n" == a' + b'
  {
  }

  // ---------- What is counted ----------

  /** A line counts the placeholders and selects that begin in it, and itself if it is an attribute. */
  lemma TallyIs(l: string)
    ensures TallyOf(l).placeholders == |set i | 0 <= i < |l| && Reference(l[i..], Brace)|
    ensures TallyOf(l).selects == |set i | 0 <= i < |l| && Reference(l[i..], Arrow)|
    ensures TallyOf(l).attributes == if IsAttribute(l) then 1 else 0
  {
    CountIs(l, Brace);
    CountIs(l, Arrow);
    AttributeLStrip(l);
  }

  /** And the lines of a message are added up. */
  lemma {:induction false} TallyAdds(a: seq<string>, l: string)
    ensures TallyAll([]) == Tally(0, 0, 0)
    ensures TallyAll(a + [l]).placeholders == TallyAll(a).placeholders + TallyOf(l).placeholders
    ensures TallyAll(a + [l]).selects == TallyAll(a).selects + TallyOf(l).selects
    ensures TallyAll(a + [l]).attributes == TallyAll(a).attributes + TallyOf(l).attributes
  {
    TallyAppend(a, [l]);
    TallyOne(l);
  }

  // ---------- What the validator reports ----------

  /** The block of a key that counts is the first with that key. */
  lemma {:induction false} FirstLinesIs(blocks: seq<Block>, i: nat)
    requires i < |blocks| && forall j :: 0 <= j < i ==> blocks[j].key != blocks[i].key
    ensures FirstLines(blocks, blocks[i].key) == blocks[i].lines
  {
    if i > 0 { FirstLinesIs(blocks[1..], i - 1); }
  }

  lemma {:induction false} NoLinesWithout(blocks: seq<Block>, key: string)
    requires forall b <- blocks :: b.key != key
    ensures FirstLines(blocks, key) == []
  {
    if blocks != [] { NoLinesWithout(blocks[1..], key); }
  }

  /** A drift of the block is reported, with the count of the source and that of the scaffold. */
  ghost predicate Drifted(f: Failure, b: Block, tgt: seq<Block>) {
    var s, t := TallyAll(b.lines), TallyAll(FirstLines(tgt, b.key));
    match f
    case PlaceholderDrift(key, x, y) => key == b.key && x == s.placeholders && y == t.placeholders && x != y
    case SelectDrift(key, x, y) => key == b.key && x == s.selects && y == t.selects && x != y
    case AttributeDrift(key, x, y) => key == b.key && x == s.attributes && y == t.attributes && x != y
    case _ => false
  }

  lemma DriftIs(f: Failure, b: Block, tgt: seq<Block>)
    ensures f in Drift(b.key, TallyAll(b.lines), TallyAll(FirstLines(tgt, b.key))) <==> Drifted(f, b, tgt)
  {
  }

  ghost predicate SomeDrifted(f: Failure, src: seq<Block>, tgt: seq<Block>) {
    exists b :: b in src && b.key != "__blank__" && Drifted(f, b, tgt)
  }

  lemma SomeOf(f: Failure, init: seq<Block>, last: Block, tgt: seq<Block>)
    ensures SomeDrifted(f, init + [last], tgt) <==>
            SomeDrifted(f, init, tgt) || (last.key != "__blank__" && Drifted(f, last, tgt))
    ensures !SomeDrifted(f, [], tgt)
  {
    hide Drifted;
    if SomeDrifted(f, init, tgt) {
      var b :| b in init && b.key != "__blank__" && Drifted(f, b, tgt);
      assert b in init + [last];
    }
    assert last in init + [last];
  }

  lemma DriftsStep(src: seq<Block>, tgt: seq<Block>)
    ensures src == [] ==> Drifts(src, tgt) == []
    ensures src != [] ==>
              var init, last := src[..|src| - 1], src[|src| - 1];
              Drifts(src, tgt) ==
              Drifts(init, tgt) + if last.key == "__blank__" then []
              else Drift(last.key, TallyAll(last.lines), TallyAll(FirstLines(tgt, last.key)))
  {
    hide Drift, TallyAll, FirstLines;
  }

  lemma {:induction false} DriftsAre(f: Failure, src: seq<Block>, tgt: seq<Block>)
    ensures f in Drifts(src, tgt) <==> SomeDrifted(f, src, tgt)
  {
    hide *;
    DriftsStep(src, tgt);
    if src == [] {
      SomeOf(f, [], Block("", []), tgt);
    } else {
      var init, last := src[..|src| - 1], src[|src| - 1];
      DriftsAre(f, init, tgt);
      DriftIs(f, last, tgt);
      SomeOf(f, init, last, tgt);
      assert src == init + [last];
    }
  }

  /** Exactly these are reported: a scaffold that is the source; the keys of the one that are not in the other, each
      way; and each count of a message that differs. */
  lemma FailuresAre(source: string, scaffold: string, f: Failure)
    ensures var src, tgt := Collect(source).blocks, Collect(scaffold).blocks;
            f in Failures(source, scaffold) <==>
            match f
            case Identical => scaffold == source
            case KeysMissing(keys) =>
              keys != {} && forall k :: k in keys <==> k in Keys(src) && k !in Keys(tgt)
            case KeysAdded(keys) =>
              keys != {} && forall k :: k in keys <==> k in Keys(tgt) && k !in Keys(src)
            case _ => SomeDrifted(f, src, tgt)
    ensures forall k :: k in Keys(Collect(source).blocks) <==>
                        k != "__blank__" && exists b :: b in Collect(source).blocks && b.key == k
  {
    var src, tgt := Collect(source).blocks, Collect(scaffold).blocks;
    hide Collect, Drifts, SomeDrifted, Keys;
    DriftsAre(f, src, tgt);
    if f.Identical? || f.KeysMissing? || f.KeysAdded? { NoOtherDrift(f, src, tgt); }
    KeysUnfold(src);
    var a, b := Keys(src), Keys(tgt);
    if f.KeysMissing? && (forall k :: k in f.keys <==> k in a && k !in b) { assert f.keys == a - b; }
    if f.KeysAdded? && (forall k :: k in f.keys <==> k in b && k !in a) { assert f.keys == b - a; }
  }

  lemma NoOtherDrift(f: Failure, src: seq<Block>, tgt: seq<Block>)
    requires f.Identical? || f.KeysMissing? || f.KeysAdded?
    ensures !SomeDrifted(f, src, tgt)
  {
  }

  lemma KeysUnfold(blocks: seq<Block>)
    ensures forall k :: k in Keys(blocks) <==> k != "__blank__" && exists b :: b in blocks && b.key == k
  {
  }
}
