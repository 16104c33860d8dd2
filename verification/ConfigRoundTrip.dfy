/** Which trees a configuration text can denote, and that parsing undoes printing for
    every layout: any indentation characters, any widths, any padding with spaces, and
    lines without a ':' at the indentation of a node. */
module ConfigRoundTrip {
  import opened Text
  import opened ConfigTree
  import opened ConfigLine
  import opened ConfigMeaning

  // ---------------------------------------------------------------- layouts

  /** A tree with the text it is printed with. `lead` indents the node's own line, `width`
      is the indentation of its children; `remarks` are lines without a ':' in front of
      its own line, `closing` behind its children. */
  datatype Laid = Laid(name: string, value: string, lead: string,
                       after: string, before: string, behind: string,
                       width: nat, kids: seq<Laid>, remarks: seq<string>, closing: seq<string>)

  function LineOf(t: Laid): string {
    t.lead + (t.name + t.after + ":" + (t.before + t.value + t.behind))
  }

  /** One line a node, each node in front of its children. */
  function RenderLines(ts: seq<Laid>): seq<string> {
    if ts == [] then []
    else ts[0].remarks + ([LineOf(ts[0])] + (RenderLines(ts[0].kids) + (ts[0].closing + RenderLines(ts[1..]))))
  }

  function Erase(ts: seq<Laid>): (r: seq<Tree>)
    ensures |r| == |ts|
  {
    if ts == [] then [] else [EraseOne(ts[0])] + Erase(ts[1..])
  }

  function EraseOne(t: Laid): Tree {
    Tree(t.name, t.value, Erase(t.kids))
  }

  predicate GoodName(s: string) {
    s != "" && NameForm(s) && '\n' !in s
  }

  predicate GoodValue(s: string) {
    ValueForm(s) && '\n' !in s
  }

  predicate GoodLine(t: Laid, width: nat) {
    && GoodName(t.name) && GoodValue(t.value)
    && Blank(t.lead) && |t.lead| == width
    && Spaces(t.after) && Spaces(t.before) && Spaces(t.behind)
  }

  /** A line without a ':' that is indented by `width`. */
  predicate Remark(line: string, width: nat) {
    ':' !in line && '\n' !in line && width <= |line| && Blank(line[..width]) && Unblank(line[width..])
  }

  predicate AllRemarks(ls: seq<string>, width: nat) {
    forall i | 0 <= i < |ls| :: Remark(ls[i], width)
  }

  /** Siblings are indented by `width`, children deeper than their parent. */
  predicate WellLaid(ts: seq<Laid>, width: nat) {
    ts != [] ==>
      && GoodLine(ts[0], width)
      && AllRemarks(ts[0].remarks, width) && AllRemarks(ts[0].closing, width)
      && (ts[0].kids != [] ==> ts[0].width > width)
      && WellLaid(ts[0].kids, ts[0].width)
      && WellLaid(ts[1..], width)
  }

  // ---------------------------------------------------------------- what the parser sees

  lemma LineParses(t: Laid, width: nat)
    requires GoodLine(t, width)
    ensures Digest([LineOf(t)]) == [Line(width, Some((t.name, t.value)))] && '\n' !in LineOf(t)
  {
    ShapeParses(LineOf(t), t.name, t.value, t.lead, t.after, t.before, t.behind);
    assert [LineOf(t)][1..] == [];
    NoNewline(t.lead, t.name + t.after, t.before + t.value + t.behind);
  }

  lemma NoNewline(lead: string, left: string, right: string)
    requires '\n' !in lead && '\n' !in left && '\n' !in right
    ensures '\n' !in lead + (left + ":" + right)
  {}

  function Remarks(n: nat, width: nat): seq<Line> {
    seq(n, _ => Line(width, None))
  }

  lemma {:induction false} RemarksParse(ls: seq<string>, width: nat)
    requires AllRemarks(ls, width)
    ensures Digest(ls) == Remarks(|ls|, width) && forall l | l in ls :: '\n' !in l
  {
    if ls != [] {
      RemarkParses(ls[0], width);
      RemarksParse(ls[1..], width);
    }
  }

  lemma RemarkParses(line: string, width: nat)
    requires Remark(line, width)
    ensures Indent(line) == width && EntryOf(line) == None
  {
    IndentOf(line[..width], line[width..]);
    assert line[..width] + line[width..] == line;
    EntryIsRead(line);
  }

  function Outline(ts: seq<Laid>, width: nat): seq<Line> {
    if ts == [] then []
    else Remarks(|ts[0].remarks|, width)
         + ([Line(width, Some((ts[0].name, ts[0].value)))]
            + (Outline(ts[0].kids, ts[0].width) + (Remarks(|ts[0].closing|, width) + Outline(ts[1..], width))))
  }

  lemma {:induction false} DigestConcat(a: seq<string>, b: seq<string>)
    ensures Digest(a + b) == Digest(a) + Digest(b)
  {
    if a == [] {
      assert a + b == b;
    } else {
      assert (a + b)[1..] == a[1..] + b;
      DigestConcat(a[1..], b);
    }
  }

  lemma {:induction false} OutlineOf(ts: seq<Laid>, width: nat)
    requires WellLaid(ts, width)
    ensures Digest(RenderLines(ts)) == Outline(ts, width)
    ensures forall l | l in RenderLines(ts) :: '\n' !in l
  {
    if ts != [] {
      var t, rest := ts[0], RenderLines(ts[1..]);
      LineParses(t, width);
      RemarksParse(t.remarks, width);
      RemarksParse(t.closing, width);
      OutlineOf(t.kids, t.width);
      OutlineOf(ts[1..], width);
      DigestConcat(t.closing, rest);
      DigestConcat(RenderLines(t.kids), t.closing + rest);
      DigestConcat([LineOf(t)], RenderLines(t.kids) + (t.closing + rest));
      DigestConcat(t.remarks, [LineOf(t)] + (RenderLines(t.kids) + (t.closing + rest)));
    }
  }

  // ---------------------------------------------------------------- what it makes of it

  predicate NotDeeper(ls: seq<Line>, width: nat) {
    ls == [] || ls[0].indent <= width
  }

  lemma WithLastErased(kids: seq<Tree>, t: Laid)
    ensures WithLastChildren(kids + [Tree(t.name, t.value, [])], Erase(t.kids)) == kids + [EraseOne(t)]
  {
    var ks := kids + [Tree(t.name, t.value, [])];
    assert ks[..|ks| - 1] == kids;
  }

  lemma ParseLine(line: Line, kids: seq<Tree>, bare: bool, below: seq<Line>)
    requires line.entry.Some? && (!bare ==> kids != [])
    ensures Parse([line] + below, line.indent, kids, bare)
         == Parse(below, line.indent, kids + [Tree(line.entry.value.0, line.entry.value.1, [])], false)
  {
    assert ([line] + below)[1..] == below;
  }

  lemma {:induction false} ParseRemarks(n: nat, width: nat, kids: seq<Tree>, bare: bool, below: seq<Line>)
    requires !bare ==> kids != []
    ensures Parse(Remarks(n, width) + below, width, kids, bare) == Parse(below, width, kids, bare)
  {
    if n == 0 {
      assert Remarks(n, width) + below == below;
    } else {
      assert (Remarks(n, width) + below)[1..] == Remarks(n - 1, width) + below;
      ParseRemarks(n - 1, width, kids, bare, below);
    }
  }

  lemma OutlineHead(ts: seq<Laid>, width: nat, rest: seq<Line>)
    requires ts != []
    ensures Outline(ts, width) + rest
         == Remarks(|ts[0].remarks|, width)
            + ([Line(width, Some((ts[0].name, ts[0].value)))]
               + (Outline(ts[0].kids, ts[0].width)
                  + (Remarks(|ts[0].closing|, width) + (Outline(ts[1..], width) + rest))))
  {
    var line, kids := [Line(width, Some((ts[0].name, ts[0].value)))], Outline(ts[0].kids, ts[0].width);
    var front, end, more := Remarks(|ts[0].remarks|, width), Remarks(|ts[0].closing|, width), Outline(ts[1..], width);
    Assoc(front, line + (kids + (end + more)), rest);
    Assoc(line, kids + (end + more), rest);
    Assoc(kids, end + more, rest);
    Assoc(end, more, rest);
  }

  /** Parsing the printed form of `ts` at its own indentation appends `ts`. */
  lemma {:induction false} ParseOutline(ts: seq<Laid>, width: nat, kids: seq<Tree>, bare: bool, rest: seq<Line>)
    requires WellLaid(ts, width) && NotDeeper(rest, width) && (!bare ==> kids != [])
    ensures Parse(Outline(ts, width) + rest, width, kids, bare) == Parse(rest, width, kids + Erase(ts), bare && ts == [])
    ensures NotDeeper(Outline(ts, width) + rest, width)
    decreases ts
  {
    if ts == [] {
      assert Outline(ts, width) + rest == rest && kids + Erase(ts) == kids;
    } else {
      var t := ts[0];
      var next := Outline(ts[1..], width) + rest;
      var end := Remarks(|t.closing|, width) + next;
      var line := Line(width, Some((t.name, t.value)));
      OutlineHead(ts, width, rest);
      ParseRemarks(|t.remarks|, width, kids, bare, [line] + (Outline(t.kids, t.width) + end));
      ParseLine(line, kids, bare, Outline(t.kids, t.width) + end);
      ParseOutline(ts[1..], width, kids + [EraseOne(t)], false, rest);
      ParseBelow(t, width, kids, end);
      ParseRemarks(|t.closing|, width, kids + [EraseOne(t)], false, next);
      Assoc(kids, [EraseOne(t)], Erase(ts[1..]));
    }
  }

  /** The printed children of the last node become its children. */
  lemma {:induction false} ParseBelow(t: Laid, width: nat, kids: seq<Tree>, next: seq<Line>)
    requires WellLaid(t.kids, t.width) && (t.kids != [] ==> t.width > width) && NotDeeper(next, width)
    ensures Parse(Outline(t.kids, t.width) + next, width, kids + [Tree(t.name, t.value, [])], false)
         == Parse(next, width, kids + [EraseOne(t)], false)
    decreases t
  {
    var below, cs := Outline(t.kids, t.width) + next, Erase(t.kids);
    if t.kids == [] {
      assert below == next;
    } else {
      ParseOutline(t.kids, t.width, [], true, next);
      FirstIsAt(t.kids, t.width, next);
      assert [] + cs == cs;
      assert Parse(next, t.width, cs, false) == (cs, next);
      WithLastErased(kids, t);
    }
  }

  lemma FirstIsAt(ts: seq<Laid>, width: nat, next: seq<Line>)
    requires ts != []
    ensures var ls := Outline(ts, width) + next; ls != [] && ls[0].indent == width
  {
    assert ts[0].remarks == [] ==> Outline(ts, width)[0] == Line(width, Some((ts[0].name, ts[0].value)));
  }

  /** Round trip: config_parse rebuilds every tree from every layout of it. */
  lemma RoundTrip(ts: seq<Laid>)
    requires WellLaid(ts, 0)
    ensures ParseText(Unlines(RenderLines(ts))) == Erase(ts)
  {
    OutlineOf(ts, 0);
    LinesOfUnlines(RenderLines(ts), "");
    assert Unlines(RenderLines(ts)) + "" == Unlines(RenderLines(ts));
    ParseOutline(ts, 0, [], true, []);
    assert Outline(ts, 0) + [] == Outline(ts, 0);
    assert [] + Erase(ts) == Erase(ts);
  }

  // ---------------------------------------------------------------- which trees

  ghost predicate GoodTrees(ts: seq<Tree>) {
    forall item | item in Preorder(ts, 0) :: GoodName(item.0.0) && GoodValue(item.0.1)
  }

  /** No complete line of the text gives an empty name. */
  ghost predicate NamesItsEntries(body: string) {
    forall line, value | line in Lines(body) :: !Says(line, "", value)
  }

  lemma SaysGood(line: string, name: string, value: string)
    requires Says(line, name, value) && '\n' !in line && name != ""
    ensures GoodName(name) && GoodValue(value)
  {
    var lead, after, before, behind :| Shape(line, name, value, lead, after, before, behind);
    var text := name + after + ":" + (before + value + behind);
    assert forall c | c in name || c in value :: c in text;
    assert forall c | c in text :: c in line;
  }

  lemma TextIsGood(body: string)
    requires NamesItsEntries(body)
    ensures GoodTrees(ParseText(body))
  {
    var ls, items := Lines(body), Preorder(ParseText(body), 0);
    var tail := LinesHaveNoNewline(body);
    ParseTextIsTheMeaning(body, ParseText(body));
    forall item | item in items
      ensures GoodName(item.0.0) && GoodValue(item.0.1)
    {
      var i :| 0 <= i < |items| && items[i] == item;
      var line := ls[ColonLines(ls)[i]];
      assert ItemReads(ls, ColonLines(ls)[i], item) && line in ls;
      SaysGood(line, item.0.0, item.0.1);
    }
  }

  /** The plain layout: one more space a level, ": " between name and value. */
  function Plain(ts: seq<Tree>, width: nat): (r: seq<Laid>)
    ensures |r| == |ts|
  {
    if ts == [] then []
    else
      [Laid(ts[0].name, ts[0].value, seq(width, _ => ' '), "", " ", "", width + 1, Plain(ts[0].children, width + 1), [], [])]
      + Plain(ts[1..], width)
  }

  ghost predicate GoodAt(ts: seq<Tree>, depth: nat) {
    forall item | item in Preorder(ts, depth) :: GoodName(item.0.0) && GoodValue(item.0.1)
  }

  lemma GoodParts(ts: seq<Tree>, depth: nat)
    requires ts != [] && GoodAt(ts, depth)
    ensures GoodName(ts[0].name) && GoodValue(ts[0].value)
    ensures GoodAt(ts[0].children, depth + 1) && GoodAt(ts[1..], depth)
  {
    var first, cs, more := [((ts[0].name, ts[0].value), depth)], Preorder(ts[0].children, depth + 1), Preorder(ts[1..], depth);
    assert Preorder(ts, depth) == first + (cs + more) && first[0] in first;
  }

  lemma {:induction false} PlainIsWellLaid(ts: seq<Tree>, width: nat)
    requires GoodAt(ts, width)
    ensures WellLaid(Plain(ts, width), width) && Erase(Plain(ts, width)) == ts
  {
    if ts != [] {
      GoodParts(ts, width);
      PlainIsWellLaid(ts[0].children, width + 1);
      PlainIsWellLaid(ts[1..], width);
      assert Plain(ts, width)[1..] == Plain(ts[1..], width);
    }
  }

  lemma LineNames(t: Laid, width: nat)
    requires GoodLine(t, width)
    ensures forall value :: !Says(LineOf(t), "", value)
  {
    LineParses(t, width);
    EntryIsRead(LineOf(t));
    assert Digest([LineOf(t)])[0].entry == EntryOf(LineOf(t));
  }

  lemma {:induction false} PlainNamesItsEntries(ts: seq<Tree>, width: nat)
    requires GoodAt(ts, width)
    ensures forall line, value | line in RenderLines(Plain(ts, width)) :: !Says(line, "", value)
  {
    if ts != [] {
      var ps := Plain(ts, width);
      GoodParts(ts, width);
      PlainIsWellLaid(ts, width);
      LineNames(ps[0], width);
      PlainNamesItsEntries(ts[0].children, width + 1);
      PlainNamesItsEntries(ts[1..], width);
      assert ps[1..] == Plain(ts[1..], width);
      assert RenderLines(ps) == [] + ([LineOf(ps[0])] + (RenderLines(ps[0].kids) + ([] + RenderLines(ps[1..]))));
    }
  }

  /** Exactly the trees with well-formed names and values are what texts can say. */
  lemma ExactlyTheGoodTrees(ts: seq<Tree>)
    ensures GoodTrees(ts) <==> exists body: string :: NamesItsEntries(body) && ParseText(body) == ts
  {
    if GoodTrees(ts) {
      var lines := RenderLines(Plain(ts, 0));
      PlainIsWellLaid(ts, 0);
      RoundTrip(Plain(ts, 0));
      OutlineOf(Plain(ts, 0), 0);
      LinesOfUnlines(lines, "");
      PlainNamesItsEntries(ts, 0);
      assert Unlines(lines) + "" == Unlines(lines);
      assert NamesItsEntries(Unlines(lines)) && ParseText(Unlines(lines)) == ts;
    }
    forall body: string | NamesItsEntries(body) && ParseText(body) == ts
      ensures GoodTrees(ts)
    {
      TextIsGood(body);
    }
  }

  // ---------------------------------------------------------------- empty lines

  lemma ThreeDeep(a: Entry, b: Entry, c: Entry, kids: seq<Tree>, more: seq<Line>)
    requires NotDeeper(more, 1)
    ensures Parse([Line(1, Some(b)), Line(2, Some(c))] + more, 1, kids, kids == [])
         == Parse(more, 1, kids + [Tree(b.0, b.1, [Tree(c.0, c.1, [])])], false)
  {
    var node := Tree(b.0, b.1, []);
    ParseLine(Line(1, Some(b)), kids, kids == [], [Line(2, Some(c))] + more);
    assert [Line(1, Some(b)), Line(2, Some(c))] + more == [Line(1, Some(b))] + ([Line(2, Some(c))] + more);
    ParseLine(Line(2, Some(c)), [], true, more);
    assert [] + [Tree(c.0, c.1, [])] == [Tree(c.0, c.1, [])];
    assert (kids + [node])[|kids| := node.(children := [Tree(c.0, c.1, [])])] == kids + [Tree(b.0, b.1, [Tree(c.0, c.1, [])])];
  }

  /** An empty line is indented by nothing and so ends every block: the setting behind it
      hangs from the last node at the outermost indentation. */
  lemma EmptyLineEndsBlocks(a: Entry, b: Entry, c: Entry, d: Entry)
    ensures Parse([Line(0, Some(a)), Line(1, Some(b)), Line(2, Some(c)), Line(0, None), Line(2, Some(d))], 0, [], true).0
         == [Tree(a.0, a.1, [Tree(b.0, b.1, [Tree(c.0, c.1, [])]), Tree(d.0, d.1, [])])]
  {
    var inner, last := [Line(1, Some(b)), Line(2, Some(c))], [Line(2, Some(d))];
    var after := [Line(0, None)] + last;
    var kids := [Tree(b.0, b.1, [Tree(c.0, c.1, [])])];
    var kids' := [Tree(b.0, b.1, [Tree(c.0, c.1, [])]), Tree(d.0, d.1, [])];
    assert kids + [Tree(d.0, d.1, [])] == kids';
    assert [Line(0, Some(a)), Line(1, Some(b)), Line(2, Some(c)), Line(0, None), Line(2, Some(d))]
        == [Line(0, Some(a))] + (inner + after);
    ParseLine(Line(0, Some(a)), [], true, inner + after);
    assert [] + [Tree(a.0, a.1, [])] == [Tree(a.0, a.1, [])];
    ThreeDeep(a, b, c, [], after);
    assert [] + kids == kids && [] + [Tree(a.0, a.1, [])] == [Tree(a.0, a.1, [])];
    var bare, one, two := [Tree(a.0, a.1, [])], [Tree(a.0, a.1, kids)], [Tree(a.0, a.1, kids')];
    assert WithLastChildren(bare, kids) == one && WithLastChildren(one, kids') == two;
    assert (inner + after)[0] == inner[0] && Parse(after, 1, kids, false) == (kids, after);
    assert Parse(inner + after, 0, bare, false) == Parse(after, 0, one, false);
    assert after[1..] == last;
    ParseLine(Line(2, Some(d)), kids, true, []);
    assert last + [] == last && Parse([], 2, kids', false) == (kids', []);
    assert last[1..] == [] && Parse(last, 2, kids, true) == (kids', []);
    assert Parse(after, 0, one, false) == Parse(last, 0, one, false);
    assert Parse(last, 0, one, false) == Parse([], 0, two, false) == (two, []);
  }
}
