/** What config_parse makes of any text, however it is indented: which nodes there are, in
    which order, and how deep each of them hangs. */
module ConfigMeaning {
  import opened Text
  import opened ConfigTree
  import opened ConfigLine

  /** A node with its depth in the tree. */
  type Item = (Entry, nat)

  /** The nodes of a tree, each in front of its children, with their depths. */
  function Preorder(ts: seq<Tree>, depth: nat): seq<Item> {
    if ts == [] then []
    else [((ts[0].name, ts[0].value), depth)] + (Preorder(ts[0].children, depth + 1) + Preorder(ts[1..], depth))
  }

  // ------------------------------------------------ which lines enclose a line

  /** The indentations at which a line is open: the last line there held a ':', and
      nothing shallower came after it. */
  function Below(open: set<nat>, indent: nat): set<nat> {
    set e | e in open && e < indent
  }

  /** A line ends what is deeper than it; with a ':' it also replaces what is as deep. */
  function StepOpen(open: set<nat>, line: Line): set<nat> {
    if line.entry.Some? then Below(open, line.indent) + {line.indent} else Below(open, line.indent + 1)
  }

  function OpenAfter(ls: seq<Line>, open: set<nat>): set<nat>
    decreases |ls|
  {
    if ls == [] then open else OpenAfter(ls[1..], StepOpen(open, ls[0]))
  }

  /** The lines with a ':', each as deep as there are open lines it is indented under. */
  function Listing(ls: seq<Line>, open: set<nat>): seq<Item>
    decreases |ls|
  {
    if ls == [] then [] else ItemOf(ls[0], open) + Listing(ls[1..], StepOpen(open, ls[0]))
  }

  function ItemOf(line: Line, open: set<nat>): seq<Item> {
    match line.entry
    case None => []
    case Some(e) => [(e, |Below(open, line.indent)|)]
  }

  // ------------------------------------------------ listings of trees

  lemma {:induction false} PreorderConcat(a: seq<Tree>, b: seq<Tree>, depth: nat)
    ensures Preorder(a + b, depth) == Preorder(a, depth) + Preorder(b, depth)
  {
    if a == [] {
      assert a + b == b;
    } else {
      assert (a + b)[1..] == a[1..] + b;
      PreorderConcat(a[1..], b, depth);
      var first, cs := [((a[0].name, a[0].value), depth)], Preorder(a[0].children, depth + 1);
      Assoc(first, cs + Preorder(a[1..], depth), Preorder(b, depth));
      Assoc(cs, Preorder(a[1..], depth), Preorder(b, depth));
    }
  }

  lemma PreorderOne(t: Tree, depth: nat)
    ensures Preorder([t], depth) == [((t.name, t.value), depth)] + Preorder(t.children, depth + 1)
  {
    assert Preorder([t][1..], depth) == [];
  }

  /** Growing the last node's children grows the listing at its end. */
  lemma PreorderGrowLast(kids: seq<Tree>, cs: seq<Tree>, depth: nat, more: seq<Item>)
    requires kids != [] && Preorder(cs, depth + 1) == Preorder(Last(kids).children, depth + 1) + more
    ensures Preorder(WithLastChildren(kids, cs), depth) == Preorder(kids, depth) + more
  {
    var front, last := kids[..|kids| - 1], Last(kids);
    assert kids == front + [last] && WithLastChildren(kids, cs) == front + [last.(children := cs)];
    PreorderConcat(front, [last], depth);
    PreorderConcat(front, [last.(children := cs)], depth);
    PreorderOne(last, depth);
    PreorderOne(last.(children := cs), depth);
    Assoc([((last.name, last.value), depth)], Preorder(last.children, depth + 1), more);
    Assoc(Preorder(front, depth), Preorder([last], depth), more);
  }

  lemma PreorderWithEntry(kids: seq<Tree>, line: Line, depth: nat, open: set<nat>)
    requires |Below(open, line.indent)| == depth
    ensures Preorder(WithEntry(kids, line), depth) == Preorder(kids, depth) + ItemOf(line, open)
  {
    var e := line.entry;
    if e.Some? {
      PreorderConcat(kids, [Tree(e.value.0, e.value.1, [])], depth);
      PreorderOne(Tree(e.value.0, e.value.1, []), depth);
    }
  }

  // ------------------------------------------------ the lines a call takes

  /** The lines of `ls` in front of its suffix `rest`. */
  function Taken(ls: seq<Line>, rest: seq<Line>): seq<Line>
    requires |rest| <= |ls|
  {
    ls[..|ls| - |rest|]
  }

  lemma {:induction false} ListingConcat(a: seq<Line>, b: seq<Line>, open: set<nat>)
    ensures Listing(a + b, open) == Listing(a, open) + Listing(b, OpenAfter(a, open))
    ensures OpenAfter(a + b, open) == OpenAfter(b, OpenAfter(a, open))
    decreases |a|
  {
    if a == [] {
      assert a + b == b;
    } else {
      assert (a + b)[1..] == a[1..] + b;
      ListingConcat(a[1..], b, StepOpen(open, a[0]));
      Assoc(ItemOf(a[0], open), Listing(a[1..], StepOpen(open, a[0])), Listing(b, OpenAfter(a, open)));
    }
  }

  lemma TakenInTwo(ls: seq<Line>, mid: seq<Line>, rest: seq<Line>, open: set<nat>)
    requires Suffix(mid, ls) && Suffix(rest, mid)
    ensures var between := OpenAfter(Taken(ls, mid), open);
            && Listing(Taken(ls, rest), open) == Listing(Taken(ls, mid), open) + Listing(Taken(mid, rest), between)
            && OpenAfter(Taken(ls, rest), open) == OpenAfter(Taken(mid, rest), between)
  {
    ListingConcat(Taken(ls, mid), Taken(mid, rest), open);
    assert Taken(ls, rest) == Taken(ls, mid) + Taken(mid, rest);
  }

  lemma TakenFirst(ls: seq<Line>, rest: seq<Line>, open: set<nat>)
    requires |rest| < |ls|
    ensures var next := StepOpen(open, ls[0]);
            && Listing(Taken(ls, rest), open) == ItemOf(ls[0], open) + Listing(Taken(ls[1..], rest), next)
            && OpenAfter(Taken(ls, rest), open) == OpenAfter(Taken(ls[1..], rest), next)
  {
    assert Taken(ls, rest)[1..] == Taken(ls[1..], rest);
  }

  /** What is left is the end of the lines, and starts at a shallower line; a line that is
      not shallower, such as the deeper one a recursive call is made for, is taken. */
  lemma {:induction false} ParseLeaves(ls: seq<Line>, shift: nat, kids: seq<Tree>, bare: bool)
    requires !bare ==> kids != []
    ensures var rest := Parse(ls, shift, kids, bare).1;
            && Suffix(rest, ls) && (rest != [] ==> rest[0].indent < shift)
            && (ls != [] && ls[0].indent >= shift ==> |rest| < |ls|)
    decreases |ls|, if ls != [] && ls[0].indent > shift then 1 else 0
  {
    if ls == [] || ls[0].indent < shift {
    } else if ls[0].indent > shift {
      var base := if bare then kids else Last(kids).children;
      var q := Parse(ls, ls[0].indent, base, true);
      ParseLeaves(ls, ls[0].indent, base, true);
      ParseLeaves(q.1, shift, if bare then q.0 else WithLastChildren(kids, q.0), bare);
    } else {
      ParseLeaves(ls[1..], shift, WithEntry(kids, ls[0]), bare && ls[0].entry.None?);
    }
  }

  /** Where the parser stands with the nodes at indentation `shift` and the given depth:
      its last node, if any, is open there, and the next line ends everything deeper that
      it is not indented under itself. */
  ghost predicate Standing(ls: seq<Line>, shift: nat, bare: bool, depth: nat, open: set<nat>) {
    && |Below(open, shift)| == depth
    && (bare <==> shift !in open)
    && (ls != [] ==> forall e | e in open && e > shift :: e > ls[0].indent)
  }

  lemma StandingDeeper(ls: seq<Line>, shift: nat, bare: bool, depth: nat, open: set<nat>)
    requires Standing(ls, shift, bare, depth, open) && ls != [] && ls[0].indent > shift
    ensures Standing(ls, ls[0].indent, true, if bare then depth else depth + 1, open)
  {
    var i := ls[0].indent;
    if bare {
      assert Below(open, i) == Below(open, shift);
    } else {
      assert Below(open, i) == Below(open, shift) + {shift};
    }
  }

  lemma StandingBack(ls: seq<Line>, shift: nat, bare: bool, depth: nat, open: set<nat>,
                     rest: seq<Line>, open': set<nat>)
    requires Standing(ls, shift, bare, depth, open) && ls != [] && ls[0].indent > shift
    requires Below(open', ls[0].indent) == Below(open, ls[0].indent)
    requires rest != [] ==> rest[0].indent < ls[0].indent
    ensures Standing(rest, shift, bare, depth, open') && Below(open', shift) == Below(open, shift)
  {
    var i := ls[0].indent;
    assert forall e | e < i :: e in open' <==> e in Below(open', i);
    assert forall e | e < i :: e in open <==> e in Below(open, i);
    assert Below(open', shift) == Below(open, shift);
  }

  lemma StandingNext(ls: seq<Line>, shift: nat, bare: bool, depth: nat, open: set<nat>)
    requires Standing(ls, shift, bare, depth, open) && ls != [] && ls[0].indent == shift
    ensures var open' := StepOpen(open, ls[0]);
            && Standing(ls[1..], shift, bare && ls[0].entry.None?, depth, open')
            && Below(open', shift) == Below(open, shift)
  {
    var open' := StepOpen(open, ls[0]);
    assert forall e :: e in Below(open', shift) <==> e in Below(open, shift);
    assert Below(open', shift) == Below(open, shift);
    assert forall e | e in open' :: e <= shift;
  }

  /** Whatever the indentation, parsing appends exactly the lines it takes that hold a ':',
      in file order, each at the depth its enclosing lines give it. */
  lemma {:induction false} ParseLists(ls: seq<Line>, shift: nat, kids: seq<Tree>, bare: bool, depth: nat, open: set<nat>)
    requires (!bare ==> kids != []) && Standing(ls, shift, bare, depth, open)
    ensures var r := Parse(ls, shift, kids, bare);
            && Preorder(r.0, depth) == Preorder(kids, depth) + Listing(Taken(ls, r.1), open)
            && Below(OpenAfter(Taken(ls, r.1), open), shift) == Below(open, shift)
    decreases |ls|, if ls != [] && ls[0].indent > shift then 1 else 0
  {
    var r := Parse(ls, shift, kids, bare);
    ParseLeaves(ls, shift, kids, bare);
    if ls == [] || ls[0].indent < shift {
      assert Taken(ls, r.1) == [];
    } else if ls[0].indent > shift {
      var base := if bare then kids else Last(kids).children;
      var q := Parse(ls, ls[0].indent, base, true);
      var next := if bare then q.0 else WithLastChildren(kids, q.0);
      var items, open' := Listing(Taken(ls, q.1), open), OpenAfter(Taken(ls, q.1), open);
      StandingDeeper(ls, shift, bare, depth, open);
      ParseLists(ls, ls[0].indent, base, true, if bare then depth else depth + 1, open);
      if !bare { PreorderGrowLast(kids, q.0, depth, items); }
      ParseLeaves(ls, ls[0].indent, base, true);
      StandingBack(ls, shift, bare, depth, open, q.1, open');
      ParseLists(q.1, shift, next, bare, depth, open');
      ParseLeaves(q.1, shift, next, bare);
      TakenInTwo(ls, q.1, r.1, open);
      Assoc(Preorder(kids, depth), items, Listing(Taken(q.1, r.1), open'));
    } else {
      StandingNext(ls, shift, bare, depth, open);
      PreorderWithEntry(kids, ls[0], depth, open);
      ParseLists(ls[1..], shift, WithEntry(kids, ls[0]), bare && ls[0].entry.None?, depth, StepOpen(open, ls[0]));
      TakenFirst(ls, r.1, open);
      Assoc(Preorder(kids, depth), ItemOf(ls[0], open), Listing(Taken(ls[1..], r.1), StepOpen(open, ls[0])));
    }
  }

  /** For every text the tree lists exactly its lines, and no line is left over. */
  lemma ParseTextLists(body: string)
    ensures Preorder(ParseText(body), 0) == Listing(ReadLines(body), {})
    ensures Parse(ReadLines(body), 0, [], true).1 == []
  {
    var ls := ReadLines(body);
    ParseLists(ls, 0, [], true, 0, {});
    ParseLeaves(ls, 0, [], true);
    assert ls[..|ls|] == ls;
  }

  // ------------------------------------------------ read off the lines

  /** The numbers of the lines that hold a ':', in order. */
  function ColonLines(ls: seq<string>): seq<nat> {
    if ls == [] then []
    else
      var n := |ls| - 1;
      ColonLines(ls[..n]) + (if ':' in ls[n] then [n] else [])
  }

  lemma {:induction false} InColonLines(ls: seq<string>, k: nat)
    ensures k in ColonLines(ls) <==> k < |ls| && ':' in ls[k]
  {
    if ls != [] {
      var n := |ls| - 1;
      InColonLines(ls[..n], k);
      if k < n { assert ls[..n][k] == ls[k]; }
    }
  }

  lemma {:induction false} ColonLinesAscend(ls: seq<string>)
    ensures var ks := ColonLines(ls); forall i, j | 0 <= i < j < |ks| :: ks[i] < ks[j]
  {
    if ls != [] {
      var n := |ls| - 1;
      var before := ColonLines(ls[..n]);
      ColonLinesAscend(ls[..n]);
      forall i | 0 <= i < |before|
        ensures before[i] < n
      {
        InColonLines(ls[..n], before[i]);
      }
    }
  }

  /** The j-th line is still open at the n-th: whatever came in between is deeper, or as
      deep without a ':'. */
  predicate StaysOpen(ls: seq<string>, j: nat, n: nat)
    requires j < n <= |ls|
  {
    && ':' in ls[j]
    && forall m | j < m < n :: Indent(ls[m]) > Indent(ls[j]) || (Indent(ls[m]) == Indent(ls[j]) && ':' !in ls[m])
  }

  /** The lines that the k-th is indented under. */
  function Enclosing(ls: seq<string>, k: nat): set<nat>
    requires k < |ls|
  {
    set j: nat | j < k && StaysOpen(ls, j, k) && Indent(ls[j]) < Indent(ls[k])
  }

  /** The tree has a node for every line with a ':', in that order, with the name and value
      the line says, and as deep as there are lines it is indented under. */
  ghost predicate Means(ls: seq<string>, ts: seq<Tree>) {
    AllRead(ls, ColonLines(ls), Preorder(ts, 0))
  }

  ghost predicate AllRead(ls: seq<string>, ks: seq<nat>, items: seq<Item>) {
    |items| == |ks| && forall i | 0 <= i < |ks| :: ItemReads(ls, ks[i], items[i])
  }

  ghost predicate ItemReads(ls: seq<string>, k: nat, item: Item) {
    k < |ls| && Says(ls[k], item.0.0, item.0.1) && item.1 == |Enclosing(ls, k)|
  }

  // ------------------------------------------------ open lines are the open indentations

  function OpenAt(ls: seq<string>, n: nat): set<nat>
    requires n <= |ls|
  {
    set j: nat | j < n && StaysOpen(ls, j, n) :: Indent(ls[j])
  }

  lemma {:induction false} DigestAt(ls: seq<string>, i: nat)
    requires i < |ls|
    ensures Digest(ls)[i] == Line(Indent(ls[i]), EntryOf(ls[i]))
  {
    if i > 0 { DigestAt(ls[1..], i - 1); }
  }

  lemma DigestPush(ls: seq<string>, line: string)
    ensures Digest(ls + [line]) == Digest(ls) + [Line(Indent(line), EntryOf(line))]
  {
    forall i | 0 <= i < |ls| + 1
      ensures Digest(ls + [line])[i] == (Digest(ls) + [Line(Indent(line), EntryOf(line))])[i]
    {
      DigestAt(ls + [line], i);
      if i < |ls| { DigestAt(ls, i); }
    }
  }

  lemma {:induction false} OpenIs(ls: seq<string>, n: nat)
    requires n <= |ls|
    ensures OpenAfter(Digest(ls[..n]), {}) == OpenAt(ls, n)
  {
    if n == 0 {
      assert Digest(ls[..0]) == [] && OpenAt(ls, 0) == {};
    } else {
      var k := n - 1;
      OpenIs(ls, k);
      OneMore(ls, k);
      EntryIsRead(ls[k]);
      OpenStep(ls, k);
    }
  }

  lemma OneMore(ls: seq<string>, n: nat)
    requires n < |ls|
    ensures var line, open := Line(Indent(ls[n]), EntryOf(ls[n])), OpenAfter(Digest(ls[..n]), {});
            && OpenAfter(Digest(ls[..n + 1]), {}) == StepOpen(open, line)
            && Listing(Digest(ls[..n + 1]), {}) == Listing(Digest(ls[..n]), {}) + ItemOf(line, open)
  {
    var line := Line(Indent(ls[n]), EntryOf(ls[n]));
    assert ls[..n + 1] == ls[..n] + [ls[n]];
    DigestPush(ls[..n], ls[n]);
    ListingConcat(Digest(ls[..n]), [line], {});
    assert [line][1..] == [];
  }

  lemma OpenStep(ls: seq<string>, n: nat)
    requires n < |ls|
    ensures var open, i := OpenAt(ls, n), Indent(ls[n]);
            OpenAt(ls, n + 1) == if ':' in ls[n] then Below(open, i) + {i} else Below(open, i + 1)
  {
    var open, i := OpenAt(ls, n), Indent(ls[n]);
    var after := if ':' in ls[n] then Below(open, i) + {i} else Below(open, i + 1);
    assert ':' in ls[n] ==> StaysOpen(ls, n, n + 1);
    forall e | e in after
      ensures e in OpenAt(ls, n + 1)
    {
      if e in open {
        var j: nat :| j < n && StaysOpen(ls, j, n) && Indent(ls[j]) == e;
        if ':' !in ls[n] || e != i { assert StaysOpen(ls, j, n + 1); }
      }
    }
    forall e | e in OpenAt(ls, n + 1)
      ensures e in after
    {
      var j: nat :| j < n + 1 && StaysOpen(ls, j, n + 1) && Indent(ls[j]) == e;
      if j < n { assert StaysOpen(ls, j, n); }
    }
  }

  function Image(js: set<nat>, f: nat -> nat): set<nat> {
    set j | j in js :: f(j)
  }

  lemma {:induction false} ImageSize(js: set<nat>, f: nat -> nat)
    requires forall i, j | i in js && j in js && i != j :: f(i) != f(j)
    ensures |Image(js, f)| == |js|
  {
    if js != {} {
      var j :| j in js;
      ImageSize(js - {j}, f);
      assert Image(js, f) == Image(js - {j}, f) + {f(j)};
    }
  }

  /** Enclosing lines have different indentations. */
  lemma DepthIs(ls: seq<string>, k: nat)
    requires k < |ls|
    ensures |Below(OpenAt(ls, k), Indent(ls[k]))| == |Enclosing(ls, k)|
  {
    var js, f := Enclosing(ls, k), (j: nat) => if j < |ls| then Indent(ls[j]) else 0;
    var image := Image(js, f);
    ImageSize(js, f);
    forall e | e in Below(OpenAt(ls, k), Indent(ls[k]))
      ensures e in image
    {
      var j: nat :| j < k && StaysOpen(ls, j, k) && Indent(ls[j]) == e;
      assert j in js && f(j) == e;
    }
    forall e | e in image
      ensures e in Below(OpenAt(ls, k), Indent(ls[k]))
    {
      var j :| j in js && f(j) == e;
      assert Indent(ls[j]) in OpenAt(ls, k);
    }
    assert image == Below(OpenAt(ls, k), Indent(ls[k]));
  }

  lemma AllReadPush(ls: seq<string>, ks: seq<nat>, items: seq<Item>, k: nat, item: Item)
    requires AllRead(ls, ks, items) && ItemReads(ls, k, item)
    ensures AllRead(ls, ks + [k], items + [item])
  {}

  lemma ColonLinesPush(ls: seq<string>, k: nat)
    requires k < |ls|
    ensures ColonLines(ls[..k + 1]) == ColonLines(ls[..k]) + (if ':' in ls[k] then [k] else [])
  {
    assert ls[..k + 1][..k] == ls[..k];
  }

  lemma {:induction false} ListingReads(ls: seq<string>, n: nat)
    requires n <= |ls|
    ensures AllRead(ls, ColonLines(ls[..n]), Listing(Digest(ls[..n]), {}))
  {
    if n > 0 {
      var k := n - 1;
      var items, ks := Listing(Digest(ls[..k]), {}), ColonLines(ls[..k]);
      ListingReads(ls, k);
      OneMore(ls, k);
      EntryIsRead(ls[k]);
      OpenIs(ls, k);
      DepthIs(ls, k);
      ColonLinesPush(ls, k);
      if ':' in ls[k] {
        AllReadPush(ls, ks, items, k, (EntryOf(ls[k]).value, |Enclosing(ls, k)|));
      } else {
        assert ks + [] == ks && items + [] == items;
      }
    }
  }

  // ------------------------------------------------ the one tree

  lemma {:induction false} DepthsFrom(ts: seq<Tree>, depth: nat)
    ensures forall item | item in Preorder(ts, depth) :: item.1 >= depth
    ensures ts != [] ==> Preorder(ts, depth) != [] && Preorder(ts, depth)[0].1 == depth
  {
    if ts != [] {
      DepthsFrom(ts[0].children, depth + 1);
      DepthsFrom(ts[1..], depth);
    }
  }

  /** The depths tell where the children of the first node end. */
  lemma SplitByDepth(a: seq<Item>, a': seq<Item>, b: seq<Item>, b': seq<Item>, depth: nat)
    requires a + a' == b + b'
    requires (forall item | item in a :: item.1 > depth) && (forall item | item in b :: item.1 > depth)
    requires (a' != [] ==> a'[0].1 == depth) && (b' != [] ==> b'[0].1 == depth)
    ensures a == b && a' == b'
  {
    var s := a + a';
    assert forall k | 0 <= k < |a| :: s[k] == a[k] && a[k] in a;
    assert forall k | 0 <= k < |b| :: s[k] == b[k] && b[k] in b;
    assert |a| < |s| ==> s[|a|] == a'[0];
    assert |b| < |s| ==> s[|b|] == b'[0];
    assert |a| == |b|;
    assert a == s[..|a|] && b == s[..|b|] && a' == s[|a|..] && b' == s[|b|..];
  }

  lemma {:induction false} PreorderDetermines(a: seq<Tree>, b: seq<Tree>, depth: nat)
    requires Preorder(a, depth) == Preorder(b, depth)
    ensures a == b
  {
    if a != [] && b != [] {
      var x, y := Preorder(a[0].children, depth + 1), Preorder(b[0].children, depth + 1);
      var x', y' := Preorder(a[1..], depth), Preorder(b[1..], depth);
      assert Preorder(a, depth)[0] == Preorder(b, depth)[0];
      assert x + x' == Preorder(a, depth)[1..] && y + y' == Preorder(b, depth)[1..];
      DepthsFrom(a[0].children, depth + 1);
      DepthsFrom(b[0].children, depth + 1);
      DepthsFrom(a[1..], depth);
      DepthsFrom(b[1..], depth);
      SplitByDepth(x, x', y, y', depth);
      PreorderDetermines(a[0].children, b[0].children, depth + 1);
      PreorderDetermines(a[1..], b[1..], depth);
      assert a == [a[0]] + a[1..] && b == [b[0]] + b[1..];
    }
  }

  lemma SameItem(ls: seq<string>, k: nat, a: Item, b: Item)
    requires ItemReads(ls, k, a) && ItemReads(ls, k, b)
    ensures a == b
  {
    EntryIsRead(ls[k]);
  }

  /** For every text, however badly indented, config_parse builds the one tree that its
      complete lines mean. */
  lemma ParseTextIsTheMeaning(body: string, ts: seq<Tree>)
    ensures ts == ParseText(body) <==> Means(Lines(body), ts)
  {
    var ls := Lines(body);
    ParseTextLists(body);
    ListingReads(ls, |ls|);
    assert ls[..|ls|] == ls;
    if Means(ls, ts) {
      var items, items' := Preorder(ts, 0), Preorder(ParseText(body), 0);
      forall i | 0 <= i < |items|
        ensures items[i] == items'[i]
      {
        SameItem(ls, ColonLines(ls)[i], items[i], items'[i]);
      }
      assert items == items';
      PreorderDetermines(ts, ParseText(body), 0);
    }
  }
}
