/** The configuration object of src/server/CConfig.cpp (without YAML): nodes with a
    parent link and a growing list of children, config_parse on the shared rest of the
    text, config_get and CConfig::get. */
module ConfigFile {
  import opened Text
  import opened ConfigTree
  import opened ConfigLookup

  /** CConfig::CNode. `Model` is the value of the subtree, `Repr` its nodes. */
  class Node {
    var Parent: Node?
    var Children: seq<Node>
    var Name: string
    var Value: string
    ghost var Repr: set<Node>
    ghost var Model: Tree

    /** Every child points back here, the subtrees are disjoint, and `Model` is up to date. */
    ghost predicate Valid()
      reads this, Repr
      decreases Repr
      ensures Valid() ==> this in Repr
    {
      && this in Repr
      && Model.name == Name && Model.value == Value && |Model.children| == |Children|
      && (forall i {:trigger Children[i]} | 0 <= i < |Children| ::
            Children[i] in Repr && Children[i].Repr <= Repr && this !in Children[i].Repr)
      && (forall i {:trigger Children[i]} | 0 <= i < |Children| ::
            Children[i].Parent == this && Children[i].Valid() && Children[i].Model == Model.children[i])
      && (forall i, j | 0 <= i < j < |Children| :: Children[i].Repr !! Children[j].Repr)
    }

    constructor (parent: Node?, name: string, value: string)
      ensures Valid() && Repr == {this} && Children == [] && Parent == parent
      ensures Model == Tree(name, value, [])
    {
      Parent := parent;
      Name := name;
      Value := value;
      Children := [];
      Repr := {this};
      Model := Tree(name, value, []);
    }

    /** A new node at the end of the children. */
    method PushBack(name: string, value: string)
      requires Valid()
      modifies this
      ensures Valid() && fresh(Repr - old(Repr)) && old(Repr) <= Repr
      ensures Parent == old(Parent) && |Children| == |old(Children)| + 1
      ensures Model == old(Model).(children := old(Model).children + [Tree(name, value, [])])
    {
      var node := new Node(this, name, value);
      assert forall i | 0 <= i < |Children| :: Children[i].Valid();
      Children := Children + [node];
      Repr := Repr + {node};
      Model := Model.(children := Model.children + [Tree(name, value, [])]);
    }

    /** `Valid`, except that the last child has changed since. */
    ghost predicate ValidButLast()
      reads this, Children, set i, n | 0 <= i < |Children| && n in Children[i].Repr :: n
    {
      && this in Repr && Children != []
      && Model.name == Name && Model.value == Value && |Model.children| == |Children|
      && (forall i {:trigger Children[i]} | 0 <= i < |Children| ::
            this !in Children[i].Repr && Children[i].Parent == this && Children[i].Valid())
      && (forall i {:trigger Children[i]} | 0 <= i < |Children| - 1 ::
            Children[i].Repr <= Repr && Children[i].Model == Model.children[i])
      && (forall i, j | 0 <= i < j < |Children| :: Children[i].Repr !! Children[j].Repr)
    }

    /** The ghost view of the last child brought up to date. */
    ghost method Refresh(last: Node)
      requires ValidButLast() && last == Children[|Children| - 1]
      modifies `Repr, `Model
      ensures Valid() && Repr == old(Repr) + last.Repr
      ensures Model.children == old(Model.children)[|Children| - 1 := last.Model]
      ensures Model == old(Model).(children := Model.children)
    {
      ghost var n := |Children| - 1;
      Repr := Repr + last.Repr;
      Model := Model.(children := Model.children[n := last.Model]);
      assert forall i | 0 <= i <= n :: old(Children[i].Valid());
    }
  }

  // ------------------------------------------------------------ the text

  /** The indentation of the first complete line; 0 when there is none. */
  function FirstIndent(body: string): nat {
    if Lines(body) == [] then 0 else Indent(Lines(body)[0])
  }

  /** Whole lines only, or nothing. */
  predicate WholeLines(front: string) {
    front == "" || front[|front| - 1] == '\n'
  }

  /** `rest` is the end of `body` from the start of one of its lines on. */
  ghost predicate FromLineStart(rest: string, body: string) {
    exists front :: WholeLines(front) && body == front + rest
  }

  lemma FromLineStartHere(body: string)
    ensures FromLineStart(body, body)
  {
    assert WholeLines("") && body == "" + body;
  }

  lemma FromLineStartTwice(rest: string, mid: string, body: string)
    requires FromLineStart(rest, mid) && FromLineStart(mid, body)
    ensures FromLineStart(rest, body)
  {
    var a :| WholeLines(a) && body == a + mid;
    var b :| WholeLines(b) && mid == b + rest;
    assert WholeLines(a + b) && body == (a + b) + rest;
  }

  lemma NextLineStart(body: string, p: nat)
    requires p == Find(body, '\n') < |body|
    ensures FromLineStart(body[p + 1..], body)
  {
    LineEnds(body, p);
    FromBehind(body[..p + 1], body[p + 1..]);
    assert body[..p + 1] + body[p + 1..] == body;
  }

  lemma LineEnds(body: string, p: nat)
    requires p < |body| && body[p] == '\n'
    ensures WholeLines(body[..p + 1])
  {}

  lemma FromBehind(front: string, rest: string)
    requires WholeLines(front)
    ensures FromLineStart(rest, front + rest)
  {}

  lemma FewerLinesLeft(rest: string, body: string)
    requires FromLineStart(rest, body) && |ReadLines(rest)| < |ReadLines(body)|
    ensures |rest| < |body|
  {
    var front :| WholeLines(front) && body == front + rest;
    assert front == "" ==> body == rest;
  }

  lemma DigestCons(line: string, ls: seq<string>)
    ensures Digest([line] + ls) == [Line(Indent(line), EntryOf(line))] + Digest(ls)
  {
    assert ([line] + ls)[1..] == ls;
  }

  lemma LinesCons(body: string, p: nat)
    requires p == Find(body, '\n') < |body|
    ensures Lines(body) == [body[..p]] + Lines(body[p + 1..])
  {}

  /** The next line, and the text behind it. */
  lemma FirstLine(body: string, line: string, rest: string)
    requires Find(body, '\n') < |body|
    requires line == body[..Find(body, '\n')] && rest == body[Find(body, '\n') + 1..]
    ensures ReadLines(body) == [Line(Indent(line), EntryOf(line))] + ReadLines(rest)
    ensures FirstIndent(body) == Indent(line)
  {
    LinesCons(body, Find(body, '\n'));
    DigestCons(line, Lines(rest));
  }

  /** The three ways `Parse` goes on from a line. */
  lemma ParseStep(line: Line, ls: seq<Line>, shift: nat, kids: seq<Tree>, bare: bool)
    requires !bare ==> kids != []
    ensures var all := [line] + ls;
            var r := Parse(all, shift, kids, bare);
            if line.indent > shift then
              var q := Parse(all, line.indent, if bare then kids else Last(kids).children, true);
              |q.1| < |all|
              && r == Parse(q.1, shift, if bare then q.0 else WithLastChildren(kids, q.0), bare)
            else if line.indent < shift then r == (kids, all)
            else r == Parse(ls, shift, WithEntry(kids, line), bare && line.entry.None?)
  {
    assert ([line] + ls)[1..] == ls;
  }

  /** `ParseStep` for a text whose first line is deeper. */
  lemma DeeperStep(body: string, shift: nat, kids: seq<Tree>, bare: bool)
    requires !bare ==> kids != []
    requires Lines(body) != [] && FirstIndent(body) > shift
    ensures var q := Parse(ReadLines(body), FirstIndent(body), if bare then kids else Last(kids).children, true);
            && |q.1| < |ReadLines(body)|
            && Parse(ReadLines(body), shift, kids, bare)
            == Parse(q.1, shift, if bare then q.0 else WithLastChildren(kids, q.0), bare)
  {
    assert ReadLines(body)[0].indent == FirstIndent(body);
  }

  // ------------------------------------------------------------ parsing

  /** The two trimming loops of config_parse. An empty string has no space at its end. */
  method StripSpaces(s: string) returns (t: string)
    ensures t == Strip(s)
  {
    t := s;
    while t != "" && t[0] == ' '
      invariant StripLeft(t) == StripLeft(s)
      decreases |t|
    {
      t := t[1..];
    }
    while t != "" && t[|t| - 1] == ' '
      invariant StripRight(t) == Strip(s)
      decreases |t|
    {
      t := t[..|t| - 1];
    }
  }

  /** One line split into its indentation and the text behind it. */
  method SplitIndent(whole: string) returns (innerShift: nat, line: string)
    ensures innerShift == Indent(whole) && line == whole[innerShift..]
  {
    innerShift, line := 0, whole;
    while line != "" && (line[0] == ' ' || line[0] == '\t')
      invariant innerShift <= |whole| && line == whole[innerShift..]
      invariant innerShift + Indent(line) == Indent(whole)
      decreases |line|
    {
      innerShift := innerShift + 1;
      line := line[1..];
    }
  }

  ghost predicate IsLastChild(n: Node, parent: Node)
    reads parent
  {
    parent.Children != [] && n == parent.Children[|parent.Children| - 1]
  }

  /** What is left to do below `parent` when `body` is what remains of the text. */
  ghost function Goal(body: string, shift: nat, kids: seq<Tree>, bare: bool): (seq<Tree>, seq<Line>)
    requires !bare ==> kids != []
  {
    Parse(ReadLines(body), shift, kids, bare)
  }

  /** config_parse: builds below `parent` what `Parse` says, and returns the text it
      leaves for its caller. */
  method ConfigParse(parent: Node, body0: string, shift: nat) returns (body: string)
    requires parent.Valid()
    modifies parent.Repr
    ensures parent.Valid() && fresh(parent.Repr - old(parent.Repr)) && parent.Parent == old(parent.Parent)
    ensures var r := Parse(ReadLines(body0), shift, old(parent.Model.children), true);
            parent.Model == old(parent.Model).(children := r.0) && ReadLines(body) == r.1
    ensures FromLineStart(body, body0)
    decreases |body0|, if FirstIndent(body0) > shift then 1 else 0, 1
  {
    body := body0;
    FromLineStartHere(body0);
    var lastNode := parent;
    ghost var goal := Goal(body0, shift, parent.Model.children, true);
    ghost var model0, repr0 := parent.Model, parent.Repr;
    var p := Find(body, '\n');
    while p < |body|
      invariant parent.Valid() && parent.Parent == old(parent.Parent)
      invariant fresh(parent.Repr - repr0)
      invariant lastNode == parent || IsLastChild(lastNode, parent)
      invariant parent.Model == model0.(children := parent.Model.children)
      invariant goal == Goal(body, shift, parent.Model.children, lastNode == parent)
      invariant FromLineStart(body, body0) && (body == body0 || |body| < |body0|)
      invariant p == Find(body, '\n')
      decreases |body|
    {
      var innerShift, line := SplitIndent(body[..p]);
      ghost var before, repr := body, parent.Repr;
      FirstLine(body, body[..p], body[p + 1..]);
      if innerShift > shift {
        body := Descend(parent, lastNode, body, shift, innerShift);
        assert fresh(parent.Repr - repr);
      } else if innerShift < shift {
        break;
      } else {
        lastNode, body := PushEntry(parent, lastNode, body, p, line);
        assert fresh(parent.Repr - repr);
      }
      FromLineStartTwice(body, before, body0);
      p := Find(body, '\n');
    }
  }

  lemma EntryStep(body: string, p: nat, kids: seq<Tree>, bare: bool)
    requires p == Find(body, '\n') < |body| && (!bare ==> kids != [])
    ensures var line := Line(FirstIndent(body), EntryOf(body[..p]));
            Goal(body, FirstIndent(body), kids, bare)
              == Goal(body[p + 1..], FirstIndent(body), WithEntry(kids, line), bare && line.entry.None?)
    ensures Indent(body[..p]) == FirstIndent(body)
  {
    var whole, rest := body[..p], body[p + 1..];
    FirstLine(body, whole, rest);
    ParseStep(Line(Indent(whole), EntryOf(whole)), ReadLines(rest), FirstIndent(body), kids, bare);
  }

  /** A line at the current indentation: a new child if it holds a ':'. */
  method PushEntry(parent: Node, lastNode0: Node, body0: string, p: nat, line: string)
    returns (lastNode: Node, body: string)
    requires parent.Valid() && (lastNode0 == parent || IsLastChild(lastNode0, parent))
    requires p == Find(body0, '\n') < |body0| && line == body0[..p][FirstIndent(body0)..]
    modifies parent
    ensures parent.Valid() && fresh(parent.Repr - old(parent.Repr)) && parent.Parent == old(parent.Parent)
    ensures lastNode == parent || IsLastChild(lastNode, parent)
    ensures parent.Model == old(parent.Model).(children := parent.Model.children)
    ensures lastNode0 != parent ==> old(parent.Model.children) != []
    ensures lastNode != parent ==> parent.Model.children != []
    ensures Goal(body0, FirstIndent(body0), old(parent.Model.children), lastNode0 == parent)
         == Goal(body, FirstIndent(body0), parent.Model.children, lastNode == parent)
    ensures FromLineStart(body, body0) && |body| < |body0|
  {
    EntryStep(body0, p, parent.Model.children, lastNode0 == parent);
    NextLineStart(body0, p);
    lastNode := lastNode0;
    var pp := Find(line, ':');
    if pp < |line| {
      var name := StripSpaces(line[..pp]);
      var val := StripSpaces(line[pp + 1..]);
      parent.PushBack(name, val);
      lastNode := parent.Children[|parent.Children| - 1];
    }
    body := body0[p + 1..];
  }

  /** The recursive call on the last node, and the parent's view of it afterwards. */
  method Descend(parent: Node, lastNode: Node, body0: string, ghost shift: nat, innerShift: nat) returns (body: string)
    requires parent.Valid() && (lastNode == parent || IsLastChild(lastNode, parent))
    requires Lines(body0) != [] && shift < innerShift == FirstIndent(body0)
    modifies parent.Repr
    ensures parent.Valid() && fresh(parent.Repr - old(parent.Repr)) && parent.Parent == old(parent.Parent)
    ensures lastNode == parent || IsLastChild(lastNode, parent)
    ensures parent.Model == old(parent.Model).(children := parent.Model.children)
    ensures lastNode != parent ==> old(parent.Model.children) != [] && parent.Model.children != []
    ensures Goal(body0, shift, old(parent.Model.children), lastNode == parent)
         == Goal(body, shift, parent.Model.children, lastNode == parent)
    ensures FromLineStart(body, body0) && |body| < |body0|
    decreases |body0|, 0, 4
  {
    DeeperStep(body0, shift, parent.Model.children, lastNode == parent);
    if lastNode == parent {
      body := ConfigParse(parent, body0, innerShift);
    } else {
      body := ParseBelow(parent, lastNode, body0, innerShift);
    }
    FewerLinesLeft(body, body0);
  }

  /** The recursive call on the last child, as the parent sees it. */
  method ParseBelow(parent: Node, lastNode: Node, body0: string, innerShift: nat) returns (body: string)
    requires parent.Valid() && IsLastChild(lastNode, parent) && parent.Model.children != []
    requires FirstIndent(body0) == innerShift
    modifies parent.Repr
    ensures parent.Valid() && fresh(parent.Repr - old(parent.Repr)) && parent.Parent == old(parent.Parent)
    ensures IsLastChild(lastNode, parent)
    ensures var r := Parse(ReadLines(body0), innerShift, Last(old(parent.Model.children)).children, true);
            && ReadLines(body) == r.1
            && parent.Model == old(parent.Model).(children := WithLastChildren(old(parent.Model.children), r.0))
    ensures FromLineStart(body, body0)
    decreases |body0|, 0, 3
  {
    body := ParseLast(parent, lastNode, body0, innerShift);
    parent.Refresh(lastNode);
  }

  /** The recursive call alone: everything but the last child's subtree stays as it was. */
  method ParseLast(parent: Node, lastNode: Node, body0: string, innerShift: nat) returns (body: string)
    requires parent.Valid() && IsLastChild(lastNode, parent)
    requires FirstIndent(body0) == innerShift
    modifies lastNode.Repr
    ensures parent.ValidButLast() && unchanged(parent) && lastNode.Repr - old(lastNode.Repr) !! parent.Repr
    ensures fresh(lastNode.Repr - old(lastNode.Repr)) && old(lastNode.Repr) <= parent.Repr
    ensures var last := Last(parent.Model.children);
            var r := Parse(ReadLines(body0), innerShift, last.children, true);
            ReadLines(body) == r.1 && lastNode.Model == last.(children := r.0)
    ensures FromLineStart(body, body0)
    decreases |body0|, 0, 2
  {
    ghost var kids, n := parent.Children, |parent.Children| - 1;
    body := ConfigParse(lastNode, body0, innerShift);
    forall i | 0 <= i < n
      ensures kids[i].Valid() && kids[i].Parent == parent
      ensures kids[i].Repr == old(kids[i].Repr) && kids[i].Model == old(kids[i].Model)
      ensures kids[i].Repr !! kids[n].Repr
    {
      assert old(kids[i].Repr !! kids[n].Repr);
    }
    forall i, j | 0 <= i < j < |kids|
      ensures kids[i].Repr !! kids[j].Repr
    {
      if j < n { assert old(kids[i].Repr !! kids[j].Repr); }
    }
  }

  // ------------------------------------------------------------ reading settings

  /** config_get: the first child of the first name, and on with the rest of the path. */
  method ConfigGet(node: Node, path0: string) returns (found: Node?)
    requires node.Valid()
    ensures match Locate(node.Model.children, path0)
            case None => found == null
            case Some(pos) =>
              found != null && found.Valid() && found.Model == NodeAt(node.Model.children, pos)
    decreases |path0|
  {
    ghost var ts := node.Model.children;
    var path, name := path0, path0;
    var p := Find(path, '/');
    if p < |path| {
      name := path[..p];
      path := path[p + 1..];
    } else {
      path := "";
    }
    assert SplitPath(path0) == (name, path);
    for i := 0 to |node.Children|
      invariant FirstNamed(ts, name) == i + FirstNamed(ts[i..], name)
    {
      if node.Children[i].Name == name {
        assert ts[i..][0] == ts[i] && FirstNamed(ts, name) == i;
        if |path| > 0 {
          found := ConfigGet(node.Children[i], path);
        } else {
          found := node.Children[i];
        }
        return;
      }
      assert ts[i..][1..] == ts[i + 1..];
    }
    return null;
  }

  method ParseFile(text: string) returns (base: Node)
    ensures base.Valid() && fresh(base.Repr) && base.Parent == null
    ensures base.Model.children == ParseText(text)
  {
    base := new Node(null, "", "");
    var rest := ConfigParse(base, text, 0);
  }

  class Config {
    var FOK: bool
    var BaseNode: Node?

    ghost predicate Valid()
      reads this, BaseNode, if BaseNode == null then {} else BaseNode.Repr
    {
      if FOK then BaseNode != null && BaseNode.Valid() else BaseNode == null
    }

    /** CConfig::CConfig: `contents` are the bytes of the file, None when it cannot be
        opened. The text is a C string and ends at the first NUL. */
    constructor (contents: Option<string>)
      ensures Valid() && FOK == contents.Some?
      ensures FOK ==> fresh(BaseNode.Repr) && BaseNode.Parent == null
      ensures FOK ==> BaseNode.Model.children == ParseText(contents.value[..Find(contents.value, '\0')])
    {
      BaseNode := null;
      if contents.Some? {
        var base := ParseFile(contents.value[..Find(contents.value, '\0')]);
        BaseNode := base;
      }
      FOK := contents.Some?;
    }

    /** CConfig::get. */
    method Get(path: string) returns (val: string)
      requires Valid() && FOK
      ensures val == GetValue(BaseNode.Model.children, path)
    {
      var node := ConfigGet(BaseNode, path);
      if node == null {
        return "";
      }
      val := node.Value;
      if val != "" && val[0] == '"' && val[|val| - 1] == '"' {
        val := if |val| == 1 then "" else val[1..|val| - 1];
      }
    }
  }
}
