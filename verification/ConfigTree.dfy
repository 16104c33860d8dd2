/** The configuration language of src/server/CConfig.cpp on values: what one line
    says, what tree a text means, and what the parsed tree has to do with the text. */
module ConfigTree {
  import opened Text

  datatype Tree = Tree(name: string, value: string, children: seq<Tree>)

  type Entry = (string, string)

  /** What config_parse sees of a line: its depth, and its (name, value) pair if it has a ':'. */
  datatype Line = Line(indent: nat, entry: Option<Entry>)

  // ---------------------------------------------------------------- one line

  predicate IsBlank(c: char) {
    c == ' ' || c == '\t'
  }

  /** How deep a line is indented: its leading spaces and tabs. */
  function Indent(line: string): (n: nat)
    ensures n <= |line|
  {
    if line != "" && IsBlank(line[0]) then 1 + Indent(line[1..]) else 0
  }

  function StripLeft(s: string): (t: string)
    ensures |t| <= |s| && (t != "" ==> t[0] != ' ')
  {
    if s != "" && s[0] == ' ' then StripLeft(s[1..]) else s
  }

  function StripRight(s: string): (t: string)
    ensures |t| <= |s| && (t != "" ==> t[|t| - 1] != ' ')
  {
    if s != "" && s[|s| - 1] == ' ' then StripRight(s[..|s| - 1]) else s
  }

  function Strip(s: string): string {
    StripRight(StripLeft(s))
  }

  /** The (name, value) pair of a line that holds a ':'. */
  function EntryOf(line: string): Option<Entry> {
    var text := line[Indent(line)..];
    var p := Find(text, ':');
    if p == |text| then None else Some((Strip(text[..p]), Strip(text[p + 1..])))
  }

  function Digest(ls: seq<string>): (ds: seq<Line>)
    ensures |ds| == |ls|
  {
    if ls == [] then [] else [Line(Indent(ls[0]), EntryOf(ls[0]))] + Digest(ls[1..])
  }

  /** The complete lines of the text, each as config_parse sees it. */
  function ReadLines(body: string): seq<Line> {
    Digest(Lines(body))
  }

  // ---------------------------------------------------------------- parsing

  ghost predicate Suffix(rest: seq<Line>, ls: seq<Line>) {
    |rest| <= |ls| && rest == ls[|ls| - |rest|..]
  }

  /** What config_parse makes of the lines `ls` when called with the indentation
      `shift` on a node whose children so far are `kids`, and the lines it leaves.
      `bare` says that the last node is still the parent itself. */
  function Parse(ls: seq<Line>, shift: nat, kids: seq<Tree>, bare: bool): (r: (seq<Tree>, seq<Line>))
    requires !bare ==> kids != []
    ensures |kids| <= |r.0|
    ensures |r.1| <= |ls| && (ls != [] && ls[0].indent >= shift ==> |r.1| < |ls|)
    decreases |ls|, if ls != [] && ls[0].indent > shift then 1 else 0
  {
    if ls == [] then (kids, [])
    else if ls[0].indent > shift then
      if bare then
        var r := Parse(ls, ls[0].indent, kids, true);
        Parse(r.1, shift, r.0, true)
      else
        var r := Parse(ls, ls[0].indent, Last(kids).children, true);
        Parse(r.1, shift, WithLastChildren(kids, r.0), false)
    else if ls[0].indent < shift then (kids, ls)
    else Parse(ls[1..], shift, WithEntry(kids, ls[0]), bare && ls[0].entry.None?)
  }

  /** The children after a line at the current indentation. */
  function WithEntry(kids: seq<Tree>, line: Line): (r: seq<Tree>)
    ensures line.entry.Some? ==> r != []
  {
    match line.entry
    case None => kids
    case Some(e) => kids + [Tree(e.0, e.1, [])]
  }

  function Last(kids: seq<Tree>): Tree
    requires kids != []
  {
    kids[|kids| - 1]
  }

  function WithLastChildren(kids: seq<Tree>, cs: seq<Tree>): seq<Tree>
    requires kids != []
  {
    kids[|kids| - 1 := Last(kids).(children := cs)]
  }

  /** The children of the base node after the whole text was parsed. */
  function ParseText(body: string): seq<Tree> {
    Parse(ReadLines(body), 0, [], true).0
  }
}
