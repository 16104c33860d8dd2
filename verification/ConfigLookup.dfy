/** Looking settings up by path (config_get and CConfig::get of src/server/CConfig.cpp),
    and when every node of a tree is reachable by its own path. */
module ConfigLookup {
  import opened Text
  import opened ConfigTree
  import opened ConfigRoundTrip

  // ---------------------------------------------------------------- config_get

  /** The first component of a path, and what follows its '/'. */
  function SplitPath(path: string): (r: (string, string))
    ensures |r.1| < |path| || r.1 == ""
  {
    var p := Find(path, '/');
    if p == |path| then (path, "") else (path[..p], path[p + 1..])
  }

  /** The position of the first child of that name, or the number of children. */
  function FirstNamed(ts: seq<Tree>, name: string): (i: nat)
    ensures i <= |ts| && (i < |ts| ==> ts[i].name == name)
  {
    if ts == [] || ts[0].name == name then 0 else 1 + FirstNamed(ts[1..], name)
  }

  /** The node config_get finds, as the positions to descend through. */
  function Locate(ts: seq<Tree>, path: string): (r: Option<seq<nat>>)
    ensures r.Some? ==> ValidPos(ts, r.value)
    decreases |path|
  {
    var (name, rest) := SplitPath(path);
    var i := FirstNamed(ts, name);
    if i == |ts| then None
    else if rest == "" then Some([i])
    else match Locate(ts[i].children, rest)
      case None => None
      case Some(pos) => Some([i] + pos)
  }

  predicate ValidPos(ts: seq<Tree>, pos: seq<nat>)
    decreases |pos|
  {
    && pos != [] && pos[0] < |ts|
    && (|pos| > 1 ==> ValidPos(ts[pos[0]].children, pos[1..]))
  }

  function NodeAt(ts: seq<Tree>, pos: seq<nat>): Tree
    requires ValidPos(ts, pos)
    decreases |pos|
  {
    if |pos| == 1 then ts[pos[0]] else NodeAt(ts[pos[0]].children, pos[1..])
  }

  /** The names on the way down, joined with '/'. */
  function PathTo(ts: seq<Tree>, pos: seq<nat>): string
    requires ValidPos(ts, pos)
    decreases |pos|
  {
    if |pos| == 1 then ts[pos[0]].name
    else ts[pos[0]].name + "/" + PathTo(ts[pos[0]].children, pos[1..])
  }

  // ---------------------------------------------------------------- which trees

  /** Siblings have distinct names without '/', and below the top no name is empty. */
  ghost predicate Addressable(ts: seq<Tree>, top: bool) {
    && (forall i, j | 0 <= i < j < |ts| :: ts[i].name != ts[j].name)
    && (forall i | 0 <= i < |ts| :: '/' !in ts[i].name && (top || ts[i].name != ""))
    && (forall i | 0 <= i < |ts| :: Addressable(ts[i].children, false))
  }

  /** Every node is what its own path finds. */
  ghost predicate AllFound(ts: seq<Tree>) {
    forall pos | ValidPos(ts, pos) :: Locate(ts, PathTo(ts, pos)) == Some(pos)
  }

  lemma {:induction false} FirstNamedIs(ts: seq<Tree>, i: nat)
    requires i < |ts|
    ensures FirstNamed(ts, ts[i].name) <= i
    ensures (forall j | 0 <= j < i :: ts[j].name != ts[i].name) ==> FirstNamed(ts, ts[i].name) == i
  {
    if i > 0 && ts[0].name != ts[i].name { FirstNamedIs(ts[1..], i - 1); }
  }

  lemma SplitPathOf(name: string, rest: string)
    requires '/' !in name
    ensures SplitPath(name) == (name, "")
    ensures SplitPath(name + "/" + rest) == (name, rest)
  {
    FindNone(name, '/');
    FindAfter(name, '/', rest);
    var s := name + "/" + rest;
    assert s[..|name|] == name && s[|name| + 1..] == rest;
  }

  lemma {:induction false} PathNotEmpty(ts: seq<Tree>, pos: seq<nat>)
    requires ValidPos(ts, pos) && Addressable(ts, false)
    ensures PathTo(ts, pos) != ""
  {}

  lemma {:induction false} AddressableIsFound(ts: seq<Tree>, top: bool, pos: seq<nat>)
    requires Addressable(ts, top) && ValidPos(ts, pos)
    ensures Locate(ts, PathTo(ts, pos)) == Some(pos)
    decreases |pos|
  {
    var i := pos[0];
    FirstNamedIs(ts, i);
    if |pos| == 1 {
      SplitPathOf(ts[i].name, "");
      assert pos == [i];
    } else {
      var cs := ts[i].children;
      SplitPathOf(ts[i].name, PathTo(cs, pos[1..]));
      PathNotEmpty(cs, pos[1..]);
      AddressableIsFound(cs, false, pos[1..]);
      assert [i] + pos[1..] == pos;
    }
  }

  /** A path that finds one of the top nodes is that node's whole name. */
  lemma FoundHere(ts: seq<Tree>, i: nat)
    requires i < |ts| && Locate(ts, ts[i].name) == Some([i])
    ensures '/' !in ts[i].name && FirstNamed(ts, ts[i].name) == i
  {
    var name := ts[i].name;
    FindFirst(name, '/');
    assert name[..|name|] == name;
    FoundInOneStep(ts, name, i);
  }

  lemma FoundInOneStep(ts: seq<Tree>, path: string, i: nat)
    requires Locate(ts, path) == Some([i])
    ensures SplitPath(path).1 == "" && FirstNamed(ts, SplitPath(path).0) == i
  {
    var (name, rest) := SplitPath(path);
    var k := FirstNamed(ts, name);
    var below := Locate(ts[k].children, rest);
    assert below.Some? ==> |[k] + below.value| > 1;
  }

  /** A path through the i-th node finds in its children what its tail finds there. */
  lemma FoundBelow(ts: seq<Tree>, i: nat, pos: seq<nat>)
    requires i < |ts| && '/' !in ts[i].name && FirstNamed(ts, ts[i].name) == i
    requires ValidPos(ts[i].children, pos)
    requires Locate(ts, PathTo(ts, [i] + pos)) == Some([i] + pos)
    ensures Locate(ts[i].children, PathTo(ts[i].children, pos)) == Some(pos)
    ensures PathTo(ts[i].children, pos) != ""
  {
    var rest := PathTo(ts[i].children, pos);
    assert ([i] + pos)[1..] == pos;
    SplitPathOf(ts[i].name, rest);
    var whole := Locate(ts, ts[i].name + "/" + rest);
    assert |whole.value| == 1 + |pos|;
    var below := Locate(ts[i].children, rest);
    assert whole.value == [i] + below.value;
    assert whole.value[1..] == below.value;
  }

  lemma {:induction false} FoundIsAddressable(ts: seq<Tree>, top: bool)
    requires AllFound(ts) && (top || forall pos | ValidPos(ts, pos) :: PathTo(ts, pos) != "")
    ensures Addressable(ts, top)
    decreases ts
  {
    forall i | 0 <= i < |ts|
      ensures '/' !in ts[i].name && FirstNamed(ts, ts[i].name) == i
      ensures top || ts[i].name != ""
      ensures Addressable(ts[i].children, false)
    {
      assert ValidPos(ts, [i]) && PathTo(ts, [i]) == ts[i].name;
      assert top || PathTo(ts, [i]) != "";
      FoundHere(ts, i);
      forall pos | ValidPos(ts[i].children, pos)
        ensures Locate(ts[i].children, PathTo(ts[i].children, pos)) == Some(pos)
        ensures PathTo(ts[i].children, pos) != ""
      {
        assert ([i] + pos)[1..] == pos && ValidPos(ts, [i] + pos);
        FoundBelow(ts, i, pos);
      }
      FoundIsAddressable(ts[i].children, false);
    }
    forall i, j | 0 <= i < j < |ts|
      ensures ts[i].name != ts[j].name
    {
      assert FirstNamed(ts, ts[i].name) == i && FirstNamed(ts, ts[j].name) == j;
    }
  }

  /** Every node is found under its own path exactly when sibling names are distinct,
      free of '/', and below the top not empty. */
  lemma LookupIsExact(ts: seq<Tree>)
    ensures AllFound(ts) <==> Addressable(ts, true)
  {
    if Addressable(ts, true) {
      forall pos | ValidPos(ts, pos)
        ensures Locate(ts, PathTo(ts, pos)) == Some(pos)
      {
        AddressableIsFound(ts, true, pos);
      }
    }
    if AllFound(ts) {
      FoundIsAddressable(ts, true);
    }
  }

  // ---------------------------------------------------------------- which path leads where

  /** Each node on the way is the first of its name among its siblings, and no name holds a '/'. */
  ghost predicate FirstOnTheWay(ts: seq<Tree>, pos: seq<nat>)
    requires ValidPos(ts, pos)
    decreases |pos|
  {
    var i := pos[0];
    && '/' !in ts[i].name && (forall j | 0 <= j < i :: ts[j].name != ts[i].name)
    && (|pos| > 1 ==> FirstOnTheWay(ts[i].children, pos[1..]))
  }

  /** The path is the names on the way joined with '/', and may end with one more '/'; below
      the top an empty last name needs that '/'. */
  ghost predicate Leads(ts: seq<Tree>, path: string, pos: seq<nat>) {
    && ValidPos(ts, pos) && FirstOnTheWay(ts, pos)
    && (path == PathTo(ts, pos) + "/"
        || (path == PathTo(ts, pos) && (|pos| == 1 || NodeAt(ts, pos).name != "")))
  }

  lemma {:induction false} FirstNamedIsFirst(ts: seq<Tree>, name: string)
    ensures forall j | 0 <= j < FirstNamed(ts, name) :: ts[j].name != name
  {
    if ts != [] && ts[0].name != name { FirstNamedIsFirst(ts[1..], name); }
  }

  lemma SplitPathJoins(path: string)
    ensures var (name, rest) := SplitPath(path);
            '/' !in name && (path == name + "/" + rest || (path == name && rest == ""))
  {
    var p := Find(path, '/');
    FindFirst(path, '/');
    if p < |path| { CutAt(path, p); }
  }

  lemma PathJoins(name: string, below: string)
    ensures name + "/" + (below + "/") == name + "/" + below + "/"
  {}

  lemma {:induction false} LocateLeads(ts: seq<Tree>, path: string)
    requires Locate(ts, path).Some?
    ensures Leads(ts, path, Locate(ts, path).value)
    decreases |path|
  {
    var (name, rest) := SplitPath(path);
    var i := FirstNamed(ts, name);
    SplitPathJoins(path);
    FirstNamedIsFirst(ts, name);
    if rest != "" {
      var cs := ts[i].children;
      var below := Locate(cs, rest).value;
      LocateLeads(cs, rest);
      assert ([i] + below)[1..] == below;
      PathJoins(name, PathTo(cs, below));
    } else {
      assert path == name || path == name + "/" by { assert name + "/" + "" == name + "/"; }
    }
  }

  lemma {:induction false} LeadsIsLocated(ts: seq<Tree>, path: string, pos: seq<nat>)
    requires Leads(ts, path, pos)
    ensures Locate(ts, path) == Some(pos)
    decreases |pos|
  {
    var i := pos[0];
    var name := ts[i].name;
    FirstNamedIs(ts, i);
    if |pos| == 1 {
      SplitPathOf(name, "");
      assert name + "/" + "" == name + "/" && pos == [i];
    } else {
      var rest := LeadsBelow(ts, path, pos);
      SplitPathOf(name, rest);
      LeadsIsLocated(ts[i].children, rest, pos[1..]);
      assert [i] + pos[1..] == pos;
    }
  }

  /** Behind the first name the path leads on in that node's children. */
  lemma LeadsBelow(ts: seq<Tree>, path: string, pos: seq<nat>) returns (rest: string)
    requires Leads(ts, path, pos) && |pos| > 1
    ensures path == ts[pos[0]].name + "/" + rest && rest != ""
    ensures Leads(ts[pos[0]].children, rest, pos[1..])
  {
    var cs, below := ts[pos[0]].children, pos[1..];
    assert |below| == 1 ==> NodeAt(cs, below).name == PathTo(cs, below);
    if path == PathTo(ts, pos) + "/" {
      rest := PathTo(cs, below) + "/";
      PathJoins(ts[pos[0]].name, PathTo(cs, below));
    } else {
      rest := PathTo(cs, below);
    }
  }

  /** config_get finds exactly the node a path leads to, in every tree. */
  lemma LocateIsExact(ts: seq<Tree>, path: string, pos: seq<nat>)
    ensures Locate(ts, path) == Some(pos) <==> Leads(ts, path, pos)
  {
    if Locate(ts, path) == Some(pos) { LocateLeads(ts, path); }
    if Leads(ts, path, pos) { LeadsIsLocated(ts, path, pos); }
  }

  // ---------------------------------------------------------------- CConfig::get

  /** One pair of surrounding quotes is dropped; a single quote is its own pair. */
  function Unquote(v: string): string {
    if v != "" && v[0] == '"' && v[|v| - 1] == '"'
    then (if |v| == 1 then "" else v[1..|v| - 1])
    else v
  }

  /** A value in quotes gives what is between them, a single quote nothing, and any other
      value itself. */
  predicate Gives(value: string, got: string) {
    || value == "\"" + got + "\""
    || (value == "\"" && got == "")
    || (value == got && !(value != "" && value[0] == '"' && value[|value| - 1] == '"'))
  }

  lemma UnquoteIsExact(v: string, got: string)
    ensures Unquote(v) == got <==> Gives(v, got)
  {
    var q := "\"" + got + "\"";
    assert q[1..|q| - 1] == got;
    if |v| > 1 && v[0] == '"' && v[|v| - 1] == '"' {
      assert v == "\"" + v[1..|v| - 1] + "\"";
    }
  }

  function GetValue(ts: seq<Tree>, path: string): string {
    match Locate(ts, path)
    case None => ""
    case Some(pos) => Unquote(NodeAt(ts, pos).value)
  }

  /** A path that leads to a node gives what its value gives, any other the empty text. */
  lemma ValueIsExact(ts: seq<Tree>, path: string)
    ensures forall pos | Leads(ts, path, pos) :: Gives(NodeAt(ts, pos).value, GetValue(ts, path))
    ensures (forall pos :: !Leads(ts, path, pos)) ==> GetValue(ts, path) == ""
  {
    forall pos | Leads(ts, path, pos)
      ensures Gives(NodeAt(ts, pos).value, GetValue(ts, path))
    {
      LocateIsExact(ts, path, pos);
      UnquoteIsExact(NodeAt(ts, pos).value, GetValue(ts, path));
    }
    if Locate(ts, path).Some? { LocateIsExact(ts, path, Locate(ts, path).value); }
  }

  /** From the text to the setting: whatever the layout of the file, a path gives the value
      of the node it leads to, without its quotes if it has them, and otherwise nothing;
      and in an addressable tree every node's own path leads to it. */
  lemma EverySettingIsRetrieved(ts: seq<Laid>, path: string)
    requires WellLaid(ts, 0)
    ensures var got := GetValue(ParseText(Unlines(RenderLines(ts))), path);
            && (forall pos | Leads(Erase(ts), path, pos) :: Gives(NodeAt(Erase(ts), pos).value, got))
            && ((forall pos :: !Leads(Erase(ts), path, pos)) ==> got == "")
    ensures Addressable(Erase(ts), true) ==> forall pos | ValidPos(Erase(ts), pos) :: Leads(Erase(ts), PathTo(Erase(ts), pos), pos)
  {
    RoundTrip(ts);
    ValueIsExact(Erase(ts), path);
    if Addressable(Erase(ts), true) {
      forall pos | ValidPos(Erase(ts), pos)
        ensures Leads(Erase(ts), PathTo(Erase(ts), pos), pos)
      {
        AddressableIsFound(Erase(ts), true, pos);
        LocateIsExact(Erase(ts), PathTo(Erase(ts), pos), pos);
      }
    }
  }
}
