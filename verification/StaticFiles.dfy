/** Static files: getStaticEndpoint and getStaticIndex of src/server/CServer.cpp:281-408,
    which call each other, and what they can reach. The file system is a map. */
module StaticFiles {
  import opened Text

  /** MStaticEndpoint, MMimeType, a file, and the MEndpoint that is returned. */
  datatype Directory = Directory(host: string, path: string)
  datatype Mime = Mime(ext: string, type_: string, isText: bool)
  datatype File = File(date: string, contents: string)
  datatype Resource = Resource(path: string, method_: string, ext: string, contents: string,
                               contentType: string, date: string)

  datatype Site = Site(directories: seq<Directory>, indexes: seq<string>, mimes: seq<Mime>, files: map<string, File>)

  // ------------------------------------------------------------ the simple form

  predicate EndsWithSlash(s: string) {
    s != "" && s[|s| - 1] == '/'
  }

  predicate ServesHost(d: Directory, host: string) {
    d.host == "" || (|d.host| <= |host| && host[|host| - |d.host|..] == d.host)
  }

  /** The directory of the first entry that serves the host; empty when there is none. */
  function Root(ds: seq<Directory>, host: string): string {
    if ds == [] then "" else if ServesHost(ds[0], host) then ds[0].path else Root(ds[1..], host)
  }

  function WithoutQuery(path: string): string {
    path[..Find(path, '?')]
  }

  /** The text behind the last `c`; without a `c` the wrapped position makes it all of it. */
  function AfterLast(s: string, c: char): string {
    if s == "" || s[|s| - 1] == c then "" else AfterLast(s[..|s| - 1], c) + [s[|s| - 1]]
  }

  function ExtOf(path: string): string {
    Lower(AfterLast(AfterLast(path, '/'), '.'))
  }

  predicate FirstOfExt(mimes: seq<Mime>, ext: string, i: int) {
    0 <= i < |mimes| && mimes[i].ext == ext && forall j | 0 <= j < i :: mimes[j].ext != ext
  }

  function TypeOf(mimes: seq<Mime>, ext: string): string {
    if mimes == [] then "application/force-download"
    else if mimes[0].ext == ext then mimes[0].type_
    else TypeOf(mimes[1..], ext)
  }

  /** The file of a path that does not end with '/'. */
  function Direct(site: Site, path: string, method_: string, host: string): Option<Resource> {
    var root := Root(site.directories, Lower(host));
    var dpath := root + "/" + WithoutQuery(path);
    if Contains(path, "..") || root == "" || dpath !in site.files then None
    else
      var ext := ExtOf(WithoutQuery(path));
      var file := site.files[dpath];
      Some(Resource(dpath, method_, ext, file.contents, TypeOf(site.mimes, ext), file.date))
  }

  /** The first index name that resolves. */
  function Index(site: Site, path: string, method_: string, host: string, names: seq<string>): Option<Resource> {
    if names == [] then None
    else if !EndsWithSlash(names[0]) && Direct(site, path + names[0], method_, host).Some?
    then Direct(site, path + names[0], method_, host)
    else Index(site, path, method_, host, names[1..])
  }

  function Resolve(site: Site, path: string, method_: string, host: string): Option<Resource> {
    if Contains(path, "..") then None
    else if EndsWithSlash(path) then Index(site, path, method_, host, site.indexes)
    else Direct(site, path, method_, host)
  }

  // ------------------------------------------------------------ the code's form

  class StaticServer {
    var StaticEndpoints: seq<Directory>
    var StaticIndexes: seq<string>
    var MimeTypes: seq<Mime>
    const Files: map<string, File>

    constructor (files: map<string, File>)
      ensures Files == files && StaticEndpoints == [] && StaticIndexes == [] && MimeTypes == []
    {
      Files := files;
      StaticEndpoints, StaticIndexes, MimeTypes := [], [], [];
    }

    function AsSite(): Site
      reads this
    {
      Site(StaticEndpoints, StaticIndexes, MimeTypes, Files)
    }

    /** addStaticDirectory: the host in lower case. */
    method AddStaticDirectory(path: string, host: string)
      modifies this`StaticEndpoints
      ensures AsSite() == old(AsSite()).(directories := old(StaticEndpoints) + [Directory(Lower(host), path)])
    {
      var lower := StrToLower(host);
      StaticEndpoints := StaticEndpoints + [Directory(lower, path)];
    }

    method FindRoot(shost: string) returns (staticPath: string)
      ensures staticPath == Root(StaticEndpoints, shost)
    {
      staticPath := "";
      for i := 0 to |StaticEndpoints|
        invariant staticPath == "" && Root(StaticEndpoints, shost) == Root(StaticEndpoints[i..], shost)
      {
        var d := StaticEndpoints[i];
        if |d.host| == 0 {
          return d.path;
        } else if |d.host| <= |shost| && shost[|shost| - |d.host|..] == d.host {
          return d.path;
        }
      }
    }

    /** getMimeType: the first entry of that extension, or none. */
    method GetMimeType(ext: string) returns (r: Option<Mime>)
      ensures r.None? ==> forall m | m in MimeTypes :: m.ext != ext
      ensures r.Some? ==> exists i :: FirstOfExt(MimeTypes, ext, i) && MimeTypes[i] == r.value
      ensures TypeOf(MimeTypes, ext) == if r.Some? then r.value.type_ else "application/force-download"
    {
      for i := 0 to |MimeTypes|
        invariant forall j | 0 <= j < i :: MimeTypes[j].ext != ext
        invariant TypeOf(MimeTypes, ext) == TypeOf(MimeTypes[i..], ext)
      {
        if MimeTypes[i].ext == ext {
          assert FirstOfExt(MimeTypes, ext, i);
          return Some(MimeTypes[i]);
        }
      }
      return None;
    }

    /** getStaticEndpoint. An empty index name would make the two methods call each other
        for ever; every other name is resolved or skipped. */
    method GetStaticEndpoint(path: string, method_: string, host: string) returns (endpoint: Option<Resource>)
      requires forall name | name in StaticIndexes :: name != ""
      ensures endpoint == Resolve(AsSite(), path, method_, host)
      decreases if EndsWithSlash(path) then 1 else 0, 0
    {
      if Contains(path, "..") {
        return None;
      }
      if path != "" && path[|path| - 1] == '/' {
        endpoint := GetStaticIndex(path, method_, host);
        return;
      }
      var shost := StrToLower(host);
      var staticPath := FindRoot(shost);
      if |staticPath| == 0 {
        return None;
      }
      var fpath := path[..Find(path, '?')];
      var dpath := staticPath + "/" + fpath;
      var ext := StrToLower(AfterLast(AfterLast(fpath, '/'), '.'));
      var mime := GetMimeType(ext);
      if dpath !in Files {
        return None;
      }
      var file := Files[dpath];
      if mime.Some? {
        return Some(Resource(dpath, method_, ext, file.contents, mime.value.type_, file.date));
      }
      return Some(Resource(dpath, method_, ext, file.contents, "application/force-download", file.date));
    }

    /** getStaticIndex. */
    method GetStaticIndex(path: string, method_: string, host: string) returns (endpoint: Option<Resource>)
      requires EndsWithSlash(path) && !Contains(path, "..")
      requires forall name | name in StaticIndexes :: name != ""
      ensures endpoint == Index(AsSite(), path, method_, host, StaticIndexes)
      decreases 1, -1
    {
      for i := 0 to |StaticIndexes|
        invariant Index(AsSite(), path, method_, host, StaticIndexes)
               == Index(AsSite(), path, method_, host, StaticIndexes[i..])
      {
        var name := StaticIndexes[i];
        assert name in StaticIndexes;
        if name[|name| - 1] == '/' {
          continue;
        }
        endpoint := GetStaticEndpoint(path + name, method_, host);
        if endpoint.Some? {
          return;
        }
      }
      return None;
    }
  }

  // ------------------------------------------------------------ what is reached

  /** The first directory, in the order of registration, that serves the host. */
  predicate FirstServing(ds: seq<Directory>, host: string, i: int) {
    0 <= i < |ds| && ServesHost(ds[i], host) && forall j | 0 <= j < i :: !ServesHost(ds[j], host)
  }

  lemma {:induction false} RootIsFirst(ds: seq<Directory>, host: string)
    ensures forall i | FirstServing(ds, host, i) :: Root(ds, host) == ds[i].path
    ensures Root(ds, host) != "" ==> exists i :: FirstServing(ds, host, i)
  {
    if ds != [] {
      RootIsFirst(ds[1..], host);
      forall i | FirstServing(ds, host, i)
        ensures Root(ds, host) == ds[i].path
      {
        if i > 0 {
          assert !ServesHost(ds[0], host) && ds[1..][i - 1] == ds[i];
          assert forall j | 0 <= j < i - 1 :: ds[1..][j] == ds[j + 1];
          assert FirstServing(ds[1..], host, i - 1);
        }
      }
      if ServesHost(ds[0], host) {
        assert FirstServing(ds, host, 0);
      } else if Root(ds, host) != "" {
        var i :| FirstServing(ds[1..], host, i);
        assert forall j | 1 <= j <= i + 1 :: ds[j] == ds[1..][j - 1];
        assert FirstServing(ds, host, i + 1);
      }
    }
  }

  lemma {:induction false} TypeIsFirst(mimes: seq<Mime>, ext: string)
    ensures forall i | FirstOfExt(mimes, ext, i) :: TypeOf(mimes, ext) == mimes[i].type_
    ensures (forall m | m in mimes :: m.ext != ext) ==> TypeOf(mimes, ext) == "application/force-download"
  {
    if mimes != [] {
      TypeIsFirst(mimes[1..], ext);
      forall i | FirstOfExt(mimes, ext, i)
        ensures TypeOf(mimes, ext) == mimes[i].type_
      {
        if i > 0 {
          assert mimes[0].ext != ext && mimes[1..][i - 1] == mimes[i];
          assert forall j | 0 <= j < i - 1 :: mimes[1..][j] == mimes[j + 1];
          assert FirstOfExt(mimes[1..], ext, i - 1);
        }
      }
    }
  }

  lemma SlashIsLast(s: string)
    ensures EndsWithSlash(s) <==> exists front: string :: s == front + "/"
  {
    if EndsWithSlash(s) { assert s == s[..|s| - 1] + "/"; }
  }

  /** A directory serves the hosts that end with its own, or every host. */
  lemma ServesBySuffix(d: Directory, host: string)
    ensures ServesHost(d, host) <==> d.host == "" || exists front: string :: host == front + d.host
  {
    if ServesHost(d, host) && d.host != "" {
      assert host == host[..|host| - |d.host|] + d.host;
    }
  }

  /** What follows a '?' does not count. */
  lemma QueryIsCut(path: string, query: string)
    requires '?' !in path
    ensures WithoutQuery(path) == path && WithoutQuery(path + "?" + query) == path
  {
    FindNone(path, '?');
    FindAfter(path, '?', query);
    assert path[..|path|] == path && path + "?" + query == path + ['?'] + query;
  }

  /** The file of a path, below the first directory that serves the host. */
  predicate FileBelow(site: Site, host: string, path: string, i: int) {
    && FirstServing(site.directories, host, i) && site.directories[i].path != ""
    && !Contains(path, "..") && site.directories[i].path + "/" + WithoutQuery(path) in site.files
  }

  /** `r` is the file below the i-th directory, as it was asked for. */
  predicate IsFile(site: Site, path: string, method_: string, i: int, r: Resource)
    requires 0 <= i < |site.directories|
  {
    && r.path == site.directories[i].path + "/" + WithoutQuery(path) && r.path in site.files
    && r.contents == site.files[r.path].contents && r.date == site.files[r.path].date && r.method_ == method_
  }

  lemma DirectFinds(site: Site, path: string, method_: string, host: string)
    ensures var r := Direct(site, path, method_, host);
            && (r.Some? <==> exists i :: FileBelow(site, Lower(host), path, i))
            && (r.Some? ==> forall i | FileBelow(site, Lower(host), path, i) :: IsFile(site, path, method_, i, r.value))
  {
    var r := Direct(site, path, method_, host);
    RootIsFirst(site.directories, Lower(host));
    if r.Some? {
      var i :| FirstServing(site.directories, Lower(host), i);
      assert FileBelow(site, Lower(host), path, i);
    }
  }

  /** A file is returned exactly when the path has no ".." and the first directory that
      serves the host has a path below which the file is; it is that file. */
  lemma DirectIsExact(site: Site, path: string, method_: string, host: string)
    requires !EndsWithSlash(path)
    ensures var r := Resolve(site, path, method_, host);
            && (r.Some? <==> exists i :: FileBelow(site, Lower(host), path, i))
            && (r.Some? ==> forall i | FileBelow(site, Lower(host), path, i) :: IsFile(site, path, method_, i, r.value))
  {
    DirectFinds(site, path, method_, host);
  }

  /** The k-th index name gives a file; names ending in '/' never do. */
  ghost predicate GivesFile(site: Site, host: string, path: string, k: nat) {
    && k < |site.indexes| && !EndsWithSlash(site.indexes[k])
    && exists i :: FileBelow(site, host, path + site.indexes[k], i)
  }

  /** For a path ending in '/' a file is returned exactly when some index name gives one, and
      it is the file of the first that does. */
  lemma IndexIsExact(site: Site, path: string, method_: string, host: string) returns (k: nat)
    requires EndsWithSlash(path)
    ensures var r, h := Resolve(site, path, method_, host), Lower(host);
            && (r.Some? <==> exists j :: GivesFile(site, h, path, j))
            && (r.Some? ==>
                  && GivesFile(site, h, path, k) && (forall j | 0 <= j < k :: !GivesFile(site, h, path, j))
                  && forall i | FileBelow(site, h, path + site.indexes[k], i) ::
                       IsFile(site, path + site.indexes[k], method_, i, r.value))
  {
    var h, names := Lower(host), site.indexes;
    k := FirstIndexWins(site, path, method_, host, names);
    forall j: nat | j < |names|
      ensures GivesFile(site, h, path, j) <==> !Skipped(site, path, method_, host, names[j])
      ensures Contains(path, "..") ==> !GivesFile(site, h, path, j)
    {
      DirectFinds(site, path + names[j], method_, host);
      if Contains(path, "..") { PartContains(path, names[j], ".."); }
    }
    if k < |names| { DirectFinds(site, path + names[k], method_, host); }
    assert forall j: nat | j < |names| :: names[j] in names;
  }

  /** It has the type of the first entry for its extension, or the default. */
  lemma TypeIsExact(site: Site, path: string, method_: string, host: string)
    requires !EndsWithSlash(path) && Resolve(site, path, method_, host).Some?
    ensures var r, ext := Resolve(site, path, method_, host).value, ExtOf(WithoutQuery(path));
            && r.ext == ext
            && (forall i | FirstOfExt(site.mimes, ext, i) :: r.contentType == site.mimes[i].type_)
            && ((forall m | m in site.mimes :: m.ext != ext) ==> r.contentType == "application/force-download")
  {
    TypeIsFirst(site.mimes, ExtOf(WithoutQuery(path)));
  }

  lemma {:induction false} AfterLastOf(a: string, c: char, b: string)
    requires c !in b
    ensures AfterLast(a + [c] + b, c) == b && AfterLast(b, c) == b
  {
    if b != "" {
      var n, s := |b| - 1, a + [c] + b;
      assert b[n] in b && s[..|s| - 1] == a + [c] + b[..n] && b == b[..n] + [b[n]];
      AfterLastOf(a, c, b[..n]);
    }
  }

  /** The extension is what follows the last '.' of the file name, in small letters; a
      name without '.' is its own extension. */
  lemma ExtensionOf(dir: string, stem: string, ext: string)
    requires '/' !in stem && '/' !in ext && '.' !in ext
    ensures ExtOf(dir + "/" + (stem + "." + ext)) == Lower(ext)
    ensures ExtOf(dir + "/" + ext) == Lower(ext)
  {
    AfterLastOf(dir, '/', stem + "." + ext);
    AfterLastOf(dir, '/', ext);
    AfterLastOf(stem, '.', ext);
  }

  predicate Skipped(site: Site, path: string, method_: string, host: string, name: string) {
    EndsWithSlash(name) || Direct(site, path + name, method_, host) == None
  }

  /** The i-th name resolves to `r`, and none in front of it resolves. */
  predicate Wins(site: Site, path: string, method_: string, host: string, names: seq<string>, i: nat, r: Resource) {
    && i < |names| && !EndsWithSlash(names[i])
    && Direct(site, path + names[i], method_, host) == Some(r)
    && forall j | 0 <= j < i :: Skipped(site, path, method_, host, names[j])
  }

  /** For a path ending in '/', the first index name that resolves wins, in the order of
      registration, and names ending in '/' never do. */
  lemma {:induction false} FirstIndexWins(site: Site, path: string, method_: string, host: string, names: seq<string>)
    returns (i: nat)
    ensures match Index(site, path, method_, host, names)
            case None => forall name | name in names :: Skipped(site, path, method_, host, name)
            case Some(r) => Wins(site, path, method_, host, names, i, r)
  {
    i := 0;
    if names != [] {
      var later := FirstIndexWins(site, path, method_, host, names[1..]);
      assert forall name | name in names :: name == names[0] || name in names[1..];
      if Skipped(site, path, method_, host, names[0]) {
        i := later + 1;
        assert forall j | 1 <= j < |names| :: names[j] == names[1..][j - 1];
      }
    }
  }

  /** The path components, and where walking them leads: "" and "." stay, ".." climbs. */
  function Components(s: string): (cs: seq<string>)
    ensures cs != []
  {
    if s == "" then [""] else Prepend(s[0], Components(s[1..]))
  }

  function Walk(at: seq<string>, cs: seq<string>): seq<string>
    decreases |cs|
  {
    if cs == [] then at
    else if cs[0] == "" || cs[0] == "." then Walk(at, cs[1..])
    else if cs[0] == ".." then Walk(if at == [] then [] else at[..|at| - 1], cs[1..])
    else Walk(at + [cs[0]], cs[1..])
  }

  /** The components of a character in front of a text with the components `cs`. */
  function Prepend(c: char, cs: seq<string>): seq<string>
    requires cs != []
  {
    if c == '/' then [""] + cs else [[c] + cs[0]] + cs[1..]
  }

  lemma {:induction false} ComponentsConcat(a: string, b: string)
    ensures Components(a + "/" + b) == Components(a) + Components(b)
  {
    var s := a + "/" + b;
    if a == "" {
      assert s[0] == '/' && s[1..] == b && Components(a) == [""];
    } else {
      assert s[0] == a[0] && s[1..] == a[1..] + "/" + b;
      ComponentsConcat(a[1..], b);
      PrependConcat(a[0], Components(a[1..]), Components(b));
    }
  }

  lemma PrependConcat(c: char, a: seq<string>, b: seq<string>)
    requires a != []
    ensures Prepend(c, a + b) == Prepend(c, a) + b
  {
    assert (a + b)[0] == a[0] && (a + b)[1..] == a[1..] + b;
  }

  lemma {:induction false} WalkConcat(at: seq<string>, a: seq<string>, b: seq<string>)
    ensures Walk(at, a + b) == Walk(Walk(at, a), b)
    decreases |a|
  {
    if a == [] {
      assert a + b == b;
    } else {
      assert (a + b)[1..] == a[1..] + b;
      var next := if a[0] == "" || a[0] == "." then at
        else if a[0] == ".." then (if at == [] then [] else at[..|at| - 1])
        else at + [a[0]];
      WalkConcat(next, a[1..], b);
    }
  }

  predicate NeverUp(cs: seq<string>) {
    forall i | 0 <= i < |cs| :: cs[i] != ".."
  }

  /** A component ".." is the text "..". */
  lemma {:induction false} UpIsDots(s: string)
    ensures Components(s)[0] <= s
    ensures !NeverUp(Components(s)) ==> Contains(s, "..")
  {
    if s != "" {
      UpIsDots(s[1..]);
      var cs := Components(s[1..]);
      if !NeverUp(Components(s)) {
        if NeverUp(cs) {
          assert Components(s)[0] == "..";
          assert s[0..0 + 2] == "..";
          AtSlice(s, "..", 0);
        } else {
          LaterContains(s, "..");
        }
      }
    }
  }

  lemma LaterContains(s: string, pat: string)
    requires s != "" && Contains(s[1..], pat)
    ensures Contains(s, pat)
  {
    var i :| 0 <= i <= |s[1..]| && At(s[1..], pat, i);
    AtWithin(s[..1], s[1..], "", pat, i);
    assert s[..1] + s[1..] + "" == s;
    assert At(s, pat, i + 1);
  }

  lemma {:induction false} WalkOnlyDown(at: seq<string>, cs: seq<string>)
    requires NeverUp(cs)
    ensures at <= Walk(at, cs)
    decreases |cs|
  {
    if cs != [] {
      assert NeverUp(cs[1..]);
      WalkOnlyDown(if cs[0] == "" || cs[0] == "." then at else at + [cs[0]], cs[1..]);
    }
  }

  /** Where Direct finds a file, walking its path never leaves the directory. */
  lemma DirectStaysInside(site: Site, path: string, method_: string, host: string)
    ensures var r, root := Direct(site, path, method_, host), Root(site.directories, Lower(host));
            r.Some? ==>
              && r.value.path in site.files
              && r.value.path == root + "/" + WithoutQuery(path) && !Contains(WithoutQuery(path), "..")
              && Walk([], Components(root)) <= Walk([], Components(r.value.path))
  {
    var r, root, q := Direct(site, path, method_, host), Root(site.directories, Lower(host)), WithoutQuery(path);
    if r.Some? {
      assert path == q + path[|q|..];
      if Contains(q, "..") { PartContains(q, path[|q|..], ".."); }
      ComponentsConcat(root, q);
      WalkConcat([], Components(root), Components(q));
      UpIsDots(q);
      WalkOnlyDown(Walk([], Components(root)), Components(q));
    }
  }

  /** Whatever the path and the index names, a resource that is found lies below the first
      directory that serves the host. */
  lemma ResolveStaysInside(site: Site, path: string, method_: string, host: string)
    ensures var r, root := Resolve(site, path, method_, host), Root(site.directories, Lower(host));
            r.Some? ==>
              && r.value.path in site.files && r.value.contents == site.files[r.value.path].contents
              && Walk([], Components(root)) <= Walk([], Components(r.value.path))
  {
    var r := Resolve(site, path, method_, host);
    if r.Some? {
      if EndsWithSlash(path) {
        var i := FirstIndexWins(site, path, method_, host, site.indexes);
        DirectStaysInside(site, path + site.indexes[i], method_, host);
      } else {
        DirectStaysInside(site, path, method_, host);
      }
    }
  }
}
