/** The client's endpoint URL taken apart (src/client/CClient.cpp:113-171), and exactly
    which URLs come apart the way they were put together. */
module Endpoint {
  import opened Text
  import opened Numbers

  /** What the client connects to and asks for. */
  datatype Target = Target(tls: bool, host: string, port: int, path: string)

  /** The text in front of the first `c` and behind it; the second part is None without a `c`. */
  function SplitAt(s: string, c: char): (string, Option<string>) {
    var n := Find(s, c);
    if n == |s| then (s, None) else (s[..n], Some(s[n + 1..]))
  }

  /** The text behind "user:password@", which only counts in front of the first '/'. */
  function WithoutAuth(s: string): string {
    var n1, nt := Find(s, '@'), Find(s, '/');
    if n1 < |s| && n1 < nt then s[n1 + 1..] else s
  }

  /** A text cut in front of its first '/'. */
  function SplitPath(s: string): (string, Option<string>) {
    var n := Find(s, '/');
    if n == |s| then (s, None) else (s[..n], Some(s[n..]))
  }

  function PathOr(p: Option<string>): string {
    match p
    case None => "/"
    case Some(path) => path
  }

  /** Host, port and path behind the scheme; any ':' is taken for the port's. */
  function SplitAuthority(s: string, tls: bool): Target {
    var (front, behind) := SplitAt(WithoutAuth(s), ':');
    match behind
    case Some(rest) =>
      var (sport, path) := SplitPath(rest);
      Target(tls, front, Atoi(sport), PathOr(path))
    case None =>
      var (host, path) := SplitPath(front);
      Target(tls, host, if tls then 443 else 80, PathOr(path))
  }

  /** None is the endpoint reported as invalid. */
  function SplitUrl(endpoint: string): Option<Target> {
    match FindStr(endpoint, "://", 0)
    case None => None
    case Some(n) => Some(SplitAuthority(endpoint[n + 3..], endpoint[..n] == "https"))
  }

  // ------------------------------------------------------------ putting URLs together

  datatype Url = Url(scheme: string, auth: Option<string>, host: string, port: Option<nat>, path: string)

  predicate GoodUrl(u: Url) {
    && ':' !in u.scheme
    && (u.auth.Some? ==> '@' !in u.auth.value && '/' !in u.auth.value)
    && '/' !in u.host && ':' !in u.host && '@' !in u.host
    && (u.port.Some? ==> u.port.value < TWO_31)
    && (u.path != "" ==> u.path[0] == '/')
  }

  function RenderAuthority(u: Url): string {
    u.host + (if u.port.Some? then ":" + (Dec(u.port.value) + u.path) else u.path)
  }

  function Render(u: Url): string {
    u.scheme + "://" + ((if u.auth.Some? then u.auth.value + "@" else "") + RenderAuthority(u))
  }

  /** What the URL means. */
  function Meaning(u: Url): Target {
    Target(u.scheme == "https", u.host,
           match u.port { case None => if u.scheme == "https" then 443 else 80 case Some(n) => n },
           if u.path == "" then "/" else u.path)
  }

  // ------------------------------------------------------------ piece by piece

  lemma SplitAtFirst(a: string, c: char, b: string)
    requires c !in a
    ensures SplitAt(a + [c] + b, c) == (a, Some(b)) && SplitAt(a, c) == (a, None)
  {
    FindAfter(a, c, b);
    FindNone(a, c);
  }

  lemma SplitPathFirst(a: string, path: string)
    requires '/' !in a && (path != "" ==> path[0] == '/')
    ensures SplitPath(a + path) == (a, if path == "" then None else Some(path))
  {
    if path == "" {
      FindNone(a, '/');
      assert a + path == a;
    } else {
      FindAfter(a, '/', path[1..]);
      var s := a + path;
      assert s == a + ['/'] + path[1..] && s[..|a|] == a && s[|a|..] == path;
    }
  }

  lemma SchemeSplits(u: Url)
    requires GoodUrl(u)
    ensures SplitUrl(Render(u)) == Some(SplitAuthority(Render(u)[|u.scheme| + 3..], u.scheme == "https"))
  {
    var s, n := Render(u), |u.scheme|;
    forall k | 0 <= k < n
      ensures !At(s, "://", k)
    {
      assert s[k] == u.scheme[k];
      assert k + 3 <= |s| ==> !Agree(s, "://", k, 0);
    }
    assert s[n..n + 3] == "://";
    AtSlice(s, "://", n);
    FindStrFirst(s, "://", 0, Some(n));
    assert s[..n] == u.scheme;
  }

  /** A text is refused exactly when no "://" occurs in it. */
  lemma OnlyEndpoints(endpoint: string)
    ensures SplitUrl(endpoint).None? <==> !Contains(endpoint, "://")
  {
    FindStrFirst(endpoint, "://", 0, FindStr(endpoint, "://", 0));
  }

  lemma AuthIsDropped(u: Url)
    requires GoodUrl(u)
    ensures WithoutAuth(Render(u)[|u.scheme| + 3..]) == RenderAuthority(u)
  {
    var rest := RenderAuthority(u);
    var s := (if u.auth.Some? then u.auth.value + "@" else "") + rest;
    assert Render(u)[|u.scheme| + 3..] == s;
    if u.auth.Some? {
      var a := u.auth.value;
      assert s == a + ['@'] + rest && s[|a| + 1..] == rest;
      FindAfter(a, '@', rest);
      NotBefore(a + ['@'], '/', rest);
    } else {
      assert s == rest;
      NoAuth(u);
    }
  }

  /** Without credentials an '@' comes behind the first '/'. */
  lemma NoAuth(u: Url)
    requires GoodUrl(u)
    ensures WithoutAuth(RenderAuthority(u)) == RenderAuthority(u)
  {
    var rest := RenderAuthority(u);
    var front := u.host + (if u.port.Some? then ":" + Dec(u.port.value) else "");
    assert rest == front + u.path;
    if u.port.Some? { OnlyDigits(u.port.value, '@'); }
    NotBefore(front, '@', u.path);
    if u.path == "" {
      FindNone(front, '@');
      assert rest == front;
    } else {
      SlashAt(front, u.path);
      assert u.path[0] != '@';
      FindFirst(rest, '@');
    }
  }

  /** The first `c` of a + b is not in `a`. */
  lemma NotBefore(a: string, c: char, b: string)
    requires c !in a
    ensures Find(a + b, c) >= |a|
  {
    assert forall k | 0 <= k < |a| :: (a + b)[k] == a[k];
  }

  lemma SlashAt(front: string, path: string)
    requires path != "" && path[0] == '/'
    ensures Find(front + path, '/') <= |front|
  {
    var i := Find(front + path, '/');
    FindFirst(front + path, '/');
    assert (front + path)[|front|] == '/';
    assert forall k | 0 <= k < i :: (front + path)[..i][k] == (front + path)[k];
  }

  lemma WithPort(u: Url)
    requires GoodUrl(u) && u.port.Some?
    ensures SplitAuthority(Render(u)[|u.scheme| + 3..], u.scheme == "https") == Meaning(u)
  {
    var sport := Dec(u.port.value);
    AuthIsDropped(u);
    assert RenderAuthority(u) == u.host + [':'] + (sport + u.path);
    OnlyDigits(u.port.value, '/');
    PortGiven(Render(u)[|u.scheme| + 3..], u.scheme == "https", u.host, sport, u.path);
    PortReads(u.port.value);
  }

  lemma PortGiven(s: string, tls: bool, host: string, sport: string, path: string)
    requires WithoutAuth(s) == host + [':'] + (sport + path)
    requires ':' !in host && '/' !in sport && (path != "" ==> path[0] == '/')
    ensures SplitAuthority(s, tls) == Target(tls, host, Atoi(sport), if path == "" then "/" else path)
  {
    SplitAtFirst(host, ':', sport + path);
    SplitPathFirst(sport, path);
  }

  lemma OnlyDigits(port: nat, c: char)
    requires c < '0' || c > '9'
    ensures c !in Dec(port)
  {
    assert forall k | 0 <= k < |Dec(port)| :: '0' <= Dec(port)[k] <= '9';
  }

  lemma PortReads(port: nat)
    requires port < TWO_31
    ensures Atoi(Dec(port)) == port
  {
    AtoiOfInt(port, "");
    assert Int(port) + "" == Dec(port);
  }

  lemma WithoutPort(u: Url)
    requires GoodUrl(u) && u.port.None? && ':' !in u.path
    ensures SplitAuthority(Render(u)[|u.scheme| + 3..], u.scheme == "https") == Meaning(u)
  {
    AuthIsDropped(u);
    SplitAtFirst(RenderAuthority(u), ':', "");
    SplitPathFirst(u.host, u.path);
  }

  /** A ':' in the path of a URL without a port moves the start of the path into the host. */
  lemma ColonInPath(u: Url)
    requires GoodUrl(u) && u.port.None? && ':' in u.path
    ensures SplitAuthority(Render(u)[|u.scheme| + 3..], u.scheme == "https").host
         == u.host + u.path[..Find(u.path, ':')]
    ensures Find(u.path, ':') > 0
  {
    AuthIsDropped(u);
    var n := Find(u.path, ':');
    FindFirst(u.path, ':');
    assert u.path[..|u.path|] == u.path;
    var front, behind := u.host + u.path[..n], u.path[n + 1..];
    assert RenderAuthority(u) == front + [':'] + behind;
    SplitAtFirst(front, ':', behind);
  }

  /** A URL is understood exactly when it names its port or has no ':' in its path. */
  lemma UrlIsUnderstood(u: Url)
    requires GoodUrl(u)
    ensures SplitUrl(Render(u)) == Some(Meaning(u)) <==> u.port.Some? || ':' !in u.path
  {
    SchemeSplits(u);
    if u.port.Some? {
      WithPort(u);
    } else if ':' !in u.path {
      WithoutPort(u);
    } else {
      ColonInPath(u);
      assert |u.host + u.path[..Find(u.path, ':')]| > |u.host|;
    }
  }
}
