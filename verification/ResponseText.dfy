/** What the bytes of a response are: its header lines one by one, all of them when no
    write throws, and else whole lines and the start of the next. */
module ResponseText {
  import opened Text
  import opened Numbers
  import opened Sockets
  import opened Headers
  import opened Response

  /** Text that can stand in a header line without ending it or posing as a status line. */
  predicate Plain(s: string) {
    Clean(s) && !Contains(s, "HTTP/1.1")
  }

  predicate PlainCookie(c: Cookie) {
    Plain(c.name) && Plain(c.value) && Plain(c.path)
  }

  predicate WellFormed(r: Outgoing, now: string) {
    && Plain(r.contentType) && Plain(r.sid) && Plain(DateOf(r, now))
    && (forall i | 0 <= i < |r.cookies| :: PlainCookie(r.cookies[i]))
  }

  // ------------------------------------------------------------ the lines written

  function StatusLine(r: Outgoing): string {
    "HTTP/1.1" + " " + Int(r.code) + " " + CodeDescription(r.code)
  }

  /** A header row, and the line it is printed as. */
  type Row = (string, string)

  function RowLine(row: Row): string {
    row.0 + ": " + row.1
  }

  function RowLines(rows: seq<Row>): seq<string> {
    seq(|rows|, i requires 0 <= i < |rows| => RowLine(rows[i]))
  }

  function FirstRows(r: Outgoing, now: string): seq<Row> {
    [("Date", Carried(DateOf(r, now))),
     ("Content-Type", Carried(r.contentType)),
     ("Content-Length", Dec(ToUint32(|r.body|))),
     ("Last-Modified", Carried(DateOf(r, now)))]
  }

  function SidRows(sid: string): seq<Row> {
    if sid == "" then [] else [("Set-Cookie", CookieText(Cookie("SolusekSID", sid, "/")))]
  }

  function PathText(path: string): string {
    if path == "" then "" else "; Path=" + Carried(path)
  }

  function CookieText(c: Cookie): string {
    Carried(c.name) + "=" + (Carried(c.value) + ("; SameSite=Strict" + PathText(c.path)))
  }

  function CookieRows(cs: seq<Cookie>): seq<Row> {
    seq(|cs|, i requires 0 <= i < |cs| => ("Set-Cookie", CookieText(cs[i])))
  }

  const LAST_ROWS: seq<Row> := [("Server", "Solusek/1.0 (Linux)"), ("Connection", "close")]

  function HeaderRows(r: Outgoing, now: string): seq<Row> {
    FirstRows(r, now) + (SidRows(r.sid) + CookieRows(r.cookies))
  }

  function HeaderLines(r: Outgoing, now: string): seq<string> {
    [StatusLine(r)] + RowLines(HeaderRows(r, now))
  }

  function ResponseLines(r: Outgoing, now: string): seq<string> {
    HeaderLines(r, now) + RowLines(LAST_ROWS)
  }

  // ------------------------------------------------------------ one group, one line

  /** What a group of writes puts on the connection when none throws. */
  function Flat(parts: seq<string>): string {
    if parts == [] then "" else Carried(parts[0]) + Flat(parts[1..])
  }

  /** Only the last string ends a line. */
  predicate OneLine(parts: seq<string>) {
    forall i | 0 <= i < |parts| && '\n' in parts[i] :: i == |parts| - 1 && parts[i] == "\r\n"
  }

  predicate Prints(parts: seq<string>, line: string) {
    OneLine(parts) && Flat(parts) == line + "\r\n"
  }

  lemma FlatCons(p: string, ps: seq<string>)
    ensures Flat([p] + ps) == Carried(p) + Flat(ps)
  {
    assert ([p] + ps)[1..] == ps;
  }

  lemma Flat2(a: string, b: string)
    ensures Flat([a, b]) == Carried(a) + Carried(b)
  {
    FlatCons(b, []);
    FlatCons(a, [b]);
    assert [a] + [b] == [a, b] && [b] + [] == [b];
    assert Carried(b) + "" == Carried(b);
  }

  lemma Flat3(a: string, b: string, c: string)
    ensures Flat([a, b, c]) == Carried(a) + Carried(b) + Carried(c)
  {
    Flat2(b, c);
    FlatCons(a, [b, c]);
    assert [a] + [b, c] == [a, b, c];
    Assoc(Carried(a), Carried(b), Carried(c));
  }

  lemma Flat5(a: string, b: string, c: string, d: string, e: string)
    ensures Flat([a, b, c, d, e]) == Carried(a) + Carried(b) + Carried(c) + Carried(d) + Carried(e)
  {
    Flat2(a, b);
    Flat3(c, d, e);
    FlatConcat([a, b], [c, d, e]);
    assert [a, b] + [c, d, e] == [a, b, c, d, e];
    FourPieces(Carried(a) + Carried(b), Carried(c), Carried(d), Carried(e));
  }

  lemma FourPieces(a: string, b: string, c: string, d: string)
    ensures a + (b + c + d) == a + b + c + d
  {
    Assoc(a, b + c, d);
    Assoc(a, b, c);
  }

  lemma {:induction false} FlatConcat(a: seq<string>, b: seq<string>)
    ensures Flat(a + b) == Flat(a) + Flat(b)
  {
    if a == [] {
      assert a + b == b;
    } else {
      assert (a + b)[1..] == a[1..] + b;
      FlatConcat(a[1..], b);
      Assoc(Carried(a[0]), Flat(a[1..]), Flat(b));
    }
  }

  lemma FivePieces(a: string, b: string, c: string, d: string, e: string)
    ensures a + b + c + d + e == a + (b + c + d + e)
  {
    FourPieces(a, b, c, d);
    Assoc(a, b + c + d, e);
  }

  lemma FiveStand(a: string, b: string, c: string, d: string, e: string)
    requires Carried(a) == a && Carried(b) == b && Carried(c) == c && Carried(d) == d && Carried(e) == e
    ensures Flat([a, b, c, d, e]) == a + b + c + d + e
  {
    Flat5(a, b, c, d, e);
  }

  lemma StatusPrints(r: Outgoing)
    ensures Prints(StatusParts(r), StatusLine(r))
  {
    StatusGoes(r);
    Short("HTTP/1.1 ");
    Short(" ");
    Short(CodeDescription(r.code));
    Short("\r\n");
    FiveStand("HTTP/1.1 ", Int(r.code), " ", CodeDescription(r.code), "\r\n");
    assert "HTTP/1.1" + " " == "HTTP/1.1 ";
    StatusIsOneLine(r);
  }

  lemma StatusIsOneLine(r: Outgoing)
    ensures OneLine(StatusParts(r))
  {
    assert forall k | 0 <= k < |Int(r.code)| :: Int(r.code)[k] != '\n';
    DescriptionIsOneLine(r.code);
  }

  lemma DescriptionIsOneLine(code: int)
    ensures '\n' !in CodeDescription(code)
  {}

  lemma FieldPrints(name: string, value: string)
    requires |name| <= 60 && '\n' !in name && '\n' !in value
    ensures Prints(FieldParts(name + ": ", value), RowLine((name, Carried(value))))
  {
    Short(name + ": ");
    Short("\r\n");
    Flat3(name + ": ", value, "\r\n");
  }

  lemma LengthPrints(n: nat)
    ensures Prints(FieldParts("Content-Length: ", Dec(ToUint32(n))), RowLine(("Content-Length", Dec(ToUint32(n)))))
  {
    LengthGoes(n);
    assert forall k | 0 <= k < |Dec(ToUint32(n))| :: Dec(ToUint32(n))[k] != '\n';
    FieldPrints("Content-Length", Dec(ToUint32(n)));
    assert "Content-Length" + ": " == "Content-Length: ";
  }

  lemma PathPrints(path: string)
    ensures Flat(PathParts(path) + ["\r\n"]) == PathText(path) + "\r\n"
  {
    Short("; Path=");
    Short("\r\n");
    if path != "" {
      Flat3("; Path=", path, "\r\n");
      assert PathParts(path) + ["\r\n"] == ["; Path=", path, "\r\n"];
    } else {
      FlatCons("\r\n", []);
      assert PathParts(path) + ["\r\n"] == ["\r\n"] + [];
    }
  }

  lemma CookiePieces(a: string, b: string, c: string, d: string, e: string, f: string, g: string)
    ensures a + b + c + d + e + (f + g) == a + (b + c + (d + (e + f))) + g
  {}

  /** The five strings every cookie line starts with, and the rest of its line. */
  lemma CookieLine(name: string, value: string, rest: seq<string>, tail: string)
    requires Flat(rest) == tail + "\r\n"
    ensures Flat(["Set-Cookie: ", name, "=", value, "; SameSite=Strict"] + rest)
         == "Set-Cookie: " + (Carried(name) + "=" + (Carried(value) + ("; SameSite=Strict" + tail))) + "\r\n"
  {
    Short("Set-Cookie: ");
    Short("=");
    Short("; SameSite=Strict");
    Flat5("Set-Cookie: ", name, "=", value, "; SameSite=Strict");
    FlatConcat(["Set-Cookie: ", name, "=", value, "; SameSite=Strict"], rest);
    CookiePieces("Set-Cookie: ", Carried(name), "=", Carried(value), "; SameSite=Strict", tail, "\r\n");
  }

  lemma CookieRowLine(text: string)
    ensures RowLine(("Set-Cookie", text)) == "Set-Cookie: " + text
  {
    assert "Set-Cookie" + ": " == "Set-Cookie: ";
  }

  lemma CookiePrints(c: Cookie)
    requires PlainCookie(c)
    ensures Prints(CookieParts(c), RowLine(("Set-Cookie", CookieText(c))))
  {
    PathPrints(c.path);
    CookieLine(c.name, c.value, PathParts(c.path) + ["\r\n"], PathText(c.path));
    CookieRowLine(CookieText(c));
    CookieIsOneLine(c);
  }

  lemma CookieIsOneLine(c: Cookie)
    requires PlainCookie(c)
    ensures OneLine(CookieParts(c))
  {}

  /** The session cookie is the cookie of that name with path "/", written in one part less. */
  lemma SidPrints(sid: string)
    requires Plain(sid)
    ensures Prints(SidParts(sid), RowLine(("Set-Cookie", CookieText(Cookie("SolusekSID", sid, "/")))))
  {
    SidPath();
    CookieLine("SolusekSID", sid, ["; Path=/", "\r\n"], PathText("/"));
    assert SidParts(sid) == ["Set-Cookie: ", "SolusekSID", "=", sid, "; SameSite=Strict"] + ["; Path=/", "\r\n"];
    CookieRowLine(CookieText(Cookie("SolusekSID", sid, "/")));
    SidIsOneLine(sid);
  }

  lemma SidIsOneLine(sid: string)
    requires Plain(sid)
    ensures OneLine(SidParts(sid))
  {}

  lemma SidPath()
    ensures Flat(["; Path=/", "\r\n"]) == PathText("/") + "\r\n"
  {
    Short("; Path=/");
    Short("/");
    Short("\r\n");
    Flat2("; Path=/", "\r\n");
  }

  // ------------------------------------------------------------ all groups

  /** Groups and the lines they print, one for one. */
  predicate AllPrint(gs: seq<seq<string>>, ls: seq<string>) {
    |gs| == |ls| && forall i | 0 <= i < |gs| :: Prints(gs[i], ls[i])
  }

  lemma AllPrintConcat(a: seq<seq<string>>, la: seq<string>, b: seq<seq<string>>, lb: seq<string>)
    requires AllPrint(a, la) && AllPrint(b, lb)
    ensures AllPrint(a + b, la + lb)
  {}

  lemma FirstPrint(r: Outgoing, now: string)
    requires WellFormed(r, now)
    ensures AllPrint(FirstGroups(r, now), [StatusLine(r)] + RowLines(FirstRows(r, now)))
  {
    StatusPrints(r);
    LengthPrints(|r.body|);
    DatePrints(r, now);
    FieldPrints("Content-Type", r.contentType);
    assert "Content-Type" + ": " == "Content-Type: ";
  }

  lemma DatePrints(r: Outgoing, now: string)
    requires WellFormed(r, now)
    ensures Prints(FieldParts("Date: ", DateOf(r, now)), RowLine(("Date", Carried(DateOf(r, now)))))
    ensures Prints(FieldParts("Last-Modified: ", DateOf(r, now)), RowLine(("Last-Modified", Carried(DateOf(r, now)))))
  {
    FieldPrints("Date", DateOf(r, now));
    FieldPrints("Last-Modified", DateOf(r, now));
    assert "Date" + ": " == "Date: " && "Last-Modified" + ": " == "Last-Modified: ";
  }

  lemma CookiesPrint(cs: seq<Cookie>)
    requires forall i | 0 <= i < |cs| :: PlainCookie(cs[i])
    ensures AllPrint(CookieGroups(cs), RowLines(CookieRows(cs)))
  {
    forall i | 0 <= i < |cs|
      ensures Prints(CookieGroups(cs)[i], RowLines(CookieRows(cs))[i])
    {
      CookiePrints(cs[i]);
    }
  }

  lemma SidGroupPrints(sid: string)
    requires Plain(sid)
    ensures AllPrint(SidGroups(sid), RowLines(SidRows(sid)))
  {
    if sid != "" { SidPrints(sid); }
  }

  /** Each group of the header section prints its line. */
  lemma HeaderPrints(r: Outgoing, now: string)
    requires WellFormed(r, now)
    ensures AllPrint(HeaderGroups(r, now), HeaderLines(r, now))
  {
    var first := [StatusLine(r)] + RowLines(FirstRows(r, now));
    var sid, cookies := RowLines(SidRows(r.sid)), RowLines(CookieRows(r.cookies));
    FirstPrint(r, now);
    SidGroupPrints(r.sid);
    CookiesPrint(r.cookies);
    AllPrintConcat(SidGroups(r.sid), sid, CookieGroups(r.cookies), cookies);
    AllPrintConcat(FirstGroups(r, now), first, SidGroups(r.sid) + CookieGroups(r.cookies), sid + cookies);
    RowLinesConcat(SidRows(r.sid), CookieRows(r.cookies));
    RowLinesConcat(FirstRows(r, now), SidRows(r.sid) + CookieRows(r.cookies));
    Assoc([StatusLine(r)], RowLines(FirstRows(r, now)), sid + cookies);
  }

  lemma RowLinesConcat(a: seq<Row>, b: seq<Row>)
    ensures RowLines(a + b) == RowLines(a) + RowLines(b)
  {}

  // ------------------------------------------------------------ writing them

  lemma {:induction false} PutFlat(o: Output, parts: seq<string>)
    requires o.open && AllGo(parts)
    ensures PutAll(o, parts) == Output(o.sent + Flat(parts), true)
    decreases |parts|
  {
    if parts == [] {
      assert o.sent + "" == o.sent;
    } else {
      PutFlat(Put(o, parts[0]), parts[1..]);
      Assoc(o.sent, Carried(parts[0]), Flat(parts[1..]));
    }
  }

  lemma {:induction false} PutPrinted(o: Output, gs: seq<seq<string>>, ls: seq<string>, more: seq<seq<string>>)
    requires o.open && AllPrint(gs, ls) && AllGroupsGo(gs)
    ensures PutGroups(o, gs + more) == PutGroups(Output(o.sent + Lined(ls), true), more)
    decreases |gs|
  {
    if gs == [] {
      assert gs + more == more && o.sent + "" == o.sent;
    } else {
      PutFlat(o, gs[0]);
      assert Prints(gs[0], ls[0]);
      assert (gs + more)[1..] == gs[1..] + more;
      PutPrinted(Output(o.sent + (ls[0] + "\r\n"), true), gs[1..], ls[1..], more);
      Assoc(o.sent, ls[0] + "\r\n", Lined(ls[1..]));
    }
  }

  /** A line with a write that throws is left where it stands. */
  lemma {:induction false} PutBroken(o: Output, parts: seq<string>) returns (start: string)
    requires o.open && OneLine(parts) && !AllGo(parts)
    ensures PutAll(o, parts) == Output(o.sent + start, false) && '\n' !in start
    decreases |parts|
  {
    if !Goes(parts[0]) {
      start := "";
      ClosedStays(Put(o, parts[0]), parts[1..]);
      assert Carried(parts[0]) == "";
    } else {
      assert |parts| > 1 && '\n' !in parts[0];
      assert forall i | 0 <= i < |parts[1..]| :: parts[1..][i] == parts[i + 1];
      var rest := PutBroken(Put(o, parts[0]), parts[1..]);
      start := Carried(parts[0]) + rest;
      Assoc(o.sent, Carried(parts[0]), rest);
    }
  }

  /** The k-th line is the first with a write that throws: the lines in front of it are
      whole, and it is the last thing sent. */
  lemma {:induction false} PutGroupsBroken(o: Output, gs: seq<seq<string>>, ls: seq<string>, more: seq<seq<string>>)
    returns (k: nat, start: string)
    requires o.open && AllPrint(gs, ls) && !AllGroupsGo(gs)
    ensures k < |gs| && !AllGo(gs[k]) && '\n' !in start
    ensures PutGroups(o, gs + more) == Output(o.sent + (Lined(ls[..k]) + start), false)
    decreases |gs|
  {
    assert (gs + more)[0] == gs[0] && (gs + more)[1..] == gs[1..] + more;
    assert Prints(gs[0], ls[0]);
    if AllGo(gs[0]) {
      PutFlat(o, gs[0]);
      assert forall i | 0 <= i < |gs[1..]| :: gs[1..][i] == gs[i + 1];
      k, start := PutGroupsBroken(Output(o.sent + (ls[0] + "\r\n"), true), gs[1..], ls[1..], more);
      LinedFront(o.sent, ls, k, start);
      k := k + 1;
    } else {
      k := 0;
      start := PutBroken(o, gs[0]);
      ClosedGroups(PutAll(o, gs[0]), gs[1..] + more);
      assert "" + start == start;
    }
  }

  lemma LinedFront(sent: string, ls: seq<string>, k: nat, start: string)
    requires k < |ls|
    ensures sent + (ls[0] + "\r\n") + (Lined(ls[1..][..k]) + start) == sent + (Lined(ls[..k + 1]) + start)
  {
    assert ls[..k + 1][1..] == ls[1..][..k];
    Assoc(sent, ls[0] + "\r\n", Lined(ls[1..][..k]) + start);
    Assoc(ls[0] + "\r\n", Lined(ls[1..][..k]), start);
  }

  // ------------------------------------------------------------ the whole response

  lemma LastRowsPrint()
    ensures Lined(RowLines(LAST_ROWS)) == EndParts("")[0] + EndParts("")[1]
  {
    var l, m := RowLine(LAST_ROWS[0]), RowLine(LAST_ROWS[1]);
    LinedPush([], l);
    LinedPush([l], m);
    assert [] + [l] == [l] && RowLines(LAST_ROWS) == [l] + [m];
  }

  lemma EndPrints(o: Output, body: string)
    requires o.open
    ensures PutAll(o, EndParts(body)) == Output(o.sent + (Lined(RowLines(LAST_ROWS)) + "\r\n" + Carried(body)), Goes(body))
  {
    var a, b, c := EndParts("")[0], EndParts("")[1], "\r\n";
    assert EndParts(body) == [a, b, c] + [body];
    Short(a);
    Short(b);
    Short(c);
    PutAllConcat(o, [a, b, c], [body]);
    PutFlat(o, [a, b, c]);
    Flat3(a, b, c);
    assert [body][1..] == [];
    LastRowsPrint();
    Assoc(o.sent, a + b + c, Carried(body));
  }

  /** When no write in front of the body throws, the bytes are the header section and as
      much of the body as a write carries. */
  lemma UnbrokenBytes(r: Outgoing, now: string)
    requires WellFormed(r, now) && Unbroken(r, now)
    ensures ResponseBytes(r, now) == Head(ResponseLines(r, now)) + Carried(r.body)
  {
    var lines, end := HeaderLines(r, now), [EndParts(r.body)];
    HeaderGoes(r, now);
    HeaderPrints(r, now);
    PutPrinted(NOTHING, HeaderGroups(r, now), lines, end);
    EndPrints(Output("" + Lined(lines), true), r.body);
    assert end[1..] == [] && "" + Lined(lines) == Lined(lines);
    LinedConcat(lines, RowLines(LAST_ROWS));
    HeadPieces(Lined(lines), Lined(RowLines(LAST_ROWS)), Carried(r.body));
  }

  lemma HeadPieces(a: string, b: string, body: string)
    ensures a + (b + "\r\n" + body) == a + b + "\r\n" + body
  {}

  /** Otherwise they are the status line, some whole rows, and the start of another line. */
  lemma BrokenBytes(r: Outgoing, now: string) returns (k: nat, start: string)
    requires WellFormed(r, now) && !Unbroken(r, now)
    ensures k <= |HeaderRows(r, now)| && '\n' !in start
    ensures ResponseBytes(r, now) == Lined([StatusLine(r)] + RowLines(HeaderRows(r, now)[..k])) + start
  {
    var lines, rows := HeaderLines(r, now), HeaderRows(r, now);
    HeaderGoes(r, now);
    HeaderPrints(r, now);
    k, start := PutGroupsBroken(NOTHING, HeaderGroups(r, now), lines, [EndParts(r.body)]);
    StatusGoes(r);
    assert HeaderGroups(r, now)[0] == StatusParts(r);
    assert "" + (Lined(lines[..k]) + start) == Lined(lines[..k]) + start;
    k := k - 1;
    FirstLines(StatusLine(r), rows, k);
  }

  lemma FirstLines(status: string, rows: seq<Row>, k: nat)
    requires k <= |rows|
    ensures ([status] + RowLines(rows))[..k + 1] == [status] + RowLines(rows[..k])
  {}

  // ------------------------------------------------------------ spelled out

  function CookieHeaders(cs: seq<Cookie>): string {
    if cs == [] then ""
    else
      "Set-Cookie: " + Carried(cs[0].name) + "=" + Carried(cs[0].value) + "; SameSite=Strict"
      + (if cs[0].path == "" then "" else "; Path=" + Carried(cs[0].path)) + "\r\n" + CookieHeaders(cs[1..])
  }

  function Field(name: string, value: string): string {
    name + ": " + value + "\r\n"
  }

  lemma LinedCons(l: string, ls: seq<string>)
    ensures Lined([l] + ls) == l + "\r\n" + Lined(ls)
  {
    assert ([l] + ls)[1..] == ls;
  }

  lemma CookieWire(c: Cookie)
    ensures RowLine(("Set-Cookie", CookieText(c)))
         == "Set-Cookie: " + Carried(c.name) + "=" + Carried(c.value) + "; SameSite=Strict"
            + (if c.path == "" then "" else "; Path=" + Carried(c.path))
  {
    CookieRowLine(CookieText(c));
    CookieWords("Set-Cookie: ", Carried(c.name), "=", Carried(c.value), "; SameSite=Strict", PathText(c.path));
  }

  lemma CookieWords(a: string, b: string, c: string, d: string, e: string, f: string)
    ensures a + (b + c + (d + (e + f))) == a + b + c + d + e + f
  {}

  lemma {:induction false} CookiesWire(cs: seq<Cookie>)
    ensures Lined(RowLines(CookieRows(cs))) == CookieHeaders(cs)
  {
    if cs != [] {
      CookieWire(cs[0]);
      CookiesWire(cs[1..]);
      var l := RowLine(("Set-Cookie", CookieText(cs[0])));
      assert RowLines(CookieRows(cs)) == [l] + RowLines(CookieRows(cs[1..]));
      LinedCons(l, RowLines(CookieRows(cs[1..])));
    }
  }

  lemma SidWire(sid: string)
    ensures Lined(RowLines(SidRows(sid))) == CookieHeaders(if sid == "" then [] else [Cookie("SolusekSID", sid, "/")])
  {
    var c := Cookie("SolusekSID", sid, "/");
    CookiesWire([c]);
    assert RowLines(CookieRows([c])) == [RowLine(("Set-Cookie", CookieText(c)))];
    if sid != "" { assert RowLines(SidRows(sid)) == RowLines(CookieRows([c])); }
  }

  lemma FourLines(a: Row, b: Row, c: Row, d: Row)
    ensures Lined(RowLines([a, b, c, d])) == Field(a.0, a.1) + (Field(b.0, b.1) + (Field(c.0, c.1) + Field(d.0, d.1)))
  {
    var w, x, y, z := RowLine(a), RowLine(b), RowLine(c), RowLine(d);
    assert RowLines([a, b, c, d]) == [w] + ([x] + ([y] + ([z] + [])));
    LinedCons(w, [x] + ([y] + ([z] + [])));
    LinedCons(x, [y] + ([z] + []));
    LinedCons(y, [z] + []);
    LinedCons(z, []);
    assert Field(d.0, d.1) + "" == Field(d.0, d.1);
  }

  predicate Phrase(code: int, phrase: string) {
    && (code == 200 ==> phrase == "OK") && (code == 404 ==> phrase == "Not Found")
    && (code == 400 ==> phrase == "Bad Request") && (code !in {200, 400, 404} ==> phrase == "Unknown")
  }

  lemma StatusWords(r: Outgoing, phrase: string)
    requires Phrase(r.code, phrase)
    ensures StatusLine(r) == "HTTP/1.1 " + Int(r.code) + " " + phrase
  {
    assert "HTTP/1.1" + " " == "HTTP/1.1 ";
  }

  lemma FirstWire(r: Outgoing, now: string, date: string)
    requires if r.date == "" then date == now else date == r.date
    ensures Lined(RowLines(FirstRows(r, now)))
         == Field("Date", Carried(date)) + (Field("Content-Type", Carried(r.contentType))
            + (Field("Content-Length", Dec(ToUint32(|r.body|))) + Field("Last-Modified", Carried(date))))
  {
    FourLines(("Date", Carried(date)), ("Content-Type", Carried(r.contentType)),
              ("Content-Length", Dec(ToUint32(|r.body|))), ("Last-Modified", Carried(date)));
  }

  /** The bytes of an unbroken response, from the reason phrase to the body. */
  lemma WireFormat(r: Outgoing, now: string, phrase: string, date: string)
    requires WellFormed(r, now) && Unbroken(r, now) && Phrase(r.code, phrase)
    requires if r.date == "" then date == now else date == r.date
    ensures ResponseBytes(r, now)
         == "HTTP/1.1 " + Int(r.code) + " " + phrase + "\r\n"
            + (Field("Date", Carried(date)) + (Field("Content-Type", Carried(r.contentType))
               + (Field("Content-Length", Dec(ToUint32(|r.body|))) + Field("Last-Modified", Carried(date)))))
            + CookieHeaders(if r.sid == "" then [] else [Cookie("SolusekSID", r.sid, "/")])
            + CookieHeaders(r.cookies)
            + ("Server: Solusek/1.0 (Linux)\r\n" + "Connection: close\r\n" + "\r\n" + Carried(r.body))
  {
    UnbrokenBytes(r, now);
    StatusWords(r, phrase);
    FirstWire(r, now, date);
    SidWire(r.sid);
    CookiesWire(r.cookies);
    LinedInOrder(r, now);
    LastRowsPrint();
    LastWords();
    WirePieces(StatusLine(r) + "\r\n", Lined(RowLines(FirstRows(r, now))), Lined(RowLines(SidRows(r.sid))),
               Lined(RowLines(CookieRows(r.cookies))), Lined(RowLines(LAST_ROWS)), Carried(r.body));
  }

  lemma LinedInOrder(r: Outgoing, now: string)
    ensures Lined(ResponseLines(r, now))
         == StatusLine(r) + "\r\n" + (Lined(RowLines(FirstRows(r, now)))
            + (Lined(RowLines(SidRows(r.sid))) + Lined(RowLines(CookieRows(r.cookies))))) + Lined(RowLines(LAST_ROWS))
  {
    var first, sid, cookies := FirstRows(r, now), SidRows(r.sid), CookieRows(r.cookies);
    LinedConcat(HeaderLines(r, now), RowLines(LAST_ROWS));
    LinedCons(StatusLine(r), RowLines(HeaderRows(r, now)));
    RowLinesConcat(first, sid + cookies);
    RowLinesConcat(sid, cookies);
    LinedConcat(RowLines(first), RowLines(sid) + RowLines(cookies));
    LinedConcat(RowLines(sid), RowLines(cookies));
  }

  lemma LastWords()
    ensures EndParts("")[0] == "Server: Solusek/1.0 (Linux)\r\n" && EndParts("")[1] == "Connection: close\r\n"
  {}

  lemma WirePieces(a: string, b: string, c: string, d: string, e: string, body: string)
    ensures a + (b + (c + d)) + e + "\r\n" + body == a + b + c + d + (e + "\r\n" + body)
  {}
}
