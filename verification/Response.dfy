/** The server's response writer (src/server/CNode.cpp:157-239): every string it hands to
    the connection, in order, up to the first write that throws. */
module Response {
  import opened Text
  import opened Numbers
  import opened Sockets

  datatype Cookie = Cookie(name: string, value: string, path: string)

  /** MResponse, as the application hands it to the server. */
  datatype Outgoing = Outgoing(code: Int32, body: string, contentType: string, date: string,
                               sid: string, cookies: seq<Cookie>)

  function CodeDescription(code: int): string {
    if code == 200 then "OK"
    else if code == 404 then "Not Found"
    else if code == 400 then "Bad Request"
    else "Unknown"
  }

  // ------------------------------------------------------------ the strings

  function StatusParts(r: Outgoing): seq<string> {
    ["HTTP/1.1 ", Int(r.code), " ", CodeDescription(r.code), "\r\n"]
  }

  function FieldParts(name: string, value: string): seq<string> {
    [name, value, "\r\n"]
  }

  function SidParts(sid: string): seq<string> {
    ["Set-Cookie: ", "SolusekSID", "=", sid, "; SameSite=Strict", "; Path=/", "\r\n"]
  }

  function PathParts(path: string): seq<string> {
    if path == "" then [] else ["; Path=", path]
  }

  function CookieParts(c: Cookie): seq<string> {
    ["Set-Cookie: ", c.name, "=", c.value, "; SameSite=Strict"] + (PathParts(c.path) + ["\r\n"])
  }

  function EndParts(body: string): seq<string> {
    ["Server" + ": " + "Solusek/1.0 (Linux)" + "\r\n", "Connection" + ": " + "close" + "\r\n", "\r\n", body]
  }

  function DateOf(r: Outgoing, now: string): string {
    if r.date == "" then now else r.date
  }

  function FirstGroups(r: Outgoing, now: string): seq<seq<string>> {
    [StatusParts(r),
     FieldParts("Date: ", DateOf(r, now)),
     FieldParts("Content-Type: ", r.contentType),
     FieldParts("Content-Length: ", Dec(ToUint32(|r.body|))),
     FieldParts("Last-Modified: ", DateOf(r, now))]
  }

  function SidGroups(sid: string): seq<seq<string>> {
    if sid == "" then [] else [SidParts(sid)]
  }

  function CookieGroups(cs: seq<Cookie>): seq<seq<string>> {
    seq(|cs|, i requires 0 <= i < |cs| => CookieParts(cs[i]))
  }

  /** A group of strings for each header line. */
  function HeaderGroups(r: Outgoing, now: string): seq<seq<string>> {
    FirstGroups(r, now) + (SidGroups(r.sid) + CookieGroups(r.cookies))
  }

  /** Every string written, in order. */
  function Groups(r: Outgoing, now: string): seq<seq<string>> {
    HeaderGroups(r, now) + [EndParts(r.body)]
  }

  /** The first five groups, and those behind them. */
  ghost predicate StartsAs(gs: seq<seq<string>>, r: Outgoing, now: string) {
    && |gs| > 5
    && gs[0] == StatusParts(r)
    && gs[1] == FieldParts("Date: ", DateOf(r, now))
    && gs[2] == FieldParts("Content-Type: ", r.contentType)
    && gs[3] == FieldParts("Content-Length: ", Dec(ToUint32(|r.body|)))
    && gs[4] == FieldParts("Last-Modified: ", DateOf(r, now))
  }

  ghost predicate EndsAs(gs: seq<seq<string>>, r: Outgoing) {
    var k := if r.sid == "" then 5 else 6;
    && |gs| == k + |r.cookies| + 1
    && (r.sid != "" ==> gs[5] == SidParts(r.sid))
    && (forall i | k <= i < |gs| - 1 :: gs[i] == CookieParts(r.cookies[i - k]))
    && gs[|gs| - 1] == EndParts(r.body)
  }

  lemma FirstGroupsAt(r: Outgoing, now: string)
    ensures StartsAs(Groups(r, now), r, now)
  {}

  lemma LastGroupsAt(r: Outgoing, now: string)
    ensures EndsAs(Groups(r, now), r)
  {
    EndAt(FirstGroups(r, now), SidGroups(r.sid), CookieGroups(r.cookies), EndParts(r.body));
  }

  lemma EndAt<T>(a: seq<T>, b: seq<T>, c: seq<T>, d: T)
    ensures var s, k := a + (b + c) + [d], |a| + |b|;
            && (forall i | |a| <= i < k :: s[i] == b[i - |a|])
            && (forall i | k <= i < k + |c| :: s[i] == c[i - k])
            && |s| == k + |c| + 1 && s[k + |c|] == d
  {}

  // ------------------------------------------------------------ writing them

  /** What has been written, and whether no write has thrown yet. */
  datatype Output = Output(sent: string, open: bool)

  const NOTHING := Output("", true)

  /** writeString. */
  function Put(o: Output, s: string): Output {
    if o.open then Output(o.sent + Carried(s), Goes(s)) else o
  }

  function PutAll(o: Output, parts: seq<string>): Output
    decreases |parts|
  {
    if parts == [] then o else PutAll(Put(o, parts[0]), parts[1..])
  }

  function PutGroups(o: Output, gs: seq<seq<string>>): Output
    decreases |gs|
  {
    if gs == [] then o else PutGroups(PutAll(o, gs[0]), gs[1..])
  }

  /** The bytes of the response; `now` is the clock's text. */
  function ResponseBytes(r: Outgoing, now: string): string {
    PutGroups(NOTHING, Groups(r, now)).sent
  }

  lemma {:induction false} PutAllConcat(o: Output, a: seq<string>, b: seq<string>)
    ensures PutAll(o, a + b) == PutAll(PutAll(o, a), b)
    decreases |a|
  {
    if a == [] {
      assert a + b == b;
    } else {
      assert (a + b)[1..] == a[1..] + b;
      PutAllConcat(Put(o, a[0]), a[1..], b);
    }
  }

  lemma {:induction false} ClosedStays(o: Output, parts: seq<string>)
    requires !o.open
    ensures PutAll(o, parts) == o
    decreases |parts|
  {
    if parts != [] { ClosedStays(o, parts[1..]); }
  }

  lemma {:induction false} ClosedGroups(o: Output, gs: seq<seq<string>>)
    requires !o.open
    ensures PutGroups(o, gs) == o
    decreases |gs|
  {
    if gs != [] {
      ClosedStays(o, gs[0]);
      ClosedGroups(o, gs[1..]);
    }
  }

  // ------------------------------------------------------------ which writes throw

  predicate AllGo(parts: seq<string>) {
    forall i | 0 <= i < |parts| :: Goes(parts[i])
  }

  predicate AllGroupsGo(gs: seq<seq<string>>) {
    forall i | 0 <= i < |gs| :: AllGo(gs[i])
  }

  predicate CookieGoes(c: Cookie) {
    Goes(c.name) && Goes(c.value) && (c.path != "" ==> Goes(c.path))
  }

  /** No write in front of the body throws. */
  predicate Unbroken(r: Outgoing, now: string) {
    && Goes(DateOf(r, now)) && Goes(r.contentType) && (r.sid != "" ==> Goes(r.sid))
    && forall i | 0 <= i < |r.cookies| :: CookieGoes(r.cookies[i])
  }

  lemma {:induction false} PutAllOpen(o: Output, parts: seq<string>)
    ensures PutAll(o, parts).open <==> o.open && AllGo(parts)
    decreases |parts|
  {
    if parts != [] {
      PutAllOpen(Put(o, parts[0]), parts[1..]);
      assert forall i | 1 <= i < |parts| :: parts[i] == parts[1..][i - 1];
    }
  }

  lemma {:induction false} PutGroupsOpen(o: Output, gs: seq<seq<string>>)
    ensures PutGroups(o, gs).open <==> o.open && AllGroupsGo(gs)
    decreases |gs|
  {
    if gs != [] {
      PutAllOpen(o, gs[0]);
      PutGroupsOpen(PutAll(o, gs[0]), gs[1..]);
      assert forall i | 1 <= i < |gs| :: gs[i] == gs[1..][i - 1];
    }
  }

  /** A short text that is not empty is written as it stands. */
  lemma Short(s: string)
    requires 0 < |s| <= 64
    ensures Goes(s) && Carried(s) == s
  {
    CarriedWhole(s);
  }

  lemma StatusGoes(r: Outgoing)
    ensures AllGo(StatusParts(r)) && Carried(Int(r.code)) == Int(r.code)
  {
    IntFits(r.code);
    Short("HTTP/1.1 ");
    Short(Int(r.code));
    Short(" ");
    Short(CodeDescription(r.code));
    Short("\r\n");
  }

  lemma FieldGoes(name: string, value: string)
    requires 0 < |name| <= 64
    ensures AllGo(FieldParts(name, value)) <==> Goes(value)
  {
    Short(name);
    Short("\r\n");
    assert FieldParts(name, value)[1] == value;
  }

  lemma LengthGoes(n: nat)
    ensures Goes(Dec(ToUint32(n))) && Carried(Dec(ToUint32(n))) == Dec(ToUint32(n))
  {
    IntFits(ToUint32(n));
    Short(Dec(ToUint32(n)));
  }

  lemma FirstGo(r: Outgoing, now: string)
    ensures AllGroupsGo(FirstGroups(r, now)) <==> Goes(DateOf(r, now)) && Goes(r.contentType)
  {
    var gs := FirstGroups(r, now);
    StatusGoes(r);
    LengthGoes(|r.body|);
    FieldGoes("Date: ", DateOf(r, now));
    FieldGoes("Content-Type: ", r.contentType);
    FieldGoes("Content-Length: ", Dec(ToUint32(|r.body|)));
    FieldGoes("Last-Modified: ", DateOf(r, now));
    assert AllGroupsGo(gs) <==> AllGo(gs[0]) && AllGo(gs[1]) && AllGo(gs[2]) && AllGo(gs[3]) && AllGo(gs[4]);
  }

  lemma CookieWordsGo()
    ensures Goes("Set-Cookie: ") && Goes("=") && Goes("; SameSite=Strict") && Goes("; Path=") && Goes("\r\n")
    ensures Goes("SolusekSID") && Goes("; Path=/")
  {
    Short("Set-Cookie: ");
    Short("=");
    Short("; SameSite=Strict");
    Short("; Path=");
    Short("\r\n");
    Short("SolusekSID");
    Short("; Path=/");
  }

  lemma SidGoes(sid: string)
    ensures AllGroupsGo(SidGroups(sid)) <==> (sid != "" ==> Goes(sid))
  {
    CookieWordsGo();
    if sid != "" {
      assert SidParts(sid)[3] == sid && SidGroups(sid)[0] == SidParts(sid);
    }
  }

  lemma CookiePartsGo(c: Cookie)
    ensures AllGo(CookieParts(c)) <==> CookieGoes(c)
  {
    CookieWordsGo();
    var ps := CookieParts(c);
    assert ps[1] == c.name && ps[3] == c.value;
    assert c.path != "" ==> ps[6] == c.path;
  }

  lemma HeaderGoes(r: Outgoing, now: string)
    ensures AllGroupsGo(HeaderGroups(r, now)) <==> Unbroken(r, now)
  {
    FirstGo(r, now);
    SidGoes(r.sid);
    forall i | 0 <= i < |r.cookies|
      ensures AllGo(CookieGroups(r.cookies)[i]) <==> CookieGoes(r.cookies[i])
    {
      CookiePartsGo(r.cookies[i]);
    }
    GroupsGoConcat(SidGroups(r.sid), CookieGroups(r.cookies));
    GroupsGoConcat(FirstGroups(r, now), SidGroups(r.sid) + CookieGroups(r.cookies));
  }

  lemma GroupsGoConcat(a: seq<seq<string>>, b: seq<seq<string>>)
    ensures AllGroupsGo(a + b) <==> AllGroupsGo(a) && AllGroupsGo(b)
  {
    assert forall i | 0 <= i < |a| :: (a + b)[i] == a[i];
    assert forall i | 0 <= i < |b| :: (a + b)[|a| + i] == b[i];
  }

  /** Exactly when every write succeeds, nothing is thrown. */
  lemma WrittenExactly(r: Outgoing, now: string)
    ensures PutGroups(NOTHING, Groups(r, now)).open <==> Unbroken(r, now) && Goes(r.body)
  {
    PutGroupsOpen(NOTHING, Groups(r, now));
    HeaderGoes(r, now);
    GroupsGoConcat(HeaderGroups(r, now), [EndParts(r.body)]);
    var ps := EndParts(r.body);
    Short(ps[0]);
    Short(ps[1]);
    Short(ps[2]);
    assert [ps][0] == ps && ps[3] == r.body;
  }

  // ------------------------------------------------------------ the writer

  /** A run of writeString calls, up to the first that throws: the k-th of the groups `gs`.
      `o` is what has been written to a socket that held `start`. */
  method WriteStrings(socket: Socket, parts: seq<string>, ghost start: string, ghost o: Output,
                      ghost gs: seq<seq<string>>, ghost k: nat)
    returns (ok: bool, ghost o': Output)
    requires o.open && socket.Sent == start + o.sent
    requires k < |gs| && gs[k] == parts
    modifies socket`Sent
    ensures socket.Sent == start + o'.sent && o'.open == ok
    ensures PutGroups(o, gs[k..]) == if ok then PutGroups(o', gs[k + 1..]) else o'
  {
    o' := o;
    ghost var later := gs[k..][1..];
    assert later == gs[k + 1..];
    for i := 0 to |parts|
      invariant o'.open && socket.Sent == start + o'.sent
      invariant PutAll(o, parts) == PutAll(o', parts[i..])
    {
      Assoc(start, o'.sent, Carried(parts[i]));
      o' := Put(o', parts[i]);
      ok := socket.WriteBuffer(parts[i]);
      if !ok {
        ClosedStays(o', parts[i..][1..]);
        ClosedGroups(o', later);
        return;
      }
      assert parts[i..][1..] == parts[i + 1..];
    }
    ok := true;
  }

  /** What WriteResponse needs to know of the groups. */
  lemma WhatIsWritten(r: Outgoing, now: string) returns (gs: seq<seq<string>>)
    ensures StartsAs(gs, r, now) && EndsAs(gs, r)
    ensures PutGroups(NOTHING, gs) == Output(ResponseBytes(r, now), Unbroken(r, now) && Goes(r.body))
  {
    gs := Groups(r, now);
    FirstGroupsAt(r, now);
    LastGroupsAt(r, now);
    WrittenExactly(r, now);
  }

  /** writeResponse. False is the int thrown by a write. */
  method WriteResponse(socket: Socket, r: Outgoing, now: string) returns (ok: bool)
    modifies socket`Sent
    ensures socket.Sent == old(socket.Sent) + ResponseBytes(r, now)
    ensures ok <==> Unbroken(r, now) && Goes(r.body)
  {
    ghost var start, o := socket.Sent, NOTHING;
    ghost var gs := WhatIsWritten(r, now);
    assert start + "" == start && gs[0..] == gs;
    var sdt := DateOf(r, now);
    ok, o := WriteStrings(socket, StatusParts(r), start, o, gs, 0);
    if !ok { return; }
    ok, o := WriteStrings(socket, FieldParts("Date: ", sdt), start, o, gs, 1);
    if !ok { return; }
    ok, o := WriteStrings(socket, FieldParts("Content-Type: ", r.contentType), start, o, gs, 2);
    if !ok { return; }
    ok, o := WriteStrings(socket, FieldParts("Content-Length: ", Dec(ToUint32(|r.body|))), start, o, gs, 3);
    if !ok { return; }
    ok, o := WriteStrings(socket, FieldParts("Last-Modified: ", sdt), start, o, gs, 4);
    if !ok { return; }
    ok, o := WriteCookies(socket, r, start, o, gs);
  }

  /** The second half of writeResponse: cookies, the last lines and the body. */
  method WriteCookies(socket: Socket, r: Outgoing, ghost start: string, ghost o0: Output, ghost gs: seq<seq<string>>)
    returns (ok: bool, ghost o: Output)
    requires o0.open && socket.Sent == start + o0.sent && EndsAs(gs, r)
    modifies socket`Sent
    ensures socket.Sent == start + o.sent && o.open == ok
    ensures o == PutGroups(o0, gs[5..])
  {
    ghost var k := 5;
    o := o0;
    if |r.sid| > 0 {
      ok, o := WriteStrings(socket, SidParts(r.sid), start, o, gs, 5);
      if !ok { return; }
      k := 6;
    }
    for n := 0 to |r.cookies|
      invariant k == |gs| - 1 - |r.cookies| + n
      invariant o.open && socket.Sent == start + o.sent
      invariant PutGroups(o, gs[k..]) == PutGroups(o0, gs[5..])
    {
      ok, o := WriteStrings(socket, CookieParts(r.cookies[n]), start, o, gs, k);
      if !ok { return; }
      k := k + 1;
    }
    ok, o := WriteStrings(socket, EndParts(r.body), start, o, gs, k);
    assert ok ==> gs[k + 1..] == [];
  }
}
