/** An HTTP request from the client's writer (src/client/CClient.cpp:242-286) to the
    server's reader (src/server/CNode.cpp:241-339), and that the second undoes the first. */
module Request {
  import opened Text
  import opened Numbers
  import opened Sockets
  import opened Headers

  // ------------------------------------------------------------ the client's side

  /** What runRequest prints: the headers come in the order of the map. */
  datatype Outgoing = Outgoing(method_: string, host: string, target: string,
                               headers: seq<(string, string)>, body: string)

  function HeaderLines(hs: seq<(string, string)>): seq<string> {
    if hs == [] then [] else [hs[0].0 + ": " + hs[0].1] + HeaderLines(hs[1..])
  }

  function LengthLines(body: string): seq<string> {
    if body == "" then [] else ["Content-length: " + Dec(|body|)]
  }

  function RequestLines(o: Outgoing): seq<string> {
    [o.method_ + " " + o.target + " HTTP/1.1", "Host: " + o.host] + HeaderLines(o.headers) + LengthLines(o.body)
  }

  /** What the request says, and what of it gets onto the connection: the head is one
      write, and the body follows unless that write throws. */
  function RequestText(o: Outgoing): string {
    Head(RequestLines(o)) + o.body
  }

  function RequestBytes(o: Outgoing): string {
    var head := Head(RequestLines(o));
    Carried(head) + (if Goes(head) then o.body else "")
  }

  /** The length of the head, cut to an int, decides what is sent. */
  lemma BytesSent(o: Outgoing)
    ensures var head := Head(RequestLines(o));
            var k := |head| % 0x1_0000_0000;
            RequestBytes(o) == if 0 < k < 0x8000_0000 then head[..k] + o.body else ""
  {
    var head := Head(RequestLines(o));
    CarriedLength(head);
    assert Carried(head) == head[..|Carried(head)|];
  }

  lemma HeadNotEmpty(ls: seq<string>)
    ensures Head(ls) != ""
  {}

  lemma {:induction false} HeaderLinesConcat(a: seq<(string, string)>, b: seq<(string, string)>)
    ensures HeaderLines(a + b) == HeaderLines(a) + HeaderLines(b)
  {
    if a == [] {
      assert a + b == b;
    } else {
      assert (a + b)[1..] == a[1..] + b;
      HeaderLinesConcat(a[1..], b);
    }
  }

  /** The head of the request, line by line, as the client accumulates it. */
  method PrintHead(o: Outgoing) returns (data: string)
    ensures data == Head(RequestLines(o))
  {
    ghost var first := [o.method_ + " " + o.target + " HTTP/1.1", "Host: " + o.host];
    LinedPush([], first[0]);
    LinedPush([first[0]], first[1]);
    data := o.method_ + " " + o.target + " HTTP/1.1" + "\r\n";
    data := data + ("Host: " + o.host + "\r\n");
    assert [] + [first[0]] == [first[0]] && [first[0]] + [first[1]] == first;
    assert first + [] == first;
    for i := 0 to |o.headers|
      invariant data == Lined(first + HeaderLines(o.headers[..i]))
    {
      NextHeader(first, o.headers, i);
      data := data + (o.headers[i].0 + ": " + o.headers[i].1 + "\r\n");
    }
    assert o.headers[..|o.headers|] == o.headers;
    if |o.body| > 0 {
      LinedPush(first + HeaderLines(o.headers), "Content-length: " + Dec(|o.body|));
      data := data + ("Content-length: " + Dec(|o.body|) + "\r\n");
    } else {
      assert first + HeaderLines(o.headers) == RequestLines(o);
    }
    data := data + "\r\n";
  }

  lemma NextHeader(first: seq<string>, hs: seq<(string, string)>, i: nat)
    requires i < |hs|
    ensures Lined(first + HeaderLines(hs[..i + 1]))
         == Lined(first + HeaderLines(hs[..i])) + (hs[i].0 + ": " + hs[i].1 + "\r\n")
  {
    var line := hs[i].0 + ": " + hs[i].1;
    HeaderLinesConcat(hs[..i], [hs[i]]);
    assert hs[..i + 1] == hs[..i] + [hs[i]];
    assert HeaderLines([hs[i]]) == [line] by { assert HeaderLines([hs[i]][1..]) == []; }
    assert first + (HeaderLines(hs[..i]) + [line]) == first + HeaderLines(hs[..i]) + [line];
    LinedPush(first + HeaderLines(hs[..i]), line);
  }

  /** The request is sent: its head in one write, its body in pieces of 1024 bytes. False
      is the int thrown by the first write. */
  method SendRequest(socket: Socket, o: Outgoing) returns (ok: bool)
    modifies socket`Sent
    ensures ok == Goes(Head(RequestLines(o))) && socket.Sent == old(socket.Sent) + RequestBytes(o)
  {
    ghost var before := socket.Sent;
    var data := PrintHead(o);
    ok := socket.WriteBuffer(data);
    ghost var head := socket.Sent;
    if !ok {
      assert Carried(data) + "" == Carried(data);
      return;
    }
    var chunk, done := 1024, 0;
    while done < |o.body|
      invariant 0 <= done <= |o.body| && chunk > 0 && ok
      invariant chunk == 1024 || done == |o.body|
      invariant socket.Sent == head + o.body[..done]
    {
      if done + chunk > |o.body| {
        chunk := |o.body| - done;
      }
      assert o.body[..done] + o.body[done..done + chunk] == o.body[..done + chunk];
      CarriedWhole(o.body[done..done + chunk]);
      ok := socket.WriteBuffer(o.body[done..done + chunk]);
      done := done + chunk;
    }
    assert o.body[..done] == o.body;
    Assoc(before, Carried(data), o.body);
  }

  // ------------------------------------------------------------ the server's side

  /** CVarVal of a request header. */
  datatype Header = Header(name: string, value: string)

  function HeaderOf(line: string): Header {
    var sp := Find(line, ':');
    if sp < |line| then Header(Lower(line[..sp]), Trim(line[sp + 1..])) else Header(line, "")
  }

  function HeadersOf(lines: seq<string>): (hs: seq<Header>)
    ensures |hs| == |lines|
    ensures forall i | 0 <= i < |lines| :: hs[i] == HeaderOf(lines[i])
  {
    if lines == [] then [] else [HeaderOf(lines[0])] + HeadersOf(lines[1..])
  }

  /** getHeader: the first header of that name, whatever the case. */
  function GetHeader(hs: seq<Header>, name: string): Option<string> {
    if hs == [] then None
    else if Lower(hs[0].name) == Lower(name) then Some(hs[0].value)
    else GetHeader(hs[1..], name)
  }

  method SplitHeader(acc: string) returns (vv: Header)
    ensures vv == HeaderOf(acc)
  {
    var sp := Find(acc, ':');
    if sp < |acc| {
      var name := StrToLower(acc[..sp]);
      var value := TrimInPlace(acc[sp + 1..]);
      vv := Header(name, value);
    } else {
      vv := Header(acc, "");
    }
  }

  datatype RequestLine = RequestLine(method_: string, path: string, query: string, version: string)

  /** The first header's name taken apart; None is the exception for a missing space. */
  function ParseRequestLine(line: string): Option<RequestLine> {
    var sp := Find(line, ' ');
    if sp == |line| then None else Some(BehindMethod(line[..sp], line[sp + 1..]))
  }

  function BehindMethod(method_: string, seg2: string): RequestLine {
    var sp := Find(seg2, ' ');
    var target := SplitTarget(seg2[..sp]);
    RequestLine(method_, target.0, target.1, if sp == |seg2| then seg2 else seg2[sp + 1..])
  }

  function SplitTarget(target: string): (string, string) {
    var q := Find(target, '?');
    if q == |target| then (target, "") else (target[..q], target[q + 1..])
  }

  lemma SpaceSplits(line: string, sp: nat, a: string, b: string)
    requires sp == Find(line, ' ') < |line| && a == line[..sp] && b == line[sp + 1..]
    ensures ParseRequestLine(line) == Some(BehindMethod(a, b))
  {}

  const NO_LINE := RequestLine("", "", "", "")

  /** The outcome of readHeader on the bytes of a connection. */
  datatype Parsed = Parsed(status: Status, headers: seq<Header>, line: RequestLine, rest: string)

  function ParseRequest(bytes: string): Parsed {
    match ScanHeader(bytes, true)
    case Cut(lines) => Parsed(Closed, HeadersOf(lines), NO_LINE, "")
    case Full(lines, rest) =>
      match ParseRequestLine(HeadersOf(lines)[0].name)
        case None => Parsed(Malformed, HeadersOf(lines), NO_LINE, rest)
        case Some(l) => Parsed(Done, HeadersOf(lines), l, rest)
  }

  /** The chunks as `Body += buf` keeps them: each up to its first NUL. */
  function CStrings(chunks: seq<string>): string {
    if chunks == [] then "" else chunks[0][..Find(chunks[0], '\0')] + CStrings(chunks[1..])
  }

  function Concat(chunks: seq<string>): string {
    if chunks == [] then "" else chunks[0] + Concat(chunks[1..])
  }

  /** However the bytes arrive, nothing is lost exactly when none of them is NUL. */
  lemma {:induction false} CStringsKeepAll(chunks: seq<string>)
    ensures |CStrings(chunks)| <= |Concat(chunks)|
    ensures '\0' !in Concat(chunks) <==> CStrings(chunks) == Concat(chunks)
    ensures '\0' in Concat(chunks) <==> |CStrings(chunks)| < |Concat(chunks)|
  {
    if chunks != [] {
      var c := chunks[0];
      CStringsKeepAll(chunks[1..]);
      FindFirst(c, '\0');
      assert c[..|c|] == c;
      assert '\0' in Concat(chunks) <==> '\0' in c || '\0' in Concat(chunks[1..]);
    }
  }

  /** A piece is kept up to its first NUL. */
  lemma CStringsCut(a: string, b: string, more: seq<string>)
    requires '\0' !in a
    ensures CStrings([a + ['\0'] + b] + more) == a + CStrings(more)
    ensures CStrings([a] + more) == a + CStrings(more)
  {
    FindAfter(a, '\0', b);
    FindNone(a, '\0');
    assert ([a + ['\0'] + b] + more)[1..] == more && ([a] + more)[1..] == more && a[..|a|] == a;
  }

  lemma {:induction false} PushChunk(chunks: seq<string>, c: string)
    ensures Concat(chunks + [c]) == Concat(chunks) + c
    ensures CStrings(chunks + [c]) == CStrings(chunks) + c[..Find(c, '\0')]
  {
    if chunks == [] {
      assert [c][1..] == [] && chunks + [c] == [c];
    } else {
      assert (chunks + [c])[1..] == chunks[1..] + [c];
      PushChunk(chunks[1..], c);
      Assoc(chunks[0], Concat(chunks[1..]), c);
      Assoc(chunks[0][..Find(chunks[0], '\0')], CStrings(chunks[1..]), c[..Find(c, '\0')]);
    }
  }

  /** Every piece has 1 to 1024 bytes and was read while the count was short of `len`. */
  ghost predicate ReadWhileShort(pieces: seq<string>, len: nat) {
    forall i | 0 <= i < |pieces| :: 1 <= |pieces[i]| <= 1024 && ToUint32(|Concat(pieces[..i])|) < len
  }

  /** Where the loop stands: what it has read and kept, and what is still to come. */
  ghost predicate Reading(all: string, pieces: seq<string>, pending: string, body: string, n: nat, len: nat) {
    && all == Concat(pieces) + pending && body == CStrings(pieces)
    && n == ToUint32(|Concat(pieces)|) && ReadWhileShort(pieces, len)
  }

  lemma ReadOneMore(all: string, pieces: seq<string>, piece: string, before: string, pending: string, body: string, n: nat, len: nat)
    requires Reading(all, pieces, before, body, n, len) && n < len && before == piece + pending && 1 <= |piece| <= 1024
    ensures Reading(all, pieces + [piece], pending, body + piece[..Find(piece, '\0')], ToUint32(n + |piece|), len)
  {
    PushChunk(pieces, piece);
    CountMore(Concat(pieces), piece, n);
    Assoc(Concat(pieces), piece, pending);
    ShortMore(pieces, piece, len);
  }

  lemma CountMore(done: string, piece: string, n: nat)
    requires n == ToUint32(|done|)
    ensures ToUint32(n + |piece|) == ToUint32(|done + piece|)
  {
    CountWraps(|done|, |piece|);
  }

  lemma ShortMore(pieces: seq<string>, piece: string, len: nat)
    requires ReadWhileShort(pieces, len) && 1 <= |piece| <= 1024 && ToUint32(|Concat(pieces)|) < len
    ensures ReadWhileShort(pieces + [piece], len)
  {
    var all := pieces + [piece];
    assert all[..|pieces|] == pieces;
    assert forall i | 0 <= i < |pieces| :: all[i] == pieces[i] && all[..i] == pieces[..i];
  }

  /** A body that ends where the announced length does is read whole, however it is split,
      and kept exactly when none of its bytes is NUL. */
  lemma WholeBody(all: string, pieces: seq<string>, pending: string, len: nat, done: bool)
    requires all == Concat(pieces) + pending && |all| == len < TWO_32
    requires done ==> ToUint32(|Concat(pieces)|) >= len
    requires !done ==> pending == "" && ToUint32(|Concat(pieces)|) < len
    ensures done && Concat(pieces) == all
    ensures CStrings(pieces) == all <==> '\0' !in all
  {
    CountWraps(|Concat(pieces)|, 0);
    CStringsKeepAll(pieces);
  }

  lemma CountWraps(a: nat, b: nat)
    ensures ToUint32(ToUint32(a) + b) == ToUint32(a + b)
    ensures ToUint32(a) <= a && (a < TWO_32 ==> ToUint32(a) == a)
  {}

  datatype Status = Done | Closed | Malformed

  /** The request side of solusek::CNode. */
  class ServerNode {
    const Connection: Socket
    var Headers: seq<Header>
    var Method: string
    var Path: string
    var QueryString: string
    var ProtocolVersion: string
    var Body: string

    constructor (socket: Socket)
      ensures Connection == socket && Headers == []
      ensures Method == "" && Path == "" && QueryString == "" && ProtocolVersion == "" && Body == ""
    {
      Connection := socket;
      Headers := [];
      Method, Path, QueryString, ProtocolVersion, Body := "", "", "", "", "";
    }

    /** readHeader on a node that has read nothing yet. */
    method ReadHeader() returns (status: Status)
      requires Headers == [] && Path == QueryString == ""
      modifies this, Connection`Pending
      ensures var p := ParseRequest(old(Connection.Pending));
              && status == p.status && Headers == p.headers && Connection.Pending == p.rest
              && (if status == Done then p.line == RequestLine(Method, Path, QueryString, ProtocolVersion) else Path == "")
    {
      var lines, complete := ReadLines(Connection, true);
      ghost var rest := Connection.Pending;
      for i := 0 to |lines|
        invariant |Headers| == i && forall j | 0 <= j < i :: Headers[j] == HeaderOf(lines[j])
        invariant Path == QueryString == "" && Connection.Pending == rest
      {
        var vv := SplitHeader(lines[i]);
        Headers := Headers + [vv];
      }
      assert Headers == HeadersOf(lines);
      if !complete {
        return Closed;
      }
      status := TakeRequestLine();
    }

    /** The second half of readHeader: the request line. */
    method TakeRequestLine() returns (status: Status)
      requires Headers != [] && Path == QueryString == ""
      modifies this`Method, this`Path, this`QueryString, this`ProtocolVersion
      ensures match ParseRequestLine(Headers[0].name)
              case None => status == Malformed && Path == ""
              case Some(l) => status == Done && l == RequestLine(Method, Path, QueryString, ProtocolVersion)
    {
      var first := Headers[0].name;
      var sp := Find(first, ' ');
      if sp == |first| {
        return Malformed;
      }
      var seg2 := first[sp + 1..];
      var sp2 := Find(seg2, ' ');
      ghost var parsed := BehindMethod(first[..sp], seg2);
      SpaceSplits(first, sp, first[..sp], seg2);
      Method := first[..sp];
      ProtocolVersion := if sp2 == |seg2| then seg2 else seg2[sp2 + 1..];
      Path := seg2[..sp2];
      TakeQuery();
      assert RequestLine(Method, Path, QueryString, ProtocolVersion) == parsed;
      return Done;
    }

    method TakeQuery()
      requires QueryString == ""
      modifies this`Path, this`QueryString
      ensures (Path, QueryString) == SplitTarget(old(Path))
    {
      var sp := Find(Path, '?');
      if sp < |Path| {
        QueryString := Path[sp + 1..];
        Path := Path[..sp];
      }
    }

    /** getHeader as the loop it is. */
    method FindHeader(name: string) returns (r: Option<string>)
      ensures r == GetHeader(Headers, name)
    {
      var tmp := StrToLower(name);
      for i := 0 to |Headers|
        invariant GetHeader(Headers, name) == GetHeader(Headers[i..], name)
      {
        var lower := StrToLower(Headers[i].name);
        if lower == tmp {
          return Some(Headers[i].value);
        }
      }
      return None;
    }

    /** readBody: pieces of at most 1024 bytes as long as the announced length is not
        reached by the count, which is kept in an unsigned int. */
    method ReadBody() returns (status: Status, ghost pieces: seq<string>)
      modifies this`Body, Connection`Pending
      ensures old(Connection.Pending) == Concat(pieces) + Connection.Pending && Body == CStrings(pieces)
      ensures match GetHeader(Headers, "content-length")
              case None => status == Done && pieces == []
              case Some(v) =>
                && ReadWhileShort(pieces, ToUint32(Atoi(v)))
                && (status == Done ==> ToUint32(|Concat(pieces)|) >= ToUint32(Atoi(v)))
                && (status != Done ==> status == Closed && Connection.Pending == ""
                                       && ToUint32(|Concat(pieces)|) < ToUint32(Atoi(v)))
    {
      Body := "";
      pieces := [];
      var vv := FindHeader("content-length");
      if vv.None? {
        return Done, pieces;
      }
      var len := ToUint32(Atoi(vv.value));
      var n: nat := 0;
      ghost var all := Connection.Pending;
      while n < len
        invariant Reading(all, pieces, Connection.Pending, Body, n, len)
        decreases |Connection.Pending|
      {
        ghost var rest := Connection.Pending;
        var read := Connection.ReadBuffer(1024);
        if read.None? {
          return Closed, pieces;
        }
        var buf := read.value;
        ReadOneMore(all, pieces, buf, rest, Connection.Pending, Body, n, len);
        pieces := pieces + [buf];
        Body := Body + buf[..Find(buf, '\0')];
        n := ToUint32(n + |buf|);
      }
      return Done, pieces;
    }
  }
}
