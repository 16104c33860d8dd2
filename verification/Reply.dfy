/** How the client reads a response (src/client/CClient.cpp:292-453): the lines of the
    header section one after the other, then the body by its length or by chunks. */
module Reply {
  import opened Text
  import opened Numbers
  import opened Sockets
  import opened Headers
  import opened Chunked

  /** The MResponse that runRequest returns. */
  datatype Reply = Reply(code: int, contentType: string, location: string, body: string)

  const DEFAULT_TYPE := "application/json"

  // ------------------------------------------------------------ header lines

  predicate IsStatus(line: string) {
    Contains(line, "HTTP/1.1")
  }

  /** The number behind the first space. */
  function CodeOf(line: string): int {
    var i1 := Find(line, ' ');
    var scode := if i1 == |line| then line else line[i1 + 1..];
    Atoi(scode[..Find(scode, ' ')])
  }

  /** The name in front of the first ':', or the whole line. */
  function NameOf(line: string): string {
    Trim(Lower(line[..Find(line, ':')]))
  }

  /** What follows the first ':', or the whole line. */
  function ValueOf(line: string): string {
    var i1 := Find(line, ':');
    Trim(if i1 == |line| then line else line[i1 + 1..])
  }

  /** The status code and the header map after some lines. */
  datatype Fields = Fields(code: int, map_: map<string, string>)

  function TakeLine(f: Fields, line: string): Fields {
    if IsStatus(line) then f.(code := CodeOf(line))
    else f.(map_ := f.map_[NameOf(line) := ValueOf(line)])
  }

  function TakeLines(f: Fields, lines: seq<string>): Fields
    decreases |lines|
  {
    if lines == [] then f else TakeLines(TakeLine(f, lines[0]), lines[1..])
  }

  const NO_FIELDS := Fields(0, map[])

  /** headers[name]: the empty string when there is none. */
  function Get(m: map<string, string>, name: string): string {
    if name in m then m[name] else ""
  }

  /** Name and value are what the white space around them surrounds. */
  lemma LineReads(line: string, lead: string, name: string, after: string, before: string, value: string, behind: string)
    requires line == lead + name + after + ":" + (before + value + behind) && ':' !in lead + name + after
    requires AllSpace(lead) && AllSpace(after) && AllSpace(before) && AllSpace(behind) && Trimmed(name) && Trimmed(value)
    ensures NameOf(line) == Lower(name) && ValueOf(line) == value
  {
    var left, right := lead + name + after, before + value + behind;
    FindAfter(left, ':', right);
    TrimAround(before, value, behind);
    LowerConcat(lead, name, after);
    TrimAround(Lower(lead), Lower(name), Lower(after));
  }

  lemma LowerConcat(lead: string, name: string, after: string)
    requires AllSpace(lead) && AllSpace(after) && Trimmed(name)
    ensures Lower(lead + name + after) == Lower(lead) + Lower(name) + Lower(after)
    ensures AllSpace(Lower(lead)) && AllSpace(Lower(after)) && Trimmed(Lower(name))
  {}

  /** A line without a ':' is its own name and value. */
  lemma LineWithoutColon(line: string, lead: string, text: string, behind: string)
    requires line == lead + text + behind && ':' !in line && AllSpace(lead) && AllSpace(behind) && Trimmed(text)
    ensures NameOf(line) == Lower(text) && ValueOf(line) == text
  {
    FindNone(line, ':');
    assert line[..|line|] == line;
    TrimAround(lead, text, behind);
    LowerConcat(lead, text, behind);
    TrimAround(Lower(lead), Lower(text), Lower(behind));
  }

  /** The code is the number in the second word, or in the only one. */
  lemma CodeReads(version: string, num: string, more: string)
    requires ' ' !in version && ' ' !in num
    ensures CodeOf(version + " " + (num + " " + more)) == Atoi(num)
    ensures CodeOf(version + " " + num) == Atoi(num)
    ensures CodeOf(num) == Atoi(num)
  {
    assert version + " " + num == version + [' '] + num;
    assert num + " " + more == num + [' '] + more;
    assert version + " " + (num + " " + more) == version + [' '] + (num + " " + more);
    FindAfter(version, ' ', num + " " + more);
    FindAfter(version, ' ', num);
    FindAfter(num, ' ', more);
    FindNone(num, ' ');
    assert num[..|num|] == num;
  }

  // ------------------------------------------------------------ the reply

  /** The body, and whether it was read to its end. */
  function BodyOf(m: map<string, string>, rest: string, shorts: seq<bool>, stale: nat): (string, bool) {
    if Get(m, "content-length") != "" then
      var clen := ToUint32(Atoi(Get(m, "content-length")));
      if |rest| < clen then (rest, false) else (rest[..clen], true)
    else if Get(m, "transfer-encoding") != "" then (Decode(rest, shorts, stale), true)
    else ("", true)
  }

  function ReplyFrom(f: Fields, rest: string, shorts: seq<bool>, stale: nat): Reply {
    var (body, whole) := BodyOf(f.map_, rest, shorts, stale);
    var ct := Get(f.map_, "content-type");
    Reply(f.code, if ct == "" then DEFAULT_TYPE else ct, if whole then Get(f.map_, "location") else "", body)
  }

  /** The reply read from the bytes of a connection. A connection that ends inside the
      header section leaves only the status code that was seen. */
  function Reads(bytes: string, shorts: seq<bool>, stale: nat): Reply {
    match ScanHeader(bytes, false)
    case Cut(lines) => Reply(TakeLines(NO_FIELDS, lines).code, DEFAULT_TYPE, "", "")
    case Full(lines, rest) => ReplyFrom(TakeLines(NO_FIELDS, lines), rest, shorts, stale)
  }

  /** The part of runRequest that reads; `stale` is what chunkSize happens to hold. */
  method ReadReply(socket: Socket, stale: nat) returns (reply: Reply, ghost shorts: seq<bool>)
    modifies socket`Pending
    ensures reply == Reads(old(socket.Pending), shorts, stale)
  {
    shorts := [];
    var lines, complete := ReadLines(socket, false);
    var code := 0;
    var headers: map<string, string> := map[];
    for i := 0 to |lines|
      invariant TakeLines(NO_FIELDS, lines) == TakeLines(Fields(code, headers), lines[i..])
    {
      assert lines[i..][1..] == lines[i + 1..];
      if IsStatus(lines[i]) {
        code := CodeOf(lines[i]);
      } else {
        headers := headers[NameOf(lines[i]) := ValueOf(lines[i])];
      }
    }
    if !complete {
      return Reply(code, DEFAULT_TYPE, "", ""), shorts;
    }
    var contentType, location, resp, ok := DEFAULT_TYPE, "", "", true;
    if |Get(headers, "content-type")| > 0 {
      contentType := Get(headers, "content-type");
    }
    if |Get(headers, "content-length")| > 0 {
      var clen := ToUint32(Atoi(Get(headers, "content-length")));
      resp, ok := ReadCounted(socket, clen, "");
    } else if |Get(headers, "transfer-encoding")| > 0 {
      resp, shorts := ReadChunked(socket, stale);
    }
    if ok && |Get(headers, "location")| > 0 {
      location := Get(headers, "location");
    }
    return Reply(code, contentType, location, resp), shorts;
  }

  // ------------------------------------------------------------ cut connections

  lemma {:induction false} TakeLinesConcat(f: Fields, a: seq<string>, b: seq<string>)
    ensures TakeLines(f, a + b) == TakeLines(TakeLines(f, a), b)
    decreases |a|
  {
    if a == [] {
      assert a + b == b;
    } else {
      assert (a + b)[1..] == a[1..] + b;
      TakeLinesConcat(TakeLine(f, a[0]), a[1..], b);
    }
  }

  lemma {:induction false} OtherLinesKeepCode(f: Fields, lines: seq<string>)
    requires forall l | l in lines :: !IsStatus(l)
    ensures TakeLines(f, lines).code == f.code
    decreases |lines|
  {
    if lines != [] { OtherLinesKeepCode(TakeLine(f, lines[0]), lines[1..]); }
  }

  lemma CutBody(m: map<string, string>, rest: string, more: string, shorts: seq<bool>, stale: nat)
    ensures Prefix(BodyOf(m, rest, shorts, stale).0, BodyOf(m, rest + more, shorts, stale).0)
  {
    var clen := ToUint32(Atoi(Get(m, "content-length")));
    assert (rest + more)[..|rest|] == rest;
    assert |rest| >= clen ==> (rest + more)[..clen] == rest[..clen];
    assert |rest| < clen <= |rest + more| ==> (rest + more)[..clen][..|rest|] == rest;
    CutDecodesToPrefix(rest, more, shorts, stale);
  }

  /** Truncation safety, for any bytes and any cut: if the connection ends early the body
      is a prefix of the full one, and nothing that was complete is read differently:
      behind the header section the status code and the content type are kept; inside it
      the status code is, unless a status line is still missing. */
  lemma CutReply(a: string, b: string, shorts: seq<bool>, stale: nat)
    ensures var cut, full := Reads(a, shorts, stale), Reads(a + b, shorts, stale);
            && Prefix(cut.body, full.body)
            && (ScanHeader(a, false).Full? ==> cut.code == full.code && cut.contentType == full.contentType)
    ensures var seen, all := ScanHeader(a, false).lines, ScanHeader(a + b, false).lines;
            && Prefix(seen, all)
            && ((forall l | l in all[|seen|..] :: !IsStatus(l)) ==>
                  Reads(a, shorts, stale).code == Reads(a + b, shorts, stale).code)
  {
    ScanMore(a, b, "", 0, [], false);
    var s := ScanHeader(a, false);
    var seen, all := s.lines, ScanHeader(a + b, false).lines;
    if forall l | l in all[|seen|..] :: !IsStatus(l) {
      assert all == seen + all[|seen|..];
      TakeLinesConcat(NO_FIELDS, seen, all[|seen|..]);
      OtherLinesKeepCode(TakeLines(NO_FIELDS, seen), all[|seen|..]);
    }
    if s.Full? {
      CutBody(TakeLines(NO_FIELDS, s.lines).map_, s.rest, b, shorts, stale);
    }
  }

  // ------------------------------------------------------------ chunked replies

  predicate Named(line: string, name: string) {
    !IsStatus(line) && NameOf(line) == name
  }

  predicate LastNamed(ls: seq<string>, name: string, i: int) {
    0 <= i < |ls| && Named(ls[i], name) && forall j | i < j < |ls| :: !Named(ls[j], name)
  }

  lemma {:induction false} NoneNamedKeeps(f: Fields, ls: seq<string>, name: string)
    requires forall j | 0 <= j < |ls| :: !Named(ls[j], name)
    ensures Get(TakeLines(f, ls).map_, name) == Get(f.map_, name)
    decreases |ls|
  {
    if ls != [] {
      assert forall j | 0 <= j < |ls[1..]| :: ls[1..][j] == ls[j + 1];
      NoneNamedKeeps(TakeLine(f, ls[0]), ls[1..], name);
    }
  }

  /** The last line of a name gives its value. */
  lemma LastNamedGives(f: Fields, ls: seq<string>, name: string, i: nat)
    requires LastNamed(ls, name, i)
    ensures Get(TakeLines(f, ls).map_, name) == ValueOf(ls[i])
  {
    var before, after := ls[..i], ls[i + 1..];
    assert ls == before + ([ls[i]] + after);
    TakeLinesConcat(f, before, [ls[i]] + after);
    assert ([ls[i]] + after)[1..] == after;
    assert forall j | 0 <= j < |after| :: after[j] == ls[i + 1 + j];
    NoneNamedKeeps(TakeLine(TakeLines(f, before), ls[i]), after, name);
  }

  /** The last line of a name decides; without one there is nothing. */
  ghost predicate Says(ls: seq<string>, name: string, value: string) {
    if forall j | 0 <= j < |ls| :: !Named(ls[j], name) then value == ""
    else exists i :: LastNamed(ls, name, i) && ValueOf(ls[i]) == value
  }

  lemma BlankIsUnnamed()
    ensures !IsStatus("") && NameOf("") == ""
  {
    ContainsNeedsHead("", "HTTP/1.1");
    assert Lower("") == "";
  }

  lemma SaysIsRead(ls: seq<string>, name: string, value: string)
    requires Says(ls, name, value) && name != ""
    ensures Get(TakeLines(NO_FIELDS, ls + [""]).map_, name) == value
  {
    var f := TakeLines(NO_FIELDS, ls);
    if forall j | 0 <= j < |ls| :: !Named(ls[j], name) {
      NoneNamedKeeps(NO_FIELDS, ls, name);
    } else {
      var i :| LastNamed(ls, name, i) && ValueOf(ls[i]) == value;
      LastNamedGives(NO_FIELDS, ls, name, i);
    }
    BlankIsUnnamed();
    TakeLinesConcat(NO_FIELDS, ls, [""]);
    NoneNamedKeeps(f, [""], name);
  }

  /** Code, type and location behind a header section; the body is left to BodyOf. */
  lemma ReadsBehind(ls: seq<string>, rest: string, ct: string, location: string, shorts: seq<bool>, stale: nat)
    requires ls != [] && CleanLines(ls) && Says(ls, "content-type", ct) && Says(ls, "location", location)
    ensures var b := BodyOf(TakeLines(NO_FIELDS, ls + [""]).map_, rest, shorts, stale);
            Reads(Head(ls) + rest, shorts, stale)
              == Reply(TakeLines(NO_FIELDS, ls).code, if ct == "" then "application/json" else ct, if b.1 then location else "", b.0)
  {
    ScanPrinted(ls, rest, false);
    SaysIsRead(ls, "content-type", ct);
    SaysIsRead(ls, "location", location);
    BlankIsUnnamed();
    TakeLinesConcat(NO_FIELDS, ls, [""]);
    OtherLinesKeepCode(TakeLines(NO_FIELDS, ls), [""]);
  }

  lemma CountedBody(m: map<string, string>, body: string, more: string, j: nat, shorts: seq<bool>, stale: nat)
    requires Get(m, "content-length") == Dec(|body|) && |body| < TWO_32 && j < |body|
    ensures BodyOf(m, body + more, shorts, stale) == (body, true)
    ensures BodyOf(m, body[..j], shorts, stale) == (body[..j], false)
  {
    AtoiOfDec(|body|);
    SmallNumbers(|body|);
    assert (body + more)[..|body|] == body;
  }

  /** A reply with a length: as many bytes as it says are the body, whatever follows them; a
      shorter body is kept as far as it came, and then the location is not looked at. */
  lemma CountedReply(ls: seq<string>, body: string, more: string, ct: string, location: string, j: nat,
                     shorts: seq<bool>, stale: nat)
    requires ls != [] && CleanLines(ls) && |body| < TWO_32 && j < |body|
    requires Says(ls, "content-length", Dec(|body|)) && Says(ls, "content-type", ct) && Says(ls, "location", location)
    ensures var code, type_ := TakeLines(NO_FIELDS, ls).code, if ct == "" then "application/json" else ct;
            && Reads(Head(ls) + (body + more), shorts, stale) == Reply(code, type_, location, body)
            && Reads(Head(ls) + body[..j], shorts, stale) == Reply(code, type_, "", body[..j])
  {
    SaysIsRead(ls, "content-length", Dec(|body|));
    CountedBody(TakeLines(NO_FIELDS, ls + [""]).map_, body, more, j, shorts, stale);
    ReadsBehind(ls, body + more, ct, location, shorts, stale);
    ReadsBehind(ls, body[..j], ct, location, shorts, stale);
  }

  /** A reply with neither a length nor chunks has no body. */
  lemma BareReply(ls: seq<string>, rest: string, ct: string, location: string, shorts: seq<bool>, stale: nat)
    requires ls != [] && CleanLines(ls)
    requires Says(ls, "content-length", "") && Says(ls, "transfer-encoding", "")
    requires Says(ls, "content-type", ct) && Says(ls, "location", location)
    ensures Reads(Head(ls) + rest, shorts, stale)
         == Reply(TakeLines(NO_FIELDS, ls).code, if ct == "" then "application/json" else ct, location, "")
  {
    SaysIsRead(ls, "content-length", "");
    SaysIsRead(ls, "transfer-encoding", "");
    ReadsBehind(ls, rest, ct, location, shorts, stale);
  }

  /** Header lines that announce chunks: a Transfer-Encoding that is not empty, and no
      Content-Length. */
  ghost predicate AnnounceChunks(ls: seq<string>) {
    && ls != [] && CleanLines(ls)
    && Says(ls, "content-length", "") && exists coding :: coding != "" && Says(ls, "transfer-encoding", coding)
  }

  /** Whatever the header lines say beside that, the client gets the status code, type and
      location they say and all the data, for every list of chunks and every pattern of
      short reads. */
  lemma ChunkedReply(ls: seq<string>, cs: seq<Chunk>, lastSize: string, lastExt: string, trailer: string,
                     ct: string, location: string, shorts: seq<bool>, stale: nat)
    requires AnnounceChunks(ls) && GoodChunks(cs) && GoodSizeLine(lastSize, lastExt, 0)
    requires Says(ls, "content-type", ct) && Says(ls, "location", location)
    ensures Reads(Head(ls) + Encode(cs, lastSize, lastExt, trailer), shorts, stale)
         == Reply(TakeLines(NO_FIELDS, ls).code, if ct == "" then "application/json" else ct, location, Data(cs))
  {
    var coded := Encode(cs, lastSize, lastExt, trailer);
    var coding :| coding != "" && Says(ls, "transfer-encoding", coding);
    SaysIsRead(ls, "content-length", "");
    SaysIsRead(ls, "transfer-encoding", coding);
    ChunkedBody(TakeLines(NO_FIELDS, ls + [""]).map_, cs, lastSize, lastExt, trailer, shorts, stale);
    ReadsBehind(ls, coded, ct, location, shorts, stale);
  }

  lemma ChunkedBody(m: map<string, string>, cs: seq<Chunk>, lastSize: string, lastExt: string, trailer: string,
                    shorts: seq<bool>, stale: nat)
    requires Get(m, "content-length") == "" && Get(m, "transfer-encoding") != ""
    requires GoodChunks(cs) && GoodSizeLine(lastSize, lastExt, 0)
    ensures BodyOf(m, Encode(cs, lastSize, lastExt, trailer), shorts, stale) == (Data(cs), true)
  {
    var coded := Encode(cs, lastSize, lastExt, trailer);
    DecodeInvertsEncode("", cs, lastSize, lastExt, trailer, shorts, stale);
    assert "" + coded == coded;
  }

  /** Cut at any byte, and read with short reads of its own, the reply has a prefix of the
      data, and the status code as soon as the header section is through. */
  lemma CutChunkedReply(ls: seq<string>, cs: seq<Chunk>, lastSize: string, lastExt: string, trailer: string,
                        ct: string, location: string, k: nat, shorts: seq<bool>, stale: nat)
    requires AnnounceChunks(ls) && GoodChunks(cs) && GoodSizeLine(lastSize, lastExt, 0)
    requires Says(ls, "content-type", ct) && Says(ls, "location", location)
    requires k <= |Head(ls) + Encode(cs, lastSize, lastExt, trailer)|
    ensures var r := Reads((Head(ls) + Encode(cs, lastSize, lastExt, trailer))[..k], shorts, stale);
            Prefix(r.body, Data(cs)) && (k >= |Head(ls)| ==> r.code == TakeLines(NO_FIELDS, ls).code)
  {
    ChunkedReply(ls, cs, lastSize, lastExt, trailer, ct, location, shorts, stale);
    CutAnyReply(ls, Encode(cs, lastSize, lastExt, trailer), k, shorts, stale);
  }

  lemma CutAnyReply(ls: seq<string>, body: string, k: nat, shorts: seq<bool>, stale: nat)
    requires ls != [] && CleanLines(ls) && k <= |Head(ls) + body|
    ensures var cut, full := Reads((Head(ls) + body)[..k], shorts, stale), Reads(Head(ls) + body, shorts, stale);
            Prefix(cut.body, full.body) && (k >= |Head(ls)| ==> cut.code == full.code)
  {
    var all := Head(ls) + body;
    assert all[..k] + all[k..] == all;
    CutReply(all[..k], all[k..], shorts, stale);
    if k >= |Head(ls)| { CutBehindHead(ls, body, k); }
  }

  lemma CutBehindHead(ls: seq<string>, body: string, k: nat)
    requires ls != [] && CleanLines(ls) && |Head(ls)| <= k <= |Head(ls) + body|
    ensures ScanHeader((Head(ls) + body)[..k], false).Full?
  {
    var part := body[..k - |Head(ls)|];
    assert (Head(ls) + body)[..k] == Head(ls) + part;
    ScanPrinted(ls, part, false);
  }
}
