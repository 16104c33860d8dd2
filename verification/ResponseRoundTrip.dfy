/** The client's view of what the server wrote, whole or broken off by a write that throws. */
module ResponseRoundTrip {
  import opened Text
  import opened Numbers
  import opened Sockets
  import opened Headers
  import opened Response
  import opened ResponseText
  import opened Reply

  // ------------------------------------------------------------ one row

  lemma NeverStatus(s: string)
    requires 'H' !in s
    ensures !IsStatus(s)
  {
    ContainsNeedsHead(s, "HTTP/1.1");
  }

  lemma SplitAtChar(a: string, c: char, b: string)
    requires c !in "HTTP/1.1" && !IsStatus(a) && !IsStatus(b)
    ensures !IsStatus(a + [c] + b)
  {
    if IsStatus(a + [c] + b) { ContainsAround(a, c, b, "HTTP/1.1"); }
  }

  predicate NameChar(c: char) {
    c == '-' || 'a' <= c <= 'z' || ('A' <= c <= 'Z' && c != 'H')
  }

  /** A row name as the server writes them. */
  predicate RowName(name: string) {
    name != "" && forall k | 0 <= k < |name| :: NameChar(name[k])
  }

  lemma RowNameFacts(name: string)
    requires RowName(name)
    ensures Clean(name) && ':' !in name && 'H' !in name && Trimmed(Lower(name))
  {}

  /** A row reads as its name, in lower case, and its trimmed value. */
  lemma RowReads(row: Row)
    requires RowName(row.0) && Plain(row.1)
    ensures var l := RowLine(row);
            && l != "" && Clean(l) && !IsStatus(l)
            && NameOf(l) == Lower(row.0) && ValueOf(l) == Trim(row.1)
  {
    var l := RowLine(row);
    var right := " " + row.1;
    RowNameFacts(row.0);
    assert l == row.0 + [':'] + right && right == "" + [' '] + row.1;
    NeverStatus(row.0);
    NeverStatus("");
    SplitAtChar("", ' ', row.1);
    SplitAtChar(row.0, ':', right);
    FindAfter(row.0, ':', right);
    assert l[..|row.0|] == row.0 && l[|row.0| + 1..] == right;
    TrimTrimmed(Lower(row.0));
    assert right[1..] == row.1;
  }

  predicate GoodRows(rows: seq<Row>) {
    forall i | 0 <= i < |rows| :: RowName(rows[i].0) && Plain(rows[i].1)
  }

  function PutRows(m: map<string, string>, rows: seq<Row>): map<string, string>
    decreases |rows|
  {
    if rows == [] then m else PutRows(m[Lower(rows[0].0) := Trim(rows[0].1)], rows[1..])
  }

  lemma {:induction false} RowsRead(f: Fields, rows: seq<Row>)
    requires GoodRows(rows)
    ensures TakeLines(f, RowLines(rows)) == Fields(f.code, PutRows(f.map_, rows))
    ensures CleanLines(RowLines(rows))
    decreases |rows|
  {
    if rows != [] {
      RowReads(rows[0]);
      RowsRead(TakeLine(f, RowLine(rows[0])), rows[1..]);
      assert RowLines(rows)[1..] == RowLines(rows[1..]);
    }
  }

  lemma {:induction false} OtherRowsKeep(m: map<string, string>, rows: seq<Row>, key: string)
    requires forall i | 0 <= i < |rows| :: Lower(rows[i].0) != key
    ensures Get(PutRows(m, rows), key) == Get(m, key)
    decreases |rows|
  {
    if rows != [] { OtherRowsKeep(m[Lower(rows[0].0) := Trim(rows[0].1)], rows[1..], key); }
  }

  /** A name that only one row carries is read with that row's value. */
  lemma {:induction false} OneRowGives(m: map<string, string>, rows: seq<Row>, i: nat)
    requires i < |rows| && forall j | i < j < |rows| :: Lower(rows[j].0) != Lower(rows[i].0)
    ensures Get(PutRows(m, rows), Lower(rows[i].0)) == Trim(rows[i].1)
    decreases |rows|
  {
    var m' := m[Lower(rows[0].0) := Trim(rows[0].1)];
    if i == 0 {
      OtherRowsKeep(m', rows[1..], Lower(rows[0].0));
    } else {
      OneRowGives(m', rows[1..], i - 1);
    }
  }

  // ------------------------------------------------------------ the response's rows

  lemma PlainConcat(a: string, c: char, b: string)
    requires Plain(a) && Plain(b) && c !in "HTTP/1.1" && c != '\r' && c != '\n' && c != '\0'
    ensures Plain(a + [c] + b)
  {
    SplitAtChar(a, c, b);
  }

  lemma NoHIsPlain(s: string)
    requires Clean(s) && 'H' !in s
    ensures Plain(s)
  {
    NeverStatus(s);
  }

  lemma PlainTail(s: string)
    requires s != "" && Plain(s)
    ensures Plain(s[1..])
  {
    forall i | 0 <= i <= |s[1..]|
      ensures !At(s[1..], "HTTP/1.1", i)
    {
      assert s[..1] + s[1..] + "" == s;
      if i + 8 <= |s[1..]| { AtWithin(s[..1], s[1..], "", "HTTP/1.1", i); }
    }
  }

  lemma CarriedIsPlain(s: string)
    requires Plain(s)
    ensures Plain(Carried(s))
  {
    var sent := Carried(s);
    assert s == sent + s[|sent|..];
    if IsStatus(sent) { PartContains(sent, s[|sent|..], "HTTP/1.1"); }
  }

  /** Plain texts joined where the second starts with ';' stay plain. */
  lemma PlainGlue(a: string, b: string)
    requires Plain(a) && Plain(b) && b != "" && b[0] == ';'
    ensures Plain(a + b)
  {
    PlainTail(b);
    PlainConcat(a, ';', b[1..]);
    assert a + b == a + [';'] + b[1..];
  }

  lemma CookieTailIsPlain(path: string)
    requires Plain(path)
    ensures Plain("; SameSite=Strict" + PathText(path))
  {
    var a := "; SameSite=Strict";
    NoHIsPlain(a);
    if path == "" {
      assert a + "" == a;
    } else {
      PathIsPlain(path);
      PlainGlue(a, PathText(path));
    }
  }

  lemma PathIsPlain(path: string)
    requires Plain(path) && path != ""
    ensures Plain(PathText(path)) && PathText(path)[0] == ';'
  {
    NoHIsPlain("; Path");
    CarriedIsPlain(path);
    PlainConcat("; Path", '=', Carried(path));
    assert "; Path" + ['='] == "; Path=";
  }

  lemma CookieTextIsPlain(c: Cookie)
    requires PlainCookie(c)
    ensures Plain(CookieText(c))
  {
    var tail := "; SameSite=Strict" + PathText(c.path);
    CookieTailIsPlain(c.path);
    CarriedIsPlain(c.name);
    CarriedIsPlain(c.value);
    PlainGlue(Carried(c.value), tail);
    PlainConcat(Carried(c.name), '=', Carried(c.value) + tail);
  }

  lemma CookieRowsAreGood(cs: seq<Cookie>)
    requires forall i | 0 <= i < |cs| :: PlainCookie(cs[i])
    ensures GoodRows(CookieRows(cs)) && SideRows(CookieRows(cs))
  {
    OwnRowNames();
    LastNamesAreGood();
    forall i | 0 <= i < |cs|
      ensures Plain(CookieText(cs[i]))
    {
      CookieTextIsPlain(cs[i]);
    }
  }

  /** The names the server writes, in lower case. */
  lemma OwnRowNames()
    ensures Lower("Date") == "date" && Lower("Content-Type") == "content-type"
    ensures Lower("Content-Length") == "content-length" && Lower("Last-Modified") == "last-modified"
    ensures Lower("Set-Cookie") == "set-cookie" && Lower("Server") == "server" && Lower("Connection") == "connection"
  {}

  lemma FirstNamesAreGood()
    ensures RowName("Date") && RowName("Content-Type") && RowName("Content-Length") && RowName("Last-Modified")
  {}

  lemma LastNamesAreGood()
    ensures RowName("Set-Cookie") && RowName("Server") && RowName("Connection")
  {}

  lemma DecIsPlain(n: nat)
    ensures Plain(Dec(n)) && Trimmed(Dec(n))
  {
    assert forall k | 0 <= k < |Dec(n)| :: '0' <= Dec(n)[k] <= '9';
    NoHIsPlain(Dec(n));
  }

  lemma FirstRowsAreGood(r: Outgoing, now: string)
    requires WellFormed(r, now)
    ensures GoodRows(FirstRows(r, now))
  {
    FirstNamesAreGood();
    DecIsPlain(ToUint32(|r.body|));
    CarriedIsPlain(DateOf(r, now));
    CarriedIsPlain(r.contentType);
  }

  /** Rows that carry none of the names the client looks for. */
  predicate SideRows(rows: seq<Row>) {
    forall i | 0 <= i < |rows| :: Lower(rows[i].0) in {"set-cookie", "server", "connection"}
  }

  lemma LastRowsAreGood()
    ensures GoodRows(LAST_ROWS) && SideRows(LAST_ROWS)
  {
    OwnRowNames();
    LastNamesAreGood();
    LastValuesArePlain();
  }

  lemma LastValuesArePlain()
    ensures Plain("Solusek/1.0 (Linux)") && Plain("close")
  {
    LastValuesAreClean();
    NoHIsPlain("Solusek/1.0 (Linux)");
    NoHIsPlain("close");
  }

  lemma LastValuesAreClean()
    ensures Clean("Solusek/1.0 (Linux)") && Clean("close")
    ensures 'H' !in "Solusek/1.0 (Linux)" && 'H' !in "close"
  {}

  lemma SidRowsAreGood(sid: string)
    requires Plain(sid)
    ensures GoodRows(SidRows(sid)) && SideRows(SidRows(sid))
  {
    NoHIsPlain("/");
    NoHIsPlain("SolusekSID");
    var c := Cookie("SolusekSID", sid, "/");
    CookieRowsAreGood([c]);
    assert CookieRows([c])[0] == ("Set-Cookie", CookieText(c));
  }

  // ------------------------------------------------------------ the status line

  lemma StatusLineReads(r: Outgoing)
    ensures var l := StatusLine(r);
            l != "" && Clean(l) && IsStatus(l) && CodeOf(l) == r.code
  {
    StatusLineIsClean(r.code);
    FivePieces("HTTP/1.1", " ", Int(r.code), " ", CodeDescription(r.code));
    StatusIsSeen(" " + Int(r.code) + " " + CodeDescription(r.code), StatusLine(r));
    StatusCode(r);
  }

  lemma StatusIsSeen(rest: string, line: string)
    requires line == "HTTP/1.1" + rest
    ensures line != "" && IsStatus(line)
  {
    StartContains("HTTP/1.1", rest);
  }

  lemma StatusCode(r: Outgoing)
    ensures CodeOf(StatusLine(r)) == r.code
  {
    StatusLineIsClean(r.code);
    IntReads(r.code);
    CodeOfStatus("HTTP/1.1", Int(r.code), CodeDescription(r.code), r.code);
  }

  lemma IntReads(code: int)
    requires -TWO_31 <= code < TWO_31
    ensures Atoi(Int(code)) == code
  {
    AtoiOfInt(code, "");
    assert Int(code) + "" == Int(code);
  }

  lemma StatusLineIsClean(code: int)
    ensures Clean("HTTP/1.1" + " " + Int(code) + " " + CodeDescription(code)) && ' ' !in Int(code)
  {
    var num, desc := Int(code), CodeDescription(code);
    StatusPiecesAreClean(code);
    CleanConcat("HTTP/1.1", " ");
    CleanConcat("HTTP/1.1" + " ", num);
    CleanConcat("HTTP/1.1" + " " + num, " ");
    CleanConcat("HTTP/1.1" + " " + num + " ", desc);
  }

  lemma StatusPiecesAreClean(code: int)
    ensures Clean("HTTP/1.1") && Clean(CodeDescription(code)) && Clean(Int(code)) && ' ' !in Int(code)
  {
    DescriptionIsClean(code);
    assert forall k | 0 <= k < |Int(code)| :: Int(code)[k] == '-' || '0' <= Int(code)[k] <= '9';
  }

  lemma DescriptionIsClean(code: int)
    ensures Clean(CodeDescription(code))
  {}

  lemma CodeOfStatus(version: string, num: string, desc: string, code: int)
    requires ' ' !in version && ' ' !in num && Atoi(num) == code
    ensures CodeOf(version + " " + num + " " + desc) == code
  {
    var l, scode := version + " " + num + " " + desc, num + [' '] + desc;
    assert l == version + [' '] + scode;
    FindAfter(version, ' ', scode);
    assert l[|version| + 1..] == scode;
    FindAfter(num, ' ', desc);
    assert scode[..|num|] == num;
  }

  lemma StartContains(a: string, b: string)
    ensures Contains(a + b, a)
  {
    assert (a + b)[0..0 + |a|] == a;
    AtSlice(a + b, a, 0);
  }

  // ------------------------------------------------------------ the round trip

  lemma {:induction false} PutRowsConcat(m: map<string, string>, a: seq<Row>, b: seq<Row>)
    ensures PutRows(m, a + b) == PutRows(PutRows(m, a), b)
    decreases |a|
  {
    if a == [] {
      assert a + b == b;
    } else {
      assert (a + b)[1..] == a[1..] + b;
      PutRowsConcat(m[Lower(a[0].0) := Trim(a[0].1)], a[1..], b);
    }
  }

  /** The map behind the first four rows and any side rows. */
  lemma FieldsBehind(r: Outgoing, now: string, side: seq<Row>)
    requires SideRows(side)
    ensures var m := PutRows(map[], FirstRows(r, now) + side);
            && Get(m, "content-type") == Trim(Carried(r.contentType))
            && Get(m, "content-length") == Dec(ToUint32(|r.body|))
            && Get(m, "location") == ""
            && Get(m, "date") == Get(m, "last-modified") == Trim(Carried(DateOf(r, now)))
  {
    var first := FirstRows(r, now);
    var m := PutRows(map[], first);
    PutRowsConcat(map[], first, side);
    OwnRowNames();
    OneRowGives(map[], first, 1);
    OneRowGives(map[], first, 2);
    OneRowGives(map[], first, 0);
    OneRowGives(map[], first, 3);
    OtherRowsKeep(map[], first, "location");
    OtherRowsKeep(m, side, "content-type");
    OtherRowsKeep(m, side, "content-length");
    OtherRowsKeep(m, side, "location");
    OtherRowsKeep(m, side, "date");
    OtherRowsKeep(m, side, "last-modified");
    DecIsPlain(ToUint32(|r.body|));
    TrimTrimmed(Dec(ToUint32(|r.body|)));
  }

  lemma AllRowsAreGood(r: Outgoing, now: string)
    requires WellFormed(r, now)
    ensures GoodRows(HeaderRows(r, now)) && GoodRows(LAST_ROWS)
    ensures SideRows(SidRows(r.sid) + CookieRows(r.cookies) + LAST_ROWS)
  {
    FirstRowsAreGood(r, now);
    SidRowsAreGood(r.sid);
    CookieRowsAreGood(r.cookies);
    LastRowsAreGood();
  }

  /** What the client knows behind the header section of an unbroken response. */
  lemma HeaderReads(r: Outgoing, now: string)
    requires WellFormed(r, now)
    ensures CleanLines(ResponseLines(r, now))
    ensures var f := TakeLines(NO_FIELDS, ResponseLines(r, now) + [""]);
            && f.code == r.code
            && Get(f.map_, "content-type") == Trim(Carried(r.contentType))
            && Get(f.map_, "content-length") == Dec(ToUint32(|r.body|))
            && Get(f.map_, "location") == ""
            && Get(f.map_, "date") == Get(f.map_, "last-modified") == Trim(Carried(if r.date == "" then now else r.date))
  {
    var side := SidRows(r.sid) + CookieRows(r.cookies) + LAST_ROWS;
    var rows := FirstRows(r, now) + side;
    AllRowsAreGood(r, now);
    LinesOfRows(r, now, side);
    StatusAndRows(r, rows);
    FieldsBehind(r, now, side);
    TakeLinesConcat(NO_FIELDS, ResponseLines(r, now), [""]);
    BlankLine(Fields(r.code, PutRows(map[], rows)));
  }

  lemma StatusAndRows(r: Outgoing, rows: seq<Row>)
    requires GoodRows(rows)
    ensures var lines := [StatusLine(r)] + RowLines(rows);
            CleanLines(lines) && TakeLines(NO_FIELDS, lines) == Fields(r.code, PutRows(map[], rows))
  {
    var status := StatusLine(r);
    StatusLineReads(r);
    RowsRead(TakeLine(NO_FIELDS, status), rows);
    assert ([status] + RowLines(rows))[1..] == RowLines(rows);
  }

  lemma LinesOfRows(r: Outgoing, now: string, side: seq<Row>)
    requires side == SidRows(r.sid) + CookieRows(r.cookies) + LAST_ROWS
    ensures ResponseLines(r, now) == [StatusLine(r)] + RowLines(FirstRows(r, now) + side)
    ensures FirstRows(r, now) + side == HeaderRows(r, now) + LAST_ROWS
  {
    Assoc(FirstRows(r, now), SidRows(r.sid) + CookieRows(r.cookies), LAST_ROWS);
    RowLinesConcat(HeaderRows(r, now), LAST_ROWS);
    Assoc([StatusLine(r)], RowLines(HeaderRows(r, now)), RowLines(LAST_ROWS));
  }

  /** The blank line is read as a header without a name. */
  lemma BlankLine(f: Fields)
    ensures TakeLines(f, [""]) == Fields(f.code, f.map_["" := ""])
  {
    BlankIsUnnamed();
    assert [""][1..] == [];
  }

  /** The reader gets what a write carried of the body: the printed length either says
      just that, or more than ever arrives. */
  lemma ReplyOf(f: Fields, ct: string, body: string, shorts: seq<bool>, stale: nat)
    requires Get(f.map_, "content-type") == ct && Get(f.map_, "location") == ""
    requires Get(f.map_, "content-length") == Dec(ToUint32(|body|))
    ensures ReplyFrom(f, Carried(body), shorts, stale)
         == Reply(f.code, if ct == "" then DEFAULT_TYPE else ct, "", Carried(body))
  {
    AtoiOfDec(ToUint32(|body|));
    SmallNumbers(ToUint32(|body|));
    IntOfLength(|body|);
    assert Carried(body)[..|Carried(body)|] == Carried(body);
  }

  /** Round trip: code, content type and body, whatever bytes the body holds, as far as one
      write carries them. An empty content type stands for the client's default. */
  lemma RoundTrip(r: Outgoing, now: string, shorts: seq<bool>, stale: nat)
    requires WellFormed(r, now) && Unbroken(r, now)
    ensures var ct := Trim(Carried(r.contentType));
            Reads(ResponseBytes(r, now), shorts, stale)
              == Reply(r.code, if ct == "" then DEFAULT_TYPE else ct, "", Carried(r.body))
  {
    var lines := ResponseLines(r, now);
    UnbrokenBytes(r, now);
    HeaderReads(r, now);
    ScanPrinted(lines, Carried(r.body), false);
    ReplyOf(TakeLines(NO_FIELDS, lines + [""]), Trim(Carried(r.contentType)), r.body, shorts, stale);
  }

  // ------------------------------------------------------------ broken responses

  lemma {:induction false} ScanPartial(s: string, acc: string, ex: nat, lines: seq<string>)
    requires '\n' !in s
    ensures ScanFrom(s, acc, ex, lines, false) == Cut(lines)
    decreases |s|
  {
    if s != "" {
      if s[0] == '\r' { ScanPartial(s[1..], acc, ex, lines); }
      else { ScanPartial(s[1..], if s[0] == '\0' then acc else acc + [s[0]], 0, lines); }
    }
  }

  /** Whole rows and the start of another leave the client with the status code alone. */
  lemma BrokenReads(r: Outgoing, rows: seq<Row>, start: string, shorts: seq<bool>, stale: nat)
    requires GoodRows(rows) && '\n' !in start
    ensures Reads(Lined([StatusLine(r)] + RowLines(rows)) + start, shorts, stale) == Reply(r.code, DEFAULT_TYPE, "", "")
  {
    var ls := [StatusLine(r)] + RowLines(rows);
    StatusAndRows(r, rows);
    ScanLined(ls, start, 0, [], false);
    assert [] + ls == ls;
    ScanPartial(start, "", 1, ls);
  }

  /** A response with a write that throws in its header section breaks off: the client
      gets its status code and nothing else. */
  lemma BrokenResponse(r: Outgoing, now: string, shorts: seq<bool>, stale: nat)
    requires WellFormed(r, now) && !Unbroken(r, now)
    ensures Reads(ResponseBytes(r, now), shorts, stale) == Reply(r.code, DEFAULT_TYPE, "", "")
  {
    var k, start := BrokenBytes(r, now);
    AllRowsAreGood(r, now);
    BrokenReads(r, HeaderRows(r, now)[..k], start, shorts, stale);
  }

  /** The code always arrives; a body arrives exactly when no write in front of it throws
      and its own length is a positive int. */
  lemma BodyArrives(r: Outgoing, now: string, shorts: seq<bool>, stale: nat)
    requires WellFormed(r, now)
    ensures Reads(ResponseBytes(r, now), shorts, stale).code == r.code
    ensures Reads(ResponseBytes(r, now), shorts, stale).body == r.body
       <==> r.body == "" || (Unbroken(r, now) && |r.body| < TWO_31)
  {
    CarriedWhole(r.body);
    if Unbroken(r, now) {
      RoundTrip(r, now, shorts, stale);
    } else {
      BrokenResponse(r, now, shorts, stale);
    }
  }

  /** End to end, over a socket that may deliver the bytes in any pieces. */
  method Deliver(r: Outgoing, now: string) returns (reply: Reply)
    requires WellFormed(r, now)
    ensures reply.code == r.code && reply.location == ""
    ensures reply.body == r.body <==> r.body == "" || (Unbroken(r, now) && |r.body| < TWO_31)
    ensures Unbroken(r, now) && Trimmed(r.contentType) && |r.contentType| < TWO_31 ==> reply.contentType == r.contentType
  {
    var server := new Socket("");
    var ok := WriteResponse(server, r, now);
    assert "" + ResponseBytes(r, now) == ResponseBytes(r, now);
    var client := new Socket(server.Sent);
    ghost var shorts;
    reply, shorts := ReadReply(client, 0);
    BodyArrives(r, now, shorts, 0);
    if Unbroken(r, now) {
      RoundTrip(r, now, shorts, 0);
      CarriedWhole(r.contentType);
      if Trimmed(r.contentType) { TrimTrimmed(r.contentType); }
    } else {
      BrokenResponse(r, now, shorts, 0);
    }
  }
}
