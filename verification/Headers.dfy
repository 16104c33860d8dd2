/** The header section of an HTTP message: how both ends read it byte by byte
    (src/server/CNode.cpp:241-275, src/client/CClient.cpp:295-343) and what a header
    section printed line by line (RFC 9112 section 2.1) is read as. */
module Headers {
  import opened Text
  import opened Sockets

  /** The complete lines read, and whether the blank line was reached. */
  datatype Scan = Cut(lines: seq<string>) | Full(lines: seq<string>, rest: string)

  /** Reading on from `acc`, the line so far, and `ex`, the newlines just seen. Both ends
      skip CR. The server skips NUL too; the client appends it as an empty C string. */
  function ScanFrom(bytes: string, acc: string, ex: nat, lines: seq<string>, server: bool): (r: Scan)
    ensures r.Full? ==> r.lines != []
  {
    if bytes == "" then Cut(lines)
    else
      var c, t := bytes[0], bytes[1..];
      if c == '\r' || (server && c == '\0') then ScanFrom(t, acc, ex, lines, server)
      else if c == '\n' then
        if ex + 1 == 2 then Full(lines + [acc], t) else ScanFrom(t, "", ex + 1, lines + [acc], server)
      else ScanFrom(t, if c == '\0' then acc else acc + [c], 0, lines, server)
  }

  function ScanHeader(bytes: string, server: bool): Scan {
    ScanFrom(bytes, "", 0, [], server)
  }

  // ------------------------------------------------------------ printed headers

  predicate Clean(line: string) {
    '\r' !in line && '\n' !in line && '\0' !in line
  }

  lemma CleanConcat(a: string, b: string)
    ensures Clean(a + b) <==> Clean(a) && Clean(b)
  {
    forall c: char
      ensures c in a + b <==> c in a || c in b
    {}
  }

  /** The lines, each ended by CRLF. */
  function Lined(ls: seq<string>): string {
    if ls == [] then "" else ls[0] + "\r\n" + Lined(ls[1..])
  }

  /** A header section: the lines and the blank line. */
  function Head(ls: seq<string>): string {
    Lined(ls) + "\r\n"
  }

  lemma {:induction false} LinedConcat(a: seq<string>, b: seq<string>)
    ensures Lined(a + b) == Lined(a) + Lined(b)
  {
    if a == [] {
      assert a + b == b;
    } else {
      assert (a + b)[1..] == a[1..] + b;
      LinedConcat(a[1..], b);
      Assoc(a[0] + "\r\n", Lined(a[1..]), Lined(b));
    }
  }

  lemma LinedPush(ls: seq<string>, l: string)
    ensures Lined(ls + [l]) == Lined(ls) + (l + "\r\n")
  {
    LinedConcat(ls, [l]);
    assert Lined([l]) == l + "\r\n" by { assert Lined([l][1..]) == ""; }
  }

  lemma {:induction false} ScanLine(line: string, rest: string, acc: string, ex: nat, lines: seq<string>, server: bool)
    requires Clean(line) && ex < 2 && (line != "" || ex == 0)
    ensures ScanFrom(line + "\r\n" + rest, acc, ex, lines, server) == ScanFrom(rest, "", 1, lines + [acc + line], server)
  {
    var s := line + "\r\n" + rest;
    if line == "" {
      assert s[0] == '\r' && s[1..][0] == '\n' && s[1..][1..] == rest;
      assert acc + line == acc;
    } else {
      assert s[0] == line[0] && s[1..] == line[1..] + "\r\n" + rest;
      ScanLine(line[1..], rest, acc + [line[0]], 0, lines, server);
      assert acc + [line[0]] + line[1..] == acc + line;
    }
  }

  predicate CleanLines(ls: seq<string>) {
    forall l | l in ls :: l != "" && Clean(l)
  }

  lemma {:induction false} ScanLined(ls: seq<string>, rest: string, ex: nat, lines: seq<string>, server: bool)
    requires CleanLines(ls) && ex < 2
    ensures ScanFrom(Lined(ls) + rest, "", ex, lines, server)
         == ScanFrom(rest, "", if ls == [] then ex else 1, lines + ls, server)
  {
    if ls == [] {
      assert Lined(ls) + rest == rest && lines + ls == lines;
    } else {
      var below := Lined(ls[1..]) + rest;
      assert Lined(ls) + rest == ls[0] + "\r\n" + below;
      ScanLine(ls[0], below, "", ex, lines, server);
      assert "" + ls[0] == ls[0];
      ScanLined(ls[1..], rest, 1, lines + [ls[0]], server);
      assert lines + [ls[0]] + ls[1..] == lines + ls;
    }
  }

  /** Either end reads a printed header section back as its lines and the blank one,
      and leaves the body. */
  lemma ScanPrinted(ls: seq<string>, body: string, server: bool)
    requires ls != [] && CleanLines(ls)
    ensures ScanHeader(Head(ls) + body, server) == Full(ls + [""], body)
  {
    var end := "\r\n" + body;
    assert Head(ls) + body == Lined(ls) + end;
    ScanLined(ls, end, 0, [], server);
    assert [] + ls == ls;
    assert end[0] == '\r' && end[1..][0] == '\n' && end[1..][1..] == body;
  }

  // ------------------------------------------------------------ cut connections

  ghost predicate Prefix<T>(a: seq<T>, b: seq<T>) {
    |a| <= |b| && a == b[..|a|]
  }

  lemma PrefixTrans<T>(a: seq<T>, b: seq<T>, c: seq<T>)
    requires Prefix(a, b) && Prefix(b, c)
    ensures Prefix(a, c)
  {}

  lemma {:induction false} ScanKeeps(bytes: string, acc: string, ex: nat, lines: seq<string>, server: bool)
    ensures Prefix(lines, ScanFrom(bytes, acc, ex, lines, server).lines)
  {
    if bytes != "" {
      var c, t := bytes[0], bytes[1..];
      if c == '\r' || (server && c == '\0') {
        ScanKeeps(t, acc, ex, lines, server);
      } else if c == '\n' {
        if ex + 1 != 2 {
          ScanKeeps(t, "", ex + 1, lines + [acc], server);
          PrefixTrans(lines, lines + [acc], ScanFrom(t, "", ex + 1, lines + [acc], server).lines);
        }
      } else {
        ScanKeeps(t, if c == '\0' then acc else acc + [c], 0, lines, server);
      }
    }
  }

  /** What arrives after a cut only adds: a header section that was complete is read the
      same, and the lines of an incomplete one are kept. */
  lemma {:induction false} ScanMore(a: string, b: string, acc: string, ex: nat, lines: seq<string>, server: bool)
    ensures var s, t := ScanFrom(a, acc, ex, lines, server), ScanFrom(a + b, acc, ex, lines, server);
            && Prefix(s.lines, t.lines)
            && (s.Full? ==> t == Full(s.lines, s.rest + b))
  {
    if a == "" {
      assert a + b == b;
      ScanKeeps(b, acc, ex, lines, server);
    } else {
      var c, t := a[0], a[1..];
      assert (a + b)[0] == c && (a + b)[1..] == t + b;
      if c == '\r' || (server && c == '\0') {
        ScanMore(t, b, acc, ex, lines, server);
      } else if c == '\n' {
        if ex + 1 != 2 { ScanMore(t, b, "", ex + 1, lines + [acc], server); }
      } else {
        ScanMore(t, b, if c == '\0' then acc else acc + [c], 0, lines, server);
      }
    }
  }

  /** A section completed by what arrives after a cut takes some of it. */
  lemma {:induction false} ScanTakes(a: string, b: string, acc: string, ex: nat, lines: seq<string>, server: bool)
    requires ScanFrom(a, acc, ex, lines, server).Cut? && ScanFrom(a + b, acc, ex, lines, server).Full?
    ensures |ScanFrom(a + b, acc, ex, lines, server).rest| < |b|
  {
    if a == "" {
      assert a + b == b;
      ScanShrinks(b, acc, ex, lines, server);
    } else {
      var c, t := a[0], a[1..];
      assert (a + b)[0] == c && (a + b)[1..] == t + b;
      if c == '\r' || (server && c == '\0') {
        ScanTakes(t, b, acc, ex, lines, server);
      } else if c == '\n' {
        ScanTakes(t, b, "", ex + 1, lines + [acc], server);
      } else {
        ScanTakes(t, b, if c == '\0' then acc else acc + [c], 0, lines, server);
      }
    }
  }

  lemma {:induction false} ScanShrinks(bytes: string, acc: string, ex: nat, lines: seq<string>, server: bool)
    ensures var s := ScanFrom(bytes, acc, ex, lines, server); s.Full? ==> |s.rest| < |bytes|
  {
    if bytes != "" {
      var c, t := bytes[0], bytes[1..];
      if c == '\r' || (server && c == '\0') {
        ScanShrinks(t, acc, ex, lines, server);
      } else if c == '\n' {
        if ex + 1 != 2 { ScanShrinks(t, "", ex + 1, lines + [acc], server); }
      } else {
        ScanShrinks(t, if c == '\0' then acc else acc + [c], 0, lines, server);
      }
    }
  }

  // ------------------------------------------------------------ reading

  /** The byte loop both ends run; the lines are handed over as they complete. */
  method ReadLines(socket: Socket, server: bool) returns (lines: seq<string>, complete: bool)
    modifies socket`Pending
    ensures ScanHeader(old(socket.Pending), server)
         == if complete then Full(lines, socket.Pending) else Cut(lines)
    ensures !complete ==> socket.Pending == ""
  {
    lines := [];
    var acc, ex := "", 0;
    while true
      invariant ex < 2
      invariant ScanHeader(old(socket.Pending), server) == ScanFrom(socket.Pending, acc, ex, lines, server)
      decreases |socket.Pending|
    {
      ghost var before := socket.Pending;
      var r := socket.ReadBuffer(1);
      if r.None? {
        return lines, false;
      }
      var c := r.value[0];
      assert before[0] == c && before[1..] == socket.Pending;
      if c == '\r' || (server && c == '\0') {
        continue;
      }
      if c == '\n' {
        lines := lines + [acc];
        acc := "";
        ex := ex + 1;
        if ex == 2 {
          return lines, true;
        }
      } else {
        if c != '\0' {
          acc := acc + [c];
        }
        ex := 0;
      }
    }
  }
}
