/** What the client sends, the server receives: for every well-formed request and every
    way the body may arrive in pieces. */
module RequestRoundTrip {
  import opened Text
  import opened Numbers
  import opened Sockets
  import opened Headers
  import opened Request

  /** A request line part: one word without ':', which would make it a header. */
  predicate Word(s: string) {
    Clean(s) && ' ' !in s && ':' !in s
  }

  predicate GoodHeader(h: (string, string)) {
    Word(h.0) && Clean(h.1) && Trimmed(h.1)
  }

  /** No two headers of one name, counting the two that the client writes itself. */
  predicate DistinctNames(hs: seq<(string, string)>) {
    && (forall i | 0 <= i < |hs| :: Lower(hs[i].0) != "host" && Lower(hs[i].0) != "content-length")
    && (forall i, j | 0 <= i < j < |hs| :: Lower(hs[i].0) != Lower(hs[j].0))
  }

  /** A request whose lines are the client's own. */
  predicate Sendable(o: Outgoing) {
    && Word(o.method_) && Clean(o.target)
    && Clean(o.host) && Trimmed(o.host)
    && (forall i | 0 <= i < |o.headers| :: GoodHeader(o.headers[i]))
    && DistinctNames(o.headers)
  }

  predicate WellFormed(o: Outgoing) {
    Sendable(o) && Word(o.target)
  }

  // ------------------------------------------------------------ lines

  lemma {:induction false} HeaderLinesAt(hs: seq<(string, string)>)
    ensures |HeaderLines(hs)| == |hs|
    ensures forall i | 0 <= i < |hs| :: HeaderLines(hs)[i] == hs[i].0 + ": " + hs[i].1
  {
    if hs != [] {
      HeaderLinesAt(hs[1..]);
      forall i | 0 <= i < |hs|
        ensures HeaderLines(hs)[i] == hs[i].0 + ": " + hs[i].1
      {
        if i > 0 { assert HeaderLines(hs)[i] == HeaderLines(hs[1..])[i - 1]; }
      }
    }
  }

  lemma DecIsClean(n: nat)
    ensures Clean(Dec(n)) && Trimmed(Dec(n))
  {
    var s := Dec(n);
    assert forall k | 0 <= k < |s| :: '0' <= s[k] <= '9';
  }

  lemma HeaderLineIsClean(name: string, value: string)
    requires Clean(name) && Clean(value)
    ensures Clean(name + ": " + value) && name + ": " + value != ""
  {
    CleanConcat(name, ": ");
    CleanConcat(name + ": ", value);
  }

  lemma RequestLineIsClean(o: Outgoing)
    requires Word(o.method_) && Clean(o.target)
    ensures var l := o.method_ + " " + o.target + " HTTP/1.1";
            Clean(l) && l != "" && (':' in l <==> ':' in o.target)
  {
    CleanConcat(o.method_, " ");
    CleanConcat(o.method_ + " ", o.target);
    CleanConcat(o.method_ + " " + o.target, " HTTP/1.1");
  }

  lemma {:induction false} HeaderLinesAreClean(hs: seq<(string, string)>)
    requires forall i | 0 <= i < |hs| :: GoodHeader(hs[i])
    ensures CleanLines(HeaderLines(hs))
  {
    if hs != [] {
      HeaderLineIsClean(hs[0].0, hs[0].1);
      HeaderLinesAreClean(hs[1..]);
    }
  }

  lemma RequestIsClean(o: Outgoing)
    requires Sendable(o)
    ensures CleanLines(RequestLines(o))
  {
    var ls := RequestLines(o);
    HeaderLinesAreClean(o.headers);
    DecIsClean(|o.body|);
    RequestLineIsClean(o);
    HeaderLineIsClean("Host", o.host);
    HeaderLineIsClean("Content-length", Dec(|o.body|));
    var hs, ends := HeaderLines(o.headers), LengthLines(o.body);
    assert CleanLines([ls[0], ls[1]]) && CleanLines(ends);
    assert ls == [ls[0], ls[1]] + hs + ends;
  }

  // ------------------------------------------------------------ parsing them

  lemma RequestLineParses(o: Outgoing)
    requires Word(o.method_) && Word(o.target)
    ensures ParseRequestLine(o.method_ + " " + o.target + " HTTP/1.1")
         == Some(RequestLine(o.method_, SplitTarget(o.target).0, SplitTarget(o.target).1, "HTTP/1.1"))
  {
    LineInThree(o.method_ + " ", o.target);
    WordThen(o.method_, o.target + [' '] + "HTTP/1.1");
    TargetThen(o.method_, o.target, "HTTP/1.1");
  }

  lemma LineInThree(front: string, target: string)
    ensures front + target + " HTTP/1.1" == front + (target + [' '] + "HTTP/1.1")
  {
    assert [' '] + "HTTP/1.1" == " HTTP/1.1";
    Assoc(target, [' '], "HTTP/1.1");
    Assoc(front, target, " HTTP/1.1");
  }

  lemma TargetThen(method_: string, target: string, version: string)
    requires ' ' !in target
    ensures BehindMethod(method_, target + [' '] + version)
         == RequestLine(method_, SplitTarget(target).0, SplitTarget(target).1, version)
  {
    FindAfter(target, ' ', version);
  }

  /** Any first line: it needs a space; without a second one the target is the version too. */
  lemma FirstLineReads(a: string, b: string, c: string)
    requires ' ' !in a && ' ' !in b
    ensures ParseRequestLine(a) == None
    ensures ParseRequestLine(a + " " + b) == Some(RequestLine(a, SplitTarget(b).0, SplitTarget(b).1, b))
    ensures ParseRequestLine(a + " " + (b + " " + c)) == Some(RequestLine(a, SplitTarget(b).0, SplitTarget(b).1, c))
  {
    FindNone(a, ' ');
    FindNone(b, ' ');
    WordThen(a, b);
    WordThen(a, b + " " + c);
    TargetThen(a, b, c);
    assert b[..|b|] == b && b + " " + c == b + [' '] + c;
  }

  /** Whatever clean lines arrive, the first one decides: without a space in its name the
      request is refused. */
  lemma LinesDecide(ls: seq<string>, rest: string)
    requires ls != [] && CleanLines(ls)
    ensures var p := ParseRequest(Head(ls) + rest);
            && p.rest == rest && p.headers == HeadersOf(ls + [""])
            && p.status == (if ' ' in HeaderOf(ls[0]).name then Done else Malformed)
  {
    ScanPrinted(ls, rest, true);
    var name := HeaderOf(ls[0]).name;
    FindFirst(name, ' ');
    assert name[..|name|] == name && HeadersOf(ls + [""])[0] == HeaderOf(ls[0]);
  }

  /** A header section that is cut short is not a request. */
  lemma CutIsClosed(ls: seq<string>, k: nat)
    requires ls != [] && CleanLines(ls) && k < |Head(ls)|
    ensures ParseRequest(Head(ls)[..k]).status == Closed
  {
    var front, cut := Head(ls)[..k], Head(ls)[k..];
    assert front + cut == Head(ls) && Head(ls) + "" == Head(ls);
    ScanPrinted(ls, "", true);
    ScanMore(front, cut, "", 0, [], true);
  }

  /** A word, a space, and the rest of the line. */
  lemma WordThen(a: string, b: string)
    requires ' ' !in a
    ensures ParseRequestLine(a + " " + b) == Some(BehindMethod(a, b))
  {
    assert a + " " + b == a + [' '] + b;
    FindAfter(a, ' ', b);
  }

  /** A header is its name in small letters and what the white space around its value
      surrounds; a line without a ':' is a name as it stands. */
  lemma HeaderReads(name: string, before: string, value: string, behind: string)
    requires ':' !in name && AllSpace(before) && AllSpace(behind) && Trimmed(value)
    ensures HeaderOf(name + ":" + (before + value + behind)) == Header(Lower(name), value)
    ensures HeaderOf(name) == Header(name, "")
  {
    FindAfter(name, ':', before + value + behind);
    FindNone(name, ':');
    TrimAround(before, value, behind);
  }

  lemma HeaderParses(name: string, value: string)
    requires ':' !in name && Trimmed(value)
    ensures HeaderOf(name + ": " + value) == Header(Lower(name), value)
  {
    assert name + ": " + value == name + ":" + (" " + value + "");
    HeaderReads(name, " ", value, "");
  }

  /** The (name, value) pairs of the request's header lines, in order. */
  function Fields(o: Outgoing): seq<(string, string)> {
    [("Host", o.host)] + o.headers + (if o.body == "" then [] else [("Content-length", Dec(|o.body|))])
  }

  lemma FieldsAreGood(o: Outgoing)
    requires WellFormed(o)
    ensures forall i | 0 <= i < |Fields(o)| :: GoodHeader(Fields(o)[i])
    ensures forall i, j | 0 <= i < j < |Fields(o)| :: Lower(Fields(o)[i].0) != Lower(Fields(o)[j].0)
  {
    forall i | 0 <= i < |Fields(o)|
      ensures GoodHeader(Fields(o)[i])
    {
      FieldAt(o, i);
    }
    forall i, j | 0 <= i < j < |Fields(o)|
      ensures Lower(Fields(o)[i].0) != Lower(Fields(o)[j].0)
    {
      FieldAt(o, i);
      FieldAt(o, j);
    }
  }

  /** A field is the client's own first or last one, or one of the headers set. */
  lemma FieldAt(o: Outgoing, i: nat)
    requires WellFormed(o) && i < |Fields(o)|
    ensures GoodHeader(Fields(o)[i])
    ensures var key, n := Lower(Fields(o)[i].0), |o.headers|;
            if i == 0 then key == "host"
            else if i == n + 1 then key == "content-length"
            else i <= n && key == Lower(o.headers[i - 1].0) && key != "host" && key != "content-length"
  {
    OwnNames();
    var n, fs := |o.headers|, Fields(o);
    if i == 0 {
      OwnFieldsAreGood(o);
    } else if i <= n {
      assert fs[i] == o.headers[i - 1] && GoodHeader(o.headers[i - 1]);
    } else {
      OwnFieldsAreGood(o);
      assert fs[i] == ("Content-length", Dec(|o.body|));
    }
  }

  lemma OwnFieldsAreGood(o: Outgoing)
    requires WellFormed(o)
    ensures GoodHeader(("Host", o.host)) && GoodHeader(("Content-length", Dec(|o.body|)))
  {
    DecIsClean(|o.body|);
    OwnWords();
  }

  lemma OwnWords()
    ensures Word("Host") && Word("Content-length")
  {}

  lemma OwnNames()
    ensures Lower("Host") == Lower("host") == "host"
    ensures Lower("Content-length") == Lower("content-length") == "content-length"
  {}

  lemma FieldLines(o: Outgoing)
    ensures |RequestLines(o)| == 1 + |Fields(o)|
    ensures forall i | 0 <= i < |Fields(o)| :: RequestLines(o)[i + 1] == Fields(o)[i].0 + ": " + Fields(o)[i].1
  {
    HeaderLinesAt(o.headers);
    var n := |o.headers|;
    forall i | 0 <= i < |Fields(o)|
      ensures RequestLines(o)[i + 1] == Fields(o)[i].0 + ": " + Fields(o)[i].1
    {
      if 1 <= i <= n {
        assert RequestLines(o)[i + 1] == HeaderLines(o.headers)[i - 1];
      }
    }
  }

  /** The server's header list. */
  lemma RequestHeaders(o: Outgoing)
    requires WellFormed(o)
    ensures var hs := HeadersOf(RequestLines(o) + [""]);
            && |hs| == |Fields(o)| + 2
            && hs[0] == Header(o.method_ + " " + o.target + " HTTP/1.1", "")
            && (forall i | 0 <= i < |Fields(o)| :: hs[i + 1] == Header(Lower(Fields(o)[i].0), Fields(o)[i].1))
            && hs[|hs| - 1] == Header("", "")
  {
    var lines := RequestLines(o) + [""];
    var hs := HeadersOf(lines);
    FieldsAreGood(o);
    FieldLines(o);
    RequestLineIsClean(o);
    FindNone(lines[0], ':');
    forall i | 0 <= i < |Fields(o)|
      ensures hs[i + 1] == Header(Lower(Fields(o)[i].0), Fields(o)[i].1)
    {
      assert lines[i + 1] == Fields(o)[i].0 + ": " + Fields(o)[i].1;
      HeaderParses(Fields(o)[i].0, Fields(o)[i].1);
    }
  }

  // ------------------------------------------------------------ finding headers

  lemma {:induction false} GetHeaderFirst(hs: seq<Header>, name: string, i: nat)
    requires i < |hs| && Lower(hs[i].name) == Lower(name)
    requires forall j | 0 <= j < i :: Lower(hs[j].name) != Lower(name)
    ensures GetHeader(hs, name) == Some(hs[i].value)
  {
    if i > 0 { GetHeaderFirst(hs[1..], name, i - 1); }
  }

  lemma {:induction false} GetHeaderNone(hs: seq<Header>, name: string)
    requires forall j | 0 <= j < |hs| :: Lower(hs[j].name) != Lower(name)
    ensures GetHeader(hs, name) == None
  {
    if hs != [] { GetHeaderNone(hs[1..], name); }
  }

  /** The request line, kept as the first header, is no header's name. */
  lemma RequestLineIsNoName(o: Outgoing, name: string)
    requires ' ' !in name
    ensures Lower(o.method_ + " " + o.target + " HTTP/1.1") != Lower(name)
  {
    var line := o.method_ + " " + o.target + " HTTP/1.1";
    assert line[|o.method_|] == ' ';
    LowerKeeps(line, ' ');
    LowerKeeps(name, ' ');
  }

  lemma SameLowerWord(a: string, b: string)
    requires Lower(a) == Lower(b) && ' ' !in a
    ensures ' ' !in b
  {
    LowerKeeps(a, ' ');
    LowerKeeps(b, ' ');
  }

  /** Every field is found under its name in any case; a name the client did not send
      is not found, except the empty one of the blank line. */
  lemma FieldIsFound(o: Outgoing, i: nat, name: string)
    requires WellFormed(o) && i < |Fields(o)| && Lower(name) == Lower(Fields(o)[i].0)
    ensures GetHeader(HeadersOf(RequestLines(o) + [""]), name) == Some(Fields(o)[i].1)
  {
    var hs := HeadersOf(RequestLines(o) + [""]);
    FieldsAreGood(o);
    RequestHeaders(o);
    assert GoodHeader(Fields(o)[i]);
    SameLowerWord(Fields(o)[i].0, name);
    RequestLineIsNoName(o, name);
    forall j | 0 <= j < i + 1
      ensures Lower(hs[j].name) != Lower(name)
    {
      if j > 0 {
        assert hs[(j - 1) + 1] == Header(Lower(Fields(o)[j - 1].0), Fields(o)[j - 1].1);
        LowerTwice(Fields(o)[j - 1].0);
      }
    }
    LowerTwice(Fields(o)[i].0);
    GetHeaderFirst(hs, name, i + 1);
  }

  lemma AbsentIsNotFound(o: Outgoing, name: string)
    requires WellFormed(o) && ' ' !in name && name != ""
    requires forall i | 0 <= i < |Fields(o)| :: Lower(Fields(o)[i].0) != Lower(name)
    ensures GetHeader(HeadersOf(RequestLines(o) + [""]), name) == None
  {
    var hs := HeadersOf(RequestLines(o) + [""]);
    RequestHeaders(o);
    RequestLineIsNoName(o, name);
    forall j | 0 <= j < |hs|
      ensures Lower(hs[j].name) != Lower(name)
    {
      if 0 < j < |hs| - 1 {
        assert hs[(j - 1) + 1] == Header(Lower(Fields(o)[j - 1].0), Fields(o)[j - 1].1);
        LowerTwice(Fields(o)[j - 1].0);
      } else if j == |hs| - 1 {
        assert |Lower(name)| > 0;
      }
    }
    GetHeaderNone(hs, name);
  }

  // ------------------------------------------------------------ the whole request

  /** The length the server reads is the body's, modulo 2^32; without a body there is none. */
  lemma LengthIsAnnounced(o: Outgoing)
    requires WellFormed(o)
    ensures var v := GetHeader(HeadersOf(RequestLines(o) + [""]), "content-length");
            if o.body == "" then v == None
            else v == Some(Dec(|o.body|)) && (|o.body| < TWO_63 ==> ToUint32(Atoi(v.value)) == ToUint32(|o.body|))
  {
    OwnNames();
    if o.body == "" {
      FieldsAreGood(o);
      AbsentIsNotFound(o, "content-length");
    } else {
      FieldIsFound(o, |Fields(o)| - 1, "content-length");
      if |o.body| < TWO_63 { AtoiOfDec(|o.body|); }
    }
  }

  /** Round trip of the head: method, target, version, every header under any case of
      its name, and the body left to read. */
  lemma HeadRoundTrip(o: Outgoing)
    requires WellFormed(o)
    ensures var p := ParseRequest(RequestText(o));
            && p.status == Done && p.rest == o.body
            && p.line == RequestLine(o.method_, SplitTarget(o.target).0, SplitTarget(o.target).1, "HTTP/1.1")
            && p.headers == HeadersOf(RequestLines(o) + [""])
            && (forall i, name | 0 <= i < |o.headers| && Lower(name) == Lower(o.headers[i].0) ::
                  GetHeader(p.headers, name) == Some(o.headers[i].1))
            && GetHeader(p.headers, "Host") == Some(o.host)
  {
    RequestIsClean(o);
    ScanPrinted(RequestLines(o), o.body, true);
    RequestHeaders(o);
    RequestLineParses(o);
    GivenAreFound(o);
  }

  /** What the server takes for the target: a ':' makes the request line a header line,
      whose name ends there and is in small letters; a space ends the target. */
  function Seen(target: string): string {
    var c := Find(target, ':');
    var front := if c < |target| then Lower(target[..c]) else target;
    front[..Find(front, ' ')]
  }

  lemma TargetSeen(method_: string, target: string)
    requires Word(method_)
    ensures var l := ParseRequestLine(HeaderOf(method_ + " " + target + " HTTP/1.1").name);
            l.Some? && (l.value.path, l.value.query) == SplitTarget(Seen(target))
  {
    var c := Find(target, ':');
    FindFirst(target, ':');
    if c < |target| {
      NameEndsAtColon(method_, target[..c], target[c + 1..], target);
      LowerKeeps(method_, ' ');
      WordThen(Lower(method_), Lower(target[..c]));
    } else {
      NameIsLine(method_, target);
      WordThen(method_, target + " HTTP/1.1");
      FirstWord(target, " HTTP/1.1");
    }
  }

  lemma NameEndsAtColon(method_: string, front: string, behind: string, target: string)
    requires ':' !in method_ && ':' !in front && target == front + [':'] + behind
    ensures HeaderOf(method_ + " " + target + " HTTP/1.1").name == Lower(method_) + " " + Lower(front)
  {
    assert method_ + " " + target + " HTTP/1.1" == (method_ + " " + front) + [':'] + (behind + " HTTP/1.1");
    FindAfter(method_ + " " + front, ':', behind + " HTTP/1.1");
    assert Lower(method_ + " " + front) == Lower(method_) + " " + Lower(front);
  }

  lemma NameIsLine(method_: string, target: string)
    requires ':' !in method_ && ':' !in target
    ensures HeaderOf(method_ + " " + target + " HTTP/1.1").name == method_ + " " + (target + " HTTP/1.1")
  {
    var line := method_ + " " + target + " HTTP/1.1";
    FindNone(line, ':');
    Assoc(method_ + " ", target, " HTTP/1.1");
  }

  lemma FirstWord(target: string, more: string)
    requires more != "" && more[0] == ' '
    ensures (target + more)[..Find(target + more, ' ')] == target[..Find(target, ' ')]
  {
    var n, b := Find(target, ' '), target + more;
    FindFirst(target, ' ');
    assert b[..n] == target[..n];
    FindUnique(b, ' ', n);
  }

  /** What is cut off is missing: a shorter target is never the same path and query. */
  lemma CutIsLost(target: string, seen: string)
    requires |seen| < |target| && target[|seen|] != '?'
    requires forall k | 0 <= k < |seen| :: seen[k] == '?' <==> target[k] == '?'
    ensures SplitTarget(seen) != SplitTarget(target)
  {
    var q, p := Find(target, '?'), Find(seen, '?');
    FindFirst(target, '?');
    FindFirst(seen, '?');
    if q < |seen| {
      assert seen[q] == '?' && p == q;
      assert |SplitTarget(seen).1| < |SplitTarget(target).1|;
    } else {
      assert p == |seen| && |SplitTarget(target).0| == q > |seen|;
    }
  }

  lemma SeenIsCut(target: string)
    requires ':' in target || ' ' in target
    ensures SplitTarget(Seen(target)) != SplitTarget(target)
  {
    var c := Find(target, ':');
    FindFirst(target, ':');
    var front := if c < |target| then Lower(target[..c]) else target;
    FindFirst(front, ' ');
    var n := Find(front, ' ');
    assert n < |front| ==> target[n] == ' ';
    CutIsLost(target, front[..n]);
  }

  /** The server sees the target that was sent exactly when it holds no ':' and no space. */
  lemma TargetIsUnderstood(o: Outgoing)
    requires Sendable(o)
    ensures var p := ParseRequest(RequestText(o));
            && p.status == Done && p.rest == o.body
            && ((p.line.path, p.line.query) == SplitTarget(o.target) <==> ':' !in o.target && ' ' !in o.target)
  {
    var lines := RequestLines(o) + [""];
    RequestIsClean(o);
    ScanPrinted(RequestLines(o), o.body, true);
    assert HeadersOf(lines)[0] == HeaderOf(o.method_ + " " + o.target + " HTTP/1.1");
    TargetSeen(o.method_, o.target);
    if ':' in o.target || ' ' in o.target {
      SeenIsCut(o.target);
    } else {
      FindNone(o.target, ':');
      FindNone(o.target, ' ');
      assert o.target[..|o.target|] == o.target;
    }
  }

  /** Every given header, and the host, under any case of its name. */
  lemma GivenAreFound(o: Outgoing)
    requires WellFormed(o)
    ensures var hs := HeadersOf(RequestLines(o) + [""]);
            && (forall i, name | 0 <= i < |o.headers| && Lower(name) == Lower(o.headers[i].0) ::
                  GetHeader(hs, name) == Some(o.headers[i].1))
            && GetHeader(hs, "Host") == Some(o.host)
  {
    forall i, name | 0 <= i < |o.headers| && Lower(name) == Lower(o.headers[i].0)
      ensures GetHeader(HeadersOf(RequestLines(o) + [""]), name) == Some(o.headers[i].1)
    {
      assert Fields(o)[i + 1] == o.headers[i];
      FieldIsFound(o, i + 1, name);
    }
    FieldIsFound(o, 0, "Host");
  }

  /** The path and the query string the application sees are the parts of the target. */
  lemma TargetParts(path: string, query: string)
    requires '?' !in path
    ensures SplitTarget(path) == (path, "")
    ensures SplitTarget(path + "?" + query) == (path, query)
  {
    FindNone(path, '?');
    FindAfter(path, '?', query);
    assert path + "?" + query == path + ['?'] + query;
  }

  /** The server's view of a request that was sent whole. */
  lemma Arrives(o: Outgoing, p: Parsed)
    requires WellFormed(o) && |o.body| < TWO_32 && |Head(RequestLines(o))| < TWO_31
    requires p == ParseRequest(RequestBytes(o))
    ensures && p.status == Done && p.rest == o.body && p.headers == HeadersOf(RequestLines(o) + [""])
            && p.line.method_ == o.method_ && (p.line.path, p.line.query) == SplitTarget(o.target)
            && LengthFits(p)
  {
    HeadNotEmpty(RequestLines(o));
    CarriedWhole(Head(RequestLines(o)));
    HeadRoundTrip(o);
    LengthIsAnnounced(o);
    SmallNumbers(|o.body|);
  }

  /** A head too long for one write is cut or not sent at all, and the server never has as
      much left to read as the body. */
  lemma CutHead(o: Outgoing, p: Parsed)
    requires WellFormed(o) && |Head(RequestLines(o))| >= TWO_31
    requires p == ParseRequest(RequestBytes(o))
    ensures p.status == Done ==> |p.rest| < |o.body|
  {
    var head := Head(RequestLines(o));
    RequestIsClean(o);
    ScanPrinted(RequestLines(o), "", true);
    assert head + "" == head;
    CutCarried(head, if Goes(head) then o.body else "", RequestLines(o) + [""]);
  }

  lemma CutCarried(head: string, behind: string, lines: seq<string>)
    requires |head| >= TWO_31 && ScanHeader(head, true) == Full(lines, "")
    ensures var s := ScanHeader(Carried(head) + behind, true); s.Full? ==> |s.rest| < |behind|
  {
    var front := Carried(head);
    CarriedWhole(head);
    assert front != head && head == front + head[|front|..];
    CutScan(front, head[|front|..], behind, lines);
  }

  /** In front of anything else, a cut section is completed by some of that, if at all. */
  lemma CutScan(front: string, cut: string, behind: string, lines: seq<string>)
    requires cut != "" && ScanHeader(front + cut, true) == Full(lines, "")
    ensures var s := ScanHeader(front + behind, true); s.Full? ==> |s.rest| < |behind|
  {
    ScanMore(front, cut, "", 0, [], true);
    if ScanHeader(front + behind, true).Full? { ScanTakes(front, behind, "", 0, [], true); }
  }

  /** The length that was read is that of what is left to read. */
  predicate LengthFits(p: Parsed) {
    |p.rest| < TWO_32 && match GetHeader(p.headers, "content-length")
                         case None => p.rest == ""
                         case Some(v) => ToUint32(Atoi(v)) == |p.rest|
  }

  /** The reading part of run(): header and body, and no path unless both succeed. No more
      of the body is kept than was there, and with the right length all of it exactly when
      no byte is NUL. */
  method Serve(server: Socket) returns (node: ServerNode, status: Status)
    modifies server`Pending
    ensures var p := ParseRequest(old(server.Pending));
            && node.Headers == p.headers
            && (p.status != Done ==> status == p.status)
            && (p.status == Done ==> |node.Body| <= |p.rest|)
            && (p.status == Done && LengthFits(p) ==> status == Done && (node.Body == p.rest <==> '\0' !in p.rest))
            && (if status == Done then p.line == RequestLine(node.Method, node.Path, node.QueryString, node.ProtocolVersion)
                else node.Path == "")
  {
    node := new ServerNode(server);
    status := node.ReadHeader();
    if status == Done {
      ghost var rest := server.Pending;
      ghost var pieces;
      status, pieces := node.ReadBody();
      CStringsKeepAll(pieces);
      if |rest| < TWO_32 && GetHeader(node.Headers, "content-length").Some? {
        ghost var len := ToUint32(Atoi(GetHeader(node.Headers, "content-length").value));
        if len == |rest| { WholeBody(rest, pieces, server.Pending, len, status == Done); }
      }
    }
    if status != Done {
      node.Path := "";
    }
  }

  /** End to end: a new server node at the other end of the client's connection, which may
      split the bytes anywhere. Body and all arrive exactly when the head fits one write and
      the body holds no NUL. */
  method Deliver(o: Outgoing) returns (node: ServerNode, status: Status)
    requires WellFormed(o) && |o.body| < TWO_32
    ensures status == Done && node.Body == o.body <==> |Head(RequestLines(o))| < TWO_31 && '\0' !in o.body
    ensures |Head(RequestLines(o))| < TWO_31 ==>
              && status == Done && node.Method == o.method_
              && (node.Path, node.QueryString) == SplitTarget(o.target)
              && node.Headers == HeadersOf(RequestLines(o) + [""])
  {
    var client := new Socket("");
    var sent := SendRequest(client, o);
    assert "" + RequestBytes(o) == RequestBytes(o);
    var server := new Socket(client.Sent);
    ghost var p := ParseRequest(server.Pending);
    if |Head(RequestLines(o))| < TWO_31 { Arrives(o, p); } else { CutHead(o, p); }
    node, status := Serve(server);
  }
}
