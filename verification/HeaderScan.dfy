/** What the two header loops make of any bytes: where the section ends, and its lines. */
module HeaderScan {
  import opened Text
  import opened Headers

  /** The bytes that count: no CR, and at the server no NUL. */
  function Kept(bytes: string, server: bool): string {
    Without(if server then Without(bytes, '\0') else bytes, '\r')
  }

  function NoNuls(ls: seq<string>): seq<string> {
    seq(|ls|, i requires 0 <= i < |ls| => Without(ls[i], '\0'))
  }

  /** The section ends with the first two newlines in a row. Its lines are all that a newline
      ends, without their NULs, and all behind it is left. */
  ghost predicate ScanIs(bytes: string, s: Scan, server: bool) {
    var f := Kept(bytes, server);
    match FindStr(f, "\n\n", 0)
    case None => s == Cut(NoNuls(Lines(f)))
    case Some(p) =>
      && s.Full? && s.lines == NoNuls(Lines(f[..p + 2]))
      && |s.rest| < |bytes| && Ends(bytes, |bytes| - |s.rest|, s.rest, f[..p + 2], server)
  }

  predicate Ends(bytes: string, n: nat, rest: string, kept: string, server: bool)
    requires 0 < n <= |bytes|
  {
    bytes[n..] == rest && bytes[n - 1] == '\n' && Kept(bytes[..n], server) == kept
  }

  lemma KeptConcat(a: string, b: string, server: bool)
    ensures Kept(a + b, server) == Kept(a, server) + Kept(b, server)
  {
    WithoutConcat(a, b, '\0');
    WithoutConcat(a, b, '\r');
    WithoutConcat(Without(a, '\0'), Without(b, '\0'), '\r');
  }

  lemma KeptPush(bytes: string, i: nat, server: bool)
    requires i < |bytes|
    ensures var c := bytes[i];
            Kept(bytes[..i + 1], server)
              == Kept(bytes[..i], server) + (if c == '\r' || (server && c == '\0') then "" else [c])
  {
    var c := bytes[i];
    assert bytes[..i + 1] == bytes[..i] + [c];
    KeptConcat(bytes[..i], [c], server);
    WithoutOne('\0', c);
    WithoutOne('\r', c);
    assert Without("", '\r') == "";
  }

  /** Two newlines in a row come about only by a second newline. */
  lemma TwoNewlines(done: string, c: char)
    requires !Contains(done, "\n\n")
    ensures Contains(done + [c], "\n\n") <==> c == '\n' && done != "" && done[|done| - 1] == '\n'
    ensures forall k | 0 <= k < |done| - 1 :: !At(done + [c], "\n\n", k)
  {
    var s := done + [c];
    forall k | 0 <= k < |done| - 1
      ensures !At(s, "\n\n", k)
    {
      AtWithin("", done, [c], "\n\n", k);
      assert "" + done + [c] == s;
    }
    if done != "" {
      var k := |done| - 1;
      assert s[k..k + 2] == [done[k], c];
      AtSlice(s, "\n\n", k);
    }
  }

  lemma FirstTwoNewlines(done: string, more: string)
    requires !Contains(done, "\n\n") && done != "" && done[|done| - 1] == '\n'
    ensures FindStr(done + ['\n'] + more, "\n\n", 0) == Some(|done| - 1)
  {
    var s, f := done + ['\n'], done + ['\n'] + more;
    TwoNewlines(done, '\n');
    assert s[|done| - 1..|done| + 1] == "\n\n";
    AtSlice(s, "\n\n", |done| - 1);
    forall k | 0 <= k <= |done| - 1
      ensures At(s, "\n\n", k) == At(f, "\n\n", k)
    {
      AtWithin("", s, more, "\n\n", k);
      assert "" + s + more == f;
    }
    FindStrFirst(f, "\n\n", 0, Some(|done| - 1));
  }

  lemma NoneFound(f: string)
    requires !Contains(f, "\n\n")
    ensures FindStr(f, "\n\n", 0) == None
  {
    FindStrFirst(f, "\n\n", 0, None);
  }

  function NewlinesAt(done: string): nat {
    if done != "" && done[|done| - 1] == '\n' then 1 else 0
  }

  lemma NoNulsPush(ls: seq<string>, l: string)
    ensures NoNuls(ls + [l]) == NoNuls(ls) + [Without(l, '\0')]
  {}

  /** The loop from the i-th byte on, when `done` is what counted before it. */
  function Resume(bytes: string, i: nat, server: bool, done: string): Scan
    requires i <= |bytes|
  {
    ScanFrom(bytes[i..], Without(LastLine(done), '\0'), NewlinesAt(done), NoNuls(Lines(done)), server)
  }

  lemma ResumeNext(bytes: string, i: nat)
    requires i < |bytes|
    ensures bytes[i..] != "" && bytes[i..][0] == bytes[i] && bytes[i..][1..] == bytes[i + 1..]
  {}

  lemma ResumeSkip(bytes: string, i: nat, server: bool, done: string)
    requires i < |bytes| && (bytes[i] == '\r' || (server && bytes[i] == '\0'))
    ensures Resume(bytes, i, server, done) == Resume(bytes, i + 1, server, done)
  {
    ResumeNext(bytes, i);
  }

  lemma ResumeChar(bytes: string, i: nat, server: bool, done: string)
    requires i < |bytes| && bytes[i] != '\r' && bytes[i] != '\n' && !(server && bytes[i] == '\0')
    ensures Resume(bytes, i, server, done) == Resume(bytes, i + 1, server, done + [bytes[i]])
  {
    ResumeNext(bytes, i);
    LinesPush(done, bytes[i]);
    WithoutConcat(LastLine(done), [bytes[i]], '\0');
    WithoutOne('\0', bytes[i]);
    assert Without(LastLine(done), '\0') + "" == Without(LastLine(done), '\0');
  }

  lemma ResumeLine(bytes: string, i: nat, server: bool, done: string)
    requires i < |bytes| && bytes[i] == '\n'
    ensures Resume(bytes, i, server, done)
         == if NewlinesAt(done) == 1 then Full(NoNuls(Lines(done + ['\n'])), bytes[i + 1..])
            else Resume(bytes, i + 1, server, done + ['\n'])
  {
    ResumeNext(bytes, i);
    LinesPush(done, '\n');
    NoNulsPush(Lines(done), LastLine(done));
    assert Without("", '\0') == "";
  }

  lemma {:induction false} ScanFromIs(bytes: string, i: nat, server: bool, done: string)
    requires i <= |bytes| && done == Kept(bytes[..i], server) && !Contains(done, "\n\n")
    ensures ScanIs(bytes, Resume(bytes, i, server, done), server)
    decreases |bytes| - i
  {
    if i == |bytes| {
      assert bytes[..i] == bytes && bytes[i..] == "";
      NoneFound(done);
    } else {
      var c := bytes[i];
      KeptPush(bytes, i, server);
      if c == '\r' || (server && c == '\0') {
        assert done + "" == done;
        ResumeSkip(bytes, i, server, done);
        ScanFromIs(bytes, i + 1, server, done);
      } else {
        TwoNewlines(done, c);
        if c == '\n' { ResumeLine(bytes, i, server, done); } else { ResumeChar(bytes, i, server, done); }
        if c == '\n' && NewlinesAt(done) == 1 {
          ScanStops(bytes, i, server, done);
        } else {
          ScanFromIs(bytes, i + 1, server, done + [c]);
        }
      }
    }
  }

  lemma ScanStops(bytes: string, i: nat, server: bool, done: string)
    requires i < |bytes| && done == Kept(bytes[..i], server) && !Contains(done, "\n\n")
    requires bytes[i] == '\n' && NewlinesAt(done) == 1
    ensures ScanIs(bytes, Full(NoNuls(Lines(done + ['\n'])), bytes[i + 1..]), server)
  {
    var more := Kept(bytes[i + 1..], server);
    KeptPush(bytes, i, server);
    KeptSplit(bytes, i + 1, server);
    FirstTwoNewlines(done, more);
    FrontOf(done + ['\n'], more);
    assert Ends(bytes, i + 1, bytes[i + 1..], done + ['\n'], server);
  }

  lemma KeptSplit(bytes: string, i: nat, server: bool)
    requires i <= |bytes|
    ensures Kept(bytes, server) == Kept(bytes[..i], server) + Kept(bytes[i..], server)
  {
    assert bytes == bytes[..i] + bytes[i..];
    KeptConcat(bytes[..i], bytes[i..], server);
  }

  lemma FrontOf(a: string, b: string)
    ensures (a + b)[..|a|] == a
  {}

  /** For any bytes at all, and both ends. */
  lemma ScanIsExact(bytes: string, server: bool)
    ensures ScanIs(bytes, ScanHeader(bytes, server), server)
  {
    assert bytes[..0] == "" && bytes[0..] == bytes;
    assert Without("", '\0') == "" && Without("", '\r') == "" && Lines("") == [] && LastLine("") == "";
    assert !Contains("", "\n\n");
    assert NoNuls([]) == [];
    ScanFromIs(bytes, 0, server, "");
  }
}
