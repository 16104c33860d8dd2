/** The client's chunked decoder (src/client/CClient.cpp:371-427) and the chunked
    transfer coding of RFC 9112 section 7.1 that it has to undo. */
module Chunked {
  import opened Text
  import opened Numbers
  import opened Sockets
  import opened Headers

  // ------------------------------------------------------------ the decoder

  /** A size line: what is gathered of it (every byte but CR) up to CR LF, and what
      follows. None when the connection ends first. */
  function SizeLine(bytes: string, prev: char, acc: string): (r: Option<(string, string)>)
    ensures r.Some? ==> |r.value.1| < |bytes|
  {
    if bytes == "" then None
    else
      var c := bytes[0];
      if prev == '\r' && c == '\n' then Some((acc, bytes[1..]))
      else SizeLine(bytes[1..], c, if c == '\r' then acc else acc + [c])
  }

  /** How many bytes the two-byte read behind a chunk takes: `short` says that the
      connection delivers one although more are there. */
  function Skipped(n: nat, short: bool): nat {
    if n == 0 then 0 else if n == 1 || short then 1 else 2
  }

  function HeadOf(shorts: seq<bool>): bool {
    shorts != [] && shorts[0]
  }

  function TailOf(shorts: seq<bool>): seq<bool> {
    if shorts == [] then [] else shorts[1..]
  }

  /** The size the decoder goes on with: a line without a number leaves the last one. */
  function SizeOf(acc: string, stale: nat): nat {
    match ScanHex(acc)
    case None => stale
    case Some(n) => n
  }

  /** The body decoded from `bytes`. `shorts` tells which of the two-byte reads are short,
      `stale` is the chunk size before the first line is read. */
  function Decode(bytes: string, shorts: seq<bool>, stale: nat): string
    decreases |bytes|
  {
    match SizeLine(bytes, '\0', "")
    case None => ""
    case Some((acc, rest)) =>
      var size := SizeOf(acc, stale);
      if size == 0 then ""
      else if |rest| < size then rest
      else
        var behind := rest[size..];
        rest[..size] + Decode(behind[Skipped(|behind|, HeadOf(shorts))..], TailOf(shorts), size)
  }

  /** The inner loop: one size line, byte by byte. */
  method ReadSizeLine(socket: Socket) returns (acc: string, ok: bool)
    modifies socket`Pending
    ensures match SizeLine(old(socket.Pending), '\0', "")
            case None => !ok && socket.Pending == ""
            case Some((line, rest)) => ok && acc == line && socket.Pending == rest
  {
    var prev := '\0';
    acc := "";
    while true
      invariant SizeLine(old(socket.Pending), '\0', "") == SizeLine(socket.Pending, prev, acc)
      decreases |socket.Pending|
    {
      ghost var before := socket.Pending;
      var r := socket.ReadBuffer(1);
      if r.None? {
        return acc, false;
      }
      var c := r.value[0];
      assert before[0] == c && before[1..] == socket.Pending;
      if prev == '\r' && c == '\n' {
        return acc, true;
      }
      if c != '\r' {
        acc := acc + [c];
      }
      prev := c;
    }
  }

  /** At most `count` bytes, one at a time, until the connection ends. */
  method ReadCounted(socket: Socket, count: nat, resp0: string) returns (resp: string, ok: bool)
    modifies socket`Pending
    ensures ok == (|old(socket.Pending)| >= count)
    ensures ok ==> resp == resp0 + old(socket.Pending)[..count] && socket.Pending == old(socket.Pending)[count..]
    ensures !ok ==> resp == resp0 + old(socket.Pending) && socket.Pending == ""
  {
    resp := resp0;
    ghost var all := socket.Pending;
    var n := 0;
    while n < count
      invariant n <= count && n <= |all|
      invariant resp == resp0 + all[..n] && socket.Pending == all[n..]
    {
      var r := socket.ReadBuffer(1);
      if r.None? {
        assert all[..n] == all;
        return resp, false;
      }
      assert all[n..][0] == r.value[0];
      resp := resp + [r.value[0]];
      n := n + 1;
    }
    return resp, true;
  }

  /** The decoder between two chunks: what it has, what is to come, the last size. */
  datatype Progress = Progress(out: string, rest: string, size: nat)

  /** One whole chunk; None when the decoder stops in it. */
  function Step(p: Progress, short: bool): Option<Progress> {
    match SizeLine(p.rest, '\0', "")
    case None => None
    case Some((acc, rest)) =>
      var size := SizeOf(acc, p.size);
      if size == 0 || |rest| <= size then None
      else
        var behind := rest[size..];
        Some(Progress(p.out + rest[..size], behind[Skipped(|behind|, short)..], size))
  }

  function After(p: Progress, shorts: seq<bool>): Option<Progress> {
    if shorts == [] then Some(p)
    else match After(p, shorts[..|shorts| - 1])
      case None => None
      case Some(q) => Step(q, shorts[|shorts| - 1])
  }

  lemma StepDecodes(p: Progress, short: bool, more: seq<bool>)
    requires Step(p, short).Some?
    ensures var q := Step(p, short).value;
            p.out + Decode(p.rest, [short] + more, p.size) == q.out + Decode(q.rest, more, q.size)
  {
    assert TailOf([short] + more) == more;
    var q := Step(p, short).value;
    var data := SizeLine(p.rest, '\0', "").value.1[..q.size];
    Assoc(p.out, data, Decode(q.rest, more, q.size));
  }

  lemma {:induction false} AfterDecodes(p: Progress, shorts: seq<bool>, more: seq<bool>)
    requires After(p, shorts).Some?
    ensures var q := After(p, shorts).value;
            p.out + Decode(p.rest, shorts + more, p.size) == q.out + Decode(q.rest, more, q.size)
    decreases |shorts|
  {
    if shorts == [] {
      assert shorts + more == more;
    } else {
      var init, last := shorts[..|shorts| - 1], shorts[|shorts| - 1];
      var q := After(p, init).value;
      assert shorts + more == init + ([last] + more);
      AfterDecodes(p, init, [last] + more);
      StepDecodes(q, last, more);
    }
  }

  /** What the decoder still gives where it stops. */
  lemma StopDecodes(p: Progress)
    ensures match SizeLine(p.rest, '\0', "")
            case None => p.out + Decode(p.rest, [], p.size) == p.out
            case Some((acc, rest)) =>
              var size := SizeOf(acc, p.size);
              && (size == 0 ==> p.out + Decode(p.rest, [], p.size) == p.out)
              && (0 < size && |rest| <= size ==> p.out + Decode(p.rest, [], p.size) == p.out + rest)
  {
    var line := SizeLine(p.rest, '\0', "");
    if line.Some? {
      var rest, size := line.value.1, SizeOf(line.value.0, p.size);
      assert |rest| == size > 0 ==> Decode(p.rest, [], p.size) == rest[..size] + Decode("", [], size);
    }
  }

  /** The chunked branch of runRequest. The thrown int of a read that gets nothing, and
      the one thrown for a chunk of size zero, both end it with what has been decoded. */
  method ReadChunked(socket: Socket, stale: nat) returns (resp: string, ghost shorts: seq<bool>)
    modifies socket`Pending
    ensures resp == Decode(old(socket.Pending), shorts, stale)
  {
    resp := "";
    shorts := [];
    var chunkSize := stale;
    ghost var start := Progress("", socket.Pending, stale);
    while true
      invariant After(start, shorts) == Some(Progress(resp, socket.Pending, chunkSize))
      decreases |socket.Pending|
    {
      AfterDecodes(start, shorts, []);
      assert shorts + [] == shorts;
      ghost var here := Progress(resp, socket.Pending, chunkSize);
      StopDecodes(here);
      assert "" + Decode(start.rest, shorts, stale) == Decode(start.rest, shorts, stale);
      var acc, ok := ReadSizeLine(socket);
      if !ok {
        return;
      }
      var scanned := ScanHex(acc);
      if scanned.Some? {
        chunkSize := scanned.value;
      }
      if chunkSize == 0 {
        return;
      }
      resp, ok := ReadCounted(socket, chunkSize, resp);
      if !ok {
        return;
      }
      ghost var behind := socket.Pending;
      var crlf := socket.ReadBuffer(2);
      if crlf.None? {
        return;
      }
      ghost var short := |crlf.value| == 1;
      assert socket.Pending == behind[Skipped(|behind|, short)..];
      assert Step(here, short) == Some(Progress(resp, socket.Pending, chunkSize));
      assert (shorts + [short])[..|shorts|] == shorts;
      shorts := shorts + [short];
    }
  }

  // ------------------------------------------------------------ the coding

  /** A chunk as RFC 9112 section 7.1 lets a sender write it: any hexadecimal digits for
      its size, and possibly extensions, which start with ';' or white space. */
  datatype Chunk = Chunk(size: string, ext: string, data: string)

  predicate GoodSizeLine(size: string, ext: string, n: nat) {
    && Spells(size, n, 16)
    && '\r' !in ext && '\n' !in ext
    && (ext != "" ==> ext[0] == ';' || ext[0] == ' ' || ext[0] == '\t')
  }

  predicate GoodChunk(c: Chunk) {
    0 < |c.data| < TWO_32 && GoodSizeLine(c.size, c.ext, |c.data|)
  }

  predicate GoodChunks(cs: seq<Chunk>) {
    forall i | 0 <= i < |cs| :: GoodChunk(cs[i])
  }

  function EncodeChunk(c: Chunk): string {
    c.size + c.ext + "\r\n" + (c.data + "\r\n")
  }

  /** The chunks, the last chunk (of size zero) and whatever trailer section follows. */
  function Encode(cs: seq<Chunk>, lastSize: string, lastExt: string, trailer: string): string {
    if cs == [] then lastSize + lastExt + "\r\n" + trailer
    else EncodeChunk(cs[0]) + Encode(cs[1..], lastSize, lastExt, trailer)
  }

  function Data(cs: seq<Chunk>): string {
    if cs == [] then "" else cs[0].data + Data(cs[1..])
  }

  lemma {:induction false} SizeLineReads(line: string, rest: string, prev: char, acc: string)
    requires '\r' !in line && (prev == '\r' ==> line == "" || line[0] != '\n')
    requires prev == '\r' ==> line != ""
    ensures SizeLine(line + "\r\n" + rest, prev, acc) == Some((acc + line, rest))
  {
    var s := line + "\r\n" + rest;
    if line == "" {
      assert s[0] == '\r' && s[1..][0] == '\n' && s[1..][1..] == rest;
      assert acc + line == acc;
    } else {
      assert s[0] == line[0] && s[1..] == line[1..] + "\r\n" + rest;
      SizeLineReads(line[1..], rest, line[0], acc + [line[0]]);
      assert acc + [line[0]] + line[1..] == acc + line;
    }
  }

  lemma DigitsAreNoBreaks(size: string)
    requires Digits(size, 16)
    ensures '\r' !in size && '\n' !in size
  {
    assert DigitVal('\r') == 99 && DigitVal('\n') == 99;
  }

  /** A size line is understood also behind the newline that a short read left over. */
  lemma SizeIsRead(lead: string, size: string, ext: string, n: nat, rest: string, stale: nat)
    requires lead == "" || lead == "\n"
    requires GoodSizeLine(size, ext, n) && n < TWO_32
    ensures SizeLine(lead + (size + ext + "\r\n" + rest), '\0', "") == Some((lead + size + ext, rest))
    ensures SizeOf(lead + size + ext, stale) == n
  {
    SpellsIsRead(size, n, 16);
    DigitsAreNoBreaks(size);
    var line := lead + size + ext;
    assert lead + (size + ext + "\r\n" + rest) == line + "\r\n" + rest;
    SizeLineReads(line, rest, '\0', "");
    assert "" + line == line;
    SizeScans(lead, size, ext, n);
  }

  lemma SizeScans(lead: string, size: string, ext: string, n: nat)
    requires (lead == "" || lead == "\n") && GoodSizeLine(size, ext, n) && n < TWO_32
    ensures ScanHex(lead + size + ext) == Some(n)
  {
    SpellsIsRead(size, n, 16);
    SmallNumbers(n);
    assert size[0] in size && DigitVal(size[0]) < 16 && (size + ext)[0] == size[0];
    assert "" + (size + ext) == size + ext;
    Assoc(lead, size, ext);
    ScanHexReads(lead + size + ext, lead, "", "", size, n, ext);
  }

  /** One chunk in front of `more` decodes to its data in front of what `more` decodes to;
      after a short read `more` is met with the newline still in front of it. */
  lemma ChunkDecodes(lead: string, c: Chunk, more: string, shorts: seq<bool>, stale: nat)
    requires (lead == "" || lead == "\n") && GoodChunk(c)
    ensures Decode(lead + (EncodeChunk(c) + more), shorts, stale)
         == c.data + Decode((if HeadOf(shorts) then "\n" else "") + more, TailOf(shorts), |c.data|)
  {
    var rest := c.data + ("\r\n" + more);
    EncodedPieces(c.size + c.ext, c.data, more);
    SizeIsRead(lead, c.size, c.ext, |c.data|, rest, stale);
    SizedDecodes(lead + (EncodeChunk(c) + more), lead + c.size + c.ext, c.data, more, shorts, stale);
  }

  /** What follows a size line that stands for the length of `data`. */
  lemma SizedDecodes(bytes: string, acc: string, data: string, more: string, shorts: seq<bool>, stale: nat)
    requires SizeLine(bytes, '\0', "") == Some((acc, data + ("\r\n" + more)))
    requires SizeOf(acc, stale) == |data| > 0
    ensures Decode(bytes, shorts, stale) == data + Decode((if HeadOf(shorts) then "\n" else "") + more, TailOf(shorts), |data|)
  {
    BehindData(data, more);
  }

  lemma EncodedPieces(line: string, data: string, more: string)
    ensures line + "\r\n" + (data + "\r\n") + more == line + "\r\n" + (data + ("\r\n" + more))
  {}

  lemma BehindData(data: string, more: string)
    ensures var rest := data + ("\r\n" + more);
            && |rest| >= |data| + 2 && rest[..|data|] == data
            && rest[|data|..][1..] == "\n" + more && rest[|data|..][2..] == "" + more
  {}

  /** Decoding inverts the coding, for every list of chunks, every way of writing their
      sizes and extensions, and every pattern of short reads. */
  lemma {:induction false} DecodeInvertsEncode(lead: string, cs: seq<Chunk>, lastSize: string, lastExt: string,
                                               trailer: string, shorts: seq<bool>, stale: nat)
    requires (lead == "" || lead == "\n") && GoodChunks(cs)
    requires GoodSizeLine(lastSize, lastExt, 0)
    ensures Decode(lead + Encode(cs, lastSize, lastExt, trailer), shorts, stale) == Data(cs)
    decreases |cs|
  {
    if cs == [] {
      SizeIsRead(lead, lastSize, lastExt, 0, trailer, stale);
    } else {
      var more := Encode(cs[1..], lastSize, lastExt, trailer);
      ChunkDecodes(lead, cs[0], more, shorts, stale);
      DecodeInvertsEncode(if HeadOf(shorts) then "\n" else "", cs[1..], lastSize, lastExt, trailer, TailOf(shorts), |cs[0].data|);
    }
  }

  lemma NoNumber(line: string, sign: string, rest: string, behind: string, stale: nat)
    requires Signed(line, "", sign, rest) && Stops(rest, 16) && '\r' !in line && '\n' !in line
    ensures SizeLine(line + "\r\n" + behind, '\0', "") == Some((line, behind)) && SizeOf(line, stale) == stale
  {
    ScanHexNothing(line, "", sign, rest);
    SizeLineReads(line, behind, '\0', "");
    assert "" + line == line;
  }

  /** A size line that starts with no digit leaves the last size standing. */
  lemma NoNumberRepeats(line: string, sign: string, rest: string, data: string, more: string, shorts: seq<bool>)
    requires Signed(line, "", sign, rest) && Stops(rest, 16) && '\r' !in line && '\n' !in line && data != ""
    ensures Decode(line + "\r\n" + (data + ("\r\n" + more)), shorts, |data|)
         == data + Decode((if HeadOf(shorts) then "\n" else "") + more, TailOf(shorts), |data|)
  {
    var behind := data + ("\r\n" + more);
    NoNumber(line, sign, rest, behind, |data|);
    SizedDecodes(line + "\r\n" + behind, line, data, more, shorts, |data|);
  }

  /** The chunks alone, without a last one. */
  function EncodeAll(cs: seq<Chunk>): string {
    if cs == [] then "" else EncodeChunk(cs[0]) + EncodeAll(cs[1..])
  }

  /** When the connection ends inside a chunk, all that arrived of its data is kept. */
  lemma {:induction false} PartialChunk(lead: string, cs: seq<Chunk>, c: Chunk, j: nat, shorts: seq<bool>, stale: nat)
    requires (lead == "" || lead == "\n") && GoodChunks(cs) && GoodChunk(c) && j <= |c.data|
    ensures Decode(lead + (EncodeAll(cs) + (c.size + c.ext + "\r\n" + c.data[..j])), shorts, stale) == Data(cs) + c.data[..j]
    decreases |cs|
  {
    var last := c.size + c.ext + "\r\n" + c.data[..j];
    if cs == [] {
      assert "" + last == last && "" + c.data[..j] == c.data[..j];
      SizeIsRead(lead, c.size, c.ext, |c.data|, c.data[..j], stale);
      PartialDecodes(lead + last, lead + c.size + c.ext, c.data[..j], |c.data|, shorts, stale);
    } else {
      var next := if HeadOf(shorts) then "\n" else "";
      var more := EncodeAll(cs[1..]) + last;
      Assoc(EncodeChunk(cs[0]), EncodeAll(cs[1..]), last);
      ChunkDecodes(lead, cs[0], more, shorts, stale);
      PartialChunk(next, cs[1..], c, j, TailOf(shorts), |cs[0].data|);
      Assoc(cs[0].data, Data(cs[1..]), c.data[..j]);
    }
  }

  lemma PartialDecodes(bytes: string, acc: string, part: string, size: nat, shorts: seq<bool>, stale: nat)
    requires SizeLine(bytes, '\0', "") == Some((acc, part)) && SizeOf(acc, stale) == size > 0 && |part| <= size
    ensures Decode(bytes, shorts, stale) == part
  {
    if |part| == size {
      assert part[size..] == "" && part[..size] == part;
      assert SizeLine("", '\0', "") == None;
    }
  }

  // ------------------------------------------------------------ any size line

  lemma {:induction false} SizeLineFrom(s: string, i: nat)
    requires i <= |s|
    ensures var prev, f := if i == 0 then '\0' else s[i - 1], FindStr(s, "\r\n", if i == 0 then 0 else i - 1);
            SizeLine(s[i..], prev, Without(s[..i], '\r'))
              == match f { case None => None case Some(p) => Some((Without(s[..p], '\r'), s[p + 2..])) }
    decreases |s| - i
  {
    var from := if i == 0 then 0 else i - 1;
    BreakAt(s, from);
    if i < |s| {
      assert s[i..][0] == s[i] && s[i..][1..] == s[i + 1..];
      assert s[..i + 1][..i] == s[..i];
      if i > 0 && s[i - 1] == '\r' && s[i] == '\n' {
        assert s[..i][..i - 1] == s[..i - 1];
        assert Without(s[..i - 1], '\r') + "" == Without(s[..i - 1], '\r');
      } else {
        assert Without(s[..i], '\r') + "" == Without(s[..i], '\r');
        SizeLineFrom(s, i + 1);
        if i > 0 { FindNext(s, "\r\n", i - 1); }
      }
    }
  }

  lemma BreakAt(s: string, i: nat)
    requires i <= |s|
    ensures At(s, "\r\n", i) <==> i + 1 < |s| && s[i] == '\r' && s[i + 1] == '\n'
  {
    if i + 2 <= |s| { AtSlice(s, "\r\n", i); }
  }

  lemma FindNext(s: string, pat: string, i: nat)
    requires i < |s| && !At(s, pat, i)
    ensures FindStr(s, pat, i) == FindStr(s, pat, i + 1)
  {}

  /** For any bytes, a size line ends at the first CR LF, and no CR in it is kept. */
  lemma SizeLineIsExact(bytes: string)
    ensures SizeLine(bytes, '\0', "") == match FindStr(bytes, "\r\n", 0) {
              case None => None
              case Some(p) => Some((Without(bytes[..p], '\r'), bytes[p + 2..])) }
  {
    SizeLineFrom(bytes, 0);
    assert bytes[0..] == bytes && bytes[..0] == "";
  }

  // ------------------------------------------------------------ cut connections

  lemma {:induction false} SizeLineMore(a: string, b: string, prev: char, acc: string)
    ensures match SizeLine(a, prev, acc)
            case None => true
            case Some((line, rest)) => SizeLine(a + b, prev, acc) == Some((line, rest + b))
  {
    if a != "" {
      var c := a[0];
      assert (a + b)[0] == c && (a + b)[1..] == a[1..] + b;
      if !(prev == '\r' && c == '\n') {
        SizeLineMore(a[1..], b, c, if c == '\r' then acc else acc + [c]);
      }
    }
  }

  lemma PrefixBehind(p: string, a: string, b: string)
    requires Prefix(a, b)
    ensures Prefix(p + a, p + b)
  {}

  /** For any bytes at all, a connection cut anywhere gives a prefix of what the whole
      connection would have given. */
  lemma {:induction false} CutDecodesToPrefix(a: string, b: string, shorts: seq<bool>, stale: nat)
    ensures Prefix(Decode(a, shorts, stale), Decode(a + b, shorts, stale))
    decreases |a|
  {
    var line := SizeLine(a, '\0', "");
    if line.Some? {
      SizeLineMore(a, b, '\0', "");
      var (acc, rest) := line.value;
      var size := SizeOf(acc, stale);
      if size > 0 {
        assert (rest + b)[..|rest|] == rest;
        if |rest| >= size {
          CutBehindData(rest[size..], b, shorts, size);
          assert (rest + b)[..size] == rest[..size] && (rest + b)[size..] == rest[size..] + b;
          var x, y := DecodeBehind(rest[size..], shorts, size), DecodeBehind(rest[size..] + b, shorts, size);
          PrefixBehind(rest[..size], x, y);
        } else if |rest + b| >= size {
          assert (rest + b)[..size][..|rest|] == rest;
        }
      }
    }
  }

  /** What is decoded behind a chunk's data. */
  function DecodeBehind(behind: string, shorts: seq<bool>, size: nat): string {
    Decode(behind[Skipped(|behind|, HeadOf(shorts))..], TailOf(shorts), size)
  }

  lemma {:induction false} CutBehindData(behind: string, b: string, shorts: seq<bool>, size: nat)
    ensures Prefix(DecodeBehind(behind, shorts, size), DecodeBehind(behind + b, shorts, size))
    decreases |behind|, 1
  {
    var n := Skipped(|behind|, HeadOf(shorts));
    if |behind| <= 1 {
      assert behind[n..] == "";
    } else {
      CutDecodesToPrefix(behind[n..], b, TailOf(shorts), size);
      assert (behind + b)[n..] == behind[n..] + b;
    }
  }

  /** A chunked body cut at any byte yields a prefix of its data. */
  lemma CutChunkedBody(cs: seq<Chunk>, lastSize: string, lastExt: string, trailer: string,
                       k: nat, shorts: seq<bool>, stale: nat)
    requires GoodChunks(cs) && GoodSizeLine(lastSize, lastExt, 0)
    requires k <= |Encode(cs, lastSize, lastExt, trailer)|
    ensures Prefix(Decode(Encode(cs, lastSize, lastExt, trailer)[..k], shorts, stale), Data(cs))
  {
    var all := Encode(cs, lastSize, lastExt, trailer);
    DecodeInvertsEncode("", cs, lastSize, lastExt, trailer, shorts, stale);
    assert "" + all == all && all[..k] + all[k..] == all;
    CutDecodesToPrefix(all[..k], all[k..], shorts, stale);
  }
}
