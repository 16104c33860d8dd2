/** The body of an error response (src/include/solusek/MErrorResponse.h:18-26): replacing
    quotes is undone by replacing back, and when a JSON reader gets the message back. */
module ErrorBody {
  import opened Text
  import opened Numbers

  const QUOTE := "\""
  const ESCAPED := "\\\""

  /** The message as replaceAll leaves it. */
  function Escape(msg: string): string {
    Join(Split(msg, QUOTE), ESCAPED)
  }

  function Opening(code: int): string {
    "{ \"code\": \"" + Int(code) + "\", \"message\": \""
  }

  method MakeErrorBody(code: int, msg: string) returns (body: string)
    ensures body == Opening(code) + (Escape(msg) + "\" }")
  {
    body := "{ \"code\": \"";
    body := body + Int(code);
    body := body + "\", \"message\": \"";
    var text := ReplaceAll(msg, QUOTE, ESCAPED);
    ghost var opening := body;
    body := body + text;
    body := body + "\" }";
    assert opening + text + "\" }" == opening + (text + "\" }");
  }

  // ------------------------------------------------------------ replacing back

  ghost predicate NoQuotes(ps: seq<string>) {
    forall i | 0 <= i < |ps| :: '"' !in ps[i]
  }

  lemma QuoteAt(s: string, k: nat)
    requires k < |s|
    ensures At(s, QUOTE, k) <==> s[k] == '"'
  {
    assert Agree(s, QUOTE, k, 1);
  }

  lemma EscapedAt(s: string, k: nat)
    requires At(s, ESCAPED, k)
    ensures s[k] == '\\' && s[k + 1] == '"'
  {
    assert Agree(s, ESCAPED, k, 1);
  }

  lemma PieceHasNoQuote(p: string)
    requires EndsAtFirst(p, QUOTE) || !Contains(p, QUOTE)
    ensures '"' !in p
  {
    forall k | 0 <= k < |p|
      ensures p[k] != '"'
    {
      QuoteAt(p, k);
      QuoteAt(p + QUOTE, k);
    }
  }

  lemma SplitHasNoQuotes(s: string)
    ensures NoQuotes(Split(s, QUOTE))
  {
    SplitLeftmost(s, QUOTE, 0);
    var ps := Split(s, QUOTE);
    forall i | 0 <= i < |ps|
      ensures '"' !in ps[i]
    {
      if i < |ps| - 1 { assert EndsAtFirst(ps[i], QUOTE); }
      PieceHasNoQuote(ps[i]);
    }
  }

  /** A piece without quotes ends at the first escaped quote put behind it, even when the
      piece itself ends with a backslash. */
  lemma NoQuoteEndsAtEscape(p: string)
    requires '"' !in p
    ensures EndsAtFirst(p, ESCAPED) && !Contains(p, ESCAPED)
  {
    forall k | 0 <= k < |p|
      ensures !At(p + ESCAPED, ESCAPED, k)
    {
      if At(p + ESCAPED, ESCAPED, k) { EscapedAt(p + ESCAPED, k); }
    }
    forall k | 0 <= k <= |p|
      ensures !At(p, ESCAPED, k)
    {
      if At(p, ESCAPED, k) { EscapedAt(p, k); }
    }
  }

  /** Replacing quotes by escaped quotes is undone by the opposite replacement, for every
      text, also one that already holds backslashes. */
  lemma EscapeIsUndone(s: string)
    ensures Join(Split(Escape(s), ESCAPED), QUOTE) == s
  {
    var ps := Split(s, QUOTE);
    SplitHasNoQuotes(s);
    forall i | 0 <= i < |ps|
      ensures EndsAtFirst(ps[i], ESCAPED) && !Contains(ps[i], ESCAPED)
    {
      NoQuoteEndsAtEscape(ps[i]);
    }
    SplitCharacterised(Escape(s), ps, ESCAPED);
    SplitCharacterised(s, ps, QUOTE);
  }

  // ------------------------------------------------------------ reading JSON

  /** The character a two-character escape stands for (RFC 8259 section 7). */
  function EscapeChar(c: char): Option<char> {
    match c
    case '"' => Some('"')
    case '\\' => Some('\\')
    case '/' => Some('/')
    case 'b' => Some(8 as char)
    case 'f' => Some(12 as char)
    case 'n' => Some('\n')
    case 'r' => Some('\r')
    case 't' => Some('\t')
    case _ => None
  }

  predicate HexEscape(t: string) {
    |t| >= 6 && t[1] == 'u' && Digits(t[2..6], 16) && Value(t[2..6], 16, 0) < 0xD800
  }

  /** A JSON string read from behind its opening quote: its text and what follows it. */
  function JsonString(t: string): Option<(string, string)>
    decreases |t|
  {
    if t == "" || t[0] < ' ' then None
    else if t[0] == '"' then Some(("", t[1..]))
    else if t[0] != '\\' then Push(t[0], JsonString(t[1..]))
    else if HexEscape(t) then Push(Value(t[2..6], 16, 0) as char, JsonString(t[6..]))
    else if |t| == 1 || EscapeChar(t[1]).None? then None
    else Push(EscapeChar(t[1]).value, JsonString(t[2..]))
  }

  function Push(c: char, r: Option<(string, string)>): Option<(string, string)> {
    match r
    case None => None
    case Some((out, rest)) => Some(([c] + out, rest))
  }

  /** The escaped text, character by character. */
  function CharEscape(s: string): string {
    if s == "" then "" else (if s[0] == '"' then ESCAPED else [s[0]]) + CharEscape(s[1..])
  }

  lemma {:induction false} CharEscapeConcat(a: string, b: string)
    ensures CharEscape(a + b) == CharEscape(a) + CharEscape(b)
  {
    if a == "" {
      assert a + b == b;
    } else {
      assert (a + b)[1..] == a[1..] + b;
      CharEscapeConcat(a[1..], b);
      var h := if a[0] == '"' then ESCAPED else [a[0]];
      assert h + (CharEscape(a[1..]) + CharEscape(b)) == h + CharEscape(a[1..]) + CharEscape(b);
    }
  }

  lemma {:induction false} CharEscapeNoQuote(p: string)
    requires '"' !in p
    ensures CharEscape(p) == p
  {
    if p != "" { CharEscapeNoQuote(p[1..]); }
  }

  lemma {:induction false} CharEscapeJoin(ps: seq<string>)
    requires ps != [] && NoQuotes(ps)
    ensures CharEscape(Join(ps, QUOTE)) == Join(ps, ESCAPED)
  {
    CharEscapeNoQuote(ps[0]);
    if |ps| > 1 {
      CharEscapeJoin(ps[1..]);
      CharEscapeConcat(ps[0] + QUOTE, Join(ps[1..], QUOTE));
      CharEscapeConcat(ps[0], QUOTE);
      assert CharEscape(QUOTE) == ESCAPED by { assert QUOTE[1..] == "" && ESCAPED + "" == ESCAPED; }
    }
  }

  lemma EscapeIsCharwise(msg: string)
    ensures Escape(msg) == CharEscape(msg)
  {
    SplitHasNoQuotes(msg);
    CharEscapeJoin(Split(msg, QUOTE));
    SplitCharacterised(msg, Split(msg, QUOTE), QUOTE);
  }

  // ------------------------------------------------------------ which messages

  predicate Printable(s: string) {
    forall k | 0 <= k < |s| :: s[k] >= ' '
  }

  /** Without backslashes, the reader takes the escaped message apart again, unless a
      control character stops it. */
  lemma {:induction false} ReadsBack(msg: string, tail: string)
    requires '\\' !in msg
    ensures JsonString(CharEscape(msg) + (QUOTE + tail))
         == if Printable(msg) then Some((msg, tail)) else None
  {
    var t := CharEscape(msg) + (QUOTE + tail);
    if msg == "" {
      assert t == QUOTE + tail && t[1..] == tail;
    } else {
      var more := CharEscape(msg[1..]) + (QUOTE + tail);
      ReadsBack(msg[1..], tail);
      assert Printable(msg) <==> msg[0] >= ' ' && Printable(msg[1..]);
      assert [msg[0]] + msg[1..] == msg;
      if msg[0] == '"' {
        assert t == ESCAPED + more && t[1] == '"' && t[2..] == more;
      } else {
        assert t == [msg[0]] + more && t[1..] == more;
      }
    }
  }

  function Count(s: string, c: char): nat {
    if s == "" then 0 else (if s[0] == c then 1 else 0) + Count(s[1..], c)
  }

  lemma {:induction false} CountConcat(a: string, b: string, c: char)
    ensures Count(a + b, c) == Count(a, c) + Count(b, c)
  {
    if a == "" {
      assert a + b == b;
    } else {
      assert (a + b)[1..] == a[1..] + b;
      CountConcat(a[1..], b, c);
    }
  }

  lemma {:induction false} CountZero(s: string, c: char)
    ensures Count(s, c) == 0 <==> c !in s
  {
    if s != "" { CountZero(s[1..], c); }
  }

  lemma {:induction false} EscapeCounts(s: string)
    ensures |CharEscape(s)| == |s| + Count(s, '"')
    ensures Count(CharEscape(s), '"') == Count(s, '"')
    ensures Count(CharEscape(s), '\\') == Count(s, '\\') + Count(s, '"')
  {
    if s != "" {
      var h := if s[0] == '"' then ESCAPED else [s[0]];
      EscapeCounts(s[1..]);
      CountConcat(h, CharEscape(s[1..]), '"');
      CountConcat(h, CharEscape(s[1..]), '\\');
      assert h[1..] == if s[0] == '"' then "\"" else "";
      assert h[1..] != "" ==> h[1..][1..] == "";
    }
  }

  /** The reader's account: `used` is what it took. Every backslash beyond those in front
      of a quote has cost at least half a character of output. */
  ghost predicate Account(t: string, out: string, rest: string) {
    && |rest| <= |t|
    && var used := t[..|t| - |rest|];
       t == used + rest && Paid(used, |out|)
  }

  ghost predicate Paid(used: string, out: nat) {
    && Count(used, '"') >= 1
    && Count(used, '\\') - (Count(used, '"') - 1) <= 2 * (|used| - out - Count(used, '"'))
  }

  /** Putting `head`, which reads as one character, in front. */
  lemma AccountPush(head: string, t: string, c: char, out: string, rest: string)
    requires Account(t, out, rest)
    requires Count(head, '\\') - Count(head, '"') <= 2 * (|head| - 1 - Count(head, '"'))
    ensures Account(head + t, [c] + out, rest)
  {
    var used := t[..|t| - |rest|];
    InFront(head, used, rest);
    PaidPush(head, used, |out|);
  }

  lemma InFront(head: string, used: string, rest: string)
    ensures var t := head + (used + rest);
            t[..|t| - |rest|] == head + used && t == head + used + rest
  {}

  lemma PaidPush(head: string, used: string, out: nat)
    requires Paid(used, out)
    requires Count(head, '\\') - Count(head, '"') <= 2 * (|head| - 1 - Count(head, '"'))
    ensures Paid(head + used, out + 1)
  {
    CountConcat(head, used, '"');
    CountConcat(head, used, '\\');
  }

  lemma CountOne(c: char, x: char)
    ensures Count([c], x) == if c == x then 1 else 0
  {
    assert [c][1..] == "";
  }

  lemma CountTwo(a: char, b: char, x: char)
    ensures Count([a, b], x) == (if a == x then 1 else 0) + (if b == x then 1 else 0)
  {
    CountOne(b, x);
    assert [a, b][1..] == [b];
  }

  lemma {:induction false} HexHasNoMarks(t: string)
    requires HexEscape(t) && t[0] == '\\'
    ensures Count(t[..6], '"') == 0 && Count(t[..6], '\\') == 1
  {
    var h := t[2..6];
    assert forall k | 0 <= k < 4 :: DigitVal(h[k]) < 16;
    CountZero(t[..6], '"');
    assert t[..6] == [t[0]] + t[1..6];
    assert forall k | 1 <= k < 5 :: t[1..6][k] == h[k - 1];
    CountConcat([t[0]], t[1..6], '\\');
    CountZero(t[1..6], '\\');
    CountOne('\\', '\\');
  }

  lemma {:induction false} JsonAccount(t: string)
    ensures match JsonString(t) case None => true case Some((out, rest)) => Account(t, out, rest)
    decreases |t|
  {
    if JsonString(t).Some? {
      var (out, rest) := JsonString(t).value;
      if t[0] == '"' {
        assert t[..1] == [t[0]] && t == t[..1] + t[1..];
        CountOne('"', '"');
        CountOne('"', '\\');
      } else if t[0] != '\\' {
        JsonAccount(t[1..]);
        CountOne(t[0], '"');
        CountOne(t[0], '\\');
        assert t == [t[0]] + t[1..];
        AccountPush([t[0]], t[1..], out[0], out[1..], rest);
        assert [out[0]] + out[1..] == out;
      } else if HexEscape(t) {
        JsonAccount(t[6..]);
        HexHasNoMarks(t);
        assert t == t[..6] + t[6..];
        AccountPush(t[..6], t[6..], out[0], out[1..], rest);
        assert [out[0]] + out[1..] == out;
      } else {
        JsonAccount(t[2..]);
        CountTwo(t[0], t[1], '"');
        CountTwo(t[0], t[1], '\\');
        assert t == [t[0], t[1]] + t[2..];
        AccountPush([t[0], t[1]], t[2..], out[0], out[1..], rest);
        assert [out[0]] + out[1..] == out;
      }
    }
  }

  /** A message that comes back had no backslash: each would have cost output. */
  lemma BackMeansNoBackslash(msg: string, tail: string)
    requires JsonString(CharEscape(msg) + (QUOTE + tail)) == Some((msg, tail))
    ensures '\\' !in msg
  {
    var e := CharEscape(msg);
    var t := e + (QUOTE + tail);
    JsonAccount(t);
    assert t[..|t| - |tail|] == e + QUOTE;
    EscapeCounts(msg);
    CountConcat(e, QUOTE, '"');
    CountConcat(e, QUOTE, '\\');
    CountOne('"', '"');
    CountOne('"', '\\');
    CountZero(msg, '\\');
  }

  /** A JSON reader gets exactly those messages back that hold neither a backslash nor a
      control character: only quotes are escaped. */
  lemma MessageIsReadBack(code: int, msg: string)
    ensures var body := Opening(code) + (Escape(msg) + "\" }");
            JsonString(body[|Opening(code)|..]) == Some((msg, " }")) <==> '\\' !in msg && Printable(msg)
  {
    var body := Opening(code) + (Escape(msg) + "\" }");
    EscapeIsCharwise(msg);
    assert "\" }" == QUOTE + " }";
    assert body[|Opening(code)|..] == CharEscape(msg) + (QUOTE + " }");
    if '\\' !in msg {
      ReadsBack(msg, " }");
    } else if JsonString(CharEscape(msg) + (QUOTE + " }")) == Some((msg, " }")) {
      BackMeansNoBackslash(msg, " }");
    }
  }

  lemma BodySpelled(code: int, msg: string)
    ensures Opening(code) + (Escape(msg) + "\" }")
         == "{ \"code\": \"" + Int(code) + "\", \"message\": \"" + (CharEscape(msg) + "\" }")
  {
    EscapeIsCharwise(msg);
  }

  /** The body spelled out, and its code as a reader gets it. */
  lemma CodeIsReadBack(code: Int32, msg: string, body: string)
    requires body == Opening(code) + (Escape(msg) + "\" }")
    ensures body == "{ \"code\": \"" + Int(code) + "\", \"message\": \"" + (CharEscape(msg) + "\" }")
    ensures body[..11] == "{ \"code\": \"" && JsonString(body[11..]).Some? && JsonString(body[11..]).value.0 == Int(code)
    ensures Atoi(Int(code)) == code
  {
    var num, more := Int(code), CharEscape(msg) + "\" }";
    BodySpelled(code, msg);
    AtoiOfInt(code, "");
    assert num + "" == num;
    CodeIsInside(num, more);
    NumberReadsBack(num, ", \"message\": \"" + more);
  }

  lemma NumberReadsBack(num: string, tail: string)
    requires forall k | 0 <= k < |num| :: num[k] == '-' || '0' <= num[k] <= '9'
    ensures JsonString(num + (QUOTE + tail)) == Some((num, tail))
  {
    NumberIsPlain(num);
    ReadsBack(num, tail);
  }

  lemma CodeIsInside(num: string, more: string)
    ensures var body := "{ \"code\": \"" + num + "\", \"message\": \"" + more;
            body[..11] == "{ \"code\": \"" && body[11..] == num + (QUOTE + (", \"message\": \"" + more))
  {
    var front := "{ \"code\": \"";
    assert |front| == 11 && "\", \"message\": \"" == QUOTE + ", \"message\": \"";
    assert front + num + "\", \"message\": \"" + more == front + (num + (QUOTE + (", \"message\": \"" + more)));
  }

  lemma {:induction false} NumberIsPlain(num: string)
    requires forall k | 0 <= k < |num| :: num[k] == '-' || '0' <= num[k] <= '9'
    ensures CharEscape(num) == num && Printable(num) && '\\' !in num
  {
    if num != "" {
      NumberIsPlain(num[1..]);
      assert num == [num[0]] + num[1..];
    }
  }
}
