/** The Cookie header: the loop that takes it apart (src/server/CNode.cpp:71-101), the
    lookup of a cookie (src/include/solusek/MRequest.h:24-32), and the form RFC 6265
    section 4.2.1 gives the header. */
module Cookies {
  import opened Text

  type Pair = (string, string)

  const SESSION_NAME := "SolusekSID"

  // ------------------------------------------------------------ the loop

  /** One piece between semicolons. Without '=' the unsigned position wraps around, and the
      whole piece becomes both the name and the value. */
  function PairOf(piece: string): Pair {
    var ck := Trim(piece);
    var np := Find(ck, '=');
    if np == |ck| then (ck, ck) else (ck[..np], ck[np + 1..])
  }

  function Decode(deccum: string): seq<Pair>
    decreases |deccum|
  {
    if deccum == "" then []
    else
      var sp := Find(deccum, ';');
      if sp == |deccum| then [PairOf(deccum)] else [PairOf(deccum[..sp])] + Decode(deccum[sp + 1..])
  }

  /** The value of the last session cookie. */
  function LastSid(cs: seq<Pair>): string {
    if cs == [] then ""
    else if cs[|cs| - 1].0 == SESSION_NAME then cs[|cs| - 1].1
    else LastSid(cs[..|cs| - 1])
  }

  /** The part of the loop that takes one piece apart. */
  method SplitCookie(piece: string) returns (c: Pair)
    ensures c == PairOf(piece)
  {
    var ck := TrimInPlace(piece);
    var np := Find(ck, '=');
    c := if np < |ck| then (ck[..np], ck[np + 1..]) else (ck, ck);
  }

  method ParseCookies(value: string) returns (cookies: seq<Pair>, sid: string)
    ensures cookies == Decode(value) && sid == LastSid(cookies)
  {
    var deccum := value;
    cookies, sid := [], "";
    while |deccum| > 0
      invariant cookies + Decode(deccum) == Decode(value)
      invariant sid == LastSid(cookies)
      decreases |deccum|
    {
      ghost var left := deccum;
      var sp := Find(deccum, ';');
      var ck := deccum[..sp];
      deccum := if sp < |deccum| then deccum[sp + 1..] else "";
      NextCookie(cookies, left, ck, deccum, Decode(value));
      var c := SplitCookie(ck);
      if c.0 == SESSION_NAME {
        sid := c.1;
      }
      LastSidPush(cookies, c);
      cookies := cookies + [c];
    }
  }

  lemma DecodeNext(deccum: string, ck: string, rest: string)
    requires deccum != "" && ck == deccum[..Find(deccum, ';')]
    requires rest == if Find(deccum, ';') < |deccum| then deccum[Find(deccum, ';') + 1..] else ""
    ensures Decode(deccum) == [PairOf(ck)] + Decode(rest)
  {
    assert deccum[..|deccum|] == deccum;
  }

  lemma NextCookie(cookies: seq<Pair>, deccum: string, ck: string, rest: string, all: seq<Pair>)
    requires deccum != "" && ck == deccum[..Find(deccum, ';')]
    requires rest == if Find(deccum, ';') < |deccum| then deccum[Find(deccum, ';') + 1..] else ""
    requires cookies + Decode(deccum) == all
    ensures cookies + [PairOf(ck)] + Decode(rest) == all && |rest| < |deccum|
  {
    DecodeNext(deccum, ck, rest);
    Assoc(cookies, [PairOf(ck)], Decode(rest));
  }

  lemma LastSidPush(cs: seq<Pair>, c: Pair)
    ensures LastSid(cs + [c]) == if c.0 == SESSION_NAME then c.1 else LastSid(cs)
  {
    assert (cs + [c])[..|cs|] == cs;
  }

  /** getCookie: the first cookie of that name; None is the cookie marked None. */
  method GetCookie(cookies: seq<Pair>, name: string) returns (r: Option<Pair>)
    ensures r.Some? ==> exists i :: 0 <= i < |cookies| && r.value == cookies[i] && cookies[i].0 == name
                         && forall j | 0 <= j < i :: cookies[j].0 != name
    ensures r.None? ==> forall j | 0 <= j < |cookies| :: cookies[j].0 != name
  {
    for i := 0 to |cookies|
      invariant forall j | 0 <= j < i :: cookies[j].0 != name
    {
      if cookies[i].0 == name {
        return Some(cookies[i]);
      }
    }
    return None;
  }

  // ------------------------------------------------------------ the header

  function PieceOf(c: Pair): string {
    c.0 + "=" + c.1
  }

  /** The cookies joined with "; ". */
  function Encode(cs: seq<Pair>): string {
    if cs == [] then ""
    else if |cs| == 1 then PieceOf(cs[0])
    else PieceOf(cs[0]) + ";" + (" " + Encode(cs[1..]))
  }

  predicate GoodPair(c: Pair) {
    && '=' !in c.0 && ';' !in c.0 && ';' !in c.1
    && (c.0 != "" ==> !IsSpace(c.0[0])) && (c.1 != "" ==> !IsSpace(c.1[|c.1| - 1]))
  }

  lemma PieceReads(c: Pair, lead: string)
    requires GoodPair(c) && (lead == "" || lead == " ")
    ensures PairOf(lead + PieceOf(c)) == c && ';' !in lead + PieceOf(c)
  {
    var p := PieceOf(c);
    PieceIsTrimmed(c);
    TrimAround(lead, p, "");
    assert lead + p + "" == lead + p;
    SplitPiece(c.0, c.1);
  }

  lemma PieceIsTrimmed(c: Pair)
    requires GoodPair(c)
    ensures Trimmed(PieceOf(c)) && ';' !in PieceOf(c)
  {}

  lemma SplitPiece(name: string, value: string)
    requires '=' !in name
    ensures var p := name + "=" + value;
            Find(p, '=') == |name| && p[..|name|] == name && p[|name| + 1..] == value
  {
    FindAfter(name, '=', value);
  }

  lemma {:induction false} DecodeEncoded(cs: seq<Pair>, lead: string)
    requires forall i | 0 <= i < |cs| :: GoodPair(cs[i])
    requires lead == "" || (lead == " " && cs != [])
    ensures Decode(lead + Encode(cs)) == cs
  {
    if cs != [] {
      PieceReads(cs[0], lead);
      var head := lead + PieceOf(cs[0]);
      if |cs| == 1 {
        DecodeLast(head);
      } else {
        DecodeEncoded(cs[1..], " ");
        DecodeFirst(lead, PieceOf(cs[0]), " " + Encode(cs[1..]));
        assert cs == [cs[0]] + cs[1..];
      }
    }
  }

  lemma DecodeLast(head: string)
    requires head != "" && ';' !in head
    ensures Decode(head) == [PairOf(head)]
  {
    FindNone(head, ';');
  }

  lemma DecodeFirst(lead: string, piece: string, rest: string)
    requires ';' !in lead + piece
    ensures Decode(lead + (piece + ";" + rest)) == [PairOf(lead + piece)] + Decode(rest)
  {
    var head := lead + piece;
    var s := head + [';'] + rest;
    assert lead + (piece + ";" + rest) == s;
    FindAfter(head, ';', rest);
    assert s[..|head|] == head && s[|head| + 1..] == rest;
  }

  lemma {:induction false} TrimHolds(s: string, c: char)
    ensures c in Trim(s) ==> c in s
  {
    TrimLeftHolds(s, c);
    TrimRightHolds(TrimLeft(s), c);
  }

  lemma {:induction false} TrimLeftHolds(s: string, c: char)
    ensures c in TrimLeft(s) ==> c in s
  {
    if s != "" && IsSpace(s[0]) { TrimLeftHolds(s[1..], c); }
  }

  lemma {:induction false} TrimRightHolds(s: string, c: char)
    ensures c in TrimRight(s) ==> c in s
    decreases |s|
  {
    if s != "" && IsSpace(s[|s| - 1]) { TrimRightHolds(s[..|s| - 1], c); }
  }

  /** Whatever the header, the loop yields only good pairs. */
  lemma PairIsGood(piece: string)
    requires ';' !in piece
    ensures GoodPair(PairOf(piece))
  {
    var ck := Trim(piece);
    var np := Find(ck, '=');
    TrimHolds(piece, ';');
    TrimIsTrimmed(piece);
    FindFirst(ck, '=');
    assert ck[..|ck|] == ck;
    assert forall k | 0 <= k < |ck| :: ck[k] in ck;
    if np < |ck| {
      assert np + 1 < |ck| ==> ck[np + 1..][|ck| - np - 2] == ck[|ck| - 1];
    }
  }

  lemma {:induction false} DecodedAreGood(s: string)
    ensures forall i | 0 <= i < |Decode(s)| :: GoodPair(Decode(s)[i])
    decreases |s|
  {
    if s != "" {
      var sp := Find(s, ';');
      FindFirst(s, ';');
      if sp == |s| {
        assert s[..|s|] == s;
        PairIsGood(s);
      } else {
        PairIsGood(s[..sp]);
        DecodedAreGood(s[sp + 1..]);
      }
    }
  }

  /** The cookies that survive the way through the header are exactly the lists of good
      pairs: no '=' or ';' in a name, no ';' in a value, no white space around the pair. */
  lemma CookieRoundTrip(cs: seq<Pair>)
    ensures Decode(Encode(cs)) == cs <==> forall i | 0 <= i < |cs| :: GoodPair(cs[i])
  {
    DecodedAreGood(Encode(cs));
    if forall i | 0 <= i < |cs| :: GoodPair(cs[i]) {
      DecodeEncoded(cs, "");
      assert "" + Encode(cs) == Encode(cs);
    }
  }

  /** A piece without '=' is a cookie that is its own value. */
  lemma PieceWithoutValue(piece: string)
    requires piece != "" && Trimmed(piece) && '=' !in piece && ';' !in piece
    ensures Decode(piece) == [(piece, piece)]
  {
    FindNone(piece, ';');
    TrimTrimmed(piece);
    FindNone(piece, '=');
  }

  /** The session identifier is the value of the last cookie named SolusekSID, however
      many others there are, and empty without one. */
  lemma {:induction false} SidIsLast(cs: seq<Pair>)
    ensures forall i | 0 <= i < |cs| && cs[i].0 == "SolusekSID"
                       && (forall j | i < j < |cs| :: cs[j].0 != "SolusekSID") :: LastSid(cs) == cs[i].1
    ensures (forall j | 0 <= j < |cs| :: cs[j].0 != "SolusekSID") ==> LastSid(cs) == ""
  {
    if cs != [] && cs[|cs| - 1].0 != SESSION_NAME {
      var front := cs[..|cs| - 1];
      SidIsLast(front);
      assert forall j | 0 <= j < |front| :: front[j] == cs[j];
    }
  }

  /** A client that sends back the session cookie is known by it again. */
  lemma SidComesBack(before: seq<Pair>, sid: string)
    requires forall i | 0 <= i < |before| :: GoodPair(before[i])
    requires GoodPair(("SolusekSID", sid))
    ensures LastSid(Decode(Encode(before + [("SolusekSID", sid)]))) == sid
  {
    CookieRoundTrip(before + [("SolusekSID", sid)]);
    SidIsLast(before + [("SolusekSID", sid)]);
  }

  function Pairs(ps: seq<string>): seq<Pair> {
    seq(|ps|, i requires 0 <= i < |ps| => PairOf(ps[i]))
  }

  lemma PairsCons(p: string, ps: seq<string>)
    ensures Pairs([p] + ps) == [PairOf(p)] + Pairs(ps)
  {}

  lemma DecodeCons(p: string, rest: string)
    requires ';' !in p
    ensures Decode(p + (";" + rest)) == [PairOf(p)] + Decode(rest)
  {
    DecodeFirst("", p, rest);
    assert "" + (p + ";" + rest) == p + (";" + rest) && "" + p == p;
  }

  /** Each piece between semicolons is a cookie, also an empty one, but for an empty last. */
  lemma {:induction false} PiecesAreRead(ps: seq<string>)
    requires ps != [] && ps[|ps| - 1] != "" && forall i | 0 <= i < |ps| :: ';' !in ps[i]
    ensures Decode(Join(ps, ";")) == Pairs(ps) && Decode(Join(ps, ";") + ";") == Pairs(ps)
  {
    if |ps| == 1 {
      DecodeLast(ps[0]);
      DecodeCons(ps[0], "");
      assert ";" + "" == ";" && Pairs(ps) == [PairOf(ps[0])];
    } else {
      var rest := Join(ps[1..], ";");
      PiecesAreRead(ps[1..]);
      PairsCons(ps[0], ps[1..]);
      assert ps == [ps[0]] + ps[1..];
      DecodeCons(ps[0], rest);
      DecodeCons(ps[0], rest + ";");
      Assoc(ps[0], ";", rest);
      Assoc(ps[0] + ";", rest, ";");
      Assoc(ps[0], ";", rest + ";");
    }
  }

  /** A piece is split at its first '=', and only the white space around it is dropped. */
  lemma PieceIsSplit(lead: string, name: string, value: string, behind: string)
    requires AllSpace(lead) && AllSpace(behind) && '=' !in name && Trimmed(name + "=" + value)
    ensures PairOf(lead + (name + "=" + value) + behind) == (name, value)
    ensures Trimmed(name) ==> PairOf(lead + name + behind) == (name, name)
  {
    TrimAround(lead, name + "=" + value, behind);
    SplitPiece(name, value);
    FindNone(name, '=');
    if Trimmed(name) { TrimAround(lead, name, behind); }
  }
}
