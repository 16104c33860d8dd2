/** The connection as the HTTP code sees it (CNetHandlerSocket with exceptions on). */
module Sockets {
  import opened Text
  import opened Numbers

  /** The length of a write is passed as an int; one that is not positive sends nothing
      and throws. */
  predicate Goes(data: string) {
    ToInt32(|data|) > 0
  }

  /** What a write puts on the connection: as many bytes as the int says. */
  function Carried(data: string): (sent: string)
    ensures sent <= data && (sent != "" <==> Goes(data))
  {
    IntOfLength(|data|);
    if Goes(data) then data[..ToInt32(|data|)] else ""
  }

  lemma IntOfLength(n: nat)
    ensures ToInt32(n) <= n && (n < TWO_31 ==> ToInt32(n) == n)
    ensures if ToInt32(n) > 0 then ToUint32(n) == ToInt32(n) else ToUint32(n) == 0 || ToUint32(n) >= TWO_31
  {}

  /** Exactly below 2^31 bytes everything is sent, and nothing is sent only of nothing. */
  lemma CarriedWhole(data: string)
    ensures Carried(data) == data <==> |data| < TWO_31
    ensures |data| < TWO_31 ==> (Goes(data) <==> data != "")
  {
    IntOfLength(|data|);
    if |data| < TWO_31 { assert data[..|data|] == data; }
  }

  /** How much that is, for every length. */
  lemma CarriedLength(data: string)
    ensures Carried(data) <= data
    ensures |Carried(data)| == if |data| % 0x1_0000_0000 < 0x8000_0000 then |data| % 0x1_0000_0000 else 0
  {
    var q := |data| / 0x1_0000_0000;
    assert |data| == q * 0x1_0000_0000 + |data| % 0x1_0000_0000;
  }

  class Socket {
    /** What the peer's bytes still are, up to the end of the connection. */
    var Pending: string
    /** What has been handed to the peer. */
    var Sent: string

    constructor (incoming: string)
      ensures Pending == incoming && Sent == ""
    {
      Pending := incoming;
      Sent := "";
    }

    /** readBuffer: any positive number of the bytes asked for; None is the thrown int
        when nothing more arrives. */
    method ReadBuffer(len: nat) returns (r: Option<string>)
      requires len > 0
      modifies `Pending
      ensures r.None? <==> old(Pending) == ""
      ensures r.None? ==> Pending == ""
      ensures r.Some? ==> 1 <= |r.value| <= len && old(Pending) == r.value + Pending
    {
      if Pending == "" {
        return None;
      }
      var n :| 1 <= n <= len && n <= |Pending|;
      r := Some(Pending[..n]);
      Pending := Pending[n..];
    }

    /** writeBuffer. False is the thrown int. */
    method WriteBuffer(data: string) returns (ok: bool)
      modifies `Sent
      ensures ok == Goes(data) && Sent == old(Sent) + Carried(data)
    {
      Sent := Sent + Carried(data);
      ok := Goes(data);
    }
  }
}
