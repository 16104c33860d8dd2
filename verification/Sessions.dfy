/** Sessions: the values of one session (src/server/CSession.cpp), the identifiers they are
    given, and the server's list of them (src/server/CServer.cpp:431-458). */
module Sessions {
  import opened Numbers

  // ------------------------------------------------------------ identifiers

  /** The counter starts again from 0 when it has reached this. */
  const PERIOD: nat := 4294967295

  /** The counter value a new session is given; the next one is one more. */
  function Used(incremental: nat): nat {
    if incremental >= 4294967295 then 0 else incremental
  }

  function IdOf(time: nat, used: nat): string {
    Dec(time) + Dec(used)
  }

  /** The identifiers of the sessions started at these times, one after the other. */
  function Ids(times: seq<nat>, incremental: nat): (ids: seq<string>)
    ensures |ids| == |times|
    decreases |times|
  {
    if times == [] then []
    else [IdOf(times[0], Used(incremental))] + Ids(times[1..], Used(incremental) + 1)
  }

  function Counter(started: nat): nat {
    started % 4294967295
  }

  lemma CounterNext(started: nat)
    ensures Counter(started + 1) == if Counter(started) + 1 == PERIOD then 0 else Counter(started) + 1
  {}

  /** The counter cycles: the k-th session carries k modulo the period. */
  lemma {:induction false} IdAt(times: seq<nat>, incremental: nat, started: nat, k: nat, n: nat)
    requires Used(incremental) == Counter(started) && k < |times| && n == started + k
    ensures Ids(times, incremental)[k] == IdOf(times[k], Counter(n))
    decreases |times|
  {
    if k > 0 {
      CounterNext(started);
      IdAt(times[1..], Used(incremental) + 1, started + 1, k - 1, n);
    }
  }

  lemma IdFromStart(times: seq<nat>, k: nat)
    requires k < |times|
    ensures Ids(times, 0)[k] == IdOf(times[k], Counter(k))
  {
    CounterStarts();
    IdAt(times, 0, 0, k, k);
  }

  lemma CounterStarts()
    ensures Used(0) == Counter(0) == 0
  {}

  /** Ten digits: the years 2001 to 2286. */
  predicate TenDigits(time: nat) {
    1_000_000_000 <= time < 10_000_000_000
  }

  /** Although nothing separates time and counter, an identifier tells both. */
  lemma SameId(t: nat, c: nat, t': nat, c': nat)
    requires TenDigits(t) && TenDigits(t')
    ensures IdOf(t, c) == IdOf(t', c') <==> t == t' && c == c'
  {
    assert Pow10(9) == 1_000_000_000 && Pow10(10) == 10_000_000_000;
    DecLength(t, 9);
    DecLength(t', 9);
    if IdOf(t, c) == IdOf(t', c') {
      assert Dec(t) == IdOf(t, c)[..10] && Dec(t') == IdOf(t', c')[..10];
      assert Dec(c) == IdOf(t, c)[10..] && Dec(c') == IdOf(t', c')[10..];
      DecIsInjective(t, t');
      DecIsInjective(c, c');
    }
  }

  /** The first ten characters are the time's digits, the others the counter's. */
  lemma IdReads(t: nat, c: nat)
    requires TenDigits(t)
    ensures |IdOf(t, c)| > 10 && Spells(IdOf(t, c)[..10], t, 10) && Spells(IdOf(t, c)[10..], c, 10)
  {
    assert Pow10(9) == 1_000_000_000 && Pow10(10) == 10_000_000_000;
    DecLength(t, 9);
    DecSpells(t);
    DecSpells(c);
    assert IdOf(t, c)[..10] == Dec(t) && IdOf(t, c)[10..] == Dec(c);
  }

  /** Times of other widths can run into the counter. */
  lemma WidthMatters()
    ensures IdOf(1, 11) == IdOf(11, 1)
  {
    assert Dec(11) == "1" + "1" && Dec(1) == "1";
  }

  predicate Distinct(ids: seq<string>) {
    forall i, j | 0 <= i < j < |ids| :: ids[i] != ids[j]
  }

  predicate ClockRuns(times: seq<nat>) {
    && (forall i | 0 <= i < |times| :: TenDigits(times[i]))
    && (forall i, j | 0 <= i < j < |times| :: times[i] <= times[j])
  }

  /** No second sees more sessions than the counter has values. */
  ghost predicate NotTooMany(times: seq<nat>) {
    forall i, j | 0 <= i && j == i + PERIOD && j < |times| :: times[i] != times[j]
  }

  lemma PeriodApart(i: nat, j: nat)
    requires i < j && Counter(i) == Counter(j)
    ensures j >= i + PERIOD
  {}

  lemma OnePeriod(i: nat)
    ensures Counter(i + PERIOD) == Counter(i)
  {}

  /** The identifiers are pairwise distinct exactly when no second sees more than PERIOD
      sessions, as long as the clock does not go backwards and shows ten digits. */
  lemma IdsAreDistinct(times: seq<nat>)
    requires ClockRuns(times)
    ensures Distinct(Ids(times, 0)) <==> NotTooMany(times)
  {
    var ids := Ids(times, 0);
    forall i, j | 0 <= i < j < |times|
      ensures ids[i] == ids[j] <==> times[i] == times[j] && Counter(i) == Counter(j)
    {
      IdFromStart(times, i);
      IdFromStart(times, j);
      SameId(times[i], Counter(i), times[j], Counter(j));
    }
    if NotTooMany(times) {
      forall i, j | 0 <= i < j < |ids|
        ensures ids[i] != ids[j]
      {
        if Counter(i) == Counter(j) {
          PeriodApart(i, j);
          assert times[i] != times[i + PERIOD] && times[i] <= times[i + PERIOD];
          assert i + PERIOD < j ==> times[i + PERIOD] <= times[j];
        }
      }
    }
    if Distinct(ids) {
      forall i, j | 0 <= i && j == i + PERIOD && j < |times|
        ensures times[i] != times[j]
      {
        OnePeriod(i);
        assert ids[i] != ids[j];
      }
    }
  }

  // ------------------------------------------------------------ one session

  /** CVarVal, which the session changes in place. */
  class VarVal {
    var Var: string
    var Val: string

    constructor (name: string, value: string)
      ensures Var == name && Val == value
    {
      Var := name;
      Val := value;
    }
  }

  /** CSession. `Values` is the map its list of items stands for. */
  class Session {
    const ID: string
    var Items: seq<VarVal>
    ghost var Values: map<string, string>

    /** Two entries of one name are one object, so an update through either is seen. */
    ghost predicate Valid()
      reads this, Items
    {
      && (forall o | o in Items :: o.Var in Values && Values[o.Var] == o.Val)
      && (forall o, p | o in Items && p in Items && o.Var == p.Var :: o == p)
      && (forall name | name in Values :: exists o :: o in Items && o.Var == name)
    }

    constructor (id: string)
      ensures Valid() && ID == id && Items == [] && Values == map[]
    {
      ID := id;
      Items := [];
      Values := map[];
    }

    method Get(name: string) returns (vv: VarVal?)
      requires Valid()
      ensures vv == null <==> name !in Values
      ensures vv != null ==> vv in Items && vv.Var == name && vv.Val == Values[name]
    {
      for i := 0 to |Items|
        invariant forall j | 0 <= j < i :: Items[j].Var != name
      {
        if Items[i].Var == name {
          return Items[i];
        }
      }
      return null;
    }

    method GetStringValue(name: string) returns (value: string)
      requires Valid()
      ensures value == if name in Values then Values[name] else ""
    {
      var vv := Get(name);
      value := if vv == null then "" else vv.Val;
    }

    /** setStringValue: an existing item is changed in place and listed once more. */
    method SetStringValue(name: string, value: string)
      requires Valid()
      modifies this, set o | o in Items
      ensures Valid() && Values == old(Values)[name := value]
      ensures |Items| == |old(Items)| + 1 && Items[..|old(Items)|] == old(Items)
      ensures forall o | o in Items && o !in old(Items) :: fresh(o)
    {
      var vv := Get(name);
      if vv == null {
        vv := new VarVal(name, value);
      } else {
        vv.Var := name;
        vv.Val := value;
      }
      Items := Items + [vv];
      Values := Values[name := value];
      assert forall o :: o in Items <==> o in old(Items) || o == vv;
    }
  }

  /** The map after a sequence of settings. */
  function Settings(m: map<string, string>, calls: seq<(string, string)>): map<string, string>
    decreases |calls|
  {
    if calls == [] then m else Settings(m, calls[..|calls| - 1])[calls[|calls| - 1].0 := calls[|calls| - 1].1]
  }

  /** The value of the last setting of a name. */
  lemma {:induction false} LastSettingWins(calls: seq<(string, string)>, k: nat)
    requires k < |calls| && forall j | k < j < |calls| :: calls[j].0 != calls[k].0
    ensures calls[k].0 in Settings(map[], calls) && Settings(map[], calls)[calls[k].0] == calls[k].1
    decreases |calls|
  {
    if k < |calls| - 1 { LastSettingWins(calls[..|calls| - 1], k); }
  }

  /** Any sequence of settings on a new session leaves the map they say. */
  method SetAll(id: string, calls: seq<(string, string)>) returns (s: Session)
    ensures fresh(s) && s.Valid() && s.Values == Settings(map[], calls) && |s.Items| == |calls|
  {
    s := new Session(id);
    for i := 0 to |calls|
      invariant fresh(s) && s.Valid() && |s.Items| == i
      invariant forall o | o in s.Items :: fresh(o)
      invariant s.Values == Settings(map[], calls[..i])
    {
      s.SetStringValue(calls[i].0, calls[i].1);
      assert calls[..i + 1][..i] == calls[..i];
    }
    assert calls[..|calls|] == calls;
  }

  // ------------------------------------------------------------ the server's list

  /** The position of the first session with that identifier, or the number of sessions. */
  function FirstOf(ss: seq<Session>, id: string): (i: nat)
    ensures i <= |ss| && (i < |ss| ==> ss[i].ID == id)
  {
    if ss == [] || ss[0].ID == id then 0 else 1 + FirstOf(ss[1..], id)
  }

  lemma {:induction false} FirstOfIs(ss: seq<Session>, id: string, i: nat)
    requires i <= |ss| && (i < |ss| ==> ss[i].ID == id)
    requires forall j | 0 <= j < i :: ss[j].ID != id
    ensures FirstOf(ss, id) == i
  {
    if i > 0 { FirstOfIs(ss[1..], id, i - 1); }
  }

  function WithoutAt<T>(s: seq<T>, i: nat): seq<T> {
    if i >= |s| then s else s[..i] + s[i + 1..]
  }

  function Without(ss: seq<Session>, id: string): seq<Session> {
    WithoutAt(ss, FirstOf(ss, id))
  }

  /** Each session carries the identifier of its start, and the starts are in order. */
  ghost predicate Tracks(ss: seq<Session>, origin: seq<nat>, times: seq<nat>) {
    && |origin| == |ss|
    && (forall i, j | 0 <= i < j < |origin| :: origin[i] < origin[j])
    && (forall i | 0 <= i < |origin| :: origin[i] < |times| && ss[i].ID == Ids(times, 0)[origin[i]])
  }

  lemma TracksWithout(ss: seq<Session>, origin: seq<nat>, times: seq<nat>, i: nat)
    requires Tracks(ss, origin, times)
    ensures Tracks(WithoutAt(ss, i), WithoutAt(origin, i), times)
  {
    if i < |ss| {
      var ss', origin' := WithoutAt(ss, i), WithoutAt(origin, i);
      forall j | 0 <= j < |origin'|
        ensures origin'[j] < |times| && ss'[j].ID == Ids(times, 0)[origin'[j]]
      {
        WithoutAtIndex(ss, i, j);
        WithoutAtIndex(origin, i, j);
      }
      forall j, k | 0 <= j < k < |origin'|
        ensures origin'[j] < origin'[k]
      {
        WithoutAtIndex(origin, i, j);
        WithoutAtIndex(origin, i, k);
      }
    }
  }

  lemma WithoutAtIndex<T>(s: seq<T>, i: nat, j: nat)
    requires i < |s| && j < |s| - 1
    ensures WithoutAt(s, i)[j] == s[if j < i then j else j + 1]
  {}

  /** The sessions of CServer, with the static counter. `Started` are the times at which
      sessions were started, `Origin` says which of them each listed session is. */
  class SessionList {
    var Sessions: seq<Session>
    var Incremental: nat
    ghost var Started: seq<nat>
    ghost var Origin: seq<nat>

    ghost predicate Valid()
      reads this
    {
      Used(Incremental) == Counter(|Started|) && Tracks(Sessions, Origin, Started)
    }

    constructor ()
      ensures Valid() && Sessions == [] && Started == []
    {
      Sessions, Incremental := [], 0;
      Started, Origin := [], [];
    }

    /** startSession at the second `now`. */
    method StartSession(now: nat) returns (ses: Session)
      requires Valid()
      modifies this
      ensures Valid() && fresh(ses) && ses.Valid() && ses.Values == map[]
      ensures Started == old(Started) + [now] && Sessions == old(Sessions) + [ses]
      ensures Origin == old(Origin) + [|old(Started)|]
      ensures ses.ID == Ids(Started, 0)[|old(Started)|]
    {
      var used := if Incremental >= 4294967295 then 0 else Incremental;
      ses := new Session(IdOf(now, used));
      IdsGrow(Started, now);
      CounterNext(|Started|);
      Incremental := used + 1;
      Sessions := Sessions + [ses];
      Origin := Origin + [|Started|];
      Started := Started + [now];
    }

    /** getSession. */
    method GetSession(id: string) returns (ses: Session?)
      ensures var i := FirstOf(Sessions, id);
              if i == |Sessions| then ses == null else ses == Sessions[i]
    {
      for i := 0 to |Sessions|
        invariant forall j | 0 <= j < i :: Sessions[j].ID != id
      {
        if Sessions[i].ID == id {
          FirstOfIs(Sessions, id, i);
          return Sessions[i];
        }
      }
      FirstOfIs(Sessions, id, |Sessions|);
      return null;
    }

    /** destroySession: the first session with the identifier leaves the list. */
    method DestroySession(id: string)
      requires Valid()
      modifies this`Sessions, this`Origin
      ensures Valid() && Sessions == Without(old(Sessions), id)
      ensures Origin == WithoutAt(old(Origin), FirstOf(old(Sessions), id))
      ensures forall o | o in Origin :: o in old(Origin)
      ensures forall s | s in old(Sessions) && s.ID != id :: s in Sessions
    {
      var it := 0;
      while it < |Sessions| && Sessions[it].ID != id
        invariant it <= |Sessions| && forall j | 0 <= j < it :: Sessions[j].ID != id
      {
        it := it + 1;
      }
      FirstOfIs(Sessions, id, it);
      TracksWithout(Sessions, Origin, Started, it);
      WithoutAtKeeps(Origin, it);
      WithoutAtKeeps(Sessions, it);
      if it < |Sessions| {
        Sessions := Sessions[..it] + Sessions[it + 1..];
        Origin := Origin[..it] + Origin[it + 1..];
      }
    }
  }

  lemma IdsGrow(times: seq<nat>, now: nat)
    ensures Ids(times + [now], 0)[|times|] == IdOf(now, Counter(|times|))
    ensures forall k | 0 <= k < |times| :: Ids(times + [now], 0)[k] == Ids(times, 0)[k]
  {
    var all := times + [now];
    IdFromStart(all, |times|);
    forall k | 0 <= k < |times|
      ensures Ids(all, 0)[k] == Ids(times, 0)[k]
    {
      SameIdAt(times, all, k);
    }
  }

  lemma SameIdAt(times: seq<nat>, times': seq<nat>, k: nat)
    requires k < |times| && k < |times'| && times[k] == times'[k]
    ensures Ids(times, 0)[k] == Ids(times', 0)[k]
  {
    IdFromStart(times, k);
    IdFromStart(times', k);
  }

  predicate DistinctSessions(ss: seq<Session>) {
    forall i, j | 0 <= i < j < |ss| :: ss[i].ID != ss[j].ID
  }

  /** Among distinct identifiers a listed session is found under its own, is not found once
      it has been destroyed, and destroying it changes no other lookup. */
  lemma DistinctMeansFound(ss: seq<Session>, i: nat)
    requires DistinctSessions(ss) && i < |ss|
    ensures FirstOf(ss, ss[i].ID) == i
    ensures Without(ss, ss[i].ID) == ss[..i] + ss[i + 1..] && DistinctSessions(Without(ss, ss[i].ID))
    ensures FirstOf(Without(ss, ss[i].ID), ss[i].ID) == |ss| - 1
  {
    FirstOfIs(ss, ss[i].ID, i);
    var left := ss[..i] + ss[i + 1..];
    LeftDistinct(ss, i, left);
    FirstOfIs(left, ss[i].ID, |ss| - 1);
  }

  lemma LeftDistinct(ss: seq<Session>, i: nat, left: seq<Session>)
    requires DistinctSessions(ss) && i < |ss| && left == ss[..i] + ss[i + 1..]
    ensures DistinctSessions(left) && forall j | 0 <= j < |left| :: left[j].ID != ss[i].ID
  {
    assert forall j | 0 <= j < |left| :: left[j] == if j < i then ss[j] else ss[j + 1];
  }

  lemma StoredAreDistinct(list: SessionList)
    requires list.Valid() && ClockRuns(list.Started) && NotTooMany(list.Started)
    ensures DistinctSessions(list.Sessions)
  {
    IdsAreDistinct(list.Started);
    forall i, j | 0 <= i < j < |list.Sessions|
      ensures list.Sessions[i].ID != list.Sessions[j].ID
    {
      assert list.Origin[i] < list.Origin[j];
    }
  }

  // ------------------------------------------------------------ over time

  /** What the application asks of the server's list. */
  datatype Call = Start(now: nat) | Destroy(id: string)

  function StartTimes(calls: seq<Call>): seq<nat>
    decreases |calls|
  {
    if calls == [] then []
    else
      var last := calls[|calls| - 1];
      StartTimes(calls[..|calls| - 1]) + (if last.Start? then [last.now] else [])
  }

  lemma StartTimesPush(calls: seq<Call>, call: Call)
    ensures StartTimes(calls + [call]) == StartTimes(calls) + (if call.Start? then [call.now] else [])
  {
    assert (calls + [call])[..|calls|] == calls;
  }

  /** Removing one position keeps every other entry, and adds none. */
  lemma WithoutAtKeeps<T>(s: seq<T>, i: nat)
    ensures forall x | x in WithoutAt(s, i) :: x in s
    ensures forall x | x in s :: x in WithoutAt(s, i) || (i < |s| && x == s[i])
  {
    forall x | x in s
      ensures x in WithoutAt(s, i) || (i < |s| && x == s[i])
    {
      var k :| 0 <= k < |s| && s[k] == x;
      if i < |s| && k != i { assert WithoutAt(s, i)[if k < i then k else k - 1] == x; }
    }
  }

  /** Any sequence of starts and ends: sessions that are not ended stay, and one that is no
      longer listed never comes back. */
  method RunCalls(list: SessionList, calls: seq<Call>)
    requires list.Valid()
    modifies list
    ensures list.Valid() && list.Started == old(list.Started) + StartTimes(calls)
    ensures forall o | o in list.Origin && o < |old(list.Started)| :: o in old(list.Origin)
    ensures forall s | s in old(list.Sessions) && Destroy(s.ID) !in calls :: s in list.Sessions
  {
    ghost var times, origin, sessions := list.Started, list.Origin, list.Sessions;
    assert times + [] == times;
    for i := 0 to |calls|
      invariant list.Valid() && list.Started == times + StartTimes(calls[..i])
      invariant forall o | o in list.Origin && o < |times| :: o in origin
      invariant forall s | s in sessions && Destroy(s.ID) !in calls :: s in list.Sessions
    {
      StartTimesPush(calls[..i], calls[i]);
      assert calls[..i + 1] == calls[..i] + [calls[i]];
      match calls[i] {
        case Start(now) =>
          var _ := list.StartSession(now);
        case Destroy(id) =>
          list.DestroySession(id);
      }
    }
    assert calls[..|calls|] == calls;
  }

  /** While it is not ended, a stored session is what its identifier finds. */
  method StaysFound(list: SessionList, ghost ses: Session, id: string, calls: seq<Call>) returns (found: Session?)
    requires list.Valid() && ses in list.Sessions && ses.ID == id && Destroy(id) !in calls
    requires ClockRuns(list.Started + StartTimes(calls)) && NotTooMany(list.Started + StartTimes(calls))
    modifies list
    ensures list.Valid() && found == ses
  {
    RunCalls(list, calls);
    StoredAreDistinct(list);
    ghost var i :| 0 <= i < |list.Sessions| && list.Sessions[i] == ses;
    DistinctMeansFound(list.Sessions, i);
    found := list.GetSession(id);
  }

  /** Once ended, it is found no more, whatever sessions start and end after it. */
  method StaysGone(list: SessionList, id: string, calls: seq<Call>) returns (found: Session?)
    requires list.Valid() && exists s :: s in list.Sessions && s.ID == id
    requires ClockRuns(list.Started + StartTimes(calls)) && NotTooMany(list.Started + StartTimes(calls))
    modifies list
    ensures list.Valid() && found == null
  {
    ghost var before, i := list.Started, FirstOf(list.Sessions, id);
    FoundIfStored(list.Sessions, id);
    ghost var k := list.Origin[i];
    list.DestroySession(id);
    RunCalls(list, calls);
    NeverAgain(list, before, id, k);
    found := list.GetSession(id);
  }

  lemma {:induction false} FoundIfStored(ss: seq<Session>, id: string)
    requires exists s :: s in ss && s.ID == id
    ensures FirstOf(ss, id) < |ss|
  {
    if ss[0].ID != id { FoundIfStored(ss[1..], id); }
  }

  /** An identifier given out at the k-th start is found only while that start is listed. */
  lemma NeverAgain(list: SessionList, before: seq<nat>, id: string, k: nat)
    requires list.Valid() && ClockRuns(list.Started) && NotTooMany(list.Started)
    requires k < |before| && before <= list.Started && Ids(before, 0)[k] == id
    requires k !in list.Origin
    ensures FirstOf(list.Sessions, id) == |list.Sessions|
  {
    IdsAreDistinct(list.Started);
    SameIdAt(before, list.Started, k);
    forall j | 0 <= j < |list.Sessions|
      ensures list.Sessions[j].ID != id
    {
      var o := list.Origin[j];
      assert o in list.Origin && o != k;
      assert Ids(list.Started, 0)[o] != Ids(list.Started, 0)[k];
    }
  }

  /** A session is found under its identifier after its start, and not after its end. */
  method SessionLife(list: SessionList, now: nat) returns (id: string, found: Session?, gone: Session?)
    requires list.Valid() && ClockRuns(list.Started + [now]) && NotTooMany(list.Started + [now])
    modifies list
    ensures list.Valid() && list.Sessions == old(list.Sessions)
    ensures found != null && fresh(found) && found.ID == id && gone == null
  {
    var ses := list.StartSession(now);
    id := ses.ID;
    StoredAreDistinct(list);
    DistinctMeansFound(list.Sessions, |list.Sessions| - 1);
    found := list.GetSession(id);
    list.DestroySession(id);
    gone := list.GetSession(id);
  }
}
