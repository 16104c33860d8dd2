/** The acceptor and its workers (src/server/CServer.cpp:126-243, 422-429) as a state
    machine: every access to a shared variable is one step, and the steps of the acceptor,
    of any number of workers and of stop() interleave freely. */
module Workers {

  /** A thread identifier is never zero. */
  type ThreadId = n: nat | n > 0 witness 1

  /** Where the acceptor stands in run(). `slot` tells whether it left the loop with a
      connection already counted. */
  datatype Acceptor =
    | CheckStop
    | CheckLimit
    | Accept
    | Increment
    | CheckStopAgain
    | MakePackage
    | CreateThread
    | AssignId(worker: nat, id: ThreadId)
    | Closing(slot: bool)
    | WaitNodes(slot: bool)
    | Returned(slot: bool)

  /** Where a worker stands in thread_runNode() and runNode(). */
  datatype Worker = WaitId | Start | Register | Serving | Remove | Decrement | DeletePackage | Ended

  /** SServerPackage of one worker; a deleted one is not alive. */
  datatype Package = Package(id: nat, alive: bool)

  /** `packages` and `workers` are numbered alike, and a worker's node has its number.
      `fault` records an access to a deleted package, a node run under the identifier 0, or
      a counter that wraps around. */
  datatype State = State(limit: nat, stop: bool, count: nat, nodes: seq<nat>, acceptor: Acceptor,
                         packages: seq<Package>, workers: seq<Worker>, fault: bool)

  /** stop() sets the signal; AcceptorStep carries the identifier a new thread would get. */
  datatype Step = Stop | AcceptorStep(id: ThreadId) | WorkerStep(worker: nat)

  function Init(limit: nat): State {
    State(limit, false, 0, [], CheckStop, [], [], false)
  }

  // ------------------------------------------------------------ the steps

  function Plus(count: nat): nat {
    (count + 1) % 0x1_0000_0000
  }

  function Minus(count: nat): nat {
    (count - 1) % 0x1_0000_0000
  }

  function RunAcceptor(s: State, id: ThreadId): State {
    match s.acceptor
    case CheckStop => s.(acceptor := if s.stop then Closing(false) else CheckLimit)
    case CheckLimit => if s.count > s.limit then s else s.(acceptor := Accept)
    case Accept => s.(acceptor := Increment)
    case Increment =>
      s.(count := Plus(s.count), fault := s.fault || Plus(s.count) == 0, acceptor := CheckStopAgain)
    case CheckStopAgain => s.(acceptor := if s.stop then Closing(true) else MakePackage)
    case MakePackage => s.(packages := s.packages + [Package(0, true)], acceptor := CreateThread)
    case CreateThread =>
      s.(workers := s.workers + [WaitId], acceptor := AssignId(|s.workers|, id))
    case AssignId(w, tid) =>
      if w < |s.packages| && s.packages[w].alive
      then s.(packages := s.packages[w := Package(tid, true)], acceptor := CheckStop)
      else s.(fault := true, acceptor := CheckStop)
    case Closing(slot) => s.(acceptor := WaitNodes(slot))
    case WaitNodes(slot) => if s.nodes == [] then s.(acceptor := Returned(slot)) else s
    case Returned(slot) => s
  }

  /** removeNode: the first occurrence is erased. */
  function RemoveNode(nodes: seq<nat>, n: nat): seq<nat> {
    if nodes == [] then []
    else if nodes[0] == n then nodes[1..]
    else [nodes[0]] + RemoveNode(nodes[1..], n)
  }

  function RunWorker(s: State, w: nat): State
    requires w < |s.workers|
  {
    var known := w < |s.packages| && s.packages[w].alive;
    var id := if known then s.packages[w].id else 0;
    match s.workers[w]
    case WaitId => if !known then s.(fault := true) else if id == 0 then s else s.(workers := s.workers[w := Start])
    case Start => s.(workers := s.workers[w := Register], fault := s.fault || !known || id == 0)
    case Register => s.(nodes := s.nodes + [w], workers := s.workers[w := Serving])
    case Serving => s.(workers := s.workers[w := Remove])
    case Remove => s.(nodes := RemoveNode(s.nodes, w), workers := s.workers[w := Decrement])
    case Decrement =>
      s.(count := Minus(s.count), fault := s.fault || s.count == 0, workers := s.workers[w := DeletePackage])
    case DeletePackage =>
      if known
      then s.(packages := s.packages[w := Package(id, false)], workers := s.workers[w := Ended])
      else s.(fault := true, workers := s.workers[w := Ended])
    case Ended => s
  }

  /** A step of a worker that does not exist changes nothing. */
  function Apply(s: State, step: Step): State {
    match step
    case Stop => s.(stop := true)
    case AcceptorStep(id) => RunAcceptor(s, id)
    case WorkerStep(w) => if w < |s.workers| then RunWorker(s, w) else s
  }

  /** Any interleaving: the steps one after the other. */
  function Exec(s: State, steps: seq<Step>): State
    decreases |steps|
  {
    if steps == [] then s else Exec(Apply(s, steps[0]), steps[1..])
  }

  // ------------------------------------------------------------ counting

  /** A launched worker that has not yet given its slot back. */
  predicate Holds(w: Worker) {
    !(w.DeletePackage? || w.Ended?)
  }

  function Holding(ws: seq<Worker>): nat {
    if ws == [] then 0 else Holding(ws[..|ws| - 1]) + (if Holds(ws[|ws| - 1]) then 1 else 0)
  }

  lemma HoldingPush(ws: seq<Worker>, w: Worker)
    ensures Holding(ws + [w]) == Holding(ws) + (if Holds(w) then 1 else 0)
  {
    assert (ws + [w])[..|ws|] == ws;
  }

  lemma {:induction false} HoldingUpdate(ws: seq<Worker>, i: nat, w: Worker)
    requires i < |ws|
    ensures Holding(ws[i := w]) == Holding(ws) - (if Holds(ws[i]) then 1 else 0) + (if Holds(w) then 1 else 0)
    ensures Holds(ws[i]) ==> Holding(ws) > 0
    decreases |ws|
  {
    var n := |ws| - 1;
    if i < n {
      HoldingUpdate(ws[..n], i, w);
      assert ws[i := w][..n] == ws[..n][i := w];
    } else {
      assert ws[i := w][..n] == ws[..n];
    }
  }

  /** The slot the acceptor has taken without launching a worker for it. */
  function Slot(a: Acceptor): nat {
    match a
    case CheckStopAgain => 1
    case MakePackage => 1
    case CreateThread => 1
    case Closing(slot) => if slot then 1 else 0
    case WaitNodes(slot) => if slot then 1 else 0
    case Returned(slot) => if slot then 1 else 0
    case _ => 0
  }

  // ------------------------------------------------------------ invariants

  /** ThreadCount is exact, and bounded by one more than the limit. */
  predicate Accounting(s: State) {
    && s.limit + 1 < 0x1_0000_0000
    && s.count == Holding(s.workers) + Slot(s.acceptor)
    && s.count <= s.limit + 1
    && (s.acceptor.Accept? || s.acceptor.Increment? ==> s.count <= s.limit)
  }

  /** Packages live as long as their workers need them, and every worker but the one whose
      identifier is about to be assigned has its identifier. */
  predicate Handover(s: State) {
    && |s.packages| == |s.workers| + (if s.acceptor.CreateThread? then 1 else 0)
    && (s.acceptor.CreateThread? ==> s.packages[|s.workers|] == Package(0, true))
    && (s.acceptor.AssignId? ==> s.acceptor.worker == |s.workers| - 1 && s.workers[s.acceptor.worker] == WaitId)
    && (forall w | 0 <= w < |s.workers| ::
          && s.packages[w].alive == !s.workers[w].Ended?
          && (s.packages[w].id == 0 <==> s.acceptor.AssignId? && w == s.acceptor.worker))
  }

  predicate Listed(w: Worker) {
    w.Serving? || w.Remove?
  }

  predicate NoDuplicates(nodes: seq<nat>) {
    forall i, j | 0 <= i < j < |nodes| :: nodes[i] != nodes[j]
  }

  /** Nodes holds the nodes being served, each once. */
  predicate Lists(nodes: seq<nat>, ws: seq<Worker>) {
    && NoDuplicates(nodes)
    && (forall n | n in nodes :: n < |ws|)
    && (forall w | 0 <= w < |ws| :: w in nodes <==> Listed(ws[w]))
  }

  predicate Registry(s: State) {
    Lists(s.nodes, s.workers)
  }

  predicate Inv(s: State) {
    Accounting(s) && Handover(s) && Registry(s) && !s.fault
  }

  // ------------------------------------------------------------ one step

  lemma {:induction false} Removed(nodes: seq<nat>, n: nat)
    requires NoDuplicates(nodes)
    ensures NoDuplicates(RemoveNode(nodes, n))
    ensures forall m :: m in RemoveNode(nodes, n) <==> m in nodes && m != n
  {
    if nodes != [] {
      var rest := nodes[1..];
      Removed(rest, n);
      assert nodes == [nodes[0]] + rest && nodes[0] !in rest;
      if nodes[0] != n { Prepended(nodes[0], RemoveNode(rest, n)); }
    }
  }

  /** In any list the first occurrence is erased, and only that one. */
  lemma {:induction false} FirstIsErased(a: seq<nat>, n: nat, b: seq<nat>)
    requires n !in a
    ensures RemoveNode(a + [n] + b, n) == a + b && RemoveNode(a, n) == a
  {
    if a == [] {
      assert a + [n] + b == [n] + b && a + b == b;
    } else {
      var rest := a[1..];
      assert (a + [n] + b)[1..] == rest + [n] + b && a == [a[0]] + rest;
      FirstIsErased(rest, n, b);
      assert [a[0]] + (rest + b) == a + b;
    }
  }

  lemma Prepended(n: nat, nodes: seq<nat>)
    requires NoDuplicates(nodes) && n !in nodes
    ensures NoDuplicates([n] + nodes)
  {}

  lemma PlusOne(count: nat)
    requires count + 1 < 0x1_0000_0000
    ensures Plus(count) == count + 1
  {}

  lemma MinusOne(count: nat)
    requires 0 < count < 0x1_0000_0000
    ensures Minus(count) == count - 1
  {}

  lemma AcceptorKeepsAccounting(s: State, id: ThreadId)
    requires Inv(s)
    ensures Accounting(RunAcceptor(s, id)) && !RunAcceptor(s, id).fault
  {
    match s.acceptor {
      case Increment => TakesSlot(s, id);
      case CreateThread => FillsSlot(s, id);
      case AssignId(_, _) =>
      case _ => KeepsSlots(s, id);
    }
  }

  lemma TakesSlot(s: State, id: ThreadId)
    requires Inv(s) && s.acceptor.Increment?
    ensures Accounting(RunAcceptor(s, id)) && !RunAcceptor(s, id).fault
  {
    PlusOne(s.count);
  }

  lemma FillsSlot(s: State, id: ThreadId)
    requires Inv(s) && s.acceptor.CreateThread?
    ensures Accounting(RunAcceptor(s, id)) && !RunAcceptor(s, id).fault
  {
    HoldingPush(s.workers, WaitId);
  }

  lemma KeepsSlots(s: State, id: ThreadId)
    requires Inv(s) && !s.acceptor.Increment? && !s.acceptor.CreateThread? && !s.acceptor.AssignId?
    ensures Accounting(RunAcceptor(s, id)) && !RunAcceptor(s, id).fault
  {}

  lemma AcceptorKeepsHandover(s: State, id: ThreadId)
    requires Inv(s)
    ensures Handover(RunAcceptor(s, id))
  {
    match s.acceptor {
      case MakePackage => MakeKeepsHandover(s, id);
      case CreateThread => LaunchKeepsHandover(s, id);
      case AssignId(_, _) => AssignKeepsHandover(s, id);
      case _ =>
    }
  }

  lemma MakeKeepsHandover(s: State, id: ThreadId)
    requires Inv(s) && s.acceptor.MakePackage?
    ensures Handover(RunAcceptor(s, id))
  {}

  lemma LaunchKeepsHandover(s: State, id: ThreadId)
    requires Inv(s) && s.acceptor.CreateThread?
    ensures Handover(RunAcceptor(s, id))
  {}

  lemma AssignKeepsHandover(s: State, id: ThreadId)
    requires Inv(s) && s.acceptor.AssignId?
    ensures Handover(RunAcceptor(s, id))
  {}

  lemma AcceptorKeepsRegistry(s: State, id: ThreadId)
    requires Inv(s)
    ensures Registry(RunAcceptor(s, id))
  {
    var t := RunAcceptor(s, id);
    assert t.nodes == s.nodes && forall w | 0 <= w < |s.workers| :: t.workers[w] == s.workers[w];
  }

  lemma WorkerKeepsAccounting(s: State, w: nat)
    requires Inv(s) && w < |s.workers|
    ensures Accounting(RunWorker(s, w)) && !RunWorker(s, w).fault
  {
    var t := RunWorker(s, w);
    HoldingUpdate(s.workers, w, t.workers[w]);
    assert s.workers[w := s.workers[w]] == s.workers;
    if s.workers[w].Decrement? { MinusOne(s.count); }
  }

  lemma WorkerKeepsHandover(s: State, w: nat)
    requires Inv(s) && w < |s.workers|
    ensures Handover(RunWorker(s, w))
  {}

  lemma WorkerKeepsRegistry(s: State, w: nat)
    requires Inv(s) && w < |s.workers|
    ensures Registry(RunWorker(s, w))
  {
    match s.workers[w] {
      case Register => Enters(s.nodes, s.workers, w);
      case Remove => Leaves(s.nodes, s.workers, w);
      case _ =>
        var x := RunWorker(s, w).workers[w];
        assert s.workers[w := s.workers[w]] == s.workers;
        StaysListed(s.nodes, s.workers, w, x);
    }
  }

  lemma Enters(nodes: seq<nat>, ws: seq<Worker>, w: nat)
    requires Lists(nodes, ws) && w < |ws| && ws[w].Register?
    ensures Lists(nodes + [w], ws[w := Serving])
  {}

  lemma Leaves(nodes: seq<nat>, ws: seq<Worker>, w: nat)
    requires Lists(nodes, ws) && w < |ws| && ws[w].Remove?
    ensures Lists(RemoveNode(nodes, w), ws[w := Decrement])
  {
    Removed(nodes, w);
  }

  lemma StaysListed(nodes: seq<nat>, ws: seq<Worker>, w: nat, x: Worker)
    requires Lists(nodes, ws) && w < |ws| && Listed(ws[w]) == Listed(x)
    ensures Lists(nodes, ws[w := x])
  {}

  /** Every step keeps the invariant. */
  lemma StepKeeps(s: State, step: Step)
    requires Inv(s)
    ensures Inv(Apply(s, step))
  {
    match step
    case Stop =>
    case AcceptorStep(id) =>
      AcceptorKeepsAccounting(s, id);
      AcceptorKeepsHandover(s, id);
      AcceptorKeepsRegistry(s, id);
    case WorkerStep(w) =>
      if w < |s.workers| {
        WorkerKeepsAccounting(s, w);
        WorkerKeepsHandover(s, w);
        WorkerKeepsRegistry(s, w);
      }
  }

  lemma {:induction false} RunKeeps(s: State, steps: seq<Step>)
    requires Inv(s)
    ensures Inv(Exec(s, steps))
    decreases |steps|
  {
    if steps != [] {
      StepKeeps(s, steps[0]);
      RunKeeps(Apply(s, steps[0]), steps[1..]);
    }
  }

  // ------------------------------------------------------------ all runs

  /** In every interleaving the counter is exact and bounded, no counter wraps, no package
      is touched once deleted, no node runs without its identifier, and the nodes listed
      are those being served. */
  lemma EveryRunIsSafe(limit: nat, steps: seq<Step>)
    requires limit + 1 < 0x1_0000_0000
    ensures var s := Exec(Init(limit), steps);
            && !s.fault
            && s.count == Holding(s.workers) + Slot(s.acceptor) <= limit + 1
            && NoDuplicates(s.nodes)
            && (forall w: nat :: w in s.nodes <==> w < |s.workers| && Listed(s.workers[w]))
            && |s.workers| <= |s.packages|
            && (forall w | 0 <= w < |s.workers| && !s.workers[w].WaitId? :: s.packages[w].id != 0)
  {
    RunKeeps(Init(limit), steps);
    LimitStays(Init(limit), steps);
  }

  /** Whoever takes the next step in any run: packages are alive when they are read, written
      or deleted, a node runs under its own identifier, and no counter is about to wrap. */
  lemma EveryAccessIsGood(limit: nat, steps: seq<Step>)
    requires limit + 1 < 0x1_0000_0000
    ensures var s := Exec(Init(limit), steps);
            && (forall w | 0 <= w < |s.workers| && !s.workers[w].Ended? :: w < |s.packages| && s.packages[w].alive)
            && (forall w | 0 <= w < |s.workers| && s.workers[w].Start? :: s.packages[w].id != 0)
            && (forall w | 0 <= w < |s.workers| && s.workers[w].Decrement? :: s.count > 0)
            && (s.acceptor.AssignId? ==> s.acceptor.worker < |s.packages| && s.packages[s.acceptor.worker].alive)
            && (s.acceptor.Increment? ==> s.count + 1 < 0x1_0000_0000)
  {
    RunKeeps(Init(limit), steps);
    var s := Exec(Init(limit), steps);
    forall w | 0 <= w < |s.workers| && s.workers[w].Decrement?
      ensures s.count > 0
    {
      HoldingUpdate(s.workers, w, s.workers[w]);
    }
    LimitStays(Init(limit), steps);
  }

  lemma {:induction false} LimitStays(s: State, steps: seq<Step>)
    ensures Exec(s, steps).limit == s.limit
    decreases |steps|
  {
    if steps != [] { LimitStays(Apply(s, steps[0]), steps[1..]); }
  }

  /** Whether the acceptor is past its second look at the stop signal. */
  function Committed(a: Acceptor): nat {
    if a.MakePackage? || a.CreateThread? then 1 else 0
  }

  /** Once stop() has set the signal, at most one more worker is launched, and only by an
      acceptor that was already committed to it. */
  lemma {:induction false} AfterStop(s: State, steps: seq<Step>)
    requires s.stop
    ensures |s.workers| <= |Exec(s, steps).workers| <= |s.workers| + Committed(s.acceptor)
    decreases |steps|
  {
    if steps != [] {
      OneAfterStop(s, steps[0]);
      AfterStop(Apply(s, steps[0]), steps[1..]);
    }
  }

  lemma OneAfterStop(s: State, step: Step)
    requires s.stop
    ensures var t := Apply(s, step);
            && t.stop && |s.workers| <= |t.workers|
            && |t.workers| + Committed(t.acceptor) <= |s.workers| + Committed(s.acceptor)
  {
    if step.WorkerStep? && step.worker < |s.workers| { WorkersStay(s, step.worker); }
  }

  /** A worker's step concerns its own place in the list of workers, and not the acceptor. */
  lemma WorkersStay(s: State, w: nat)
    requires w < |s.workers|
    ensures var t := RunWorker(s, w);
            && |t.workers| == |s.workers| && t.acceptor == s.acceptor && t.stop == s.stop
            && (forall v | 0 <= v < |s.workers| && v != w :: t.workers[v] == s.workers[v])
            && (t.workers[w] == s.workers[w] || Rank(t.workers[w]) == Rank(s.workers[w]) + 1)
  {}

  // ------------------------------------------------------------ one pass a worker

  function Rank(w: Worker): nat {
    match w
    case WaitId => 0
    case Start => 1
    case Register => 2
    case Serving => 3
    case Remove => 4
    case Decrement => 5
    case DeletePackage => 6
    case Ended => 7
  }

  /** 1 if worker `w` exists and has left the stage of rank `r` behind. */
  function Past(s: State, w: nat, r: nat): nat {
    if w < |s.workers| && Rank(s.workers[w]) > r then 1 else 0
  }

  /** How often worker `w` takes the step out of the stage of rank `r` in a run. */
  function Times(s: State, steps: seq<Step>, w: nat, r: nat): nat
    decreases |steps|
  {
    if steps == [] then 0
    else
      var t := Apply(s, steps[0]);
      (if steps[0] == WorkerStep(w) && w < |s.workers| && Rank(s.workers[w]) == r && t.workers[w] != s.workers[w]
       then 1 else 0) + Times(t, steps[1..], w, r)
  }

  lemma StepPasses(s: State, step: Step, w: nat, r: nat)
    requires r < 7
    ensures var t := Apply(s, step);
            Past(t, w, r) == Past(s, w, r)
              + (if step == WorkerStep(w) && w < |s.workers| && Rank(s.workers[w]) == r && t.workers[w] != s.workers[w]
                 then 1 else 0)
  {
    if step.WorkerStep? && step.worker < |s.workers| { WorkersStay(s, step.worker); }
  }

  lemma {:induction false} RunPasses(s: State, steps: seq<Step>, w: nat, r: nat)
    requires r < 7
    ensures Times(s, steps, w, r) == Past(Exec(s, steps), w, r) - Past(s, w, r)
    decreases |steps|
  {
    if steps != [] {
      StepPasses(s, steps[0], w, r);
      RunPasses(Apply(s, steps[0]), steps[1..], w, r);
    }
  }

  /** In every run a worker's node enters the list at most once and leaves it at most once;
      it leaves only after it entered, and the counter is decremented only after it left. */
  lemma OncePerWorker(limit: nat, steps: seq<Step>, w: nat)
    ensures var entered, left, decremented :=
              Times(Init(limit), steps, w, 2), Times(Init(limit), steps, w, 4), Times(Init(limit), steps, w, 5);
            decremented <= left <= entered <= 1
  {
    RunPasses(Init(limit), steps, w, 2);
    RunPasses(Init(limit), steps, w, 4);
    RunPasses(Init(limit), steps, w, 5);
  }

  // ------------------------------------------------------------ faults

  predicate Alive(s: State, w: nat) {
    w < |s.packages| && s.packages[w].alive
  }

  /** What must never happen: a package used after its deletion, a node without identifier,
      a counter that wraps around. */
  predicate BadAccess(s: State, step: Step) {
    match step
    case Stop => false
    case AcceptorStep(_) =>
      || (s.acceptor.AssignId? && !Alive(s, s.acceptor.worker))
      || (s.acceptor.Increment? && (s.count + 1) % 0x1_0000_0000 == 0)
    case WorkerStep(w) => w < |s.workers| && BadWorkerAccess(s, w)
  }

  predicate BadWorkerAccess(s: State, w: nat)
    requires w < |s.workers|
  {
    match s.workers[w]
    case WaitId => !Alive(s, w)
    case Start => !Alive(s, w) || s.packages[w].id == 0
    case Decrement => s.count == 0
    case DeletePackage => !Alive(s, w)
    case _ => false
  }

  /** Just that is recorded as a fault. */
  lemma FaultIsBadAccess(s: State, step: Step)
    ensures Apply(s, step).fault <==> s.fault || BadAccess(s, step)
  {}

  /** Only two steps change the counter, and it is an unsigned int. */
  lemma OnlyTwoStepsCount(s: State, step: Step)
    ensures var more := step.AcceptorStep? && s.acceptor.Increment?;
            var less := step.WorkerStep? && step.worker < |s.workers| && s.workers[step.worker].Decrement?;
            && (more ==> Apply(s, step).count == (s.count + 1) % 0x1_0000_0000)
            && (less ==> Apply(s, step).count == (s.count - 1) % 0x1_0000_0000)
            && (!more && !less ==> Apply(s, step).count == s.count)
  {}

  // ------------------------------------------------------------ who waits

  /** The acceptor stands still exactly when the limit is exceeded at its look at it, when
      nodes are left at the end, and when run() has returned. */
  lemma AcceptorWaits(s: State, id: ThreadId)
    ensures RunAcceptor(s, id) == s <==>
              || (s.acceptor.CheckLimit? && s.count > s.limit)
              || (s.acceptor.WaitNodes? && s.nodes != [])
              || s.acceptor.Returned?
  {}

  /** A worker stands still exactly when its identifier is not assigned, and when it has
      ended; otherwise its step takes it one stage further. */
  lemma WorkerWaits(s: State, w: nat)
    requires Inv(s) && w < |s.workers|
    ensures RunWorker(s, w) == s <==> (s.workers[w].WaitId? && s.packages[w].id == 0) || s.workers[w].Ended?
    ensures RunWorker(s, w) != s ==> Rank(RunWorker(s, w).workers[w]) == Rank(s.workers[w]) + 1
  {
    var t := RunWorker(s, w);
    assert t.workers[w] != s.workers[w] ==> t != s;
    assert s.workers[w].WaitId? ==> s.workers[w := Start][w] == Start;
  }

  /** A worker with its identifier can always go on to its end. */
  lemma {:induction false} WorkerCanEnd(s: State, w: nat) returns (steps: seq<Step>)
    requires Inv(s) && w < |s.workers| && s.packages[w].id != 0
    ensures |Exec(s, steps).workers| > w && Exec(s, steps).workers[w] == Ended
    decreases 7 - Rank(s.workers[w])
  {
    if s.workers[w].Ended? {
      steps := [];
    } else {
      var t := Apply(s, WorkerStep(w));
      WorkerWaits(s, w);
      WorkersStay(s, w);
      StepKeeps(s, WorkerStep(w));
      assert !t.acceptor.AssignId? || t.acceptor.worker != w;
      var more := WorkerCanEnd(t, w);
      steps := [WorkerStep(w)] + more;
      assert steps[1..] == more;
    }
  }

  // ------------------------------------------------------------ when run() returns

  /** A worker whose node has not been listed yet. */
  predicate Early(w: Worker) {
    w.WaitId? || w.Start? || w.Register?
  }

  /** run() returns in a state where every worker is not yet listed or already removed. */
  lemma ReturnSees(s: State, id: ThreadId)
    requires Inv(s) && s.acceptor.WaitNodes? && RunAcceptor(s, id).acceptor.Returned?
    ensures forall w | 0 <= w < |s.workers| :: Early(s.workers[w]) || Rank(s.workers[w]) >= 5
  {}

  predicate Quiet(s: State) {
    && s.acceptor.Returned? && s.nodes == []
    && (forall w | 0 <= w < |s.workers| :: Rank(s.workers[w]) >= 5)
  }

  lemma QuietStep(s: State, step: Step)
    requires Quiet(s)
    ensures Quiet(Apply(s, step))
  {
    if step.WorkerStep? && step.worker < |s.workers| { WorkersStay(s, step.worker); }
  }

  lemma {:induction false} QuietStays(s: State, steps: seq<Step>)
    requires Quiet(s)
    ensures Exec(s, steps).nodes == []
    decreases |steps|
  {
    if steps != [] {
      QuietStep(s, steps[0]);
      QuietStays(Apply(s, steps[0]), steps[1..]);
    }
  }

  /** An early worker can always go on and list its node, once its identifier is assigned. */
  lemma {:induction false} EarlyCanRegister(s: State, w: nat) returns (steps: seq<Step>)
    requires Inv(s) && s.acceptor.Returned? && w < |s.workers| && Early(s.workers[w])
    ensures w in Exec(s, steps).nodes
    decreases 3 - Rank(s.workers[w])
  {
    var t := Apply(s, WorkerStep(w));
    StepKeeps(s, WorkerStep(w));
    if s.workers[w].Register? {
      steps := [WorkerStep(w)];
      assert Exec(t, []) == t && steps[1..] == [];
      assert t.nodes[|s.nodes|] == w;
    } else {
      var more := EarlyCanRegister(t, w);
      steps := [WorkerStep(w)] + more;
      assert steps[1..] == more;
    }
  }

  /** Exactly when a worker was still early at the return of run(), a node can be served
      after it: waiting for an empty list does not wait for every worker. */
  lemma NodesAfterReturn(s: State)
    requires Inv(s) && s.acceptor.Returned? && s.nodes == []
    ensures (exists steps :: Exec(s, steps).nodes != []) <==> exists w :: 0 <= w < |s.workers| && Early(s.workers[w])
  {
    if w :| 0 <= w < |s.workers| && Early(s.workers[w]) {
      var steps := EarlyCanRegister(s, w);
      assert Exec(s, steps).nodes != [];
    } else {
      forall steps
        ensures Exec(s, steps).nodes == []
      {
        assert forall w | 0 <= w < |s.workers| :: Listed(s.workers[w]) ==> w in s.nodes;
        QuietStays(s, steps);
      }
    }
  }

  // ------------------------------------------------------------ a run that shows it

  lemma {:induction false} ExecConcat(s: State, a: seq<Step>, b: seq<Step>)
    ensures Exec(s, a + b) == Exec(Exec(s, a), b)
    decreases |a|
  {
    if a == [] {
      assert a + b == b;
    } else {
      assert (a + b)[1..] == a[1..] + b;
      ExecConcat(Apply(s, a[0]), a[1..], b);
    }
  }

  lemma Three(s: State, a: Step, b: Step, c: Step)
    ensures Exec(s, [a, b, c]) == Apply(Apply(Apply(s, a), b), c)
  {
    assert [a, b, c][1..] == [b, c] && [b, c][1..] == [c] && [c][1..] == [];
    var t := Apply(s, a);
    assert Exec(s, [a, b, c]) == Exec(t, [b, c]);
    assert Exec(t, [b, c]) == Exec(Apply(t, b), [c]);
  }

  lemma Prefixed(s: State, steps: seq<Step>, t: State, a: Step, b: Step, c: Step)
    requires Exec(s, steps) == t
    ensures Exec(s, steps + [a, b, c]) == Apply(Apply(Apply(t, a), b), c)
  {
    ExecConcat(s, steps, [a, b, c]);
    Three(t, a, b, c);
  }

  lemma PrefixedTwo(s: State, steps: seq<Step>, t: State, a: Step, b: Step)
    requires Exec(s, steps) == t
    ensures Exec(s, steps + [a, b]) == Apply(Apply(t, a), b)
  {
    ExecConcat(s, steps, [a, b]);
    assert [a, b][1..] == [b] && [b][1..] == [];
    assert Exec(t, [a, b]) == Exec(Apply(t, a), [b]);
  }

  function Launched(limit: nat, id: ThreadId): State {
    State(limit, true, 1, [], CheckStop, [Package(id, true)], [WaitId], false)
  }

  /** stop() is called right after a thread was created, before the thread got anywhere. */
  lemma StopAfterLaunch(limit: nat, id: ThreadId) returns (steps: seq<Step>)
    requires limit + 1 < 0x1_0000_0000
    ensures Exec(Init(limit), steps) == Launched(limit, id)
  {
    var a := AcceptorStep(id);
    var s0 := Init(limit);
    var s1 := s0.(acceptor := Increment);
    var s2 := s0.(count := 1, packages := [Package(0, true)], acceptor := CreateThread);
    Prefixed(s0, [], s0, a, a, a);
    Prefixed(s0, [] + [a, a, a], s1, a, a, a);
    Prefixed(s0, [] + [a, a, a] + [a, a, a], s2, a, a, Stop);
    steps := [] + [a, a, a] + [a, a, a] + [a, a, Stop];
  }

  lemma Returning(limit: nat, id: ThreadId)
    ensures var a := AcceptorStep(id);
            Apply(Apply(Apply(Launched(limit, id), a), a), a) == Launched(limit, id).(acceptor := Returned(false))
  {}

  /** run() can return while a launched worker has not listed its node. */
  lemma ReturnBeforeRegistration(limit: nat, id: ThreadId) returns (steps: seq<Step>)
    requires limit + 1 < 0x1_0000_0000
    ensures var s := Exec(Init(limit), steps);
            s.acceptor.Returned? && s.nodes == [] && s.workers == [WaitId] && Inv(s)
  {
    var a := AcceptorStep(id);
    var before := StopAfterLaunch(limit, id);
    Prefixed(Init(limit), before, Launched(limit, id), a, a, a);
    Returning(limit, id);
    steps := before + [a, a, a];
    RunKeeps(Init(limit), steps);
  }

  /** A stop during accept() leaves a slot that is counted but never launched. */
  lemma SlotIsAbandoned(limit: nat, id: ThreadId) returns (steps: seq<Step>)
    requires limit + 1 < 0x1_0000_0000
    ensures Exec(Init(limit), steps) == State(limit, true, 1, [], Returned(true), [], [], false)
  {
    var a, s0 := AcceptorStep(id), Init(limit);
    var s1 := s0.(stop := true, acceptor := Accept);
    var s2 := s1.(count := 1, acceptor := Closing(true));
    Prefixed(s0, [], s0, a, a, Stop);
    PlusOne(0);
    Prefixed(s0, [] + [a, a, Stop], s1, a, a, a);
    PrefixedTwo(s0, [] + [a, a, Stop] + [a, a, a], s2, a, a);
    steps := [] + [a, a, Stop] + [a, a, a] + [a, a];
  }

  // ------------------------------------------------------------ a run that fills the limit

  /** `n` workers are serving their nodes, and the acceptor looks at the limit. */
  function Crowd(limit: nat, n: nat): State {
    State(limit, false, n, seq(n, i requires 0 <= i < n => i), CheckLimit,
          seq(n, _ => Package(1, true)), seq(n, _ => Serving), false)
  }

  lemma OneJoins(limit: nat, n: nat, steps: seq<Step>) returns (longer: seq<Step>)
    requires n <= limit && limit + 1 < 0x1_0000_0000 && Exec(Init(limit), steps) == Crowd(limit, n)
    ensures Exec(Init(limit), longer) == Crowd(limit, n + 1)
  {
    var a, w, c := AcceptorStep(1), WorkerStep(n), Crowd(limit, n);
    var s1 := c.(count := n + 1, acceptor := CheckStopAgain);
    var s2 := s1.(packages := c.packages + [Package(0, true)], workers := c.workers + [WaitId], acceptor := AssignId(n, 1));
    var s3 := s2.(packages := c.packages + [Package(1, true)], workers := c.workers + [Start], acceptor := CheckLimit);
    Prefixed(Init(limit), steps, c, a, a, a);
    PlusOne(n);
    Prefixed(Init(limit), steps + [a, a, a], s1, a, a, a);
    Assigned(s2, n);
    Prefixed(Init(limit), steps + [a, a, a] + [a, a, a], s2, a, a, w);
    PrefixedTwo(Init(limit), steps + [a, a, a] + [a, a, a] + [a, a, w], s3, w, w);
    Joined(c, s3, n);
    longer := steps + [a, a, a] + [a, a, a] + [a, a, w] + [w, w];
  }

  lemma Assigned(s: State, n: nat)
    requires |s.packages| == |s.workers| == n + 1 && s.packages[n] == Package(0, true) && s.workers[n] == WaitId
    requires s.acceptor == AssignId(n, 1) && !s.stop
    ensures Apply(Apply(Apply(s, AcceptorStep(1)), AcceptorStep(1)), WorkerStep(n))
         == s.(packages := s.packages[..n] + [Package(1, true)], workers := s.workers[..n] + [Start], acceptor := CheckLimit)
  {
    assert s.packages[n := Package(1, true)] == s.packages[..n] + [Package(1, true)];
    assert s.workers[n := Start] == s.workers[..n] + [Start];
  }

  lemma Joined(c: State, s: State, n: nat)
    requires c == Crowd(c.limit, n)
    requires s == c.(count := n + 1, packages := c.packages + [Package(1, true)], workers := c.workers + [Start])
    ensures Apply(Apply(s, WorkerStep(n)), WorkerStep(n)) == Crowd(c.limit, n + 1)
  {
    var t := s.(workers := c.workers + [Register]);
    assert s.workers[n := Register] == t.workers && Apply(s, WorkerStep(n)) == t;
    assert t.workers[n := Serving] == Crowd(c.limit, n + 1).workers;
    assert c.nodes + [n] == Crowd(c.limit, n + 1).nodes;
    assert s.packages == Crowd(c.limit, n + 1).packages;
  }

  lemma {:induction false} CrowdIsReached(limit: nat, n: nat) returns (steps: seq<Step>)
    requires n <= limit + 1 < 0x1_0000_0000
    ensures Exec(Init(limit), steps) == Crowd(limit, n)
  {
    if n == 0 {
      steps := [AcceptorStep(1)];
      assert steps[1..] == [];
      assert Exec(Init(limit), steps) == Apply(Init(limit), AcceptorStep(1));
    } else {
      var before := CrowdIsReached(limit, n - 1);
      steps := OneJoins(limit, n - 1, before);
    }
  }

  /** The bound is reached: limit + 1 nodes can be served at once, and only then does the
      acceptor wait. */
  lemma LimitIsReached(limit: nat, id: ThreadId) returns (steps: seq<Step>)
    requires limit + 1 < 0x1_0000_0000
    ensures var s := Exec(Init(limit), steps);
            && |s.nodes| == limit + 1 && NoDuplicates(s.nodes) && s.count == limit + 1
            && (forall w | 0 <= w < |s.workers| :: s.workers[w].Serving?) && |s.workers| == limit + 1
            && s.acceptor.CheckLimit? && RunAcceptor(s, id) == s
  {
    steps := CrowdIsReached(limit, limit + 1);
  }
}
