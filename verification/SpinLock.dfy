/** Threads and the spin locks of collections (tCollection.c, tBarrel.c).

    Each collection has one lock word.  Collection_Request spins until it has changed the word
    from 0 to 1, Collection_Release writes 0.  A thread runs Barrel_Roll, Barrel_DeltaSize or
    Collection_Transcribe one lock operation at a time; any interleaving of threads is a run.  Nodes are numbered in
    physical order, `0..nodes - 1`; larger numbers are buckets. */
module SpinLock {
  import opened Wrappers

  /** Where a thread is.  A roll has gone from node `first` up to, not including, `next`; `back`
      says that it is returning, `grows` that it makes room for the node in front of `first`.  A
      resize copies the barrels of its own node, which it does not lock: it shrinks before the roll
      of the nodes behind, or grows after it.  A transcribe has passed `stage` of its lock operations: request
      the target, request the source, (copy,) release the target, release the source. */
  datatype Thread =
    | Idle
    | Roll(up: bool, first: nat, next: nat, back: bool, grows: bool)
    | Resize(node: nat, up: bool)
    | Copy(trg: nat, src: nat, stage: nat)

  /** `locked` holds the collections whose lock word is 1; `leaked` those a failed roll has left
      locked. */
  datatype System = System(nodes: nat, locked: set<nat>, threads: seq<Thread>, leaked: set<nat>)

  /** The lock a thread is about to request. */
  function Wants(th: Thread, nodes: nat): Option<nat> {
    match th
    case Idle => None
    case Resize(_, _) => None
    case Roll(_, _, next, back, _) => if !back && next < nodes then Some(next) else None
    case Copy(trg, src, stage) => if stage == 0 then Some(trg) else if stage == 1 then Some(src) else None
  }

  /** The locks a thread has requested and not yet released. */
  predicate Holds(th: Thread, id: nat) {
    match th
    case Idle => false
    case Resize(_, _) => false
    case Roll(_, first, next, _, _) => first <= id < next
    case Copy(trg, src, stage) => (id == trg && 1 <= stage <= 2) || (id == src && 2 <= stage <= 3)
  }

  // ---- Steps --------------------------------------------------------------------------------

  datatype Action = Begin(th: Thread) | Request | Turn | Fail | Release | Finish

  function Set(s: System, t: nat, th: Thread): System
    requires t < |s.threads|
  {
    s.(threads := s.threads[t := th])
  }

  predicate Enabled(s: System, t: nat, a: Action) {
    t < |s.threads| &&
    var th := s.threads[t];
    match a
    case Begin(op) =>
      th.Idle? &&
      match op {
        case Idle => false
        case Roll(up, first, next, back, grows) => first == next < s.nodes && !back && (grows ==> up && 0 < first)
        case Resize(node, up) => node < s.nodes && (up ==> node == s.nodes - 1)
        case Copy(_, _, stage) => stage == 0
      }
    case Request => Wants(th, s.nodes).Some? && Wants(th, s.nodes).value !in s.locked
    case Turn => th.Roll? && !th.back && th.next == s.nodes
    case Fail => th.Roll? && th.up && !th.back && th.next == s.nodes
    case Release => (th.Roll? && th.back) || (th.Copy? && 2 <= th.stage <= 3)
    case Finish => th.Resize?
  }

  /** What follows the last release of a roll, and what follows the copying of a resize. */
  function Rest(th: Thread, nodes: nat): Thread {
    match th
    case Idle => Idle
    case Roll(up, first, _, _, grows) => if grows && 0 < first then Resize(first - 1, true) else Idle
    case Resize(node, up) => if !up && node + 1 < nodes then Roll(false, node + 1, node + 1, false, false) else Idle
    case Copy(_, _, _) => Idle
  }

  function Do(s: System, t: nat, a: Action): System
    requires Enabled(s, t, a)
  {
    var th := s.threads[t];
    match a
    case Begin(op) => Set(s, t, op)
    case Request =>
      Set(s, t, if th.Roll? then th.(next := th.next + 1) else th.(stage := th.stage + 1))
        .(locked := s.locked + {Wants(th, s.nodes).value})
    case Turn => Set(s, t, th.(back := true))
    case Fail => Set(s, t, Idle).(leaked := s.leaked + set id: nat | id < th.next && Holds(th, id))
    case Release =>
      if th.Roll? then
        if th.next <= th.first then Set(s, t, Rest(th, s.nodes))
        else Set(s, t, th.(next := th.next - 1)).(locked := s.locked - {th.next - 1})
      else
        Set(s, t, if th.stage == 2 then th.(stage := 3) else Idle)
          .(locked := s.locked - {if th.stage == 2 then th.trg else th.src})
    case Finish => Set(s, t, Rest(th, s.nodes))
  }

  // ---- At most one holder -------------------------------------------------------------------

  predicate Held(s: System, id: nat) {
    exists t :: 0 <= t < |s.threads| && Holds(s.threads[t], id)
  }

  predicate WellFormed(th: Thread, nodes: nat) {
    match th
    case Idle => true
    case Roll(up, first, next, _, grows) => first < nodes && first <= next <= nodes && (grows ==> up && 0 < first)
    case Resize(node, _) => node < nodes
    case Copy(trg, src, stage) => stage <= 3 && (2 <= stage ==> trg != src)
  }

  /** The lock words say exactly what is held or leaked, and nothing is held twice. */
  ghost predicate Inv(s: System) {
    && (forall t :: 0 <= t < |s.threads| ==> WellFormed(s.threads[t], s.nodes))
    && (forall id: nat :: id in s.locked <==> id in s.leaked || Held(s, id))
    && (forall id: nat :: id in s.leaked ==> !Held(s, id))
    && (forall t, u, id ::
         0 <= t < |s.threads| && 0 <= u < |s.threads| && Holds(s.threads[t], id) && Holds(s.threads[u], id) ==> t == u)
  }

  function Start(nodes: nat, threads: nat): System {
    System(nodes, {}, seq(threads, _ => Idle), {})
  }

  lemma StartInv(nodes: nat, threads: nat)
    ensures Inv(Start(nodes, threads))
  {
  }

  /** The locks held change by at most one per step. */
  lemma HeldChange(s: System, t: nat, th: Thread, id: nat)
    requires t < |s.threads| && Inv(s)
    ensures Held(Set(s, t, th), id) <==> Holds(th, id) || (Held(s, id) && !Holds(s.threads[t], id))
  {
    var s' := Set(s, t, th);
    if Holds(th, id) {
      assert Holds(s'.threads[t], id);
    } else if Held(s, id) && !Holds(s.threads[t], id) {
      var u :| 0 <= u < |s.threads| && Holds(s.threads[u], id);
      assert Holds(s'.threads[u], id);
    }
  }

  /** Every step of every thread keeps the invariant. */
  lemma StepInv(s: System, t: nat, a: Action)
    requires Inv(s) && Enabled(s, t, a)
    ensures Inv(Do(s, t, a))
  {
    var s' := Do(s, t, a);
    forall id: nat
      ensures Held(s', id) <==> Holds(s'.threads[t], id) || (Held(s, id) && !Holds(s.threads[t], id))
    {
      HeldChange(s, t, s'.threads[t], id);
    }
    forall id: nat
      ensures id in s'.locked <==> id in s'.leaked || Held(s', id)
      ensures id in s'.leaked ==> !Held(s', id)
    {
      assert Holds(s.threads[t], id) ==> Held(s, id);
    }
  }

  /** A run: any thread may make the next step. */
  predicate Plays(s: System, steps: seq<(nat, Action)>)
    decreases |steps|
  {
    steps == [] || (Enabled(s, steps[0].0, steps[0].1) && Plays(Do(s, steps[0].0, steps[0].1), steps[1..]))
  }

  function After(s: System, steps: seq<(nat, Action)>): System
    requires Plays(s, steps)
    decreases |steps|
  {
    if steps == [] then s else After(Do(s, steps[0].0, steps[0].1), steps[1..])
  }

  lemma {:induction false} RunInv(s: System, steps: seq<(nat, Action)>)
    requires Inv(s) && Plays(s, steps)
    ensures Inv(After(s, steps))
    decreases |steps|
  {
    if steps != [] {
      StepInv(s, steps[0].0, steps[0].1);
      RunInv(Do(s, steps[0].0, steps[0].1), steps[1..]);
    }
  }

  /** The collection whose barrels a thread is copying: a roll up copies on its way back, a roll
      down on its way out, a resize all the time; a transcribe copies between both of its
      collections. */
  predicate Copying(th: Thread, id: nat) {
    match th
    case Idle => false
    case Roll(up, first, next, back, _) => first < next && id == next - 1 && (if up then back else !back)
    case Resize(node, _) => id == node
    case Copy(trg, src, stage) => stage == 2 && (id == trg || id == src)
  }

  /** In every interleaving, two threads copy one collection at the same time only while one of them
      is resizing it: rolls and transcribes never overlap. */
  lemma NoOverlap(nodes: nat, threads: nat, steps: seq<(nat, Action)>, t: nat, u: nat, id: nat)
    requires Plays(Start(nodes, threads), steps)
    requires var s := After(Start(nodes, threads), steps);
             t < |s.threads| && u < |s.threads| && Copying(s.threads[t], id) && Copying(s.threads[u], id)
    ensures var s := After(Start(nodes, threads), steps);
            t == u || s.threads[t].Resize? || s.threads[u].Resize?
  {
    StartInv(nodes, threads);
    RunInv(Start(nodes, threads), steps);
    var s := After(Start(nodes, threads), steps);
    if !s.threads[t].Resize? && !s.threads[u].Resize? {
      assert Holds(s.threads[t], id) && Holds(s.threads[u], id);
    }
  }

  /** And while a thread is resizing a node that is not locked, whatever else is going on, an idle
      thread can come to copy the same node. */
  lemma ResizeOverlaps(s: System, t: nat, u: nat, src: nat) returns (steps: seq<(nat, Action)>)
    requires Inv(s) && t < |s.threads| && u < |s.threads| && s.threads[u].Resize? && s.threads[t].Idle?
    requires s.threads[u].node !in s.locked && src !in s.locked && src != s.threads[u].node
    ensures Plays(s, steps)
    ensures var s' := After(s, steps);
            var id := s.threads[u].node;
            t < |s'.threads| && u < |s'.threads| && Copying(s'.threads[t], id) && Copying(s'.threads[u], id)
  {
    var back;
    steps, back := CopyRuns(s, t, s.threads[u].node, src);
  }

  /** One node, two threads: one shrinks the node while the other transcribes from bucket 1 to it. */
  lemma ShrinkOverlapsTranscribe() returns (steps: seq<(nat, Action)>)
    ensures Plays(Start(1, 2), steps)
    ensures var s := After(Start(1, 2), steps);
            |s.threads| == 2 && Copying(s.threads[0], 0) && Copying(s.threads[1], 0)
  {
    StartInv(1, 2);
    var s := Do(Start(1, 2), 0, Begin(Resize(0, false)));
    StepInv(Start(1, 2), 0, Begin(Resize(0, false)));
    var rest := ResizeOverlaps(s, 1, 0, 1);
    steps := [(0, Begin(Resize(0, false)))] + rest;
    assert steps[1..] == rest;
    ThreadsStay(Start(1, 2), steps);
  }

  lemma {:induction false} ThreadsStay(s: System, steps: seq<(nat, Action)>)
    requires Plays(s, steps)
    ensures |After(s, steps).threads| == |s.threads|
    decreases |steps|
  {
    if steps != [] {
      ThreadsStay(Do(s, steps[0].0, steps[0].1), steps[1..]);
    }
  }

  // ---- Waiting ------------------------------------------------------------------------------

  /** Thread `t` spins on a lock that thread `u` holds. */
  predicate WaitsOn(s: System, t: nat, u: nat) {
    t < |s.threads| && u < |s.threads| &&
    var w := Wants(s.threads[t], s.nodes);
    w.Some? && Holds(s.threads[u], w.value)
  }

  predicate OnlyRolls(s: System) {
    forall t :: 0 <= t < |s.threads| ==> !s.threads[t].Copy?
  }

  /** Rolls hold earlier nodes and wait for a later one, so along a chain of waiting rolls the
      node waited for only goes up ... */
  lemma {:induction false} WaitingGoesUp(s: System, ts: seq<nat>)
    requires OnlyRolls(s) && |ts| >= 2 && ts[|ts| - 1] < |s.threads| && s.threads[ts[|ts| - 1]].Roll?
    requires forall i, j :: 0 <= i < |ts| && 0 <= j < |ts| && j == i + 1 ==> WaitsOn(s, ts[i], ts[j])
    ensures ts[0] < |s.threads| && s.threads[ts[0]].Roll?
    ensures s.threads[ts[0]].next < s.threads[ts[|ts| - 1]].next
    decreases |ts|
  {
    assert WaitsOn(s, ts[0], ts[1]);
    if |ts| > 2 {
      WaitingGoesUp(s, ts[1..]);
    }
  }

  /** ... and no chain of waiting rolls closes. */
  lemma NoWaitCycle(s: System, ts: seq<nat>)
    requires OnlyRolls(s) && |ts| >= 2
    requires forall i, j :: 0 <= i < |ts| && 0 <= j < |ts| && j == i + 1 ==> WaitsOn(s, ts[i], ts[j])
    ensures ts[0] != ts[|ts| - 1]
  {
    assert WaitsOn(s, ts[|ts| - 2], ts[|ts| - 1]);
    WaitingGoesUp(s, ts);
  }

  /** A read or write of a span: one side is a bucket of the thread's own. */
  predicate SpanCopy(s: System, t: nat)
    requires t < |s.threads| && s.threads[t].Copy?
  {
    var th := s.threads[t];
    (th.trg < s.nodes && th.src == s.nodes + t) || (th.src < s.nodes && th.trg == s.nodes + t)
  }

  /** Every transcribe copies a span, or copies from one node to a node in front of it. */
  predicate Forward(s: System) {
    forall t :: 0 <= t < |s.threads| && s.threads[t].Copy? ==>
      SpanCopy(s, t) || s.threads[t].trg < s.threads[t].src < s.nodes
  }

  lemma OwnBucketFree(s: System, t: nat)
    requires Inv(s) && Forward(s) && s.leaked == {} && t < |s.threads|
    requires !Holds(s.threads[t], s.nodes + t)
    ensures s.nodes + t !in s.locked
  {
    forall u | 0 <= u < |s.threads|
      ensures !Holds(s.threads[u], s.nodes + t)
    {
      assert WellFormed(s.threads[u], s.nodes);
      if s.threads[u].Copy? {
        assert SpanCopy(s, u) || s.threads[u].trg < s.threads[u].src < s.nodes;
      }
    }
  }

  /** How far the lock a thread asks for is from the last one in the order of locking: buckets
      first, then the nodes in physical order, then no lock. */
  function Ahead(th: Thread, nodes: nat): nat {
    var w := Wants(th, nodes);
    if w.None? then 0 else if w.value < nodes then nodes - w.value else nodes + 1
  }

  /** Threads that run rolls, none of which has failed, resizes and such transcribes never come to a
      stop: while one of them is busy, some thread can make a step. */
  lemma {:induction false} Progress(s: System, t: nat) returns (r: nat, a: Action)
    requires Inv(s) && Forward(s) && s.leaked == {} && t < |s.threads| && !s.threads[t].Idle?
    ensures Enabled(s, r, a) && !a.Begin?
    decreases Ahead(s.threads[t], s.nodes)
  {
    var th := s.threads[t];
    var w := Wants(th, s.nodes);
    assert WellFormed(th, s.nodes);
    if w.None? {
      r, a := t, if th.Resize? then Finish else if th.Roll? && !th.back then Turn else Release;
    } else if w.value >= s.nodes {
      OwnBucketFree(s, t);
      r, a := t, Request;
    } else if w.value !in s.locked {
      r, a := t, Request;
    } else {
      assert Held(s, w.value);
      var u :| 0 <= u < |s.threads| && Holds(s.threads[u], w.value);
      if s.threads[u].Copy? && s.threads[u].stage == 1 && SpanCopy(s, u) && s.threads[u].src >= s.nodes {
        OwnBucketFree(s, u);
        r, a := u, Request;
      } else {
        HolderAhead(s, u, w.value);
        r, a := Progress(s, u);
      }
    }
  }

  /** A thread that holds a node asks for a later one, or for none, or for its own bucket. */
  lemma HolderAhead(s: System, u: nat, id: nat)
    requires Inv(s) && Forward(s) && u < |s.threads| && Holds(s.threads[u], id) && id < s.nodes
    requires var th := s.threads[u]; !(th.Copy? && th.stage == 1 && SpanCopy(s, u) && th.src >= s.nodes)
    ensures Ahead(s.threads[u], s.nodes) < s.nodes - id
  {
    assert WellFormed(s.threads[u], s.nodes);
  }

  // ---- Where waiting does not end -----------------------------------------------------------

  /** A transcribe of a collection onto itself spins for ever on its own lock. */
  lemma SelfTranscribeSpins(s: System, t: nat, id: nat, a: Action)
    requires Inv(s) && t < |s.threads| && s.threads[t] == Copy(id, id, 1)
    ensures !Enabled(s, t, a)
  {
    assert Holds(s.threads[t], id);
  }

  /** Every thread is busy, no roll has failed, and none can make a step. */
  ghost predicate Stopped(s: System) {
    && s.threads != [] && s.leaked == {} && (forall t :: 0 <= t < |s.threads| ==> !s.threads[t].Idle?)
    && forall t, a :: !Enabled(s, t, a)
  }

  /** The transcribes under way between two nodes are all from `src` to `trg`. */
  predicate Only(s: System, trg: nat, src: nat) {
    forall t :: 0 <= t < |s.threads| && s.threads[t].Copy? ==>
      SpanCopy(s, t) || (s.threads[t].trg == trg && s.threads[t].src == src)
  }

  /** Threads that transcribe from `src` to `trg`, roll, resize and copy spans can all be stopped. */
  ghost predicate CanStop(nodes: nat, trg: nat, src: nat) {
    exists threads: nat, steps ::
      Plays(Start(nodes, threads), steps)
      && var s := After(Start(nodes, threads), steps); Stopped(s) && Only(s, trg, src)
  }

  /** A transcribe between two nodes can be stopped, by one roll up from its source, exactly when its
      target, which it locks first, is not in front of its source. */
  lemma TranscribeStopsExact(nodes: nat, trg: nat, src: nat)
    requires trg < nodes && src < nodes
    ensures CanStop(nodes, trg, src) <==> src <= trg
  {
    if src <= trg {
      var steps := BackwardStops(nodes, trg, src);
      assert Only(After(Start(nodes, 2), steps), trg, src);
    } else {
      forall threads: nat, steps | Plays(Start(nodes, threads), steps)
        ensures var s := After(Start(nodes, threads), steps); !(Stopped(s) && Only(s, trg, src))
      {
        StartInv(nodes, threads);
        RunInv(Start(nodes, threads), steps);
        NodesStay(Start(nodes, threads), steps);
        var s := After(Start(nodes, threads), steps);
        if Stopped(s) && Only(s, trg, src) {
          var r, a := Progress(s, 0);
          assert false;
        }
      }
    }
  }

  lemma {:induction false} NodesStay(s: System, steps: seq<(nat, Action)>)
    requires Plays(s, steps)
    ensures After(s, steps).nodes == s.nodes
    decreases |steps|
  {
    if steps != [] {
      NodesStay(Do(s, steps[0].0, steps[0].1), steps[1..]);
    }
  }

  function Nodes(first: nat, next: nat): (r: set<nat>)
    ensures forall id :: id in r <==> first <= id < next
  {
    if next <= first then {} else Nodes(first, next - 1) + {next - 1}
  }

  /** The transcribe has locked `trg`; the roll has locked the nodes from `src` up to, not including,
      `next`. */
  function Meeting(nodes: nat, trg: nat, src: nat, next: nat): System
    requires src <= next <= trg
  {
    System(nodes, {trg} + Nodes(src, next), [Copy(trg, src, 1), Roll(true, src, next, false, false)], {})
  }

  lemma {:induction false} RollReaches(nodes: nat, trg: nat, src: nat, next: nat) returns (steps: seq<(nat, Action)>)
    requires src <= next <= trg < nodes
    ensures Plays(Meeting(nodes, trg, src, next), steps)
    ensures After(Meeting(nodes, trg, src, next), steps) == Meeting(nodes, trg, src, trg)
    decreases trg - next
  {
    steps := [];
    if next < trg {
      var s := Meeting(nodes, trg, src, next);
      var rest := RollReaches(nodes, trg, src, next + 1);
      steps := [(1, Request)] + rest;
      assert Do(s, 1, Request).locked == Meeting(nodes, trg, src, next + 1).locked;
      assert Do(s, 1, Request) == Meeting(nodes, trg, src, next + 1);
      assert steps[1..] == rest;
    }
  }

  /** One transcribe that holds its target and one roll going up from its source stop each other. */
  lemma BackwardStops(nodes: nat, trg: nat, src: nat) returns (steps: seq<(nat, Action)>)
    requires src <= trg < nodes
    ensures Plays(Start(nodes, 2), steps)
    ensures var s := After(Start(nodes, 2), steps);
            Stopped(s) && |s.threads| == 2 && s.threads[0] == Copy(trg, src, 1) && s.threads[1].Roll?
  {
    var s0 := Start(nodes, 2);
    var s1 := Do(s0, 0, Begin(Copy(trg, src, 0)));
    var s2 := Do(s1, 0, Request);
    var s3 := Do(s2, 1, Begin(Roll(true, src, src, false, false)));
    assert s3.locked == Meeting(nodes, trg, src, src).locked;
    assert s3 == Meeting(nodes, trg, src, src);
    var rest := RollReaches(nodes, trg, src, src);
    var last := Meeting(nodes, trg, src, trg);
    steps := [(1, Begin(Roll(true, src, src, false, false)))] + rest;
    assert steps[1..] == rest;
    assert Plays(s2, steps) && After(s2, steps) == last;
    steps := [(0, Request)] + steps;
    assert Plays(s1, steps) && After(s1, steps) == last;
    steps := [(0, Begin(Copy(trg, src, 0)))] + steps;
    assert Plays(s0, steps) && After(s0, steps) == last;
  }

  /** Two transcribes between the same two nodes in opposite directions can reach a state in
      which neither makes a step. */
  lemma CrossingTranscribesStop() returns (steps: seq<(nat, Action)>)
    ensures Plays(Start(2, 2), steps)
    ensures var s := After(Start(2, 2), steps);
            |s.threads| == 2 && !s.threads[0].Idle? && !s.threads[1].Idle?
            && forall t, a :: !Enabled(s, t, a)
  {
    var s0 := Start(2, 2);
    var s1 := Do(s0, 0, Begin(Copy(0, 1, 0)));
    var s2 := Do(s1, 1, Begin(Copy(1, 0, 0)));
    var s3 := Do(s2, 0, Request);
    var s4 := Do(s3, 1, Request);
    steps := [(1, Request)];
    assert Plays(s3, steps) && After(s3, steps) == s4;
    steps := [(0, Request)] + steps;
    assert Plays(s2, steps) && After(s2, steps) == s4;
    steps := [(1, Begin(Copy(1, 0, 0)))] + steps;
    assert Plays(s1, steps) && After(s1, steps) == s4;
    steps := [(0, Begin(Copy(0, 1, 0)))] + steps;
    assert Plays(s0, steps) && After(s0, steps) == s4;
  }

  /** Every roll or transcribe that comes to a node a failed roll has left locked stops there: over
      every further run the lock is never free again. */
  lemma {:induction false} LeakedForEver(s: System, steps: seq<(nat, Action)>)
    requires Inv(s) && Plays(s, steps)
    ensures s.leaked <= After(s, steps).leaked <= After(s, steps).locked
    decreases |steps|
  {
    if steps != [] {
      StepInv(s, steps[0].0, steps[0].1);
      LeakedForEver(Do(s, steps[0].0, steps[0].1), steps[1..]);
    }
  }

  /** A failed roll ends idle, and leaves exactly the nodes it has locked, from its first to the last,
      locked and held by no one. */
  lemma FailLeaks(s: System, t: nat)
    requires Inv(s) && Enabled(s, t, Fail)
    ensures var s' := Do(s, t, Fail);
            && s'.threads == s.threads[t := Idle] && s'.locked == s.locked && s'.nodes == s.nodes
            && (forall id: nat :: id in s'.leaked <==> id in s.leaked || s.threads[t].first <= id < s.nodes)
            && (forall id: nat :: s.threads[t].first <= id < s.nodes ==> id in s'.locked && !Held(s', id))
  {
    StepInv(s, t, Fail);
    forall id: nat | s.threads[t].first <= id < s.nodes ensures id in s.locked {
      assert Holds(s.threads[t], id);
    }
  }

  // ---- What an operation does when nothing is in its way --------------------------------------

  lemma {:induction false} PlaysPlus(s: System, a: seq<(nat, Action)>, b: seq<(nat, Action)>)
    requires Plays(s, a) && Plays(After(s, a), b)
    ensures Plays(s, a + b) && After(s, a + b) == After(After(s, a), b)
    decreases |a|
  {
    if a == [] {
      assert a + b == b;
    } else {
      assert (a + b)[1..] == a[1..] + b;
      PlaysPlus(Do(s, a[0].0, a[0].1), a[1..], b);
    }
  }

  lemma OneStep(s: System, t: nat, a: Action)
    requires Enabled(s, t, a)
    ensures Plays(s, [(t, a)]) && After(s, [(t, a)]) == Do(s, t, a)
  {
    var steps := [(t, a)];
    assert steps[1..] == [];
    assert Plays(Do(s, t, a), []);
  }

  /** Thread `t` is `th` and holds the nodes from `first` up to, not including, `next`. */
  predicate Taken(s: System, s': System, t: nat, first: nat, next: nat, th: Thread)
    requires t < |s.threads|
  {
    s' == s.(threads := s.threads[t := th], locked := s.locked + Nodes(first, next))
  }

  lemma {:induction false} GoesOut(s: System, s1: System, t: nat, up: bool, first: nat, next: nat, end: nat,
                                   grows: bool)
    returns (steps: seq<(nat, Action)>)
    requires t < |s.threads| && first <= next <= end <= s.nodes
    requires Taken(s, s1, t, first, next, Roll(up, first, next, false, grows))
    requires forall id: nat :: first <= id < s.nodes ==> id !in s.locked
    ensures Plays(s1, steps) && Taken(s, After(s1, steps), t, first, end, Roll(up, first, end, false, grows))
    decreases end - next
  {
    steps := [];
    if next < end {
      var s2 := Do(s1, t, Request);
      assert s2.threads == s.threads[t := Roll(up, first, next + 1, false, grows)];
      assert s2.locked == s.locked + Nodes(first, next + 1);
      OneStep(s1, t, Request);
      var rest := GoesOut(s, s2, t, up, first, next + 1, end, grows);
      PlaysPlus(s1, [(t, Request)], rest);
      steps := [(t, Request)] + rest;
    }
  }

  lemma {:induction false} ComesBack(s: System, s1: System, t: nat, up: bool, first: nat, next: nat, end: nat,
                                     grows: bool)
    returns (steps: seq<(nat, Action)>)
    requires t < |s.threads| && first <= end <= next <= s.nodes
    requires Taken(s, s1, t, first, next, Roll(up, first, next, true, grows))
    requires forall id: nat :: first <= id < s.nodes ==> id !in s.locked
    ensures Plays(s1, steps) && Taken(s, After(s1, steps), t, first, end, Roll(up, first, end, true, grows))
    decreases next
  {
    steps := [];
    if end < next {
      var s2 := Do(s1, t, Release);
      assert s2.threads == s.threads[t := Roll(up, first, next - 1, true, grows)];
      assert s2.locked == s.locked + Nodes(first, next - 1);
      OneStep(s1, t, Release);
      var rest := ComesBack(s, s2, t, up, first, next - 1, end, grows);
      PlaysPlus(s1, [(t, Release)], rest);
      steps := [(t, Release)] + rest;
    }
  }

  /** From the last node of a roll back to the node before the `end`-th. */
  lemma TurnsBack(s: System, all: System, t: nat, up: bool, first: nat, end: nat, grows: bool)
    returns (steps: seq<(nat, Action)>)
    requires t < |s.threads| && first <= end <= s.nodes
    requires Taken(s, all, t, first, s.nodes, Roll(up, first, s.nodes, false, grows))
    requires forall id: nat :: first <= id < s.nodes ==> id !in s.locked
    ensures Plays(all, steps) && Taken(s, After(all, steps), t, first, end, Roll(up, first, end, true, grows))
  {
    var turned := Do(all, t, Turn);
    assert turned.threads == s.threads[t := Roll(up, first, s.nodes, true, grows)];
    OneStep(all, t, Turn);
    steps := ComesBack(s, turned, t, up, first, s.nodes, end, grows);
    PlaysPlus(all, [(t, Turn)], steps);
    steps := [(t, Turn)] + steps;
  }

  /** ... and all the way back, to what follows the roll. */
  lemma ComesHome(s: System, all: System, t: nat, up: bool, first: nat, grows: bool) returns (steps: seq<(nat, Action)>)
    requires t < |s.threads| && first <= s.nodes
    requires Taken(s, all, t, first, s.nodes, Roll(up, first, s.nodes, false, grows))
    requires forall id: nat :: first <= id < s.nodes ==> id !in s.locked
    ensures Plays(all, steps)
    ensures After(all, steps) ==
              s.(threads := s.threads[t := if grows && 0 < first then Resize(first - 1, true) else Idle])
  {
    steps := TurnsBack(s, all, t, up, first, first, grows);
    var last := After(all, steps);
    OneStep(last, t, Release);
    PlaysPlus(all, steps, [(t, Release)]);
    assert s.locked + Nodes(first, first) == s.locked;
    var s' := Do(last, t, Release);
    assert s'.threads == s.threads[t := if grows && 0 < first then Resize(first - 1, true) else Idle];
    steps := steps + [(t, Release)];
  }

  /** A roll of nodes that are free locks them all, from its first to the last, and gives them all back;
      then it is done, or makes room used for growing the node in front of it. */
  lemma RollRuns(s: System, t: nat, up: bool, first: nat, grows: bool)
    returns (out: seq<(nat, Action)>, back: seq<(nat, Action)>)
    requires t < |s.threads| && s.threads[t].Idle? && first < s.nodes && (grows ==> up && 0 < first)
    requires forall id: nat :: first <= id < s.nodes ==> id !in s.locked
    ensures Plays(s, out) && out != [] && out[0] == (t, Begin(Roll(up, first, first, false, grows)))
    ensures var all := After(s, out);
            && all == System(s.nodes, s.locked + Nodes(first, s.nodes),
                             s.threads[t := Roll(up, first, s.nodes, false, grows)], s.leaked)
            && Plays(all, back)
            && After(all, back) == s.(threads := s.threads[t := if grows then Resize(first - 1, true) else Idle])
  {
    var begin := Begin(Roll(up, first, first, false, grows));
    var s1 := Do(s, t, begin);
    assert s1.locked == s.locked + Nodes(first, first);
    OneStep(s, t, begin);
    out := GoesOut(s, s1, t, up, first, first, s.nodes, grows);
    PlaysPlus(s, [(t, begin)], out);
    out := [(t, begin)] + out;
    back := ComesHome(s, After(s, out), t, up, first, grows);
  }

  /** On its way through free nodes a roll copies each of them: a roll up on its way back, a roll down on
      its way out. */
  lemma RollCopies(s: System, t: nat, up: bool, first: nat, id: nat) returns (steps: seq<(nat, Action)>)
    requires t < |s.threads| && s.threads[t].Idle? && first <= id < s.nodes
    requires forall id: nat :: first <= id < s.nodes ==> id !in s.locked
    ensures Plays(s, steps) && t < |After(s, steps).threads|
    ensures var th := After(s, steps).threads[t]; Copying(th, id) && th == Roll(up, first, id + 1, up, false)
  {
    var begin := Begin(Roll(up, first, first, false, false));
    var s1 := Do(s, t, begin);
    assert s1.locked == s.locked + Nodes(first, first);
    OneStep(s, t, begin);
    var end := if up then s.nodes else id + 1;
    steps := GoesOut(s, s1, t, up, first, first, end, false);
    PlaysPlus(s, [(t, begin)], steps);
    steps := [(t, begin)] + steps;
    if up {
      var all := After(s, steps);
      var back := TurnsBack(s, all, t, up, first, id + 1, false);
      PlaysPlus(s, steps, back);
      steps := steps + back;
    }
  }

  /** Growing a node: the nodes behind it are locked and rolled up, if there are any, then its barrels
      are copied with no lock taken, and everything is as it was. */
  lemma GrowRuns(s: System, t: nat, node: nat) returns (roll: seq<(nat, Action)>, copy: seq<(nat, Action)>)
    requires t < |s.threads| && s.threads[t].Idle? && node < s.nodes
    requires forall id: nat :: node < id < s.nodes ==> id !in s.locked
    ensures Plays(s, roll) && After(s, roll) == s.(threads := s.threads[t := Resize(node, true)])
    ensures node + 1 < s.nodes ==> roll != [] && roll[0] == (t, Begin(Roll(true, node + 1, node + 1, false, true)))
    ensures Plays(After(s, roll), copy) && After(After(s, roll), copy) == s
  {
    if node + 1 < s.nodes {
      var out, back := RollRuns(s, t, true, node + 1, true);
      PlaysPlus(s, out, back);
      roll := out + back;
    } else {
      OneStep(s, t, Begin(Resize(node, true)));
      roll := [(t, Begin(Resize(node, true)))];
    }
    var s1 := After(s, roll);
    OneStep(s1, t, Finish);
    copy := [(t, Finish)];
    assert Do(s1, t, Finish).threads == s.threads;
  }

  /** Shrinking the last node: only its own barrels are copied. */
  lemma LastShrinks(s: System, t: nat)
    requires t < |s.threads| && s.threads[t].Idle? && 0 < s.nodes
    ensures var steps := [(t, Begin(Resize(s.nodes - 1, false)))] + [(t, Finish)];
            Plays(s, steps) && After(s, steps) == s
  {
    var s1 := Do(s, t, Begin(Resize(s.nodes - 1, false)));
    OneStep(s, t, Begin(Resize(s.nodes - 1, false)));
    OneStep(s1, t, Finish);
    PlaysPlus(s, [(t, Begin(Resize(s.nodes - 1, false)))], [(t, Finish)]);
    assert Do(s1, t, Finish).threads == s.threads;
  }

  /** Shrinking a node: its barrels are copied first, and then the nodes behind it, if there are any,
      are locked and rolled down. */
  lemma ShrinkRuns(s: System, t: nat, node: nat) returns (out: seq<(nat, Action)>, back: seq<(nat, Action)>)
    requires t < |s.threads| && s.threads[t].Idle? && node + 1 < s.nodes
    requires forall id: nat :: node < id < s.nodes ==> id !in s.locked
    ensures Plays(s, out) && out != [] && out[0] == (t, Begin(Resize(node, false)))
    ensures var all := After(s, out);
            && all == System(s.nodes, s.locked + Nodes(node + 1, s.nodes),
                             s.threads[t := Roll(false, node + 1, s.nodes, false, false)], s.leaked)
            && Plays(all, back) && After(all, back) == s
  {
    var s1 := Do(s, t, Begin(Resize(node, false)));
    var s2 := Do(s1, t, Finish);
    OneStep(s, t, Begin(Resize(node, false)));
    OneStep(s1, t, Finish);
    PlaysPlus(s, [(t, Begin(Resize(node, false)))], [(t, Finish)]);
    assert s2.threads == s.threads[t := Roll(false, node + 1, node + 1, false, false)];
    assert s2.locked == s.locked + Nodes(node + 1, node + 1);
    out := GoesOut(s, s2, t, false, node + 1, node + 1, s.nodes, false);
    var first := [(t, Begin(Resize(node, false)))] + [(t, Finish)];
    PlaysPlus(s, first, out);
    out := first + out;
    back := ComesHome(s, After(s, out), t, false, node + 1, false);
    assert s.threads[t := Idle] == s.threads;
  }

  /** A transcribe between two free collections locks the target, then the source, copies, and gives
      both back. */
  lemma CopyRuns(s: System, t: nat, trg: nat, src: nat) returns (out: seq<(nat, Action)>, back: seq<(nat, Action)>)
    requires t < |s.threads| && s.threads[t].Idle? && trg != src && trg !in s.locked && src !in s.locked
    ensures out == [(t, Begin(Copy(trg, src, 0))), (t, Request), (t, Request)] && Plays(s, out)
    ensures var all := After(s, out);
            && all == System(s.nodes, s.locked + {trg, src}, s.threads[t := Copy(trg, src, 2)], s.leaked)
            && back == [(t, Release), (t, Release)] && Plays(all, back) && After(all, back) == s
    ensures Plays(s, out[..2]) && After(s, out[..2]).locked == s.locked + {trg}
  {
    var s1 := Do(s, t, Begin(Copy(trg, src, 0)));
    var s2 := Do(s1, t, Request);
    var s3 := Do(s2, t, Request);
    OneStep(s, t, Begin(Copy(trg, src, 0)));
    OneStep(s1, t, Request);
    OneStep(s2, t, Request);
    PlaysPlus(s, [(t, Begin(Copy(trg, src, 0)))], [(t, Request)]);
    out := [(t, Begin(Copy(trg, src, 0)))] + [(t, Request)];
    PlaysPlus(s, out, [(t, Request)]);
    assert (out + [(t, Request)])[..2] == out;
    out := out + [(t, Request)];
    assert s3.threads == s.threads[t := Copy(trg, src, 2)];
    assert s3.locked == s.locked + {trg, src};
    var s4 := Do(s3, t, Release);
    OneStep(s3, t, Release);
    OneStep(s4, t, Release);
    PlaysPlus(s3, [(t, Release)], [(t, Release)]);
    back := [(t, Release)] + [(t, Release)];
    assert Do(s4, t, Release).threads == s.threads;
    assert Do(s4, t, Release).locked == s.locked;
  }
}
