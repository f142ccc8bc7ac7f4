/** Whole runs of the barrel service (tBarrel.c).

    The abstract state is a table with one entry per node in order of creation: its unit size, its
    number of units and its logical bytes; and the size of the heap and of the part that holds
    records.  Where the barrels lie, how they are turned and what rolls out of the way does not show
    in it. */
module Runs {
  import opened Wrappers
  import opened Ring
  import opened Resize
  import opened Barrels
  import opened Chain
  import opened Bytes
  import opened Service
  import opened Refinement
  import opened Creation

  /** One node of the plain table. */
  datatype Entry = Entry(unitSize: nat, units: nat, bytes: seq<byte>)

  /** The plain table: how many barrels the heap has, how many of them hold records, the nodes. */
  datatype Table = Table(size: nat, records: nat, entries: seq<Entry>)

  function Shown(h: Heap, ix: nat): Entry
    requires Fits(h, ix)
  {
    Entry(NodeAt(h, ix).unitSize, NodeAt(h, ix).units, NodeBytes(h, ix))
  }

  /** The number of nodes whose runs lie inside the heap: all but a last one placed past its end. */
  function Placed(st: State): nat {
    if st.Count() > 0 && !Fits(st.heap, st.Count() - 1) then st.Count() - 1 else st.Count()
  }

  function Entries(h: Heap, t: nat): (a: seq<Entry>)
    requires Tiled(h, 0, t)
    ensures |a| == t
  {
    seq(t, ix requires 0 <= ix < t => Shown(h, ix))
  }

  function Abs(st: State): (a: Table)
    requires Tiled(st.heap, 0, Placed(st))
  {
    Table(|st.heap|, st.omegus.count, Entries(st.heap, Placed(st)))
  }

  // ---- Operations ---------------------------------------------------------------------------

  datatype Op =
    | Create(unitSize: nat, capacity: nat, src: Option<seq<byte>>)
    | Grow(ix: nat, d: nat)
    | Write(ix: nat, index: nat, data: seq<byte>)

  /** How a call ends: done, refused, or done with a node placed past the end of the heap. */
  datatype Outcome = Done | Refused | Outside

  /** The calls the model covers: units have a size, nodes exist, a growth stays in the range of
      an `int` of barrels, and a unit that is written has the size of one and lies inside one barrel:
      just then it ends inside its run however the node has been turned (`TurnsExact`). */
  predicate Covered(st: State, op: Op) {
    match op
    case Create(unitSize, _, _) => unitSize >= 1
    case Grow(ix, d) => ix < st.Count() && var n := NodeAt(st.heap, ix); Fit(n, d) - n.count < UINT / 2
    case Write(ix, index, data) =>
      ix < st.Count() && var n := NodeAt(st.heap, ix);
      |data| == n.unitSize && n.count > 0 && n.unitSize >= 1 && InBarrel(n.unitSize, index)
  }

  /** A unit write is covered exactly if the node exists, the unit has the node's size, and however the
      node is turned the unit ends inside its run. */
  lemma WriteCovered(st: State, ix: nat, index: nat, data: seq<byte>)
    requires Valid(st)
    ensures Covered(st, Write(ix, index, data)) <==>
              ix < st.Count() && var n := NodeAt(st.heap, ix);
              |data| == n.unitSize && forall o :: 1 <= o <= n.count ==> UnitIn(n.(offset := o), index)
  {
    if ix < st.Count() {
      var n := NodeAt(st.heap, ix);
      assert Fits(st.heap, ix);
      assert GoodRecord(n, ix, st.Count());
      TurnsExact(n, index);
    }
  }

  /** A growth is covered exactly if the node exists and gains less than 2^31 barrels. */
  lemma GrowCovered(st: State, ix: nat, d: nat)
    ensures Covered(st, Grow(ix, d)) <==>
              ix < st.Count() && var n := NodeAt(st.heap, ix);
              ((n.units + d) * n.unitSize + 31) / 32 - n.count < 0x8000_0000
  {
  }

  function OutcomeOf(made: Created): Outcome {
    match made case Made(_) => Done case NoRecord => Refused case PastEnd(_) => Outside
  }

  function Step(st: State, op: Op): (Outcome, State)
    requires Covered(st, op)
  {
    match op
    case Create(unitSize, capacity, src) =>
      var (made, st') := Sourced(st, unitSize, capacity, src); (OutcomeOf(made), st')
    case Grow(ix, d) => var (ok, st') := DeltaSize(st, ix, d); (if ok then Done else Refused, st')
    case Write(ix, index, data) => (Done, WriteUnit(st, ix, index, data))
  }

  /** A sequence of calls as far as it goes: how many were made, and the state after them. */
  datatype Played = Played(calls: nat, state: State)

  /** The calls in order.  A failed roll keeps its locks, and a later call may spin on them for
      ever: the run stops there.  It also stops behind a node placed past the end of the heap, and
      in front of a call that is not covered. */
  function Play(st: State, ops: seq<Op>): Played
    decreases |ops|
  {
    if ops == [] || !Covered(st, ops[0]) then Played(0, st)
    else
      var (out, st1) := Step(st, ops[0]);
      if out == Outside || !Free(st1) then Played(1, st1)
      else var p := Play(st1, ops[1..]); Played(p.calls + 1, p.state)
  }

  function Run(st: State, ops: seq<Op>): State { Play(st, ops).state }

  // ---- The abstract machine -----------------------------------------------------------------

  /** The barrels that the nodes hold. */
  function Held(a: seq<Entry>): nat {
    if a == [] then 0 else Held(a[..|a| - 1]) + |a[|a| - 1].bytes| / SIZE
  }

  function Used(a: Table): nat { a.records + Held(a.entries) }

  /** The barrels left for a new node once it has its record. */
  function Room(a: Table): int { a.size - Used(a) - (|a.entries| + 1 - a.records) }

  predicate AbsCovered(a: Table, op: Op) {
    match op
    case Create(unitSize, _, _) => unitSize >= 1
    case Grow(ix, d) => ix < |a.entries| && Extra(a.entries[ix], d) < UINT / 2
    case Write(ix, index, data) =>
      ix < |a.entries| && var e := a.entries[ix];
      |data| == e.unitSize && |e.bytes| > 0 && e.unitSize >= 1 && InBarrel(e.unitSize, index)
  }

  /** The barrels by which an entry has to grow, or may shrink, for `d` more units. */
  function Extra(e: Entry, d: nat): int {
    CeilDiv((e.units + d) * e.unitSize) - |e.bytes| / SIZE
  }

  /** What a call must come to, by the sizes in the table alone. */
  function Verdict(a: Table, op: Op): Outcome
    requires AbsCovered(a, op)
  {
    match op
    case Create(unitSize, capacity, _) =>
      if a.records == |a.entries| && Used(a) == a.size then Refused
      else if RoomFor(Needed(unitSize, capacity), Room(a)) then Done else Outside
    case Grow(ix, d) =>
      if d == 0 || Extra(a.entries[ix], d) <= 0 || Used(a) + Extra(a.entries[ix], d) <= a.size then Done else Refused
    case Write(_, _, _) => Done
  }

  /** The entry of a new node, given the room: the least power of two barrels that holds the bytes
      asked for or covers the room, as many units as fit, and the bytes of the source in front. */
  predicate NewEntry(unitSize: nat, capacity: nat, src: Option<seq<byte>>, room: int, e: Entry) {
    var count := CtorCount(1, Needed(unitSize, capacity), SIZE * room);
    && unitSize >= 1 && e.unitSize == unitSize && |e.bytes| == SIZE * count
    && e.units == CtorUnits(unitSize, Needed(unitSize, capacity), count)
    && (src.Some? ==> forall p :: 0 <= p < |src.value| && p < e.units * unitSize && p < |e.bytes| ==>
                        e.bytes[p] == src.value[p])
  }

  predicate Regrown(e: Entry, d: nat, e': Entry) {
    && e'.unitSize == e.unitSize && e'.units == e.units
    && |e'.bytes| == SIZE * CeilDiv((e.units + d) * e.unitSize)
    && e.units * e.unitSize <= |e.bytes| && e.units * e.unitSize <= |e'.bytes|
    && Agree(e.bytes, e'.bytes)
  }

  predicate OthersSame(a: seq<Entry>, a': seq<Entry>, ix: nat) {
    |a'| >= |a| && forall i :: 0 <= i < |a| && i != ix ==> a'[i] == a[i]
  }

  /** One call on the plain table.  It takes effect unless the table is too full for it: a creation
      is refused exactly when there is no barrel for its record, a growth exactly when its barrels do
      not fit.  Only the bytes a node gains are left open. */
  predicate AbsStep(a: Table, op: Op, a': Table) {
    AbsCovered(a, op) &&
    match Verdict(a, op)
    case Refused => a' == a
    case Outside => a' == a.(records := |a.entries| + 1)
    case Done => Effect(a, op, a')
  }

  predicate Effect(a: Table, op: Op, a': Table) {
    var es, es' := a.entries, a'.entries;
    a'.size == a.size &&
    match op
    case Create(unitSize, capacity, src) =>
      && a'.records == |es| + 1 && |es'| == |es| + 1 && OthersSame(es, es', |es|)
      && NewEntry(unitSize, capacity, src, Room(a), es'[|es|])
    case Grow(ix, d) =>
      && a'.records == a.records && |es'| == |es| && ix < |es| && OthersSame(es, es', ix)
      && if d == 0 then es'[ix] == es[ix] else Regrown(es[ix], d, es'[ix])
    case Write(ix, index, data) =>
      && a'.records == a.records && |es'| == |es| && ix < |es| && |es[ix].bytes| > 0 && OthersSame(es, es', ix)
      && es'[ix] == es[ix].(bytes := Overwrite(es[ix].bytes, (es[ix].unitSize * index) % |es[ix].bytes|, data))
  }

  /** The call is the last one: it has placed a node past the end of the heap, or it was refused
      after nodes had been asked to roll. */
  predicate Halts(a: Table, op: Op)
    requires AbsCovered(a, op)
  {
    match Verdict(a, op)
    case Done => false
    case Outside => true
    case Refused => if op.Grow? then op.ix + 1 < |a.entries| else a.entries != []
  }

  /** The abstract machine makes exactly `n` of the calls: all of them, but for those behind one
      that halts it or from the first on that is not covered. */
  ghost predicate AbsRun(a: Table, ops: seq<Op>, n: nat, a': Table)
    decreases |ops|
  {
    if ops == [] || !AbsCovered(a, ops[0]) then n == 0 && a' == a
    else if n == 0 then false
    else if Halts(a, ops[0]) then n == 1 && AbsStep(a, ops[0], a')
    else exists m :: AbsStep(a, ops[0], m) && AbsRun(m, ops[1..], n - 1, a')
  }

  /** One call done on the heap is the same call on the plain table, with the same outcome; unless
      it halts the run, the invariant holds. */
  predicate Refines(st: State, op: Op, out: Outcome, st': State)
    requires Valid(st)
  {
    && Tiled(st'.heap, 0, Placed(st')) && AbsCovered(Abs(st), op)
    && out == Verdict(Abs(st), op) && AbsStep(Abs(st), op, Abs(st'))
    && (Halts(Abs(st), op) <==> out == Outside || !Free(st'))
    && (!Halts(Abs(st), op) ==> Valid(st'))
  }

  // ---- Refinement ---------------------------------------------------------------------------

  lemma ShowsSame(h: Heap, h': Heap, ix: nat)
    requires Shows(h, h', ix)
    ensures Shown(h', ix) == Shown(h, ix)
  {
  }

  lemma ShowsAbs(st: State, st': State, ix: nat)
    requires Tiled(st.heap, 0, Placed(st)) && Tiled(st'.heap, 0, Placed(st')) && Placed(st) <= Placed(st')
    requires forall i :: 0 <= i < Placed(st) && i != ix ==> Shows(st.heap, st'.heap, i)
    ensures OthersSame(Abs(st).entries, Abs(st').entries, ix)
  {
    forall i | 0 <= i < Placed(st) && i != ix
      ensures Abs(st').entries[i] == Abs(st).entries[i]
    {
      assert Shows(st.heap, st'.heap, i);
      ShowsSame(st.heap, st'.heap, i);
    }
  }

  lemma AllPlaced(st: State)
    requires Tiled(st.heap, 0, st.Count())
    ensures Placed(st) == st.Count()
  {
    if st.Count() > 0 {
      assert Fits(st.heap, st.Count() - 1);
    }
  }

  lemma {:induction false} HeldIs(h: Heap, t: nat, k: nat, start: int)
    requires Tiled(h, 0, t) && k <= t && (t > 0 ==> Start(h, 0) == start)
    ensures start + Held(Entries(h, t)[..k]) == if k == 0 then start else Stop(h, k - 1)
  {
    if k > 0 {
      HeldIs(h, t, k - 1, start);
      var es := Entries(h, t);
      assert es[..k][..k - 1] == es[..k - 1];
      assert k > 1 ==> Stop(h, k - 2) == Start(h, k - 1);
    }
  }

  /** The barrels in use are those in front of the end. */
  lemma UsedIs(st: State)
    requires Valid(st)
    ensures Placed(st) == st.Count() && Used(Abs(st)) == st.End()
  {
    AllPlaced(st);
    var t := st.Count();
    HeldIs(st.heap, t, t, st.omegus.count);
    assert Entries(st.heap, t)[..t] == Entries(st.heap, t);
  }

  lemma CoveredIs(st: State, op: Op)
    requires Valid(st)
    ensures Placed(st) == st.Count() && (Covered(st, op) <==> AbsCovered(Abs(st), op))
  {
    AllPlaced(st);
  }

  lemma LockedShows(h: Heap, h': Heap, i: nat, j: nat, t: nat)
    requires Fits(h, i) && i < t <= Start(h, i) && OnlyLocked(h, h', j, t)
    ensures Shows(h, h', i) && Start(h', i) == Start(h, i) && Stop(h', i) == Stop(h, i)
  {
    var n := NodeAt(h, i);
    assert if i < j then h'[i] == h[i] else h'[i] == Record(n.(locked := true));
    LogicalFrame(h, h', n.start, n.count, n.offset);
  }

  lemma LockedTiled(h: Heap, h': Heap, j: nat, t: nat)
    requires Tiled(h, 0, t) && OnlyLocked(h, h', j, t)
    ensures Tiled(h', 0, t) && forall i :: 0 <= i < t ==> Shows(h, h', i)
  {
    forall i | 0 <= i < t
      ensures Shows(h, h', i) && Fits(h', i) && t <= Start(h', i)
      ensures Start(h', i) == Start(h, i) && Stop(h', i) == Stop(h, i)
    {
      LockedShows(h, h', i, j, t);
    }
  }

  /** A failed roll has only taken locks: runs and contents are the same. */
  lemma LockedAbs(st: State, st': State, j: nat)
    requires Tiled(st.heap, 0, st.Count()) && st'.omegus == st.omegus
    requires OnlyLocked(st.heap, st'.heap, j, st.Count())
    ensures Placed(st) == Placed(st') == st.Count() && Tiled(st'.heap, 0, st.Count()) && Abs(st') == Abs(st)
  {
    LockedTiled(st.heap, st'.heap, j, st.Count());
    AllPlaced(st);
    AllPlaced(st');
    ShowsAbs(st, st', st.Count());
    assert Abs(st').entries == Abs(st).entries;
  }

  lemma BytesAgree(h: Heap, h': Heap, ix: nat)
    requires Fits(h, ix) && Fits(h', ix) && Agree(View(h, ix), View(h', ix))
    ensures Agree(NodeBytes(h, ix), NodeBytes(h', ix))
  {
  }

  lemma GrowVerdict(st: State, ix: nat, d: nat)
    requires Valid(st) && Covered(st, Grow(ix, d))
    ensures Placed(st) == st.Count() && AbsCovered(Abs(st), Grow(ix, d))
    ensures var k := Fit(NodeAt(st.heap, ix), d) - NodeAt(st.heap, ix).count;
            Verdict(Abs(st), Grow(ix, d)) == if d == 0 || k <= 0 || st.End() + k <= |st.heap| then Done else Refused
  {
    CoveredIs(st, Grow(ix, d));
    UsedIs(st);
  }

  lemma GrowRefines(st: State, ix: nat, d: nat)
    requires Valid(st) && Free(st) && Covered(st, Grow(ix, d))
    ensures Refines(st, Grow(ix, d), Step(st, Grow(ix, d)).0, Step(st, Grow(ix, d)).1)
  {
    GrowVerdict(st, ix, d);
    if d == 0 {
      assert DeltaSize(st, ix, d) == (true, st);
    } else {
      ResizeKeeps(st, ix, d);
      if DeltaSize(st, ix, d).0 {
        GrowDone(st, DeltaSize(st, ix, d).1, ix, d);
      } else {
        GrowRefused(st, DeltaSize(st, ix, d).1, ix, d);
      }
    }
  }

  lemma GrowDone(st: State, st': State, ix: nat, d: nat)
    requires Valid(st) && Valid(st') && Free(st') && Covered(st, Grow(ix, d)) && d >= 1 && st' == st.(heap := st'.heap)
    requires Resized(st.heap, st'.heap, ix, st.Count(), Fit(NodeAt(st.heap, ix), d) - NodeAt(st.heap, ix).count)
    requires Placed(st) == st.Count() && AbsCovered(Abs(st), Grow(ix, d)) && Verdict(Abs(st), Grow(ix, d)) == Done
    ensures Refines(st, Grow(ix, d), Done, st')
  {
    GrownRefines(st, st', ix, d);
  }

  lemma GrowRefused(st: State, st': State, ix: nat, d: nat)
    requires Valid(st) && Free(st) && Covered(st, Grow(ix, d)) && st' == st.(heap := st'.heap)
    requires OnlyLocked(st.heap, st'.heap, ix + 1, st.Count())
    requires Placed(st) == st.Count() && AbsCovered(Abs(st), Grow(ix, d)) && Verdict(Abs(st), Grow(ix, d)) == Refused
    ensures Refines(st, Grow(ix, d), Refused, st')
  {
    LockedAbs(st, st', ix + 1);
    FailedLocks(st, st', ix + 1);
  }

  lemma GrownRefines(st: State, st': State, ix: nat, d: nat)
    requires Valid(st) && Valid(st') && ix < st.Count() == st'.Count() && d >= 1 && st' == st.(heap := st'.heap)
    requires Resized(st.heap, st'.heap, ix, st.Count(), Fit(NodeAt(st.heap, ix), d) - NodeAt(st.heap, ix).count)
    ensures Placed(st) == Placed(st') == st.Count() && Effect(Abs(st), Grow(ix, d), Abs(st'))
  {
    var n := NodeAt(st.heap, ix);
    AllPlaced(st);
    AllPlaced(st');
    ResizedShows(st, st', ix, Fit(n, d) - n.count);
    ShowsAbs(st, st', ix);
    BytesAgree(st.heap, st'.heap, ix);
    assert GoodRecord(n, ix, st.Count()) && GoodRecord(NodeAt(st'.heap, ix), ix, st.Count());
    assert Regrown(Abs(st).entries[ix], d, Abs(st').entries[ix]);
  }

  lemma ResizedShows(st: State, st': State, ix: nat, k: int)
    requires ix < st.Count() && Resized(st.heap, st'.heap, ix, st.Count(), k)
    ensures forall i :: 0 <= i < st.Count() && i != ix ==> Shows(st.heap, st'.heap, i)
    ensures ResizedOne(st.heap, st'.heap, ix, k)
  {
    MovedShows(st.heap, st'.heap, 0, ix, 0);
    MovedShows(st.heap, st'.heap, ix + 1, st.Count(), k);
  }

  /** After a failed roll some lock is held, or there was nothing to roll and nothing changed. */
  lemma FailedLocks(st: State, st': State, j: nat)
    requires Valid(st) && st' == st.(heap := st'.heap) && OnlyLocked(st.heap, st'.heap, j, st.Count())
    ensures j < st.Count() ==> !Free(st')
    ensures j >= st.Count() ==> st'.heap == st.heap
  {
    if j < st.Count() {
      assert NodeAt(st'.heap, j).locked;
    }
  }

  lemma CreateRefines(st: State, unitSize: nat, capacity: nat, src: Option<seq<byte>>)
    requires Valid(st) && Free(st) && unitSize >= 1
    ensures var (out, st') := Step(st, Create(unitSize, capacity, src));
            Refines(st, Create(unitSize, capacity, src), out, st')
  {
    UsedIs(st);
    EndInHeap(st);
    SourcedKeeps(st, unitSize, capacity, src);
    var (made, st') := Sourced(st, unitSize, capacity, src);
    if made.NoRecord? {
      LockedAbs(st, st', 0);
      RefusedHalts(st, st');
    } else {
      MadeRefines(st, DeltaSize(st, OMEGA, 1).1, unitSize, capacity, src, made, st');
    }
  }

  /** A creation refused for want of a record has locked the nodes, if there are any. */
  lemma RefusedHalts(st: State, st': State)
    requires Valid(st) && Free(st) && !DeltaSize(st, OMEGA, 1).0 && st' == DeltaSize(st, OMEGA, 1).1
    ensures Free(st') <==> st.Count() == 0
    ensures Free(st') ==> Valid(st')
  {
    TableGrows(st);
    if st.Count() > 0 {
      assert NodeAt(st'.heap, 0).locked;
    } else {
      assert st'.heap == st.heap;
    }
  }

  lemma MadeRefines(st: State, st1: State, unitSize: nat, capacity: nat, src: Option<seq<byte>>,
                    made: Created, st': State)
    requires Valid(st) && unitSize >= 1 && st1.Count() == st.Count() && |st1.heap| == |st.heap|
    requires st1.omegus.count == st.Count() + 1 && st1.End() == st.End() + st.Count() + 1 - st.omegus.count
    requires st.Count() < st.omegus.count || st.End() < |st.heap|
    requires Constructed(st1, unitSize, capacity, src, made, st')
    requires forall i :: 0 <= i < st.Count() ==> Shows(st.heap, st1.heap, i)
    ensures Refines(st, Create(unitSize, capacity, src), OutcomeOf(made), st')
  {
    CreateVerdict(st, unitSize, capacity, src);
    ShowsBoth(st.heap, st1.heap, st'.heap, st.Count());
    if made.Made? {
      MadeDone(st, st1, unitSize, capacity, src, st');
    } else {
      MadeOutside(st, st1, unitSize, capacity, src, made, st');
    }
  }

  lemma CreateVerdict(st: State, unitSize: nat, capacity: nat, src: Option<seq<byte>>)
    requires Valid(st) && unitSize >= 1 && (st.Count() < st.omegus.count || st.End() < |st.heap|)
    ensures Placed(st) == st.Count() && AbsCovered(Abs(st), Create(unitSize, capacity, src))
    ensures Room(Abs(st)) == |st.heap| - st.End() - (st.Count() + 1 - st.omegus.count)
    ensures Verdict(Abs(st), Create(unitSize, capacity, src))
         == if RoomFor(Needed(unitSize, capacity), Room(Abs(st))) then Done else Outside
  {
    UsedIs(st);
  }

  lemma MadeDone(st: State, st1: State, unitSize: nat, capacity: nat, src: Option<seq<byte>>, st': State)
    requires Valid(st) && unitSize >= 1 && st1.Count() == st.Count() && |st1.heap| == |st.heap|
    requires st1.omegus.count == st.Count() + 1
    requires Constructed(st1, unitSize, capacity, src, Made(st.Count()), st')
    requires forall i :: 0 <= i < st.Count() ==> Shows(st.heap, st'.heap, i)
    requires Placed(st) == st.Count() && Room(Abs(st)) == |st1.heap| - st1.End()
    requires Verdict(Abs(st), Create(unitSize, capacity, src)) == Done
    ensures Refines(st, Create(unitSize, capacity, src), Done, st')
  {
    AllPlaced(st');
    MadeEffect(st, st1, unitSize, capacity, src, st');
  }

  lemma MadeEffect(st: State, st1: State, unitSize: nat, capacity: nat, src: Option<seq<byte>>, st': State)
    requires Valid(st) && unitSize >= 1 && st1.Count() == st.Count() && |st1.heap| == |st.heap|
    requires st1.omegus.count == st.Count() + 1
    requires Constructed(st1, unitSize, capacity, src, Made(st.Count()), st')
    requires forall i :: 0 <= i < st.Count() ==> Shows(st.heap, st'.heap, i)
    requires Placed(st) == st.Count() && Room(Abs(st)) == |st1.heap| - st1.End()
    ensures Tiled(st'.heap, 0, Placed(st')) && Effect(Abs(st), Create(unitSize, capacity, src), Abs(st'))
  {
    AllPlaced(st');
    ShowsAbs(st, st', st.Count());
    MadeEntry(st1, unitSize, capacity, src, st');
  }

  lemma MadeOutside(st: State, st1: State, unitSize: nat, capacity: nat, src: Option<seq<byte>>,
                    made: Created, st': State)
    requires Valid(st) && unitSize >= 1 && st1.Count() == st.Count() && |st1.heap| == |st.heap|
    requires st1.omegus.count == st.Count() + 1
    requires Constructed(st1, unitSize, capacity, src, made, st') && !made.Made?
    requires forall i :: 0 <= i < st.Count() ==> Shows(st.heap, st'.heap, i)
    requires Placed(st) == st.Count() && Verdict(Abs(st), Create(unitSize, capacity, src)) == Outside
    ensures Refines(st, Create(unitSize, capacity, src), OutcomeOf(made), st')
  {
    ShowsAbs(st, st', st.Count());
    assert Abs(st').entries == Abs(st).entries;
  }

  lemma MadeEntry(st: State, unitSize: nat, capacity: nat, src: Option<seq<byte>>, st': State)
    requires unitSize >= 1 && Constructed(st, unitSize, capacity, src, Made(st.Count()), st')
    ensures Placed(st') == st.Count() + 1
    ensures NewEntry(unitSize, capacity, src, |st.heap| - st.End(), Abs(st').entries[st.Count()])
  {
    AllPlaced(st');
  }

  /** A new entry has the units asked for, if they are no more than its barrels hold. */
  lemma NewEntryUnits(unitSize: nat, capacity: nat, src: Option<seq<byte>>, room: int, e: Entry)
    requires NewEntry(unitSize, capacity, src, room, e)
    ensures e.units <= capacity && e.units * unitSize <= |e.bytes| && |e.bytes| > 0 && |e.bytes| % SIZE == 0
    ensures e.units == capacity <==> unitSize * capacity < SIZET && unitSize * capacity <= |e.bytes|
    ensures e.units == capacity || unitSize * capacity >= SIZET || |e.bytes| < (e.units + 1) * unitSize
  {
    UnitsCount(unitSize, capacity, CtorCount(1, Needed(unitSize, capacity), SIZE * room));
  }

  lemma UnitsCount(unitSize: nat, capacity: nat, count: nat)
    requires unitSize >= 1
    ensures var (units, bytes) := (CtorUnits(unitSize, Needed(unitSize, capacity), count), unitSize * capacity);
            && units <= capacity && units * unitSize <= SIZE * count
            && (units == capacity <==> bytes < SIZET && bytes <= SIZE * count)
            && (bytes < SIZET && bytes > SIZE * count ==> SIZE * count < (units + 1) * unitSize)
  {
    UnitsFit(unitSize, Needed(unitSize, capacity), count);
    NeededWraps(unitSize * capacity);
    if unitSize * capacity < SIZET && unitSize * capacity <= SIZE * count {
      DivExact(unitSize, capacity);
    } else {
      UnitsFew(unitSize, capacity, count);
    }
  }

  lemma UnitsFew(unitSize: nat, capacity: nat, count: nat)
    requires unitSize >= 1 && (unitSize * capacity >= SIZET || unitSize * capacity > SIZE * count)
    ensures var units := CtorUnits(unitSize, Needed(unitSize, capacity), count);
            && units < capacity
            && (unitSize * capacity < SIZET ==> SIZE * count < (units + 1) * unitSize)
  {
    var (bytes, room) := (unitSize * capacity, SIZE * count);
    NeededWraps(bytes);
    var fits := if bytes % SIZET < room then bytes % SIZET else room;
    Fewer(unitSize, capacity, bytes, fits);
    FloorIs(fits, unitSize);
  }

  lemma Fewer(m: nat, k: nat, bytes: nat, fits: nat)
    requires m >= 1 && bytes == m * k && fits < bytes
    ensures fits / m < k
  {
    var u := Floor(fits, m);
    Below(m, u, k);
  }

  lemma Floor(x: nat, m: nat) returns (u: nat)
    requires m >= 1
    ensures u == x / m && u * m <= x
  {
    u := x / m;
  }

  lemma FloorIs(x: nat, m: nat)
    requires m >= 1
    ensures (x / m) * m <= x < (x / m + 1) * m
  {
  }

  lemma Below(m: nat, u: nat, k: nat)
    requires m >= 1 && u * m < m * k
    ensures u < k
  {
    MulBound(m, u - k);
    assert m * (u - k) == u * m - m * k;
  }

  lemma NeededWraps(x: nat)
    ensures 0 <= x % SIZET <= x && (x < SIZET ==> x % SIZET == x) && (x >= SIZET ==> x % SIZET < x)
  {
  }

  lemma DivExact(m: nat, k: nat)
    requires m >= 1
    ensures (m * k) / m == k
  {
    var q := (m * k) / m;
    MulBound(m, q - k);
    assert m * (q - k) == -((m * k) % m);
  }

  lemma WriteRefines(st: State, ix: nat, index: nat, data: seq<byte>)
    requires Valid(st) && Free(st) && Covered(st, Write(ix, index, data))
    ensures Refines(st, Write(ix, index, data), Done, WriteUnit(st, ix, index, data))
  {
    CoveredIs(st, Write(ix, index, data));
    WriteEffect(st, WriteUnit(st, ix, index, data), ix, index, data);
  }

  lemma WriteEffect(st: State, st': State, ix: nat, index: nat, data: seq<byte>)
    requires Valid(st) && Free(st) && Covered(st, Write(ix, index, data)) && st' == WriteUnit(st, ix, index, data)
    ensures Placed(st) == st.Count() && Valid(st') && Free(st') && Placed(st') == st'.Count()
    ensures Effect(Abs(st), Write(ix, index, data), Abs(st'))
  {
    assert Fits(st.heap, ix);
    AllPlaced(st);
    WriteShown(st, st', ix, index, data);
    AllPlaced(st');
    ShowsAbs(st, st', ix);
  }

  lemma WriteShown(st: State, st': State, ix: nat, index: nat, data: seq<byte>)
    requires Valid(st) && Free(st) && Covered(st, Write(ix, index, data)) && st' == WriteUnit(st, ix, index, data)
    requires Fits(st.heap, ix)
    ensures Valid(st') && Free(st') && Fits(st'.heap, ix)
    ensures forall i :: 0 <= i < st.Count() && i != ix ==> Shows(st.heap, st'.heap, i)
    ensures var e := Shown(st.heap, ix);
            && |e.bytes| > 0 && (e.unitSize * index) % |e.bytes| >= 0
            && Shown(st'.heap, ix) == e.(bytes := Overwrite(e.bytes, (e.unitSize * index) % |e.bytes|, data))
  {
    WholeUnit(NodeAt(st.heap, ix), index, NodeBytes(st.heap, ix), data);
    WriteKeeps(st, ix, index, data);
  }

  lemma StepRefines(st: State, op: Op)
    requires Valid(st) && Free(st) && Covered(st, op)
    ensures Refines(st, op, Step(st, op).0, Step(st, op).1)
  {
    match op
    case Create(unitSize, capacity, src) => CreateRefines(st, unitSize, capacity, src);
    case Grow(ix, d) => GrowRefines(st, ix, d);
    case Write(ix, index, data) => WriteRefines(st, ix, index, data);
  }

  lemma {:induction false} RunStaysValid(st: State, ops: seq<Op>)
    requires Valid(st) && Free(st)
    ensures var p := Play(st, ops);
            && Tiled(p.state.heap, 0, Placed(p.state))
            && (Free(p.state) && Placed(p.state) == p.state.Count() ==> Valid(p.state))
    decreases |ops|
  {
    AllPlaced(st);
    if ops != [] && Covered(st, ops[0]) {
      var (out, st1) := Step(st, ops[0]);
      if out != Outside && Free(st1) {
        StepThenPlay(st, ops, st1);
        RunStaysValid(st1, ops[1..]);
      } else {
        StepThenStop(st, ops);
      }
    }
  }

  /** The abstract machine makes the same calls and ends with the same table. */
  ghost predicate Followed(st: State, ops: seq<Op>, p: Played) {
    && Tiled(st.heap, 0, Placed(st)) && Tiled(p.state.heap, 0, Placed(p.state))
    && AbsRun(Abs(st), ops, p.calls, Abs(p.state))
  }

  lemma NoneFollows(st: State, ops: seq<Op>)
    requires Valid(st) && Free(st) && (ops == [] || !Covered(st, ops[0]))
    ensures Followed(st, ops, Play(st, ops))
  {
    AllPlaced(st);
    if ops != [] {
      CoveredIs(st, ops[0]);
    }
  }

  lemma MoreFollows(st: State, ops: seq<Op>, st1: State, q: Played)
    requires Tiled(st.heap, 0, Placed(st)) && Tiled(st1.heap, 0, Placed(st1)) && ops != []
    requires AbsCovered(Abs(st), ops[0]) && !Halts(Abs(st), ops[0]) && AbsStep(Abs(st), ops[0], Abs(st1))
    requires Followed(st1, ops[1..], q)
    ensures Followed(st, ops, Played(q.calls + 1, q.state))
  {
    StepThenRun(Abs(st), ops, q.calls, Abs(q.state));
  }

  lemma {:induction false} RunFollows(st: State, ops: seq<Op>)
    requires Valid(st) && Free(st)
    ensures Followed(st, ops, Play(st, ops))
    decreases |ops|
  {
    if ops == [] || !Covered(st, ops[0]) {
      NoneFollows(st, ops);
    } else {
      var (out, st1) := Step(st, ops[0]);
      if out != Outside && Free(st1) {
        AllPlaced(st);
        StepThenPlay(st, ops, st1);
        RunFollows(st1, ops[1..]);
        MoreFollows(st, ops, st1, Play(st1, ops[1..]));
      } else {
        AllPlaced(st);
        StepThenStop(st, ops);
      }
    }
  }

  /** The main theorem: whatever is created, grown and written, and whatever rolls on the way,
      exactly those calls are made, accepted and refused that the plain table makes, accepts and
      refuses, and afterwards the nodes show what it shows. */
  lemma RunRefines(st: State, ops: seq<Op>)
    requires Valid(st) && Free(st)
    ensures var p := Play(st, ops);
            && Tiled(st.heap, 0, Placed(st)) && Tiled(p.state.heap, 0, Placed(p.state))
            && AbsRun(Abs(st), ops, p.calls, Abs(p.state))
            && (Free(p.state) && Placed(p.state) == p.state.Count() ==> Valid(p.state))
  {
    AllPlaced(st);
    RunFollows(st, ops);
    RunStaysValid(st, ops);
  }

  lemma StepThenPlay(st: State, ops: seq<Op>, st1: State)
    requires Valid(st) && Free(st) && ops != [] && Covered(st, ops[0])
    requires Step(st, ops[0]).0 != Outside && st1 == Step(st, ops[0]).1 && Free(st1)
    ensures Valid(st1) && AbsStep(Abs(st), ops[0], Abs(st1))
    ensures AbsCovered(Abs(st), ops[0]) && !Halts(Abs(st), ops[0])
    ensures Play(st, ops) == var p := Play(st1, ops[1..]); Played(p.calls + 1, p.state)
  {
    StepRefines(st, ops[0]);
    RefinesMore(st, ops[0], Step(st, ops[0]).0, st1);
  }

  lemma RefinesMore(st: State, op: Op, out: Outcome, st1: State)
    requires Valid(st) && Free(st) && Free(st1) && out != Outside && Refines(st, op, out, st1)
    ensures Valid(st1) && AbsStep(Abs(st), op, Abs(st1)) && AbsCovered(Abs(st), op) && !Halts(Abs(st), op)
  {
  }

  lemma StepThenStop(st: State, ops: seq<Op>)
    requires Valid(st) && Free(st) && ops != [] && Covered(st, ops[0])
    requires Step(st, ops[0]).0 == Outside || !Free(Step(st, ops[0]).1)
    ensures var st1 := Step(st, ops[0]).1;
            && Play(st, ops) == Played(1, st1) && Tiled(st1.heap, 0, Placed(st1))
            && AbsRun(Abs(st), ops, 1, Abs(st1))
            && (Free(st1) ==> Placed(st1) < st1.Count())
  {
    StepRefines(st, ops[0]);
    CoveredIs(st, ops[0]);
    if Step(st, ops[0]).0 == Outside {
      OutsideUnplaced(st, ops[0]);
    }
  }

  lemma StepThenRun(a: Table, ops: seq<Op>, n: nat, a': Table)
    requires ops != [] && AbsCovered(a, ops[0]) && !Halts(a, ops[0])
    requires exists m :: AbsStep(a, ops[0], m) && AbsRun(m, ops[1..], n, a')
    ensures AbsRun(a, ops, n + 1, a')
  {
  }

  /** Behind a creation past the end of the heap the new node is not placed. */
  lemma OutsideUnplaced(st: State, op: Op)
    requires Valid(st) && Free(st) && Covered(st, op) && Step(st, op).0 == Outside
    ensures Placed(Step(st, op).1) < Step(st, op).1.Count()
  {
    SourcedKeeps(st, op.unitSize, op.capacity, op.src);
  }

  /** Calls are left over only when a roll has just failed, a node has just been placed past the end
      of the heap, or the next call is not covered. */
  lemma {:induction false} PlayStops(st: State, ops: seq<Op>)
    requires Valid(st) && Free(st)
    ensures var p := Play(st, ops);
            && p.calls <= |ops|
            && (p.calls < |ops| ==>
                  || !Free(p.state)
                  || Placed(p.state) < p.state.Count()
                  || !Covered(p.state, ops[p.calls]))
    decreases |ops|
  {
    if ops != [] && Covered(st, ops[0]) {
      StepRefines(st, ops[0]);
      var (out, st1) := Step(st, ops[0]);
      if out == Outside {
        OutsideUnplaced(st, ops[0]);
      } else if Free(st1) {
        PlayStops(st1, ops[1..]);
      }
    }
  }

  // ---- The plain table alone decides ----------------------------------------------------------

  /** Two tables of the same sizes; the bytes may differ. */
  predicate SameSizes(a: Table, b: Table) {
    && a.size == b.size && a.records == b.records && |a.entries| == |b.entries|
    && forall i :: 0 <= i < |a.entries| ==> SameSize(a.entries[i], b.entries[i])
  }

  predicate SameSize(e: Entry, f: Entry) {
    e.unitSize == f.unitSize && e.units == f.units && |e.bytes| == |f.bytes|
  }

  lemma {:induction false} SameHeld(a: seq<Entry>, b: seq<Entry>)
    requires |a| == |b| && forall i :: 0 <= i < |a| ==> SameSize(a[i], b[i])
    ensures Held(a) == Held(b)
  {
    if a != [] {
      var n := |a| - 1;
      assert SameSize(a[n], b[n]);
      SameHeld(a[..n], b[..n]);
    }
  }

  lemma SameVerdict(a: Table, b: Table, op: Op)
    requires SameSizes(a, b)
    ensures AbsCovered(a, op) <==> AbsCovered(b, op)
    ensures AbsCovered(a, op) ==>
              Verdict(a, op) == Verdict(b, op) && (Halts(a, op) <==> Halts(b, op)) && Room(a) == Room(b)
  {
    SameHeld(a.entries, b.entries);
    if !op.Create? && op.ix < |a.entries| {
      assert SameSize(a.entries[op.ix], b.entries[op.ix]);
    }
  }

  lemma SameStep(a: Table, b: Table, op: Op, a': Table, b': Table)
    requires SameSizes(a, b) && AbsStep(a, op, a') && AbsStep(b, op, b')
    ensures SameSizes(a', b')
  {
    SameVerdict(a, b, op);
    if Verdict(a, op) == Done {
      forall i | 0 <= i < |a'.entries|
        ensures SameSize(a'.entries[i], b'.entries[i])
      {
        assert i < |a.entries| ==> SameSize(a.entries[i], b.entries[i]);
      }
    }
  }

  /** How many calls are made, and the sizes of all nodes after them, is settled by the calls and the
      sizes at the start. */
  lemma {:induction false} AbsRunSettled(a: Table, b: Table, ops: seq<Op>, n: nat, a': Table, m: nat, b': Table)
    requires SameSizes(a, b) && AbsRun(a, ops, n, a') && AbsRun(b, ops, m, b')
    ensures n == m && SameSizes(a', b')
    decreases |ops|
  {
    if ops != [] {
      SameVerdict(a, b, ops[0]);
      if AbsCovered(a, ops[0]) {
        if Halts(a, ops[0]) {
          SameStep(a, b, ops[0], a', b');
        } else {
          var a1 :| AbsStep(a, ops[0], a1) && AbsRun(a1, ops[1..], n - 1, a');
          var b1 :| AbsStep(b, ops[0], b1) && AbsRun(b1, ops[1..], m - 1, b');
          SameStep(a, b, ops[0], a1, b1);
          AbsRunSettled(a1, b1, ops[1..], n - 1, a', m - 1, b');
        }
      }
    }
  }
}
