/** The barrels behind the node table hold data (tBarrel.c).

    A table record is never copied by a roll, a growth or a shrink: in every reachable state all
    barrels behind the table hold user bytes, those not in use included. */
module Data {
  import opened Wrappers
  import opened Ring
  import opened Resize
  import opened Barrels
  import opened Chain
  import opened Bytes
  import opened Service
  import opened Refinement
  import opened Creation
  import opened Runs
  import opened Layout

  predicate DataOnly(h: Heap, from: nat) {
    forall b {:trigger h[b]} :: from <= b < |h| ==> h[b].Words?
  }

  /** All barrels behind the table are data. */
  predicate Plain(st: State) { DataOnly(st.heap, st.omegus.count) }

  /** The runs that lie in the heap lie behind the table. */
  predicate Behind(st: State) {
    forall i :: 0 <= i < Placed(st) ==> st.omegus.count <= Start(st.heap, i)
  }

  // ---- Copies -------------------------------------------------------------------------------

  lemma CopyData(h: Heap, dst: int, src: int, from: nat)
    requires DataOnly(h, from) && from <= src
    ensures DataOnly(Copy(h, dst, src), from)
  {
  }

  lemma SetNodeData(h: Heap, ix: int, n: Node, from: nat)
    requires DataOnly(h, from) && ix < from
    ensures DataOnly(SetNode(h, ix, n), from)
  {
  }

  lemma {:induction false} PutBytesData(h: Heap, a: int, data: seq<byte>, from: nat)
    requires DataOnly(h, from)
    ensures DataOnly(PutBytes(h, a, data), from)
  {
    if data != [] {
      PutBytesData(h, a, data[..|data| - 1], from);
    }
  }

  lemma {:induction false} RollForwardData(h: Heap, ix: nat, k: nat, from: nat)
    requires Fits(h, ix) && Stop(h, ix) + k <= |h| && ix < from <= Start(h, ix) && DataOnly(h, from)
    ensures DataOnly(RollForward(h, ix, k), from)
  {
    if k > 0 {
      RollForwardData(h, ix, k - 1, from);
      RollForwardMoves(h, ix, k - 1);
      var h1 := RollForward(h, ix, k - 1);
      CopyData(h1, Stop(h1, ix), Start(h1, ix), from);
    }
  }

  lemma {:induction false} RollBackData(h: Heap, ix: nat, k: nat, from: nat)
    requires Fits(h, ix) && ix < from <= Start(h, ix) - k && DataOnly(h, from)
    ensures DataOnly(RollBack(h, ix, k), from)
  {
    if k > 0 {
      RollBackData(h, ix, k - 1, from);
      RollBackMoves(h, ix, k - 1);
      var h1 := RollBack(h, ix, k - 1);
      CopyData(h1, Start(h1, ix) - 1, Stop(h1, ix) - 1, from);
    }
  }

  lemma {:induction false} GrowCopiedData(h: Heap, base: nat, c: nat, r: nat, stop: nat, from: nat)
    requires DataOnly(h, from) && from + r <= base + stop
    ensures DataOnly(GrowCopied(h, base, c, r, stop), from)
    decreases c + r - stop
  {
    if stop < c + r {
      GrowCopiedData(h, base, c, r, stop + 1, from);
      CopyData(GrowCopied(h, base, c, r, stop + 1), base + stop, base + stop - r, from);
    }
  }

  lemma {:induction false} ShrinkCopiedData(h: Heap, base: nat, step: nat, lo: nat, hi: nat, from: nat)
    requires DataOnly(h, from) && from <= base
    ensures DataOnly(ShrinkCopied(h, base, step, lo, hi), from)
  {
    if lo < hi {
      ShrinkCopiedData(h, base, step, lo, hi - 1, from);
      CopyData(ShrinkCopied(h, base, step, lo, hi - 1), base + hi - 1, base + hi - 1 + step, from);
    }
  }

  // ---- Rolls --------------------------------------------------------------------------------

  lemma {:induction false} RollUpData(h: Heap, j: nat, t: nat, k: nat, from: nat)
    requires j < t && k > 0 && Tiled(h, j, t) && Unlocked(h, j, t) && Stop(h, t - 1) + k <= |h|
    requires t <= from <= Start(h, j) && DataOnly(h, from)
    ensures DataOnly(RollUpward(h, j, t, k).1, from)
    decreases t - j
  {
    var h1 := SetLock(h, j, true);
    LockFrame(h, j, true);
    SetNodeData(h, j, NodeAt(h, j).(locked := true), from);
    var h2 := h1;
    if j + 1 < t {
      BehindUp(h, j, t);
      Ordered(h, j, t, j, t - 1);
      RollUpData(h1, j + 1, t, k, from);
      RollUp(h1, j + 1, t, k);
      h2 := RollUpward(h1, j + 1, t, k).1;
      NodeFrame(h1, h2, j);
    }
    RollForwardData(h2, j, k, from);
    SetNodeData(RollForward(h2, j, k), j, NodeAt(RollForward(h2, j, k), j).(locked := false), from);
  }

  lemma {:induction false} RollDownData(h: Heap, j: nat, t: nat, k: nat, from: nat)
    requires j < t && k > 0 && Tiled(h, j, t) && Unlocked(h, j, t)
    requires t <= from <= Start(h, j) - k && DataOnly(h, from)
    ensures DataOnly(RollDownward(h, j, t, k), from)
    decreases t - j
  {
    var h1 := SetLock(h, j, true);
    LockFrame(h, j, true);
    SetNodeData(h, j, NodeAt(h, j).(locked := true), from);
    RollBackData(h1, j, k, from);
    var h2 := RollBack(h1, j, k);
    if j + 1 < t {
      BehindDown(h, j, t, k);
      RollDownData(h2, j + 1, t, k, from);
      h2 := RollDownward(h2, j + 1, t, k);
    }
    SetNodeData(h2, j, NodeAt(h2, j).(locked := false), from);
  }

  lemma LockedData(h: Heap, h': Heap, j: nat, t: nat, from: nat)
    requires OnlyLocked(h, h', j, t) && t <= from && DataOnly(h, from)
    ensures DataOnly(h', from)
  {
  }

  // ---- Calls --------------------------------------------------------------------------------

  lemma GrowNodeData(h: Heap, ix: nat, k: nat, from: nat)
    requires Fits(h, ix) && ix < from <= Start(h, ix) && DataOnly(h, from)
    ensures DataOnly(GrowNode(h, ix, k), from)
  {
    var n := NodeAt(h, ix);
    GrowCopiedData(h, n.start, n.count, k, n.offset + k, from);
    SetNodeData(GrowCopied(h, n.start, n.count, k, n.offset + k), ix,
                n.(count := n.count + k, offset := n.offset + k), from);
  }

  lemma ShrinkNodeData(h: Heap, ix: nat, m: nat, from: nat)
    requires Fits(h, ix) && ix < from <= Start(h, ix) && m < NodeAt(h, ix).count && DataOnly(h, from)
    ensures DataOnly(ShrinkNode(h, ix, m), from)
  {
    var n := NodeAt(h, ix);
    ShrinkCopiedData(h, n.start, ShrinkStep(n.offset, m), ShrinkFrom(n.offset, m), n.count - m, from);
    SetNodeData(Shrunk(h, n.start, n.count, n.offset, m), ix,
                n.(count := n.count - m, offset := ShrinkOffset(n.count, n.offset, m)), from);
  }

  lemma RollGrowData(h: Heap, ix: nat, t: nat, k: nat, from: nat)
    requires ix + 1 < t && k > 0 && Tiled(h, 0, t) && Unlocked(h, 0, t) && Stop(h, t - 1) + k <= |h|
    requires t <= from <= Start(h, ix) && DataOnly(h, from)
    ensures RollUpward(h, ix + 1, t, k).0 && DataOnly(GrowNode(RollUpward(h, ix + 1, t, k).1, ix, k), from)
  {
    Ordered(h, 0, t, ix, ix + 1);
    RollUpData(h, ix + 1, t, k, from);
    RollLeaves(h, ix, t, k);
    GrowNodeData(RollUpward(h, ix + 1, t, k).1, ix, k, from);
  }

  lemma RollLeaves(h: Heap, ix: nat, t: nat, k: nat)
    requires ix + 1 < t && k > 0 && Tiled(h, 0, t) && Unlocked(h, 0, t) && Stop(h, t - 1) + k <= |h|
    ensures var (ok, h1) := RollUpward(h, ix + 1, t, k);
            ok && Fits(h, ix) && Fits(h1, ix) && NodeAt(h1, ix) == NodeAt(h, ix)
  {
    Ordered(h, 0, t, ix, ix + 1);
    RollUp(h, ix + 1, t, k);
    NodeFrame(h, RollUpward(h, ix + 1, t, k).1, ix);
  }

  lemma RaiseData(st: State, ix: nat, k: nat)
    requires Valid(st) && Free(st) && Plain(st) && ix < st.Count() && k > 0
    ensures Plain(Raise(st, ix, k).1)
  {
    var h, t, from := st.heap, st.Count(), st.omegus.count;
    EndBehindTable(st);
    assert Fits(h, ix);
    if ix + 1 < t {
      if st.End() + k <= |h| {
        RollGrowData(h, ix, t, k, from);
      } else {
        RollUpFails(h, ix + 1, t, k);
        LockedData(h, RollUpward(h, ix + 1, t, k).1, ix + 1, t, from);
      }
    } else {
      GrowNodeData(h, ix, k, from);
    }
  }

  lemma LowerData(st: State, ix: nat, m: nat)
    requires Valid(st) && Free(st) && Plain(st) && ix < st.Count() && 1 <= m < NodeAt(st.heap, ix).count
    ensures Plain(Lower(st, ix, m))
  {
    var h, t, from := st.heap, st.Count(), st.omegus.count;
    EndBehindTable(st);
    assert Fits(h, ix);
    ShrinkNodeData(h, ix, m, from);
    if ix + 1 < t {
      ShrinkBehind(h, ix, t, m);
      RollDownData(ShrinkNode(h, ix, m), ix + 1, t, m, from);
    }
  }

  lemma GrowData(st: State, ix: nat, d: nat)
    requires Valid(st) && Free(st) && Plain(st) && Covered(st, Grow(ix, d))
    ensures Plain(DeltaSize(st, ix, d).1)
  {
    if d > 0 {
      var n := NodeAt(st.heap, ix);
      assert Fits(st.heap, ix) && GoodRecord(n, ix, st.Count());
      FitHolds(n, d);
      DeltaIs(st.heap, ix, d);
      var k := Fit(n, d) - n.count;
      if k > 0 {
        RaiseData(st, ix, k);
      } else if k < 0 {
        LowerData(st, ix, -k);
      }
    } else {
      assert DeltaSize(st, ix, d).1 == st;
    }
  }

  lemma TableData(st: State)
    requires Valid(st) && Free(st) && Plain(st)
    ensures Plain(DeltaSize(st, OMEGA, 1).1)
  {
    var h, t, from := st.heap, st.Count(), st.omegus.count;
    TableDelta(st.omegus);
    if from == t && t > 0 {
      if st.End() + 1 <= |h| {
        RollUp(h, 0, t, 1);
        RollUpData(h, 0, t, 1, from);
      } else {
        RollUpFails(h, 0, t, 1);
        LockedData(h, RollUpward(h, 0, t, 1).1, 0, t, from);
      }
    }
  }

  lemma AttachData(st: State, n: Node, initial: seq<byte>)
    requires Valid(st) && Plain(st) && st.omegus.count == st.Count() + 1
    ensures Plain(Attach(st, n, initial))
  {
    var from := st.omegus.count;
    PutBytesData(Linked(st, n), SIZE * n.start, initial, from);
  }

  lemma CreateData(st: State, unitSize: nat, capacity: nat, src: Option<seq<byte>>)
    requires Valid(st) && Free(st) && Plain(st) && unitSize >= 1
    ensures Plain(Sourced(st, unitSize, capacity, src).1)
  {
    RecordFirst(st);
    TableData(st);
    var (ok, st1) := DeltaSize(st, OMEGA, 1);
    if ok {
      var n := NewNode(st1, unitSize, capacity);
      AttachData(st1, n, Initial(src, n.units * unitSize));
    }
  }

  lemma StepData(st: State, op: Op)
    requires Valid(st) && Free(st) && Plain(st) && Covered(st, op)
    ensures Plain(Step(st, op).1)
  {
    match op
    case Create(unitSize, capacity, src) => CreateData(st, unitSize, capacity, src);
    case Grow(ix, d) => GrowData(st, ix, d);
    case Write(ix, index, data) =>
      PutBytesData(st.heap, UnitAddress(NodeAt(st.heap, ix), index), data, st.omegus.count);
  }

  lemma StepBehind(st: State, op: Op)
    requires Valid(st) && Free(st) && Covered(st, op)
    ensures Behind(Step(st, op).1)
  {
    StepRefines(st, op);
    var (out, st') := Step(st, op);
    if !Halts(Abs(st), op) {
      AllPlaced(st');
      EndBehindTable(st');
    } else if out == Outside {
      SourcedKeeps(st, op.unitSize, op.capacity, op.src);
    } else {
      RefusedBehind(st, op);
    }
  }

  lemma RefusedBehind(st: State, op: Op)
    requires Valid(st) && Free(st) && Covered(st, op) && Step(st, op).0 == Refused
    requires op.Create? || (op.Grow? && op.d > 0)
    ensures Behind(Step(st, op).1)
  {
    var st', t := Step(st, op).1, st.Count();
    EndBehindTable(st);
    var j := if op.Create? then 0 else op.ix + 1;
    if op.Create? {
      RecordFirst(st);
    } else {
      ResizeKeeps(st, op.ix, op.d);
    }
    LockedAbs(st, st', j);
    forall i | 0 <= i < t
      ensures Start(st'.heap, i) == Start(st.heap, i)
    {
      LockedShows(st.heap, st'.heap, i, j, t);
    }
  }

  /** Over every run the barrels behind the table stay data, and the runs behind the table. */
  lemma {:induction false} RunData(st: State, ops: seq<Op>)
    requires Valid(st) && Free(st) && Plain(st)
    ensures Plain(Run(st, ops)) && Behind(Run(st, ops))
    decreases |ops|
  {
    if ops != [] && Covered(st, ops[0]) {
      StepData(st, ops[0]);
      StepBehind(st, ops[0]);
      StepRefines(st, ops[0]);
      var (out, st1) := Step(st, ops[0]);
      if out != Outside && Free(st1) {
        RunData(st1, ops[1..]);
      }
    } else {
      AllPlaced(st);
      EndBehindTable(st);
    }
  }

  lemma ReachedData(barrels: nat, ops: seq<Op>)
    requires barrels <= MAX_BARRELS
    ensures Plain(Reached(barrels, ops)) && Behind(Reached(barrels, ops))
  {
    RunData(Init(barrels), ops);
  }

  /** All barrels of a node hold data. */
  predicate RunOfData(h: Heap, ix: nat) {
    forall b {:trigger h[b]} :: 0 <= b < |h| && Start(h, ix) <= b < Stop(h, ix) ==> h[b].Words?
  }

  lemma NodeData(st: State, ix: nat)
    requires Plain(st) && Behind(st) && ix < Placed(st)
    ensures RunOfData(st.heap, ix)
  {
  }
}
