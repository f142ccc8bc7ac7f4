/** Whole runs with the copying loops exactly as they are written (tBarrel.c:521-656, 787-855).

    The service is the one of module `Runs`, with every roll, growth and shrink replaced by the
    loops of module `AsWritten`. */
module Written {
  import opened Ring
  import opened Resize
  import opened Barrels
  import opened Chain
  import opened Service
  import opened Refinement
  import opened Creation
  import opened Runs
  import opened Layout
  import opened AsWritten
  import opened Spills

  // ---- The operations -----------------------------------------------------------------------

  /** Barrel_RollForward. */
  function WrittenForward(h: Heap, ix: nat, r: nat): (h': Heap)
    ensures |h'| == |h|
  {
    var n := NodeAt(h, ix);
    SetNode(Passes(h, n.start + n.count, n.start, r, r), ix,
            n.(start := n.start + r, offset := OffsetAfter(n.offset, n.count, r)))
  }

  /** Barrel_RollBack. */
  function WrittenBack(h: Heap, ix: nat, m: nat): (h': Heap)
    ensures |h'| == |h|
  {
    var n := NodeAt(h, ix);
    SetNode(Passes(h, n.start - m, n.start - m + n.count, m, m), ix,
            n.(start := n.start - m, offset := OffsetAfter(n.offset, n.count, -(m as int))))
  }

  /** Barrel_Roll upward. */
  function WrittenUpward(h: Heap, j: nat, t: nat, k: nat): (res: (bool, Heap))
    requires j < t
    ensures |res.1| == |h|
    decreases t - j
  {
    var h1 := SetLock(h, j, true);
    var next := if j + 1 < t then WrittenUpward(h1, j + 1, t, k) else (Stop(h1, j) + k <= |h1|, h1);
    if !next.0 then next else (true, SetLock(WrittenForward(next.1, j, k), j, false))
  }

  /** Barrel_Roll downward. */
  function WrittenDownward(h: Heap, j: nat, t: nat, k: nat): (r: Heap)
    requires j < t
    ensures |r| == |h|
    decreases t - j
  {
    var h1 := WrittenBack(SetLock(h, j, true), j, k);
    var h2 := if j + 1 < t then WrittenDownward(h1, j + 1, t, k) else h1;
    SetLock(h2, j, false)
  }

  /** Barrel_Grow, on a node or on the table. */
  function WrittenGrown(st: State, ix: int, r: nat): State {
    var n := st.NodeOf(ix);
    var h, n' := GrownFromZero(st.heap, n.count, n.offset, r), n.(count := n.count + r, offset := n.offset + r);
    if ix == OMEGA then st.(heap := h, omegus := n') else st.(heap := SetNode(h, ix, n'))
  }

  /** Barrel_Shrink. */
  function WrittenReduced(st: State, ix: int, m: nat): State {
    var n := st.NodeOf(ix);
    if n.count < m then st else
    var h := Shrunk(st.heap, 0, n.count, n.offset, m);
    var n' := n.(count := n.count - m, offset := ShrinkOffset(n.count, n.offset, m));
    if ix == OMEGA then st.(heap := h, omegus := n') else st.(heap := SetNode(h, ix, n'))
  }

  /** Barrel_DeltaSize with a negative barrel delta. */
  function WrittenLower(st: State, ix: int, m: nat): State
    requires OMEGA <= ix < st.Count()
  {
    var st1 := WrittenReduced(st, ix, m);
    if ix + 1 < st.Count() then st1.(heap := WrittenDownward(st1.heap, ix + 1, st.Count(), m)) else st1
  }

  /** Barrel_DeltaSize with a positive barrel delta. */
  function WrittenRaise(st: State, ix: int, r: nat): (res: (bool, State))
    requires OMEGA <= ix < st.Count()
  {
    if ix + 1 < st.Count() then
      var rolled := WrittenUpward(st.heap, ix + 1, st.Count(), r);
      (rolled.0, if rolled.0 then WrittenGrown(st.(heap := rolled.1), ix, r) else st.(heap := rolled.1))
    else if |st.heap| - st.End() < r then (false, st)
    else (true, WrittenGrown(st, ix, r))
  }

  /** Barrel_DeltaSize. */
  function WrittenDelta(st: State, ix: int, d: int): (res: (bool, State))
    requires OMEGA <= ix < st.Count()
  {
    var n := st.NodeOf(ix);
    var delta := BarrelDelta(n.count, n.units, n.unitSize, d);
    if delta == 0 then (true, st)
    else if delta < 0 then (true, WrittenLower(st, ix, -delta)) else WrittenRaise(st, ix, delta)
  }

  function WrittenStep(st: State, op: Op): (Outcome, State)
    requires Covered(st, op)
  {
    match op
    case Create(unitSize, capacity, src) =>
      var table := WrittenDelta(st, OMEGA, 1);
      var (made, st') := if table.0 then Construct(table.1, unitSize, capacity, src) else (NoRecord, table.1);
      (OutcomeOf(made), st')
    case Grow(ix, d) => var (ok, st') := WrittenDelta(st, ix, d); (if ok then Done else Refused, st')
    case Write(ix, index, data) => (Done, WriteUnit(st, ix, index, data))
  }

  function WrittenPlay(st: State, ops: seq<Op>): Played
    decreases |ops|
  {
    if ops == [] || !Covered(st, ops[0]) then Played(0, st)
    else
      var (out, st1) := WrittenStep(st, ops[0]);
      if out == Outside || !Free(st1) then Played(1, st1)
      else var p := WrittenPlay(st1, ops[1..]); Played(p.calls + 1, p.state)
  }

  // ---- What the loops do to the heap ---------------------------------------------------------

  /** Barrel_RollForward by `r`: the run goes on repeating itself through the 2r - 1 barrels behind it,
      and the record moves on by `r`, its offset turned back and wrapped to 1, or to the count. */
  lemma ForwardWrites(h: Heap, ix: nat, r: nat)
    requires Fits(h, ix) && 1 <= r && NodeAt(h, ix).start + NodeAt(h, ix).count + 2 * r - 1 <= |h|
    ensures var (n, h') := (NodeAt(h, ix), WrittenForward(h, ix, r));
            var end := n.start + n.count;
            && NodeAt(h', ix) == n.(start := n.start + r,
                                    offset := if r < n.offset then n.offset - r
                                              else if r == n.offset then n.count else 1)
            && forall b :: 0 <= b < |h| && b != ix ==>
                 h'[b] == if end <= b < end + 2 * r - 1 then Repeated(h, n.start, n.count, b) else h[b]
  {
    var n := NodeAt(h, ix);
    OffsetForward(n.count, n.offset, r);
    ForwardRepeats(h, n.start, n.count, r, r);
  }

  /** All barrels but `ix` are as they were, except that those from `lo` up to `hi` hold what lay `away`
      behind them, where that is a barrel of the heap. */
  predicate ShiftedBut(h: Heap, h': Heap, ix: int, lo: int, hi: int, away: int) {
    && |h'| == |h|
    && forall b :: 0 <= b < |h| && b != ix ==>
         h'[b] == if lo <= b < hi && 0 <= b + away < |h| then h[b + away] else h[b]
  }

  /** A node rolled by shifting barrels: its record has changed to `n`. */
  predicate RolledTo(h: Heap, h': Heap, ix: nat, n: Node, lo: int, hi: int, away: int) {
    ix < |h'| && h'[ix] == Record(n) && ShiftedBut(h, h', ix, lo, hi, away)
  }

  lemma RolledBy(h: Heap, p: Heap, ix: nat, n: Node, lo: int, hi: int, away: int)
    requires Shifted(h, p, lo, hi, away) && ix < |h|
    ensures RolledTo(h, SetNode(p, ix, n), ix, n, lo, hi, away)
  {
  }

  /** Barrel_RollBack by `m`: the 2m - 1 barrels from the new start on get what lies one run behind
      them, and the record moves back by `m`, its offset turned on and wrapped to 1. */
  lemma BackWrites(h: Heap, ix: nat, m: nat)
    requires Fits(h, ix) && 1 <= m <= NodeAt(h, ix).count && ix < NodeAt(h, ix).start - m
    requires NodeAt(h, ix).start + NodeAt(h, ix).count + m - 1 <= |h|
    ensures var n := NodeAt(h, ix);
            RolledTo(h, WrittenBack(h, ix, m), ix,
                     n.(start := n.start - m, offset := if n.offset + m > n.count then 1 else n.offset + m),
                     n.start - m, n.start + m - 1, n.count)
  {
    var n := NodeAt(h, ix);
    var first := n.start - m;
    OffsetBack(n.count, n.offset, m);
    BackShifts(h, first, n.count, m, m);
    RolledBy(h, Passes(h, first, first + n.count, m, m), ix,
             n.(start := first, offset := OffsetAfter(n.offset, n.count, -(m as int))),
             first, n.start + m - 1, n.count);
  }

  /** The record or the table's own node has changed to `n`, and nothing else but barrels. */
  predicate NodeWritten(st: State, st': State, ix: int, n: Node) {
    && |st'.heap| == |st.heap| && st'.last == st.last
    && if ix == OMEGA then st'.omegus == n
       else st'.omegus == st.omegus && 0 <= ix < |st.heap| && st'.heap[ix] == Record(n)
  }

  /** A node or the table resized by shifting barrels: its record has changed to `n`. */
  predicate ResizedTo(st: State, st': State, ix: int, n: Node, lo: int, hi: int, away: int) {
    NodeWritten(st, st', ix, n) && ShiftedBut(st.heap, st'.heap, ix, lo, hi, away)
  }

  lemma ResizedBy(st: State, p: Heap, ix: int, n: Node, lo: int, hi: int, away: int)
    requires Shifted(st.heap, p, lo, hi, away) && OMEGA <= ix < |st.heap|
    ensures ResizedTo(st, if ix == OMEGA then st.(heap := p, omegus := n) else st.(heap := SetNode(p, ix, n)), ix, n,
                      lo, hi, away)
  {
  }

  /** Barrel_Grow of a turned run by `r`: wherever the run lies, the barrels of the heap from the offset
      up to the new count get what lies `r` in front of them. */
  lemma GrowthWrites(st: State, ix: int, r: nat)
    requires OMEGA <= ix < st.Count() && 1 <= r
    requires var n := st.NodeOf(ix); n.offset < n.count && n.count + r <= |st.heap|
    ensures var n := st.NodeOf(ix);
            ResizedTo(st, WrittenGrown(st, ix, r), ix, n.(count := n.count + r, offset := n.offset + r),
                      n.offset, n.count + r, -(r as int))
  {
    var n := st.NodeOf(ix);
    GrowCopiedAt(st.heap, 0, n.count, r, n.offset);
    ResizedBy(st, GrownFromZero(st.heap, n.count, n.offset, r), ix, n.(count := n.count + r, offset := n.offset + r),
              n.offset, n.count + r, -(r as int));
  }

  /** Barrel_Shrink of a turned run by `m`: the barrels of the heap in front of the new count, from the
      new offset on, get what lies `m` behind them, or as much as the offset. */
  lemma ReductionWrites(st: State, ix: int, m: nat)
    requires OMEGA <= ix < st.Count()
    requires var n := st.NodeOf(ix); 1 <= n.offset < n.count <= |st.heap| && 1 <= m <= n.count
    ensures var n := st.NodeOf(ix);
            ResizedTo(st, WrittenReduced(st, ix, m), ix,
                      n.(count := n.count - m, offset := ShrinkOffset(n.count, n.offset, m)),
                      ShrinkFrom(n.offset, m), n.count - m, ShrinkStep(n.offset, m))
  {
    var n := st.NodeOf(ix);
    ShrinkCopiedAt(st.heap, 0, ShrinkStep(n.offset, m), ShrinkFrom(n.offset, m), n.count - m);
    ResizedBy(st, Shrunk(st.heap, 0, n.count, n.offset, m), ix,
              n.(count := n.count - m, offset := ShrinkOffset(n.count, n.offset, m)),
              ShrinkFrom(n.offset, m), n.count - m, ShrinkStep(n.offset, m));
  }

  /** The nodes `j..t - 1` have records, and their runs lie `gap` barrels behind these. */
  predicate Recorded(h: Heap, j: nat, t: nat, gap: nat) {
    forall i :: j <= i < t ==> RecordAt(h, i, t, gap)
  }

  predicate RecordAt(h: Heap, i: nat, t: nat, gap: nat) {
    i < |h| && h[i].Record? && t + gap <= h[i].node.start
  }

  lemma {:induction false} CopyInFront(h: Heap, dst: int, src: int, n: nat, b: nat)
    requires b < dst && b < |h|
    ensures Transcribed(h, dst, src, n)[b] == h[b]
  {
    if n > 0 { CopyInFront(h, dst, src, n - 1, b); }
  }

  lemma {:induction false} PassesInFront(h: Heap, dst: int, src: int, m: nat, i: nat, b: nat)
    requires b < dst && b < |h|
    ensures Passes(h, dst, src, m, i)[b] == h[b]
  {
    if i > 0 {
      PassesInFront(h, dst, src, m, i - 1, b);
      CopyInFront(Passes(h, dst, src, m, i - 1), dst + i - 1, src + i - 1, m, b);
    }
  }

  /** Only the records `j..t - 1` of the table have changed: each says `k` barrels further on. */
  predicate RecordsMoved(h: Heap, h': Heap, j: nat, t: nat, k: int) {
    && |h'| == |h|
    && (forall b :: 0 <= b < t && b < |h| && b < j ==> h'[b] == h[b])
    && (forall i :: j <= i < t && i < |h| ==> h[i].Record? && RecordMoved(h[i].node, h'[i], k))
  }

  predicate RecordMoved(n: Node, b: Barrel, k: int) {
    b == Record(n.(start := n.start + k, offset := OffsetAfter(n.offset, n.count, k), locked := false))
  }

  /** A roll up as written succeeds exactly if there is room behind the last run, and then every record
      says `k` barrels further on; whatever happens to the runs. */
  lemma {:induction false} UpwardRecords(h: Heap, j: nat, t: nat, k: nat)
    requires j < t && Recorded(h, j, t, 0)
    ensures var (ok, h') := WrittenUpward(h, j, t, k);
            && (ok <==> Stop(h, t - 1) + k <= |h|) && (ok ==> RecordsMoved(h, h', j, t, k))
    decreases t - j
  {
    assert RecordAt(h, j, t, 0);
    var h1 := SetLock(h, j, true);
    LockRecorded(h, j, t, 0);
    if j + 1 < t {
      UpwardRecords(h1, j + 1, t, k);
      var (ok, h2) := WrittenUpward(h1, j + 1, t, k);
      if ok { ForwardRecord(h, h1, h2, j, t, k); }
    } else if Stop(h1, j) + k <= |h1| {
      ForwardRecord(h, h1, h1, j, t, k);
    }
  }

  lemma LockRecorded(h: Heap, j: nat, t: nat, gap: nat)
    requires j < t && Recorded(h, j, t, gap)
    ensures var h1 := SetLock(h, j, true);
            && Recorded(h1, j, t, gap) && Recorded(h1, j + 1, t, gap)
            && forall i: nat :: i < t ==> Stop(h1, i) == Stop(h, i)
  {
    assert RecordAt(h, j, t, gap);
    forall i | j <= i < t ensures RecordAt(SetLock(h, j, true), i, t, gap) { assert RecordAt(h, i, t, gap); }
  }

  lemma ForwardRecord(h: Heap, h1: Heap, h2: Heap, j: nat, t: nat, k: nat)
    requires j < t && Recorded(h, j, t, 0) && h1 == SetLock(h, j, true) && |h2| == |h1|
    requires if j + 1 < t then RecordsMoved(h1, h2, j + 1, t, k) else h2 == h1
    ensures RecordsMoved(h, SetLock(WrittenForward(h2, j, k), j, false), j, t, k)
  {
    assert RecordAt(h, j, t, 0);
    assert h2[j] == h1[j];
    var n := NodeAt(h2, j);
    var h3 := WrittenForward(h2, j, k);
    forall b | 0 <= b < t && b < |h| && b != j ensures h3[b] == h2[b] {
      PassesInFront(h2, n.start + n.count, n.start, k, k, b);
    }
    forall i | j <= i < t && i < |h|
      ensures h[i].Record? && RecordMoved(h[i].node, SetLock(h3, j, false)[i], k)
    {
      assert RecordAt(h, i, t, 0);
      if i != j { assert h1[i].Record? && RecordMoved(h1[i].node, h2[i], k); }
    }
  }

  /** A roll down as written always succeeds; where there is room for it behind the table every record
      says `k` barrels further back. */
  lemma {:induction false} DownwardRecords(h: Heap, j: nat, t: nat, k: nat)
    requires j < t && Recorded(h, j, t, k)
    ensures RecordsMoved(h, WrittenDownward(h, j, t, k), j, t, -(k as int))
    decreases t - j
  {
    var h1 := SetLock(h, j, true);
    var h2 := WrittenBack(h1, j, k);
    LockRecorded(h, j, t, k);
    assert RecordAt(h, j, t, k);
    var n := NodeAt(h1, j);
    forall b | 0 <= b < t && b < |h| && b != j ensures h2[b] == h1[b] == h[b] {
      PassesInFront(h1, n.start - k, n.start - k + n.count, k, k, b);
    }
    forall i | j < i < t ensures RecordAt(h2, i, t, k) { assert RecordAt(h, i, t, k); }
    if j + 1 < t { DownwardRecords(h2, j + 1, t, k); }
    BackRecord(h, h2, if j + 1 < t then WrittenDownward(h2, j + 1, t, k) else h2, j, t, k);
  }

  lemma BackRecord(h: Heap, h2: Heap, h3: Heap, j: nat, t: nat, k: nat)
    requires j < t && Recorded(h, j, t, k) && |h2| == |h3| == |h|
    requires forall b :: 0 <= b < t && b < |h| && b != j ==> h2[b] == h[b]
    requires j < |h| && h[j].Record?
    requires NodeAt(h2, j) == h[j].node.(start := h[j].node.start - k, locked := true,
                                         offset := OffsetAfter(h[j].node.offset, h[j].node.count, -(k as int)))
    requires if j + 1 < t then RecordsMoved(h2, h3, j + 1, t, -(k as int)) else h3 == h2
    ensures RecordsMoved(h, SetLock(h3, j, false), j, t, -(k as int))
  {
    assert h3[j] == h2[j];
    forall i | j <= i < t && i < |h|
      ensures h[i].Record? && RecordMoved(h[i].node, SetLock(h3, j, false)[i], -(k as int))
    {
      assert RecordAt(h, i, t, k);
      if i != j { assert h2[i].Record? && RecordMoved(h2[i].node, h3[i], -(k as int)); }
    }
  }

  // ---- Steps of one barrel ------------------------------------------------------------------

  lemma OnePass(h: Heap, dst: int, src: int)
    ensures Passes(h, dst, src, 1, 1) == Copy(h, dst, src)
  {
    assert Passes(h, dst, src, 1, 0) == h;
    assert Transcribed(h, dst, src, 0) == h;
  }

  lemma ForwardByOne(h: Heap, ix: nat)
    ensures WrittenForward(h, ix, 1) == Barrels.RollForward(h, ix, 1)
  {
    var n := NodeAt(h, ix);
    OnePass(h, n.start + n.count, n.start);
    assert Barrels.RollForward(h, ix, 0) == h;
  }

  lemma BackByOne(h: Heap, ix: nat)
    ensures WrittenBack(h, ix, 1) == Barrels.RollBack(h, ix, 1)
  {
    var n := NodeAt(h, ix);
    OnePass(h, n.start - 1, n.start - 1 + n.count);
    assert Barrels.RollBack(h, ix, 0) == h;
  }

  /** A roll by one barrel is right as written. */
  lemma {:induction false} UpwardByOne(h: Heap, j: nat, t: nat)
    requires j < t
    ensures WrittenUpward(h, j, t, 1) == RollUpward(h, j, t, 1)
    decreases t - j
  {
    var h1 := SetLock(h, j, true);
    if j + 1 < t {
      UpwardByOne(h1, j + 1, t);
      ForwardByOne(RollUpward(h1, j + 1, t, 1).1, j);
    } else {
      ForwardByOne(h1, j);
    }
  }

  lemma {:induction false} DownwardByOne(h: Heap, j: nat, t: nat)
    requires j < t
    ensures WrittenDownward(h, j, t, 1) == RollDownward(h, j, t, 1)
    decreases t - j
  {
    var h1 := SetLock(h, j, true);
    BackByOne(h1, j);
    if j + 1 < t {
      DownwardByOne(Barrels.RollBack(h1, j, 1), j + 1, t);
    }
  }

  // ---- Whole runs ---------------------------------------------------------------------------

  /** The calls in which the loops are right: whatever rolls, rolls by one barrel, and a node that is
      resized has not been turned.  The table never is. */
  predicate Safe(st: State, op: Op)
    requires Covered(st, op)
  {
    op.Grow? ==>
      var n := NodeAt(st.heap, op.ix);
      var delta := BarrelDelta(n.count, n.units, n.unitSize, op.d);
      delta == 0 || (n.offset == n.count && (op.ix + 1 == st.Count() || delta == 1 || delta == -1))
  }

  predicate AllSafe(st: State, ops: seq<Op>)
    decreases |ops|
  {
    ops != [] && Covered(st, ops[0]) ==>
      Safe(st, ops[0]) &&
      var (out, st1) := Step(st, ops[0]);
      (out != Outside && Free(st1) ==> AllSafe(st1, ops[1..]))
  }

  lemma GrownSame(st: State, ix: int, r: nat)
    requires OMEGA <= ix < st.Count() && 0 <= st.NodeOf(ix).start
    requires st.NodeOf(ix).offset == st.NodeOf(ix).count
    ensures WrittenGrown(st, ix, r) == Grown(st, ix, r)
  {
  }

  lemma ReducedSame(st: State, ix: int, m: nat)
    requires OMEGA <= ix < st.Count() && 0 <= st.NodeOf(ix).start
    requires st.NodeOf(ix).offset == st.NodeOf(ix).count
    ensures WrittenReduced(st, ix, m) == Reduced(st, ix, m)
  {
  }

  lemma TableSame(st: State)
    requires Valid(st) && Free(st)
    ensures WrittenDelta(st, OMEGA, 1) == DeltaSize(st, OMEGA, 1)
  {
    TableDelta(st.omegus);
    if 0 < st.Count() == st.omegus.count {
      UpwardByOne(st.heap, 0, st.Count());
      GrownSame(st.(heap := RollUpward(st.heap, 0, st.Count(), 1).1), OMEGA, 1);
    } else {
      GrownSame(st, OMEGA, 1);
    }
  }

  /** The nodes behind a node roll without touching its record. */
  lemma RecordStays(h: Heap, ix: nat, t: nat)
    requires ix + 1 < t && Tiled(h, ix + 1, t) && Unlocked(h, ix + 1, t) && RollUpward(h, ix + 1, t, 1).0
    ensures NodeAt(RollUpward(h, ix + 1, t, 1).1, ix) == NodeAt(h, ix)
  {
    if Stop(h, t - 1) + 1 <= |h| {
      RollUp(h, ix + 1, t, 1);
      assert Fits(h, ix + 1) && t <= Start(h, ix + 1);
    } else {
      RollUpFails(h, ix + 1, t, 1);
    }
  }

  lemma RolledSame(st: State, ix: nat)
    requires Valid(st) && Free(st) && ix + 1 < st.Count() && NodeAt(st.heap, ix).offset == NodeAt(st.heap, ix).count
    ensures var (ok, h) := RollUpward(st.heap, ix + 1, st.Count(), 1);
            ok ==> WrittenGrown(st.(heap := h), ix, 1) == Grown(st.(heap := h), ix, 1)
  {
    var (ok, h) := RollUpward(st.heap, ix + 1, st.Count(), 1);
    if ok {
      assert Fits(st.heap, ix);
      RecordStays(st.heap, ix, st.Count());
      GrownSame(st.(heap := h), ix, 1);
    }
  }

  lemma LowerSame(st: State, ix: nat, m: nat)
    requires ix < st.Count() && 0 <= NodeAt(st.heap, ix).start
    requires NodeAt(st.heap, ix).offset == NodeAt(st.heap, ix).count
    requires ix + 1 == st.Count() || m == 1
    ensures WrittenLower(st, ix, m) == Lower(st, ix, m)
  {
    ReducedSame(st, ix, m);
    if ix + 1 < st.Count() { DownwardByOne(Reduced(st, ix, 1).heap, ix + 1, st.Count()); }
  }

  lemma RaiseSame(st: State, ix: nat, r: nat)
    requires Valid(st) && Free(st) && ix < st.Count() && 0 <= NodeAt(st.heap, ix).start
    requires NodeAt(st.heap, ix).offset == NodeAt(st.heap, ix).count
    requires ix + 1 == st.Count() || r == 1
    ensures WrittenRaise(st, ix, r) == Raise(st, ix, r)
  {
    if ix + 1 < st.Count() {
      UpwardByOne(st.heap, ix + 1, st.Count());
      RolledSame(st, ix);
    } else {
      GrownSame(st, ix, r);
    }
  }

  lemma GrowSame(st: State, ix: nat, d: nat)
    requires Valid(st) && Free(st) && Covered(st, Grow(ix, d)) && Safe(st, Grow(ix, d))
    ensures WrittenDelta(st, ix, d) == DeltaSize(st, ix, d)
  {
    var n := NodeAt(st.heap, ix);
    assert Fits(st.heap, ix);
    var delta := BarrelDelta(n.count, n.units, n.unitSize, d);
    if delta < 0 {
      LowerSame(st, ix, -delta);
    } else if delta > 0 {
      RaiseSame(st, ix, delta);
    }
  }

  lemma StepSame(st: State, op: Op)
    requires Valid(st) && Free(st) && Covered(st, op) && Safe(st, op)
    ensures WrittenStep(st, op) == Step(st, op)
  {
    match op
    case Create(_, _, _) => TableSame(st);
    case Grow(ix, d) => GrowSame(st, ix, d);
    case Write(_, _, _) =>
  }

  /** Over every run of such calls the loops as they are written make the calls and reach the state
      of the service as it is meant to work. */
  lemma {:induction false} WrittenRunSame(st: State, ops: seq<Op>)
    requires Valid(st) && Free(st) && AllSafe(st, ops)
    ensures WrittenPlay(st, ops) == Play(st, ops)
    decreases |ops|
  {
    if ops != [] && Covered(st, ops[0]) {
      StepSame(st, ops[0]);
      var (out, st1) := Step(st, ops[0]);
      if out != Outside && Free(st1) {
        StepThenPlay(st, ops, st1);
        WrittenRunSame(st1, ops[1..]);
      }
    }
  }

  lemma {:induction false} NoGrowthSafe(st: State, ops: seq<Op>)
    requires forall i :: 0 <= i < |ops| ==> !ops[i].Grow?
    ensures AllSafe(st, ops)
    decreases |ops|
  {
    if ops != [] && Covered(st, ops[0]) {
      var (out, st1) := Step(st, ops[0]);
      if out != Outside && Free(st1) {
        NoGrowthSafe(st1, ops[1..]);
      }
    }
  }

  /** In particular over every run of creations and writes on a fresh heap, in which only the table
      grows and every roll is by one. */
  lemma WrittenReachedSame(barrels: nat, ops: seq<Op>)
    requires barrels <= MAX_BARRELS && forall i :: 0 <= i < |ops| ==> !ops[i].Grow?
    ensures WrittenPlay(Init(barrels), ops) == Play(Init(barrels), ops)
  {
    NoGrowthSafe(Init(barrels), ops);
    WrittenRunSame(Init(barrels), ops);
  }

  // ---- A run in which they are wrong --------------------------------------------------------

  lemma OneMoreBarrel()
    ensures BarrelDelta(2, 2, 24, 1) == 1
  {
  }

  lemma TurnedGrown(st: State, h: Heap)
    requires |h| == |st.heap| && 8 <= |h| && st.Count() == 2
    requires NodeAt(h, 0) == Node(2, 2, 1, 1, 24, 2, false) && NodeAt(h, 1).start == 5
    ensures var st' := WrittenGrown(st.(heap := h), 0, 1);
            NodeAt(st'.heap, 0) == Node(2, 3, 2, 1, 24, 2, false) && NodeAt(st'.heap, 1) == NodeAt(h, 0)
  {
    var s1 := st.(heap := h);
    GrowthWrites(s1, 0, 1);
    assert WrittenGrown(s1, 0, 1).heap[1] == h[0];
  }

  lemma SecondMoves(st: State)
    requires BothNodes(st)
    ensures var (ok, h) := RollUpward(st.heap, 1, 2, 1);
            ok && |h| == 8 && NodeAt(h, 0) == NodeAt(st.heap, 0) && NodeAt(h, 1).start == 5
  {
    assert Fits(st.heap, 0) && Fits(st.heap, 1);
    RollUp(st.heap, 1, 2, 1);
    assert MovedOne(st.heap, RollUpward(st.heap, 1, 2, 1).1, 1, 1);
  }

  lemma BothNodesGrow(st: State)
    requires BothNodes(st)
    ensures Covered(st, Grow(0, 1))
    ensures var (ok, st') := WrittenDelta(st, 0, 1);
            ok && NodeAt(st'.heap, 1) == NodeAt(st.heap, 0) && Start(st'.heap, 1) == Start(st'.heap, 0) == 2
  {
    OneMoreBarrel();
    SecondMoves(st);
    UpwardByOne(st.heap, 1, 2);
    TurnedGrown(st, RollUpward(st.heap, 1, 2, 1).1);
  }

  /** The two nodes of Spills.TwoNodes: growing the first one, whose run the table's growth has turned,
      by a unit writes its old record over the record of the second node. */
  lemma GrowthBreaksTable()
    ensures var st := Reached(8, TwoNodes());
            && Valid(st) && st.Count() == 2 && Covered(st, Grow(0, 1))
            && var (ok, st') := WrittenDelta(st, 0, 1);
            ok && NodeAt(st'.heap, 1) == NodeAt(st.heap, 0) && Start(st'.heap, 1) == Start(st'.heap, 0) == 2
  {
    var st := BothReached();
    BothNodesGrow(st);
  }
}
