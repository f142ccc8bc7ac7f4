/** The barrel service as a state machine (tBarrel.c): the node table grows, nodes are created
    and resized, and every other node rolls out of the way.  A run of such operations refines a
    plain table of byte sequences. */
module Service {
  import opened Ring
  import opened Resize
  import opened Barrels
  import opened Chain

  /** The heap, the record of the node table, and the index of the last physical node. */
  datatype State = State(heap: Heap, omegus: Node, last: int)
  {
    function Count(): nat { omegus.units }

    /** The first barrel behind the last physical node, where the heap's end is taken to be. */
    function End(): int {
      if omegus.units == 0 then omegus.start + omegus.count else Stop(heap, omegus.units - 1)
    }

    function NodeOf(ix: int): Node {
      if ix == OMEGA then omegus else NodeAt(heap, ix)
    }
  }

  // ---- The invariant ------------------------------------------------------------------------

  /** A table record: its link names the next record, and its units fit in its barrels. */
  predicate GoodRecord(n: Node, ix: nat, t: nat) {
    && n.next == (if ix + 1 < t then ix + 1 else NONE)
    && 1 <= n.unitSize && n.units * n.unitSize <= SIZE * n.count
  }

  /** The table starts at barrel 0 and is never turned, the chain of `_nextNode` links visits
      every record once and ends at the last physical node, and the runs tile the heap from
      barrel 0 to the end without gap or overlap. */
  predicate Valid(st: State) {
    var t := st.Count();
    && |st.heap| <= MAX_BARRELS
    && st.omegus.start == 0 && st.omegus.offset == st.omegus.count <= |st.heap|
    && st.omegus.unitSize == SIZE && t <= st.omegus.count <= t + 1
    && st.omegus.next == (if t > 0 then 0 else NONE) && st.last == t - 1
    && Tiled(st.heap, 0, t) && (t > 0 ==> Start(st.heap, 0) == st.omegus.count)
    && forall ix :: 0 <= ix < t ==> GoodRecord(NodeAt(st.heap, ix), ix, t)
  }

  predicate Free(st: State) {
    Unlocked(st.heap, 0, st.Count())
  }

  // ---- Operations ---------------------------------------------------------------------------

  /** Barrel_Grow on node `ix` of the table. */
  function GrowNode(h: Heap, ix: int, r: nat): (h': Heap)
    ensures |h'| == |h|
  {
    var n := NodeAt(h, ix);
    if n.start < 0 then h else
    SetNode(GrowCopied(h, n.start, n.count, r, n.offset + r), ix,
            n.(count := n.count + r, offset := n.offset + r))
  }

  /** Barrel_Shrink on node `ix` of the table. */
  function ShrinkNode(h: Heap, ix: int, m: nat): (h': Heap)
    ensures |h'| == |h|
  {
    var n := NodeAt(h, ix);
    if n.start < 0 || n.count < m then h else
    SetNode(Shrunk(h, n.start, n.count, n.offset, m), ix,
            n.(count := n.count - m, offset := ShrinkOffset(n.count, n.offset, m)))
  }

  function Grown(st: State, ix: int, r: nat): State {
    if ix != OMEGA then st.(heap := GrowNode(st.heap, ix, r)) else
    var n := st.omegus;
    st.(heap := if n.start < 0 then st.heap else GrowCopied(st.heap, n.start, n.count, r, n.offset + r),
        omegus := n.(count := n.count + r, offset := n.offset + r))
  }

  function Reduced(st: State, ix: int, m: nat): State {
    if ix != OMEGA then st.(heap := ShrinkNode(st.heap, ix, m)) else
    var n := st.omegus;
    if n.start < 0 || n.count < m then st else
    st.(heap := Shrunk(st.heap, n.start, n.count, n.offset, m),
        omegus := n.(count := n.count - m, offset := ShrinkOffset(n.count, n.offset, m)))
  }

  /** Barrel_DeltaSize with a negative barrel delta: shrink, then roll the nodes behind down. */
  function Lower(st: State, ix: int, m: nat): State
    requires OMEGA <= ix < st.Count()
  {
    var st1 := Reduced(st, ix, m);
    if ix + 1 < st.Count() then
      st1.(heap := RollDownward(st1.heap, ix + 1, st.Count(), m))
    else st1
  }

  /** Barrel_DeltaSize with a positive barrel delta: roll the nodes behind up, then grow. */
  function Raise(st: State, ix: int, r: nat): (res: (bool, State))
    requires OMEGA <= ix < st.Count()
  {
    if ix + 1 < st.Count() then
      var rolled := RollUpward(st.heap, ix + 1, st.Count(), r);
      if rolled.0 then (true, Grown(st.(heap := rolled.1), ix, r)) else (false, st.(heap := rolled.1))
    else if |st.heap| - st.End() < r then (false, st)
    else (true, Grown(st, ix, r))
  }

  function ResizeBy(st: State, ix: int, delta: int): (res: (bool, State))
    requires OMEGA <= ix < st.Count()
  {
    if delta == 0 then (true, st) else if delta < 0 then (true, Lower(st, ix, -delta)) else Raise(st, ix, delta)
  }

  /** Barrel_DeltaSize on node `ix` (or on the table) by `d` units. */
  function DeltaSize(st: State, ix: int, d: int): (res: (bool, State))
    requires OMEGA <= ix < st.Count()
  {
    var n := st.NodeOf(ix);
    ResizeBy(st, ix, BarrelDelta(n.count, n.units, n.unitSize, d))
  }

  // ---- One node resized ---------------------------------------------------------------------

  /** The record of `ix` has its count changed by `k`; the contents agree as far as both go. */
  predicate ResizedOne(h: Heap, h': Heap, ix: nat, k: int) {
    && Fits(h, ix) && Fits(h', ix) && |h'| == |h| && NodeAt(h, ix).count + k > 0
    && NodeAt(h', ix) == NodeAt(h, ix).(count := NodeAt(h, ix).count + k, offset := NodeAt(h', ix).offset)
    && Agree(View(h, ix), View(h', ix))
  }

  lemma GrowNodeKeeps(h: Heap, ix: nat, r: nat)
    requires Fits(h, ix) && 1 <= r && Stop(h, ix) + r <= |h|
    ensures ResizedOne(h, GrowNode(h, ix, r), ix, r)
    ensures SameOutside(h, GrowNode(h, ix, r), ix, Start(h, ix), Stop(h, ix) + r)
  {
    var n := NodeAt(h, ix);
    GrowKeeps(h, n.start, n.count, n.offset, r);
    LogicalFrame(GrowCopied(h, n.start, n.count, r, n.offset + r), GrowNode(h, ix, r),
                 n.start, n.count + r, n.offset + r);
  }

  lemma ShrinkNodeKeeps(h: Heap, ix: nat, m: nat)
    requires Fits(h, ix) && 1 <= m < NodeAt(h, ix).count
    ensures ResizedOne(h, ShrinkNode(h, ix, m), ix, -(m as int))
    ensures SameOutside(h, ShrinkNode(h, ix, m), ix, Start(h, ix), Stop(h, ix) - m)
  {
    var n := NodeAt(h, ix);
    ShrinkKeeps(h, n.start, n.count, n.offset, m);
    LogicalFrame(Shrunk(h, n.start, n.count, n.offset, m), ShrinkNode(h, ix, m),
                 n.start, n.count - m, ShrinkOffset(n.count, n.offset, m));
  }

  /** Node `ix` resized by `k`, the nodes in front of it left alone, those behind it moved. */
  predicate Resized(h: Heap, h': Heap, ix: nat, t: nat, k: int) {
    Moved(h, h', 0, ix, 0) && ResizedOne(h, h', ix, k) && Moved(h, h', ix + 1, t, k)
  }

  /** A node in front of `ix` is outside every write from `Start(h, ix)` on. */
  lemma InFront(h: Heap, h': Heap, ix: nat, t: nat, hi: int)
    requires Tiled(h, 0, t) && ix < t && SameBut(h, h', ix, t, Start(h, ix), hi)
    ensures Moved(h, h', 0, ix, 0)
  {
    forall i | 0 <= i < ix
      ensures MovedOne(h, h', i, 0)
    {
      Ordered(h, 0, t, i, ix);
      NodeFrame(h, h', i);
    }
  }

  /** Growing: the nodes behind are rolled up first, then the run takes the gap. */
  lemma GrowAfterRoll(h: Heap, ix: nat, t: nat, k: nat)
    requires Tiled(h, 0, t) && Unlocked(h, 0, t) && ix + 1 < t && 1 <= k && Stop(h, t - 1) + k <= |h|
    ensures var (ok, h1) := RollUpward(h, ix + 1, t, k);
            ok && Resized(h, GrowNode(h1, ix, k), ix, t, k)
  {
    RollUp(h, ix + 1, t, k);
    var h1 := RollUpward(h, ix + 1, t, k).1;
    Ordered(h, 0, t, ix, ix + 1);
    MovedTiled(h, h1, ix + 1, t, k);
    GrowIntoGap(h, h1, ix, t, k, Stop(h, t - 1) + k);
  }

  lemma GrowIntoGap(h: Heap, h1: Heap, ix: nat, t: nat, k: nat, hi: int)
    requires Tiled(h, 0, t) && ix + 1 < t && 1 <= k && Stop(h, ix) + k <= Start(h1, ix + 1)
    requires Tiled(h1, ix + 1, t) && Moved(h, h1, ix + 1, t, k) && SameBut(h, h1, ix + 1, t, Stop(h, ix), hi)
    ensures Resized(h, GrowNode(h1, ix, k), ix, t, k)
  {
    NodeFrame(h, h1, ix);
    GrowNodeKeeps(h1, ix, k);
    var h2 := GrowNode(h1, ix, k);
    NothingMoved(h, ix + 1, t);
    BehindLater(h, h, h1, h2, ix, t, k, Start(h, ix), Stop(h, ix) + k);
    InFront(h, h2, ix, t, if hi < Stop(h, ix) + k then Stop(h, ix) + k else hi);
  }

  lemma GrowLast(h: Heap, ix: nat, t: nat, k: nat)
    requires Tiled(h, 0, t) && ix + 1 == t && 1 <= k && Stop(h, ix) + k <= |h|
    ensures Resized(h, GrowNode(h, ix, k), ix, t, k)
  {
    GrowNodeKeeps(h, ix, k);
    InFront(h, GrowNode(h, ix, k), ix, t, Stop(h, ix) + k);
  }

  /** A shrunk run leaves the nodes behind it as they are. */
  lemma ShrinkBehind(h: Heap, ix: nat, t: nat, m: nat)
    requires Tiled(h, 0, t) && Unlocked(h, 0, t) && ix + 1 < t && 1 <= m < NodeAt(h, ix).count
    ensures var h1 := ShrinkNode(h, ix, m);
            && ResizedOne(h, h1, ix, -(m as int)) && SameOutside(h, h1, ix, Start(h, ix), Stop(h, ix) - m)
            && Tiled(h1, ix + 1, t) && Unlocked(h1, ix + 1, t) && Moved(h, h1, ix + 1, t, 0)
            && Start(h1, ix + 1) == Stop(h, ix) && t + m <= Stop(h, ix)
  {
    ShrinkNodeKeeps(h, ix, m);
    Ordered(h, 0, t, ix, ix + 1);
    TiledFrame(h, ShrinkNode(h, ix, m), ix + 1, t);
  }

  /** Shrinking: the run gives up its last barrels, then the nodes behind are rolled down. */
  lemma ShrinkThenRoll(h: Heap, ix: nat, t: nat, m: nat)
    requires Tiled(h, 0, t) && Unlocked(h, 0, t) && ix + 1 < t && 1 <= m < NodeAt(h, ix).count
    ensures Resized(h, RollDownward(ShrinkNode(h, ix, m), ix + 1, t, m), ix, t, -(m as int))
  {
    var h1 := ShrinkNode(h, ix, m);
    ShrinkBehind(h, ix, t, m);
    RollDown(h1, ix + 1, t, m);
    RollAfterShrink(h, h1, RollDownward(h1, ix + 1, t, m), ix, t, m, Stop(h1, t - 1));
  }

  lemma RollAfterShrink(h: Heap, h1: Heap, h2: Heap, ix: nat, t: nat, m: nat, hi: int)
    requires Tiled(h, 0, t) && ix + 1 < t && ResizedOne(h, h1, ix, -(m as int))
    requires SameOutside(h, h1, ix, Start(h, ix), Stop(h, ix) - m) && Moved(h, h1, ix + 1, t, 0)
    requires Moved(h1, h2, ix + 1, t, -(m as int)) && Start(h1, ix + 1) == Stop(h, ix)
    requires SameBut(h1, h2, ix + 1, t, Start(h1, ix + 1) - m, hi)
    ensures Resized(h, h2, ix, t, -(m as int))
  {
    NodeFrame(h1, h2, ix);
    InFront(h, h2, ix, t, if hi < Stop(h, ix) then Stop(h, ix) else hi);
    MovedTwice(h, h1, h2, ix + 1, t, -(m as int));
  }

  lemma ShrinkLast(h: Heap, ix: nat, t: nat, m: nat)
    requires Tiled(h, 0, t) && ix + 1 == t && 1 <= m < NodeAt(h, ix).count
    ensures Resized(h, ShrinkNode(h, ix, m), ix, t, -(m as int))
  {
    ShrinkNodeKeeps(h, ix, m);
    InFront(h, ShrinkNode(h, ix, m), ix, t, Stop(h, ix));
  }

  /** After a resize the runs still tile the heap. */
  lemma ResizedTiled(h: Heap, h': Heap, ix: nat, t: nat, k: int)
    requires Tiled(h, 0, t) && ix < t && Resized(h, h', ix, t, k)
    ensures Tiled(h', 0, t) && Start(h', 0) == Start(h, 0) && Stop(h', t - 1) == Stop(h, t - 1) + k
  {
    forall i | 0 <= i < t
      ensures Fits(h', i) && t <= Start(h', i)
      ensures Start(h', i) == (if i <= ix then Start(h, i) else Start(h, i) + k)
      ensures Stop(h', i) == (if i < ix then Stop(h, i) else Stop(h, i) + k)
    {
      if i < ix {
        assert MovedOne(h, h', i, 0);
      } else if ix < i {
        assert MovedOne(h, h', i, k);
        Ordered(h, 0, t, ix, i);
      }
    }
  }
}
