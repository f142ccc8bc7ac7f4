/** Growing a node and the node table by units, in the service (tBarrel.c). */
module Refinement {
  import opened Ring
  import opened Resize
  import opened Barrels
  import opened Chain
  import opened Service

  // ---- Resizing in the service --------------------------------------------------------------

  /** The number of barrels that fit `d` more units most tightly. */
  function Fit(n: Node, d: int): int { CeilDiv((n.units + d) * n.unitSize) }

  lemma FitHolds(n: Node, d: nat)
    requires n.unitSize >= 1 && d >= 1
    ensures Fit(n, d) >= 1 && n.units * n.unitSize <= SIZE * Fit(n, d)
  {
    assert (n.units + d) * n.unitSize == n.units * n.unitSize + d * n.unitSize;
    MulBound(n.unitSize, d);
    TightestFit((n.units + d) * n.unitSize);
  }

  lemma DeltaIs(h: Heap, ix: nat, d: nat)
    requires Fits(h, ix) && NodeAt(h, ix).unitSize >= 1 && d >= 1
    requires Fit(NodeAt(h, ix), d) - NodeAt(h, ix).count < UINT / 2
    ensures var n := NodeAt(h, ix); BarrelDelta(n.count, n.units, n.unitSize, d) == Fit(n, d) - n.count
  {
    var n := NodeAt(h, ix);
    FitHolds(n, d);
    GrowingDelta(n.count, n.units, n.unitSize, d);
  }

  lemma DeltaDown(st: State, ix: nat, m: nat)
    requires Tiled(st.heap, 0, st.Count()) && Free(st) && ix < st.Count() && 1 <= m < NodeAt(st.heap, ix).count
    ensures var (ok, st') := ResizeBy(st, ix, -(m as int));
            ok && st' == st.(heap := st'.heap) && Resized(st.heap, st'.heap, ix, st.Count(), -(m as int))
  {
    if ix + 1 < st.Count() {
      ShrinkThenRoll(st.heap, ix, st.Count(), m);
    } else {
      ShrinkLast(st.heap, ix, st.Count(), m);
    }
  }

  lemma DeltaUp(st: State, ix: nat, k: nat)
    requires Tiled(st.heap, 0, st.Count()) && Free(st) && ix < st.Count() && k > 0
    ensures var (ok, st') := ResizeBy(st, ix, k);
            && st' == st.(heap := st'.heap) && (ok <==> st.End() + k <= |st.heap|)
            && (ok ==> Resized(st.heap, st'.heap, ix, st.Count(), k))
            && (!ok ==> OnlyLocked(st.heap, st'.heap, ix + 1, st.Count()))
  {
    var h, t := st.heap, st.Count();
    if st.End() + k <= |h| {
      if ix + 1 < t {
        GrowAfterRoll(h, ix, t, k);
      } else {
        GrowLast(h, ix, t, k);
      }
    } else if ix + 1 < t {
      RollUpFails(h, ix + 1, t, k);
    }
  }

  /** Barrel_DeltaSize by `d > 0` units on a node of the table: it is refused exactly when the
      new barrels do not fit behind the last node; otherwise the node has the tightest fit and
      shows what it showed, and all other nodes show what they showed, wherever they went. */
  lemma ResizeKeeps(st: State, ix: nat, d: nat)
    requires Valid(st) && Free(st) && ix < st.Count() && d >= 1
    requires var n := NodeAt(st.heap, ix); Fit(n, d) - n.count < UINT / 2
    ensures var (ok, st') := DeltaSize(st, ix, d);
            var k := Fit(NodeAt(st.heap, ix), d) - NodeAt(st.heap, ix).count;
            && st' == st.(heap := st'.heap)
            && (ok <==> k <= 0 || st.End() + k <= |st.heap|)
            && (ok ==> Valid(st') && Free(st') && Resized(st.heap, st'.heap, ix, st.Count(), k))
            && (!ok ==> OnlyLocked(st.heap, st'.heap, ix + 1, st.Count()))
  {
    var n := NodeAt(st.heap, ix);
    var k := Fit(n, d) - n.count;
    assert Fits(st.heap, ix) && GoodRecord(n, ix, st.Count());
    FitHolds(n, d);
    DeltaIs(st.heap, ix, d);
    if k == 0 {
      SameSize(st.heap, ix, st.Count());
    } else if k < 0 {
      DeltaDown(st, ix, -k);
    } else {
      DeltaUp(st, ix, k);
    }
    var (ok, st') := DeltaSize(st, ix, d);
    if ok {
      ResizedValid(st, st', ix, k);
    }
  }

  lemma SameSize(h: Heap, ix: nat, t: nat)
    requires Tiled(h, 0, t) && ix < t
    ensures Resized(h, h, ix, t, 0)
  {
  }

  lemma ResizedValid(st: State, st': State, ix: nat, k: int)
    requires Valid(st) && Free(st) && ix < st.Count() && st' == st.(heap := st'.heap)
    requires Resized(st.heap, st'.heap, ix, st.Count(), k)
    requires var n := NodeAt(st.heap, ix); n.units * n.unitSize <= SIZE * (n.count + k)
    ensures Valid(st') && Free(st')
  {
    var h, h', t := st.heap, st'.heap, st.Count();
    ResizedTiled(h, h', ix, t, k);
    forall i | 0 <= i < t
      ensures GoodRecord(NodeAt(h', i), i, t) && !NodeAt(h', i).locked
    {
      assert GoodRecord(NodeAt(h, i), i, t);
      if i != ix {
        assert MovedOne(h, h', i, if i < ix then 0 else k);
      }
    }
  }

  lemma TableDelta(om: Node)
    requires om.unitSize == SIZE && om.units <= om.count <= om.units + 1 && om.count <= MAX_BARRELS
    ensures BarrelDelta(om.count, om.units, om.unitSize, 1) == om.units + 1 - om.count
  {
    GrowingDelta(om.count, om.units, SIZE, 1);
    assert CeilDiv((om.units + 1) * SIZE) == om.units + 1;
  }

  /** The table grown by the barrel in front of the first node, which has rolled up by one. */
  lemma TableRaised(st: State)
    requires Valid(st) && Free(st) && st.omegus.count == st.Count() > 0
    ensures var (ok, st') := Raise(st, OMEGA, 1);
            var h, t := st.heap, st.Count();
            && (ok <==> st.End() + 1 <= |h|) && st'.last == st.last
            && (ok ==> st'.omegus == st.omegus.(count := t + 1, offset := t + 1) && Moved(h, st'.heap, 0, t, 1)
                       && Tiled(st'.heap, 0, t) && Start(st'.heap, 0) == t + 1
                       && Stop(st'.heap, t - 1) == Stop(h, t - 1) + 1)
            && (!ok ==> st'.omegus == st.omegus && OnlyLocked(h, st'.heap, 0, t))
  {
    var h, t := st.heap, st.Count();
    if st.End() + 1 <= |h| {
      RollUp(h, 0, t, 1);
      MovedTiled(h, RollUpward(h, 0, t, 1).1, 0, t, 1);
    } else {
      RollUpFails(h, 0, t, 1);
    }
  }

  /** Barrel_DeltaSize by one unit on the node table: unless a spare record is left, every node
      rolls up by exactly one barrel, and the table takes the barrel in front of them. */
  lemma TableGrows(st: State)
    requires Valid(st) && Free(st)
    ensures var (ok, st') := DeltaSize(st, OMEGA, 1);
            var t, k := st.Count(), st.Count() + 1 - st.omegus.count;
            && st'.last == st.last && (ok <==> k == 0 || st.End() + 1 <= |st.heap|)
            && (ok ==> Valid(st') && Free(st') && Moved(st.heap, st'.heap, 0, t, k) && st'.End() == st.End() + k
                       && st'.omegus == st.omegus.(count := t + 1, offset := t + 1))
            && (!ok ==> st'.omegus == st.omegus && OnlyLocked(st.heap, st'.heap, 0, t))
  {
    var t, om := st.Count(), st.omegus;
    TableDelta(om);
    if om.count == t + 1 {
      NothingMoved(st.heap, 0, t);
    } else if t > 0 {
      TableRaised(st);
      var (ok, st') := Raise(st, OMEGA, 1);
      if ok {
        TableMoved(st, st');
      }
    }
  }

  lemma TableMoved(st: State, st': State)
    requires Valid(st) && Free(st) && Moved(st.heap, st'.heap, 0, st.Count(), 1)
    ensures forall i :: 0 <= i < st.Count() ==>
              GoodRecord(NodeAt(st'.heap, i), i, st.Count()) && !NodeAt(st'.heap, i).locked
  {
    forall i | 0 <= i < st.Count()
      ensures GoodRecord(NodeAt(st'.heap, i), i, st.Count()) && !NodeAt(st'.heap, i).locked
    {
      assert MovedOne(st.heap, st'.heap, i, 1);
    }
  }
}
