/** Units that do not end inside their run (tBarrel.c:483-489).

    Barrel_GetUnitPtr takes the start of a unit round the ring, and the unit is written from there in
    one piece. */
module Spills {
  import opened Wrappers
  import opened Ring
  import opened Barrels
  import opened Chain
  import opened Bytes
  import opened Service
  import opened Refinement
  import opened Creation
  import opened Runs
  import opened Layout

  // ---- Unit sizes ---------------------------------------------------------------------------

  /** A node of `c` barrels with units of `u` bytes, turned in any way. */
  predicate HasShape(n: Node, u: nat, c: nat) {
    n.unitSize == u && n.count == c && 1 <= n.offset <= c
  }

  /** Every unit of a run of `c` barrels ends inside it, however it is turned, exactly when there is
      one barrel only or the unit size divides a barrel. */
  lemma UnitSizeExact(u: nat, c: nat)
    requires u >= 1 && c >= 1 && u <= SIZE * c
    ensures (forall n: Node, index: nat :: HasShape(n, u, c) && u * (index + 1) <= SIZE * c ==> UnitIn(n, index))
            <==> c == 1 || SIZE % u == 0
  {
    if c == 1 || SIZE % u == 0 {
      forall n: Node, index: nat | HasShape(n, u, c) && u * (index + 1) <= SIZE * c
        ensures UnitIn(n, index)
      {
        assert u * (index + 1) == u * index + u;
        if c == 1 { ModSmall(u * index, SIZE); } else { UnitPlace(u, index, 1); }
        TurnsExact(n, index);
        assert n.(offset := n.offset) == n;
      }
    } else {
      var n, index := Node(0, c, c, NONE, u, 0, false), SIZE / u;
      CrossingUnit(u, c);
      TurnsExact(n, index);
      var o :| 1 <= o <= c && !UnitIn(n.(offset := o), index);
      assert HasShape(n.(offset := o), u, c) && !UnitIn(n.(offset := o), index);
    }
  }

  lemma CrossingUnit(u: nat, c: nat)
    requires u >= 1 && c >= 2 && u <= SIZE * c && SIZE % u != 0
    ensures !InBarrel(u, SIZE / u) && u * (SIZE / u + 1) <= SIZE * c
  {
    var q := SIZE / u;
    assert u * q == SIZE - SIZE % u;
    assert u * (q + 1) == u * q + u;
    ModSmall(u * q, SIZE);
  }

  // ---- What is overwritten ------------------------------------------------------------------

  /** The bytes of node `i` are those of `data` where their addresses lie in the span written from `a`
      on, and what they were elsewhere. */
  predicate WrittenOver(h: Heap, h': Heap, i: nat, a: int, data: seq<byte>) {
    Fits(h, i) && Fits(h', i) && NodeAt(h', i) == NodeAt(h, i) &&
    forall p :: 0 <= p < SIZE * NodeAt(h, i).count ==>
      var x := Address(NodeAt(h, i), p);
      NodeBytes(h', i)[p] == if a <= x < a + |data| then data[x - a] else NodeBytes(h, i)[p]
  }

  /** Any write of a unit, whether or not it ends inside its run: the records, and so the runs and the
      invariant, stay as they are, and each byte of each node is the one written at its address, or
      the one it was. */
  lemma WriteAnywhere(st: State, ix: nat, index: nat, data: seq<byte>)
    requires Valid(st) && ix < st.Count() && Fits(st.heap, ix)
    ensures var st', a := WriteUnit(st, ix, index, data), UnitAddress(NodeAt(st.heap, ix), index);
            && Valid(st') && (Free(st) ==> Free(st'))
            && forall i :: 0 <= i < st.Count() ==> WrittenOver(st.heap, st'.heap, i, a, data)
  {
    var st', a := WriteUnit(st, ix, index, data), UnitAddress(NodeAt(st.heap, ix), index);
    UnitInAddress(NodeAt(st.heap, ix), index);
    PutBytesWrites(st.heap, a, data);
    RecordsKept(st, st', ix, a, data);
    forall i | 0 <= i < st.Count()
      ensures WrittenOver(st.heap, st'.heap, i, a, data)
    {
      OverBytes(st.heap, st'.heap, i, a, data);
    }
  }

  lemma RecordsKept(st: State, st': State, ix: nat, a: int, data: seq<byte>)
    requires Valid(st) && ix < st.Count() && st' == st.(heap := st'.heap)
    requires Written(st.heap, st'.heap, a, data) && SIZE * Start(st.heap, ix) <= a
    ensures Valid(st') && (Free(st) ==> Free(st'))
    ensures SameRecords(st.heap, st'.heap, st.Count())
  {
    EndBehindTable(st);
    forall i | 0 <= i < st.Count()
      ensures i < |st.heap| && st'.heap[i] == st.heap[i]
    {
      assert Fits(st.heap, i);
    }
    SameTiled(st.heap, st'.heap, st.Count());
    forall i | 0 <= i < st.Count()
      ensures GoodRecord(NodeAt(st'.heap, i), i, st.Count())
    {
      assert NodeAt(st'.heap, i) == NodeAt(st.heap, i);
    }
  }

  predicate SameRecords(h: Heap, h': Heap, t: nat) {
    |h'| == |h| && forall i :: 0 <= i < t ==> i < |h| && h'[i] == h[i]
  }

  lemma SameTiled(h: Heap, h': Heap, t: nat)
    requires Tiled(h, 0, t) && SameRecords(h, h', t)
    ensures Tiled(h', 0, t) && (t > 0 ==> Start(h', 0) == Start(h, 0)) && (Unlocked(h, 0, t) ==> Unlocked(h', 0, t))
  {
    forall i | 0 <= i < t
      ensures Fits(h', i) && t <= Start(h', i) && NodeAt(h', i) == NodeAt(h, i)
      ensures Start(h', i) == Start(h, i) && Stop(h', i) == Stop(h, i)
    {
      assert Fits(h, i) && t <= Start(h, i);
    }
  }

  lemma OverBytes(h: Heap, h': Heap, i: nat, a: int, data: seq<byte>)
    requires Fits(h, i) && Written(h, h', a, data) && h'[i] == h[i]
    ensures WrittenOver(h, h', i, a, data)
  {
    forall p | 0 <= p < SIZE * NodeAt(h, i).count
      ensures var x := Address(NodeAt(h, i), p);
              NodeBytes(h', i)[p] == if a <= x < a + |data| then data[x - a] else NodeBytes(h, i)[p]
    {
      NodeBytesAt(h, i, p);
      NodeBytesAt(h', i, p);
    }
  }

  /** Node `i` has the bytes of `data` from `k` on over the front of its run. */
  predicate Spilt(h: Heap, i: nat, data: seq<byte>, k: nat) {
    Fits(h, i) && k <= |data| &&
    var m := NodeAt(h, i);
    forall p :: 0 <= p < SIZE * m.count && Address(m, p) - SIZE * m.start < |data| - k ==>
      Address(m, p) >= SIZE * m.start && NodeBytes(h, i)[p] == data[k + (Address(m, p) - SIZE * m.start)]
  }

  /** A unit that does not end inside its run goes on over the front of the next node's run. */
  lemma WriteSpills(st: State, ix: nat, index: nat, data: seq<byte>)
    requires Valid(st) && ix + 1 < st.Count() && Fits(st.heap, ix)
    requires |data| == NodeAt(st.heap, ix).unitSize && !UnitIn(NodeAt(st.heap, ix), index)
    ensures var h' := WriteUnit(st, ix, index, data).heap;
            var k := SIZE * Stop(st.heap, ix) - UnitAddress(NodeAt(st.heap, ix), index);
            0 < k < |data| && NodeAt(h', ix + 1) == NodeAt(st.heap, ix + 1) && Spilt(h', ix + 1, data, k)
  {
    var h, n := st.heap, NodeAt(st.heap, ix);
    var a, h' := UnitAddress(n, index), WriteUnit(st, ix, index, data).heap;
    UnitInAddress(n, index);
    WriteAnywhere(st, ix, index, data);
    assert WrittenOver(h, h', ix + 1, a, data);
    assert Stop(h, ix) == Start(h, ix + 1);
    SpiltFront(h, h', ix + 1, a, data);
  }

  lemma SpiltFront(h: Heap, h': Heap, i: nat, a: int, data: seq<byte>)
    requires WrittenOver(h, h', i, a, data) && a <= SIZE * Start(h, i) <= a + |data|
    ensures Spilt(h', i, data, SIZE * Start(h, i) - a)
  {
    var m := NodeAt(h, i);
    forall p | 0 <= p < SIZE * m.count && Address(m, p) < a + |data|
      ensures Address(m, p) >= SIZE * m.start && NodeBytes(h', i)[p] == data[Address(m, p) - a]
    {
      NodeBytesAt(h, i, p);
    }
  }

  /** The logical byte that lies at the head of a run. */
  function HeadByte(n: Node): nat
    requires 1 <= n.offset <= n.count
  {
    if n.offset == n.count then 0 else SIZE * (n.count - n.offset)
  }

  lemma HeadAddress(n: Node)
    requires 1 <= n.offset <= n.count
    ensures HeadByte(n) < SIZE * n.count && Address(n, HeadByte(n)) == SIZE * n.start
  {
  }

  /** A write to a node with one behind it leaves every other node as it is, whatever is written,
      exactly when the unit ends inside the run. */
  lemma SpillExact(st: State, ix: nat, index: nat)
    requires Valid(st) && ix + 1 < st.Count() && Fits(st.heap, ix)
    ensures UnitIn(NodeAt(st.heap, ix), index) <==>
              forall data: seq<byte>, i: nat :: |data| == NodeAt(st.heap, ix).unitSize && i < st.Count() && i != ix ==>
                Shows(st.heap, WriteUnit(st, ix, index, data).heap, i)
  {
    var h, n := st.heap, NodeAt(st.heap, ix);
    if UnitIn(n, index) {
      forall data: seq<byte>, i: nat | |data| == n.unitSize && i < st.Count() && i != ix
        ensures Shows(h, WriteUnit(st, ix, index, data).heap, i)
      {
        WriteKeeps(st, ix, index, data);
      }
    } else {
      assert Fits(h, ix + 1);
      var m := NodeAt(h, ix + 1);
      var p := HeadByte(m);
      HeadAddress(m);
      var v: byte := if NodeBytes(h, ix + 1)[p] == 0 then 1 else 0;
      var data: seq<byte> := seq(n.unitSize, _ => v);
      WriteSpills(st, ix, index, data);
      var h' := WriteUnit(st, ix, index, data).heap;
      assert NodeBytes(h', ix + 1)[p] == v;
      assert !Shows(h, h', ix + 1);
    }
  }

  // ---- A run in which it happens ------------------------------------------------------------

  /** Two units of 24 bytes in a run of two barrels, and a node behind it that made the table grow. */
  function TwoNodes(): seq<Op> {
    [Create(24, 2, None), Create(32, 1, None)]
  }

  lemma CtorCount48()
    ensures CtorCount(1, 48, 224) == 2 && RoomFor(48, 7) && CtorCount(1, 32, 128) == 1 && RoomFor(32, 4)
  {
    assert CtorCount(2, 48, 224) == 2;
    assert PowerBelow(7) == 4 by { assert PowerBelow(3) == 2; }
    assert PowerBelow(4) == 4 by { assert PowerBelow(2) == 2; }
  }

  predicate FirstNode(st: State) {
    && Valid(st) && Free(st) && st.Count() == 1 && st.omegus.count == 1 && |st.heap| == 8
    && NodeAt(st.heap, 0) == Node(1, 2, 2, NONE, 24, 2, false)
  }

  lemma FirstMade()
    ensures var (made, st) := Sourced(Init(8), 24, 2, None); made == Made(0) && FirstNode(st)
  {
    SourcedKeeps(Init(8), 24, 2, None);
    FirstNew(DeltaSize(Init(8), OMEGA, 1).1);
  }

  lemma FirstNew(st: State)
    requires st.Count() == 0 && st.End() == 1 && |st.heap| == 8
    ensures NewNode(st, 24, 2) == Node(1, 2, 2, NONE, 24, 2, false) && RoomFor(Needed(24, 2), |st.heap| - st.End())
  {
    CtorCount48();
  }

  /** The table needs the barrel in front of the first node, which rolls up by one. */
  lemma FirstRolled(st: State)
    requires FirstNode(st)
    ensures var (ok, st1) := DeltaSize(st, OMEGA, 1);
            ok && NodeAt(st1.heap, 0) == Node(2, 2, 1, NONE, 24, 2, false)
  {
    TableDelta(st.omegus);
    var h1 := SetLock(st.heap, 0, true);
    assert Fits(st.heap, 0);
    assert Barrels.RollForward(h1, 0, 1) == ForwardOne(Barrels.RollForward(h1, 0, 0), 0);
    assert OffsetAfter(2, 2, 1) == 1;
    assert RollUpward(st.heap, 0, 1, 1) == (true, SetLock(ForwardOne(h1, 0), 0, false));
  }

  predicate SecondReady(st: State) {
    && Valid(st) && Free(st) && st.Count() == 1 && st.omegus.count == 2 && |st.heap| == 8
    && NodeAt(st.heap, 0) == Node(2, 2, 1, NONE, 24, 2, false)
  }

  lemma TableReady(st: State)
    requires FirstNode(st)
    ensures var (ok, st1) := DeltaSize(st, OMEGA, 1); ok && SecondReady(st1)
  {
    RecordFirst(st);
    FirstRolled(st);
  }

  predicate BothNodes(st: State) {
    && Valid(st) && Free(st) && st.Count() == 2 && |st.heap| == 8
    && NodeAt(st.heap, 0) == Node(2, 2, 1, 1, 24, 2, false)
    && NodeAt(st.heap, 1) == Node(4, 1, 1, NONE, 32, 1, false)
  }

  lemma SecondAttached(st: State)
    requires SecondReady(st)
    ensures var (made, st') := Construct(st, 32, 1, None); made == Made(1) && BothNodes(st')
  {
    CtorCount48();
    var n := NewNode(st, 32, 1);
    assert n == Node(4, 1, 1, NONE, 32, 1, false);
    NewNodeAppendable(st, 32, 1);
    var initial := Initial(None, n.units * 32);
    AttachLinks(st, n, initial);
    AttachKeeps(st, n, initial);
  }

  lemma SecondMade(st: State)
    requires FirstNode(st)
    ensures var (made, st') := Sourced(st, 32, 1, None); made == Made(1) && BothNodes(st')
  {
    TableReady(st);
    SecondAttached(DeltaSize(st, OMEGA, 1).1);
  }

  /** Two creations on a fresh heap of eight barrels, and the second unit of the first node written:
      its last 16 bytes are the first bytes of the second node. */
  lemma UnitSpills(data: seq<byte>)
    requires |data| == 24
    ensures var st := Reached(8, TwoNodes());
            && Valid(st) && st.Count() == 2 && Fits(st.heap, 0) && NodeAt(st.heap, 0).unitSize == 24
            && var h' := WriteUnit(st, 0, 1, data).heap;
            Fits(h', 1) && |NodeBytes(h', 1)| == 32 && NodeBytes(h', 1)[..16] == data[8..]
  {
    var st := BothReached();
    BothSpill(st, data);
  }

  lemma BothReached() returns (st: State)
    ensures st == Reached(8, TwoNodes()) && BothNodes(st)
  {
    FirstMade();
    var st1 := Sourced(Init(8), 24, 2, None).1;
    SecondMade(st1);
    st := Sourced(st1, 32, 1, None).1;
    TwoPlayed(st1, st);
  }

  lemma BothSpill(st: State, data: seq<byte>)
    requires BothNodes(st) && |data| == 24
    ensures Fits(st.heap, 0)
    ensures var h' := WriteUnit(st, 0, 1, data).heap;
            Fits(h', 1) && |NodeBytes(h', 1)| == 32 && NodeBytes(h', 1)[..16] == data[8..]
  {
    assert Fits(st.heap, 0);
    assert UnitAddress(NodeAt(st.heap, 0), 1) == 120;
    WriteSpills(st, 0, 1, data);
    SpiltBytes(WriteUnit(st, 0, 1, data).heap, data);
  }

  lemma SpiltBytes(h: Heap, data: seq<byte>)
    requires |data| == 24 && Spilt(h, 1, data, 8) && NodeAt(h, 1) == Node(4, 1, 1, NONE, 32, 1, false)
    ensures |NodeBytes(h, 1)| == 32 && NodeBytes(h, 1)[..16] == data[8..]
  {
    forall p | 0 <= p < 16
      ensures NodeBytes(h, 1)[p] == data[8 + p]
    {
      assert Address(NodeAt(h, 1), p) == 128 + p;
    }
  }

  lemma TwoPlayed(st1: State, st: State)
    requires Sourced(Init(8), 24, 2, None) == (Made(0), st1) && Free(st1)
    requires Sourced(st1, 32, 1, None) == (Made(1), st) && Free(st)
    ensures Reached(8, TwoNodes()) == st
  {
    var ops := TwoNodes();
    assert Play(st, ops[1..][1..]) == Played(0, st);
    assert Play(st1, ops[1..]) == Played(1, st);
    assert Play(Init(8), ops) == Played(2, st);
  }
}
