/** The barrel service in place (tBarrel.c): one array of barrels, the record of the node table,
    and the index of the last physical node.  Every method is proved equal to its function in
    modules `Barrels`, `Chain`, `Service` and `Creation`, about which the properties are proved. */
module BarrelServices {
  import opened Wrappers
  import opened Ring
  import opened Resize
  import opened Barrels
  import opened Chain
  import opened Bytes
  import opened Service
  import opened Refinement
  import opened Creation

  /** The links of the nodes from `j` on. */
  predicate Links(h: Heap, j: nat, t: nat) {
    forall i :: j <= i < t ==> NodeAt(h, i).next == (if i + 1 < t then i + 1 else NONE)
  }

  class BarrelService {
    const heap: array<Barrel>
    var omegus: Node
    var last: int

    ghost function Value(): State
      reads this, heap
    {
      State(heap[..], omegus, last)
    }

    /** Barrel_ServiceInit over `barrels` barrels of cleared heap. */
    constructor (barrels: nat)
      requires barrels <= MAX_BARRELS
      ensures fresh(heap) && heap.Length == barrels && Valid(Value()) && Free(Value()) && Value().Count() == 0
    {
      heap := new Barrel[barrels](_ => Words(seq(SIZE, _ => 0)));
      omegus := Node(0, 0, 0, NONE, SIZE, 0, false);
      last := OMEGA;
    }

    method BarrelTranscribe(dst: nat, src: nat, count: nat)
      requires dst + count <= heap.Length && src + count <= heap.Length
      modifies heap
      ensures heap[..] == Transcribed(old(heap[..]), dst, src, count)
    {
      for i := 0 to count
        invariant heap[..] == Transcribed(old(heap[..]), dst, src, i)
      {
        heap[dst + i] := heap[src + i];
      }
    }

    /** Collection_Request; the caller spins while the lock is held. */
    method Request(ix: nat)
      requires ix < heap.Length && heap[ix].Record? && !heap[ix].node.locked
      modifies heap
      ensures heap[..] == SetLock(old(heap[..]), ix, true)
    {
      heap[ix] := Record(heap[ix].node.(locked := true));
    }

    method Release(ix: nat)
      requires ix < heap.Length && heap[ix].Record?
      modifies heap
      ensures heap[..] == SetLock(old(heap[..]), ix, false)
    {
      heap[ix] := Record(heap[ix].node.(locked := false));
    }

    /** Barrel_RollForward with a request of 1. */
    method RollForwardOne(ix: nat)
      requires Fits(heap[..], ix) && Stop(heap[..], ix) < heap.Length
      modifies heap
      ensures heap[..] == ForwardOne(old(heap[..]), ix)
    {
      var n := heap[ix].node;
      BarrelTranscribe(n.start + n.count, n.start, 1);
      heap[ix] := Record(n.(start := n.start + 1, offset := OffsetAfter(n.offset, n.count, 1)));
    }

    /** Barrel_RollBack with a request of -1. */
    method RollBackOne(ix: nat)
      requires Fits(heap[..], ix) && ix < Start(heap[..], ix) - 1
      modifies heap
      ensures heap[..] == BackOne(old(heap[..]), ix)
    {
      var n := heap[ix].node;
      BarrelTranscribe(n.start - 1, n.start - 1 + n.count, 1);
      heap[ix] := Record(n.(start := n.start - 1, offset := OffsetAfter(n.offset, n.count, -1)));
    }

    /** Barrel_RollForward, one barrel and one step of the offset per pass. */
    method RollForward(ix: nat, request: nat)
      requires Fits(heap[..], ix) && Stop(heap[..], ix) + request <= heap.Length
      modifies heap
      ensures heap[..] == Barrels.RollForward(old(heap[..]), ix, request)
    {
      for i := 0 to request
        invariant heap[..] == Barrels.RollForward(old(heap[..]), ix, i)
      {
        RollForwardMoves(old(heap[..]), ix, i);
        RollForwardOne(ix);
      }
    }

    /** Barrel_RollBack, one barrel and one step of the offset per pass. */
    method RollBack(ix: nat, request: nat)
      requires Fits(heap[..], ix) && ix < Start(heap[..], ix) - request
      modifies heap
      ensures heap[..] == Barrels.RollBack(old(heap[..]), ix, request)
    {
      for i := 0 to request
        invariant heap[..] == Barrels.RollBack(old(heap[..]), ix, i)
      {
        RollBackMoves(old(heap[..]), ix, i);
        RollBackOne(ix);
      }
    }

    /** The barrels behind the last physical node. */
    method Remaining() returns (r: int)
      requires Valid(Value())
      ensures r == heap.Length - Value().End()
    {
      if last == OMEGA {
        r := heap.Length - (omegus.start + omegus.count);
      } else {
        assert Fits(heap[..], last);
        r := heap.Length - (heap[last].node.start + heap[last].node.count);
      }
    }

    /** Barrel_Roll. */
    method Roll(ix: nat, request: int) returns (ok: bool)
      requires ix < omegus.units && last == omegus.units - 1 && Links(heap[..], ix, omegus.units)
      requires Tiled(heap[..], ix, omegus.units) && Unlocked(heap[..], ix, omegus.units)
      requires request < 0 ==> omegus.units - request <= Start(heap[..], ix)
      modifies heap
      ensures (ok, heap[..]) == Chain.Roll(old(heap[..]), ix, omegus.units, request)
      decreases omegus.units - ix, 1
    {
      if request == 0 {
        return true;
      }
      ghost var h, t := heap[..], omegus.units;
      assert Fits(h, ix);
      LockFrame(h, ix, true);
      Request(ix);
      if request < 0 {
        RollBack(ix, -request);
      }
      ghost var h2 := heap[..];
      ReadyNext(h, h2, ix, t, request);
      var rolled := RollNext(ix, request);
      RollStep(h, h2, ix, t, request, (rolled, heap[..]));
      if !rolled {
        return false;
      }
      ReadyLast(h, h2, heap[..], ix, t, request);
      RollSelf(ix, request);
      return true;
    }

    /** The end of Barrel_Roll: the node itself goes up after those behind it, and is released. */
    method RollSelf(ix: nat, request: int)
      requires Fits(heap[..], ix) && (request > 0 ==> Stop(heap[..], ix) + request <= heap.Length)
      requires request > 0 ==> Fits(Barrels.RollForward(heap[..], ix, request), ix)
      modifies heap
      ensures heap[..] ==
                SetLock(if request > 0 then Barrels.RollForward(old(heap[..]), ix, request) else old(heap[..]),
                        ix, false)
    {
      if request > 0 {
        RollForward(ix, request);
      }
      Release(ix);
    }

    /** The part of Barrel_Roll that asks the next physical node, or looks for room behind the
        last one. */
    method RollNext(ix: nat, request: int) returns (ok: bool)
      requires ix < omegus.units && last == omegus.units - 1 && request != 0 && Fits(heap[..], ix)
      requires NextReady(heap[..], ix, omegus.units, request)
      modifies heap
      ensures NextRolled(old(heap[..]), ix, omegus.units, request, (ok, heap[..]))
      decreases omegus.units - ix, 0
    {
      if heap[ix].node.next > -1 {
        ok := Roll(heap[ix].node.next, request);
      } else {
        var n := heap[last].node;
        ok := request < 0 || heap.Length - (n.start + n.count) >= request;
      }
    }

    /** The record of node `ix`, or of the table. */
    function GetNode(ix: int): Node
      requires ix == OMEGA || (0 <= ix < heap.Length && heap[ix].Record?)
      reads this, heap
    {
      if ix == OMEGA then omegus else heap[ix].node
    }

    method SetRecord(ix: int, n: Node)
      requires ix == OMEGA || 0 <= ix < heap.Length
      modifies this`omegus, heap
      ensures heap[..] == (if ix == OMEGA then old(heap[..]) else SetNode(old(heap[..]), ix, n))
      ensures omegus == if ix == OMEGA then n else old(omegus)
    {
      if ix == OMEGA {
        omegus := n;
      } else {
        heap[ix] := Record(n);
      }
    }

    /** The loop of Barrel_Grow, indexed from the start of the run; the passes that only fill the new
        gap are not made. */
    method GrowCopy(start: nat, count: nat, offset: nat, request: nat)
      requires offset <= count && start + count + request <= heap.Length
      modifies heap
      ensures heap[..] == GrowCopied(old(heap[..]), start, count, request, offset + request)
    {
      var i := count + request;
      while i > offset + request
        invariant offset + request <= i <= count + request
        invariant heap[..] == GrowCopied(old(heap[..]), start, count, request, i)
      {
        heap[start + i - 1] := heap[start + i - 1 - request];
        i := i - 1;
      }
    }

    /** The loop of Barrel_Shrink, indexed from the start of the run. */
    method ShrinkCopy(start: nat, step: nat, from: nat, to: nat)
      requires start + to + step <= heap.Length
      modifies heap
      ensures heap[..] == ShrinkCopied(old(heap[..]), start, step, from, to)
    {
      var i := from;
      assert heap[..] == ShrinkCopied(heap[..], start, step, from, i);
      assert to < from ==> heap[..] == ShrinkCopied(heap[..], start, step, from, to);
      while i < to
        invariant from <= i && (from <= to ==> i <= to) && (to < from ==> heap[..] == old(heap[..]))
        invariant heap[..] == ShrinkCopied(old(heap[..]), start, step, from, i)
      {
        heap[start + i] := heap[start + i + step];
        i := i + 1;
      }
    }

    /** Barrel_Grow. */
    method Grow(ix: int, request: nat)
      requires ix == OMEGA || (0 <= ix < heap.Length && heap[ix].Record?)
      requires var n := GetNode(ix); 0 <= n.start && n.offset <= n.count && n.start + n.count + request <= heap.Length
      modifies this`omegus, heap
      ensures Value() == Grown(old(Value()), ix, request)
    {
      var n := GetNode(ix);
      if n.count != n.offset {
        GrowCopy(n.start, n.count, n.offset, request);
      }
      SetRecord(ix, n.(count := n.count + request, offset := n.offset + request));
    }

    /** Barrel_Shrink by `m` barrels. */
    method Shrink(ix: int, m: nat)
      requires ix == OMEGA || (0 <= ix < heap.Length && heap[ix].Record?)
      requires var n := GetNode(ix); 0 <= n.start && m <= n.count && n.offset <= n.count
                                      && n.start + n.count <= heap.Length
      modifies this`omegus, heap
      ensures Value() == Reduced(old(Value()), ix, m)
    {
      var n := GetNode(ix);
      var newCount := n.count - m;
      var newOffset := n.offset - m;
      if n.count != n.offset {
        var step := m;
        if newOffset < 0 {
          step, newOffset := m + newOffset, 0;
        }
        ShrinkCopy(n.start, step, newOffset, newCount);
        newOffset := if newOffset < 1 then newCount else newOffset;
      }
      SetRecord(ix, n.(count := newCount, offset := newOffset));
    }

    /** Barrel_DeltaSize on node `ix` (or on the table) by `d` units. */
    method DeltaSize(ix: int, d: int) returns (ok: bool)
      requires Valid(Value()) && Free(Value()) && OMEGA <= ix < omegus.units
      requires DeltaInRange(Value(), ix, d)
      modifies this`omegus, heap
      ensures (ok, Value()) == Service.DeltaSize(old(Value()), ix, d)
    {
      ghost var st := Value();
      ReadyTarget(st, ix);
      var n := GetNode(ix);
      var delta := BarrelDelta(n.count, n.units, n.unitSize, d);
      if delta == 0 {
        return true;
      }
      if delta < 0 {
        Shrink(ix, -delta);
      }
      if n.next > NONE {
        ReadyRoll(st, heap[..], ix, delta);
        ok := Roll(n.next, delta);
        if !ok {
          return;
        }
        if delta > 0 {
          ReadyGrow(st, heap[..], ix, delta);
        }
      }
      if delta > 0 {
        if n.next <= NONE {
          var room := Remaining();
          if room < delta {
            return false;
          }
        }
        Grow(ix, delta);
      }
      return true;
    }

    /** rawTranscribe into the heap: `data` from byte address `a` on. */
    method RawTranscribe(a: nat, data: seq<byte>)
      requires a + |data| <= SIZE * heap.Length
      modifies heap
      ensures heap[..] == PutBytes(old(heap[..]), a, data)
    {
      for i := 0 to |data|
        invariant heap[..] == PutBytes(old(heap[..]), a, data[..i])
      {
        var b := (a + i) / SIZE;
        heap[b] := Words(Raw(heap[b])[(a + i) % SIZE := data[i]]);
        assert data[..i + 1][..i] == data[..i];
      }
      assert data[..|data|] == data;
    }

    /** Barrel_NextAvailableNodeIx: room for one more record at the end of the table. */
    method NextAvailableNodeIx() returns (ok: bool, ix: nat)
      requires Valid(Value()) && Free(Value())
      modifies this`omegus, heap
      ensures (ok, Value()) == Service.DeltaSize(old(Value()), OMEGA, 1) && ix == old(omegus.units)
    {
      ix := omegus.units;
      TableDelta(omegus);
      ok := DeltaSize(OMEGA, 1);
    }

    /** Barrel_NodeCtor: the record of a node placed right behind the last one. */
    method NodeCtor(unitSize: nat, capacity: nat) returns (n: Node)
      requires Valid(Value()) && unitSize >= 1
      ensures n == NewNode(Value(), unitSize, capacity)
    {
      var room := Remaining();
      EndInHeap(Value());
      var needed := (unitSize * capacity) % SIZET;
      var count := 1;
      while count * SIZE < needed && count * SIZE < room * SIZE
        invariant count >= 1
        invariant CtorCount(count, needed, SIZE * room) == CtorCount(1, needed, SIZE * room)
        decreases needed - SIZE * count
      {
        count := 2 * count;
      }
      var units := CtorUnits(unitSize, needed, count);
      n := Node.Node(heap.Length - room, count, count, NONE, unitSize, units, false);
    }

    /** The copy of the initial bytes; what would lie past the end of the heap is outside the model. */
    method CopyInitial(start: nat, data: seq<byte>)
      requires start <= heap.Length
      modifies heap
      ensures heap[..] == PutBytes(old(heap[..]), SIZE * start, data)
    {
      var room := SIZE * (heap.Length - start);
      if |data| <= room {
        RawTranscribe(SIZE * start, data);
      } else {
        PutBytesCut(heap[..], SIZE * start, data, room);
        RawTranscribe(SIZE * start, data[..room]);
      }
    }

    /** Barrel_Sourced.  The node is made also where its run goes past the end of the heap. */
    method Sourced(unitSize: nat, capacity: nat, src: Option<seq<byte>>) returns (made: Created)
      requires Valid(Value()) && Free(Value()) && unitSize >= 1
      modifies this
      modifies heap
      ensures (made, Value()) == Creation.Sourced(old(Value()), unitSize, capacity, src)
    {
      TableGrows(Value());
      var ok, ix := NextAvailableNodeIx();
      if !ok {
        return NoRecord;
      }
      made := Construct(ix, unitSize, capacity, src);
    }

    method Construct(ix: nat, unitSize: nat, capacity: nat, src: Option<seq<byte>>) returns (made: Created)
      requires Valid(Value()) && unitSize >= 1 && ix == omegus.units && omegus.count == ix + 1
      modifies this
      modifies heap
      ensures (made, Value()) == Creation.Construct(old(Value()), unitSize, capacity, src)
    {
      EndInHeap(Value());
      EndBehindTable(Value());
      var n := NodeCtor(unitSize, capacity);
      Link(ix, n);
      CopyInitial(n.start, Initial(src, n.units * unitSize));
      return if n.start + n.count > heap.Length then PastEnd(ix) else Made(ix);
    }

    /** The links and counters of a new node. */
    method Link(ix: nat, n: Node)
      requires Valid(Value()) && ix == omegus.units && omegus.count == ix + 1
      modifies this
      modifies heap
      ensures heap[..] == Linked(old(Value()), n) && last == ix
      ensures omegus == old(omegus.(units := ix + 1, next := if last == OMEGA then ix else omegus.next))
    {
      assert last >= 0 ==> Fits(heap[..], last);
      SetRecord(last, GetNode(last).(next := ix));
      omegus := omegus.(units := omegus.units + 1);
      SetRecord(ix, n);
      last := ix;
    }

    /** A unit written through Barrel_GetUnitPtr, wherever that lies in the heap. */
    method WriteUnit(ix: nat, index: nat, data: seq<byte>)
      requires ix < heap.Length && heap[ix].Record? && heap[ix].node.count > 0 && heap[ix].node.start >= 0
      requires UnitAddress(heap[ix].node, index) + |data| <= SIZE * heap.Length
      modifies heap
      ensures Value() == Creation.WriteUnit(old(Value()), ix, index, data)
    {
      var n := heap[ix].node;
      RawTranscribe(UnitAddress(n, index), data);
    }
  }

  /** The calls of Barrel_DeltaSize the service makes: the table grows by one record, and no run is
      shrunk away altogether. */
  predicate DeltaInRange(st: State, ix: int, d: int)
    requires OMEGA <= ix < st.Count()
  {
    var n := st.NodeOf(ix);
    if ix == OMEGA then d == 1 else -(n.count as int) < BarrelDelta(n.count, n.units, n.unitSize, d)
  }

  lemma ReadyTarget(st: State, ix: int)
    requires Valid(st) && Free(st) && OMEGA <= ix < st.Count()
    ensures ix >= 0 ==> Fits(st.heap, ix)
    ensures st.NodeOf(ix).next == if ix + 1 < st.Count() then ix + 1 else NONE
    ensures ix + 1 == st.Count() ==> st.End() == st.NodeOf(ix).start + st.NodeOf(ix).count
    ensures ix == OMEGA ==> 0 <= BarrelDelta(st.omegus.count, st.omegus.units, st.omegus.unitSize, 1) <= 1
  {
    TableDelta(st.omegus);
    if ix >= 0 {
      assert Fits(st.heap, ix) && GoodRecord(NodeAt(st.heap, ix), ix, st.Count());
    }
  }

  lemma ReadyRoll(st: State, h1: Heap, ix: int, delta: int)
    requires Valid(st) && Free(st) && OMEGA <= ix && ix + 1 < st.Count() && delta != 0
    requires ix == OMEGA ==> delta > 0
    requires ix >= 0 ==> -(NodeAt(st.heap, ix).count as int) < delta
    requires h1 == if delta < 0 then ShrinkNode(st.heap, ix, -delta) else st.heap
    ensures Tiled(h1, ix + 1, st.Count()) && Unlocked(h1, ix + 1, st.Count()) && Links(h1, ix + 1, st.Count())
    ensures delta < 0 ==> st.Count() - delta <= Start(h1, ix + 1)
  {
    var h, t := st.heap, st.Count();
    forall i | 0 <= i < t
      ensures NodeAt(h, i).next == (if i + 1 < t then i + 1 else NONE)
    {
      assert GoodRecord(NodeAt(h, i), i, t);
    }
    if delta < 0 {
      ShrinkBehind(h, ix, t, -delta);
      LinksMoved(h, h1, ix + 1, t);
    }
  }

  lemma ReadyGrow(st: State, h2: Heap, ix: int, delta: int)
    requires Valid(st) && Free(st) && OMEGA <= ix && ix + 1 < st.Count() && delta > 0
    requires RollUpward(st.heap, ix + 1, st.Count(), delta) == (true, h2)
    ensures |h2| == |st.heap| && (ix >= 0 ==> Fits(h2, ix) && NodeAt(h2, ix) == NodeAt(st.heap, ix))
    ensures st.NodeOf(ix).start + st.NodeOf(ix).count + delta <= |h2|
  {
    var h, t := st.heap, st.Count();
    if Stop(h, t - 1) + delta > |h| {
      RollUpFails(h, ix + 1, t, delta);
    } else {
      RoomBehind(st, ix);
      if ix >= 0 {
        KeptInFront(st, h2, ix, delta);
      }
    }
  }

  lemma RoomBehind(st: State, ix: int)
    requires Valid(st) && OMEGA <= ix && ix + 1 < st.Count()
    ensures st.NodeOf(ix).start + st.NodeOf(ix).count <= Stop(st.heap, st.Count() - 1)
  {
    if ix >= 0 {
      Ordered(st.heap, 0, st.Count(), ix, st.Count() - 1);
    } else {
      EndBehindTable(st);
    }
  }

  lemma KeptInFront(st: State, h2: Heap, ix: nat, delta: nat)
    requires Valid(st) && Free(st) && ix + 1 < st.Count() && delta > 0
    requires Stop(st.heap, st.Count() - 1) + delta <= |st.heap|
    requires h2 == RollUpward(st.heap, ix + 1, st.Count(), delta).1
    ensures Fits(h2, ix) && NodeAt(h2, ix) == NodeAt(st.heap, ix)
  {
    var h, t := st.heap, st.Count();
    RollUp(h, ix + 1, t, delta);
    Ordered(h, 0, t, ix, ix + 1);
    NodeFrame(h, h2, ix);
  }

  /** What the part of a roll on the next node may rely on. */
  predicate NextReady(h: Heap, ix: nat, t: nat, request: int) {
    && NodeAt(h, ix).next == (if ix + 1 < t then ix + 1 else NONE)
    && (ix + 1 < t ==> Links(h, ix + 1, t) && Tiled(h, ix + 1, t) && Unlocked(h, ix + 1, t))
    && (ix + 1 < t && request < 0 ==> t - request <= Start(h, ix + 1))
  }

  /** The heap when Barrel_Roll turns to the next node. */
  function BeforeNext(h: Heap, ix: nat, request: int): (r: Heap)
    ensures |r| == |h|
  {
    if request < 0 then Barrels.RollBack(SetLock(h, ix, true), ix, -request) else SetLock(h, ix, true)
  }

  /** What the next node's part of the roll returns. */
  predicate NextRolled(h2: Heap, ix: nat, t: nat, request: int, next: (bool, Heap)) {
    next == if ix + 1 < t then Chain.Roll(h2, ix + 1, t, request)
            else (request < 0 || Stop(h2, ix) + request <= |h2|, h2)
  }

  lemma RollStep(h: Heap, h2: Heap, ix: nat, t: nat, request: int, next: (bool, Heap))
    requires ix < t && request != 0 && h2 == BeforeNext(h, ix, request) && NextRolled(h2, ix, t, request, next)
    ensures !next.0 ==> Chain.Roll(h, ix, t, request) == next
    ensures var h3 := if request > 0 then Barrels.RollForward(next.1, ix, request) else next.1;
            next.0 ==> Chain.Roll(h, ix, t, request) == (true, SetLock(h3, ix, false))
  {
  }

  lemma ReadyLast(h: Heap, h2: Heap, h3: Heap, ix: nat, t: nat, request: int)
    requires ix < t && request != 0 && Tiled(h, ix, t) && Unlocked(h, ix, t)
    requires h2 == BeforeNext(h, ix, request) && NextRolled(h2, ix, t, request, (true, h3))
    requires request < 0 ==> t - request <= Start(h, ix)
    ensures Fits(h3, ix)
    ensures request > 0 ==> Stop(h3, ix) + request <= |h3| && Fits(Barrels.RollForward(h3, ix, request), ix)
  {
    if request > 0 {
      RolledBehind(h, h2, h3, ix, t, request);
      RollForwardMoves(h3, ix, request);
    } else {
      RolledBehindDown(h, h2, h3, ix, t, -request);
    }
  }

  lemma ReadyNext(h: Heap, h2: Heap, ix: nat, t: nat, request: int)
    requires ix < t && request != 0 && Tiled(h, ix, t) && Unlocked(h, ix, t) && Links(h, ix, t)
    requires h2 == BeforeNext(h, ix, request) && (request < 0 ==> t - request <= Start(h, ix))
    ensures Fits(h2, ix) && NextReady(h2, ix, t, request)
  {
    assert NodeAt(h, ix).next == (if ix + 1 < t then ix + 1 else NONE);
    if request > 0 {
      ReadyUp(h, h2, ix, t);
    } else {
      ReadyDown(h, h2, ix, t, -request);
    }
  }

  lemma ReadyUp(h: Heap, h2: Heap, ix: nat, t: nat)
    requires ix < t && Tiled(h, ix, t) && Unlocked(h, ix, t) && Links(h, ix, t) && h2 == SetLock(h, ix, true)
    ensures Fits(h2, ix) && NodeAt(h2, ix).next == NodeAt(h, ix).next && Stop(h2, ix) == Stop(h, ix)
    ensures ix + 1 < t ==> Links(h2, ix + 1, t) && Tiled(h2, ix + 1, t) && Unlocked(h2, ix + 1, t)
  {
    LockFrame(h, ix, true);
    if ix + 1 < t {
      BehindUp(h, ix, t);
      LinksMoved(h, h2, ix + 1, t);
    }
  }

  lemma ReadyDown(h: Heap, h2: Heap, ix: nat, t: nat, k: nat)
    requires ix < t && Tiled(h, ix, t) && Unlocked(h, ix, t) && Links(h, ix, t)
    requires k > 0 && t + k <= Start(h, ix) && h2 == Barrels.RollBack(SetLock(h, ix, true), ix, k)
    ensures Fits(h2, ix) && NodeAt(h2, ix).next == NodeAt(h, ix).next
    ensures ix + 1 < t ==> Links(h2, ix + 1, t) && Tiled(h2, ix + 1, t) && Unlocked(h2, ix + 1, t)
    ensures ix + 1 < t ==> t + k <= Start(h2, ix + 1)
  {
    OwnDown(h, ix, k);
    if ix + 1 < t {
      BehindDown(h, ix, t, k);
      LinksMoved(h, h2, ix + 1, t);
    }
  }

  lemma LinksMoved(h: Heap, h': Heap, j: nat, t: nat)
    requires Links(h, j, t) && Moved(h, h', j, t, 0)
    ensures Links(h', j, t)
  {
    forall i | j <= i < t
      ensures NodeAt(h', i).next == (if i + 1 < t then i + 1 else NONE)
    {
      assert MovedOne(h, h', i, 0);
    }
  }

  /** After the nodes behind have been rolled up, the node's own roll has room. */
  lemma RolledBehind(h: Heap, h1: Heap, h2: Heap, ix: nat, t: nat, k: nat)
    requires ix < t && k > 0 && Tiled(h, ix, t) && Unlocked(h, ix, t) && h1 == SetLock(h, ix, true)
    requires if ix + 1 < t then RollUpward(h1, ix + 1, t, k) == (true, h2) else h2 == h1 && Stop(h1, ix) + k <= |h|
    ensures Fits(h2, ix) && Stop(h2, ix) + k <= |h2|
  {
    LockFrame(h, ix, true);
    if ix + 1 < t {
      BehindUp(h, ix, t);
      if Stop(h, t - 1) + k > |h| {
        RollUpFails(h1, ix + 1, t, k);
      } else {
        RollUp(h1, ix + 1, t, k);
        Ordered(h, ix, t, ix, t - 1);
        NodeFrame(h1, h2, ix);
      }
    }
  }

  lemma FitsInFront(h: Heap, ix: nat, t: nat, k: nat)
    requires ix + 1 < t && k > 0 && Fits(h, ix) && Tiled(h, ix + 1, t) && Unlocked(h, ix + 1, t)
    requires t <= Start(h, ix) && t + k <= Start(h, ix + 1) && Stop(h, ix) + k <= Start(h, ix + 1)
    ensures Fits(RollDownward(h, ix + 1, t, k), ix)
  {
    RollDown(h, ix + 1, t, k);
    NodeFrame(h, RollDownward(h, ix + 1, t, k), ix);
  }

  /** A node rolled down keeps its record while the nodes behind it follow. */
  lemma RolledBehindDown(h: Heap, h2: Heap, h3: Heap, ix: nat, t: nat, k: nat)
    requires ix < t && k > 0 && Tiled(h, ix, t) && Unlocked(h, ix, t) && t + k <= Start(h, ix)
    requires h2 == Barrels.RollBack(SetLock(h, ix, true), ix, k)
    requires h3 == if ix + 1 < t then RollDownward(h2, ix + 1, t, k) else h2
    ensures Fits(h3, ix)
  {
    OwnDown(h, ix, k);
    if ix + 1 < t {
      BehindDown(h, ix, t, k);
      FitsInFront(h2, ix, t, k);
    }
  }
}
