/** Creating nodes and writing units (tBarrel.c, tHelpers.c). */
module Creation {
  import opened Wrappers
  import opened Ring
  import opened Resize
  import opened Barrels
  import opened Chain
  import opened Bytes
  import opened Service
  import opened Refinement

  // ---- Barrel_NodeCtor and Barrel_Sourced ---------------------------------------------------

  /** The barrel count of a new node: doubled until it holds the needed bytes or covers what is
      left of the heap. */
  function CtorCount(n: nat, needed: nat, remaining: int): (c: nat)
    requires n >= 1
    ensures c >= n
    ensures SIZE * c >= needed || SIZE * c >= remaining
    ensures c == n || (SIZE * c < 2 * needed && SIZE * c < 2 * remaining)
    decreases needed - SIZE * n
  {
    if n * SIZE < needed && n * SIZE < remaining then CtorCount(2 * n, needed, remaining) else n
  }

  predicate PowerOfTwo(p: nat) {
    p == 1 || (p > 1 && p % 2 == 0 && PowerOfTwo(p / 2))
  }

  /** The largest power of two not above `room`. */
  function PowerBelow(room: nat): (p: nat)
    requires room >= 1
    ensures PowerOfTwo(p) && p <= room < 2 * p
  {
    if room == 1 then 1 else 2 * PowerBelow(room / 2)
  }

  lemma {:induction false} PowersApart(p: nat, q: nat)
    requires PowerOfTwo(p) && PowerOfTwo(q) && p < q
    ensures 2 * p <= q
  {
    if p > 1 {
      PowersApart(p / 2, q / 2);
    }
  }

  lemma PowerTwice(n: nat)
    requires PowerOfTwo(n)
    ensures PowerOfTwo(2 * n)
  {
  }

  lemma {:induction false} CtorCountIs(n: nat, needed: nat, room: int) returns (half: nat)
    requires PowerOfTwo(n)
    ensures var c := CtorCount(n, needed, SIZE * room);
            && PowerOfTwo(c) && (SIZE * c >= needed || c >= room)
            && (c == n || (c == 2 * half && n <= half && SIZE * half < needed && half < room))
    decreases needed - SIZE * n
  {
    half := n;
    if n * SIZE < needed && n < room {
      PowerTwice(n);
      half := CtorCountIs(2 * n, needed, room);
      if CtorCount(2 * n, needed, SIZE * room) == 2 * n {
        half := n;
      }
    }
  }

  /** The count is the least power of two that holds the needed bytes or covers the room. */
  lemma CtorCountExact(needed: nat, room: int, p: nat)
    requires PowerOfTwo(p)
    ensures PowerOfTwo(CtorCount(1, needed, SIZE * room))
    ensures p < CtorCount(1, needed, SIZE * room) ==> SIZE * p < needed && p < room
    ensures p == CtorCount(1, needed, SIZE * room) ==> SIZE * p >= needed || p >= room
  {
    var half := CtorCountIs(1, needed, room);
    if p < CtorCount(1, needed, SIZE * room) {
      PowersApart(p, CtorCount(1, needed, SIZE * room));
    }
  }

  /** The room, in barrels behind the last node, that a new run of `needed` bytes fits into. */
  predicate RoomFor(needed: nat, room: int) {
    room >= 1 && (needed <= SIZE * PowerBelow(room) || PowerBelow(room) == room)
  }

  /** A new run fits exactly when the needed bytes fit into the largest power of two not above the
      room, or the room is itself a power of two (and the run is then cut down to it). */
  lemma CtorFits(needed: nat, room: int)
    ensures CtorCount(1, needed, SIZE * room) <= room <==> RoomFor(needed, room)
  {
    var c := CtorCount(1, needed, SIZE * room);
    var half := CtorCountIs(1, needed, room);
    if room >= 1 {
      var p := PowerBelow(room);
      if p < c {
        PowersApart(p, c);
      } else if c < p {
        PowersApart(c, p);
      }
    }
  }

  /** What became of a creation: the node's index, no room for a table record, or a node whose run
      goes past the end of the heap. */
  datatype Created = Made(ix: nat) | NoRecord | PastEnd(ix: nat)

  function Needed(unitSize: nat, capacity: nat): nat { (unitSize * capacity) % SIZET }

  function CtorUnits(unitSize: nat, needed: nat, count: nat): nat
    requires unitSize >= 1
  {
    (if needed < SIZE * count then needed else SIZE * count) / unitSize
  }

  function Initial(src: Option<seq<byte>>, n: nat): (r: seq<byte>)
    ensures |r| <= n
  {
    if src.None? then [] else if |src.value| < n then src.value else src.value[..n]
  }

  /** The records after a new node `n` is linked behind the last one. */
  function Linked(st: State, n: Node): (h: Heap)
    ensures |h| == |st.heap|
  {
    var ix := st.Count();
    SetNode(if st.last == OMEGA then st.heap
            else SetNode(st.heap, st.last, NodeAt(st.heap, st.last).(next := ix)), ix, n)
  }

  /** The new node linked, its initial bytes copied, and the service's counters set. */
  function Attach(st: State, n: Node, initial: seq<byte>): State {
    var ix := st.Count();
    State(PutBytes(Linked(st, n), SIZE * n.start, initial),
          st.omegus.(units := ix + 1, next := if st.last == OMEGA then ix else st.omegus.next), ix)
  }

  /** The barrels Barrel_NodeCtor gives a node placed at the end of `st`. */
  function NewCount(st: State, unitSize: nat, capacity: nat): nat {
    CtorCount(1, Needed(unitSize, capacity), SIZE * (|st.heap| - st.End()))
  }

  /** The record Barrel_NodeCtor makes at the end of `st`. */
  function NewNode(st: State, unitSize: nat, capacity: nat): Node
    requires unitSize >= 1
  {
    var count := NewCount(st, unitSize, capacity);
    Node(st.End(), count, count, NONE, unitSize, CtorUnits(unitSize, Needed(unitSize, capacity), count), false)
  }

  /** The part of Barrel_Sourced after the table has got its record.  There is no test for room: the
      node is placed and counted in every case, and what its initial bytes would write behind the
      end of the heap is outside the model. */
  function Construct(st: State, unitSize: nat, capacity: nat, src: Option<seq<byte>>): (Created, State)
    requires unitSize >= 1
  {
    var n := NewNode(st, unitSize, capacity);
    (if n.start + n.count > |st.heap| then PastEnd(st.Count()) else Made(st.Count()),
     Attach(st, n, Initial(src, n.units * unitSize)))
  }

  /** Barrel_Sourced. */
  function Sourced(st: State, unitSize: nat, capacity: nat, src: Option<seq<byte>>): (Created, State)
    requires unitSize >= 1
  {
    var table := DeltaSize(st, OMEGA, 1);
    if table.0 then Construct(table.1, unitSize, capacity, src) else (NoRecord, table.1)
  }

  /** Node `ix` shows in `h'` what it shows in `h`. */
  predicate Shows(h: Heap, h': Heap, ix: nat) {
    && Fits(h, ix) && Fits(h', ix) && View(h', ix) == View(h, ix)
    && var n, n' := NodeAt(h, ix), NodeAt(h', ix);
       n'.count == n.count && n'.unitSize == n.unitSize && n'.units == n.units
  }

  lemma UnitsFit(unitSize: nat, needed: nat, count: nat)
    requires unitSize >= 1
    ensures CtorUnits(unitSize, needed, count) * unitSize <= SIZE * count
    ensures CtorUnits(unitSize, needed, count) * unitSize <= needed
  {
  }

  /** The service has a spare record, and `n` is a proper node right behind the last one. */
  predicate Appendable(st: State, n: Node) {
    && Valid(st) && Free(st) && st.omegus.count == st.Count() + 1
    && n.start == st.End() && 1 <= n.count == n.offset
    && n.next == NONE && !n.locked && 1 <= n.unitSize && n.units * n.unitSize <= SIZE * n.count
  }

  /** ... and its run lies inside the heap. */
  predicate Attachable(st: State, n: Node) {
    Appendable(st, n) && n.start + n.count <= |st.heap|
  }

  /** Linking writes the spare record and the link of the last node; the bytes go behind them. */
  predicate Attached(st: State, n: Node, h': Heap) {
    && |h'| == |st.heap| && 0 <= n.start
    && (forall b :: 0 <= b < n.start && b < |h'| && b != st.Count() && b != st.last ==> h'[b] == st.heap[b])
    && (st.Count() < |h'| ==> h'[st.Count()] == Record(n))
    && (0 <= st.last < |h'| ==> h'[st.last] == Record(NodeAt(st.heap, st.last).(next := st.Count())))
  }

  predicate InitialAt(h: Heap, a: int, initial: seq<byte>) {
    forall x :: a <= x < a + |initial| ==> ByteAt(h, x) == initial[x - a]
  }

  /** The bytes of a node that has never been turned, read from its head. */
  lemma FreshBytes(h: Heap, ix: nat, initial: seq<byte>)
    requires Fits(h, ix) && NodeAt(h, ix).offset == NodeAt(h, ix).count
    requires InitialAt(h, SIZE * NodeAt(h, ix).start, initial)
    ensures Agree(initial, NodeBytes(h, ix))
  {
    var n := NodeAt(h, ix);
    forall p | 0 <= p < |initial| && p < SIZE * n.count
      ensures NodeBytes(h, ix)[p] == initial[p]
    {
      NodeBytesAt(h, ix, p);
      assert Address(n, p) == SIZE * n.start + p;
    }
  }

  lemma EndBehindTable(st: State)
    requires Valid(st)
    ensures st.omegus.count <= st.End()
    ensures forall i :: 0 <= i < st.Count() ==> st.omegus.count <= Start(st.heap, i) && Stop(st.heap, i) <= st.End()
  {
    var h, t := st.heap, st.Count();
    forall i | 0 <= i < t
      ensures st.omegus.count <= Start(h, i) && Stop(h, i) <= st.End()
    {
      if 0 < i {
        Ordered(h, 0, t, 0, i);
      }
      if i < t - 1 {
        Ordered(h, 0, t, i, t - 1);
      }
    }
    if t > 0 {
      assert st.omegus.count <= Start(h, t - 1) <= Stop(h, t - 1);
    }
  }

  lemma EndInHeap(st: State)
    requires Valid(st)
    ensures st.End() <= |st.heap|
  {
    if st.Count() > 0 {
      assert Fits(st.heap, st.Count() - 1);
    }
  }

  lemma AttachLinks(st: State, n: Node, initial: seq<byte>)
    requires Appendable(st, n)
    ensures Attached(st, n, Attach(st, n, initial).heap)
  {
    EndBehindTable(st);
    EndInHeap(st);
    var h2, h' := Linked(st, n), Attach(st, n, initial).heap;
    PutBytesBehind(h2, n.start, initial);
    assert forall b :: 0 <= b < n.start && b < |h'| ==> h'[b] == h2[b];
  }

  lemma AttachWrites(st: State, n: Node, initial: seq<byte>)
    requires Attachable(st, n) && |initial| <= SIZE * n.count
    ensures InitialAt(Attach(st, n, initial).heap, SIZE * n.start, initial)
  {
    EndBehindTable(st);
    PutBytesWrites(Linked(st, n), SIZE * n.start, initial);
  }

  lemma AttachOther(st: State, n: Node, h': Heap, i: nat)
    requires Appendable(st, n) && Attached(st, n, h') && i < st.Count()
    ensures Shows(st.heap, h', i) && GoodRecord(NodeAt(h', i), i, st.Count() + 1)
    ensures !NodeAt(h', i).locked && st.Count() + 1 <= Start(h', i)
    ensures Start(h', i) == Start(st.heap, i) && Stop(h', i) == Stop(st.heap, i)
  {
    var m := NodeAt(st.heap, i);
    assert Fits(st.heap, i) && GoodRecord(m, i, st.Count());
    EndBehindTable(st);
    LogicalFrame(st.heap, h', m.start, m.count, m.offset);
  }

  /** Node `i`, in front of a node appended at index `t`, is as it was, with a good record. */
  predicate KeptOne(h: Heap, h': Heap, i: nat, t: nat) {
    && Shows(h, h', i) && GoodRecord(NodeAt(h', i), i, t + 1) && !NodeAt(h', i).locked
    && t + 1 <= Start(h', i) && Start(h', i) == Start(h, i) && Stop(h', i) == Stop(h, i)
  }

  lemma AttachOthers(st: State, n: Node, h': Heap)
    requires Appendable(st, n) && Attached(st, n, h')
    ensures forall i :: 0 <= i < st.Count() ==> KeptOne(st.heap, h', i, st.Count())
  {
    forall i | 0 <= i < st.Count()
      ensures KeptOne(st.heap, h', i, st.Count())
    {
      AttachOther(st, n, h', i);
    }
  }

  /** The runs in front of an appended node stay tiled. */
  lemma KeptTiled(h: Heap, h': Heap, t: nat)
    requires Tiled(h, 0, t) && forall i :: 0 <= i < t ==> KeptOne(h, h', i, t)
    ensures Tiled(h', 0, t) && Unlocked(h', 0, t) && forall i :: 0 <= i < t ==> Shows(h, h', i)
  {
    forall i | 0 <= i < t
      ensures Fits(h', i) && t <= Start(h', i) && !NodeAt(h', i).locked && Shows(h, h', i)
      ensures Start(h', i) == Start(h, i) && Stop(h', i) == Stop(h, i)
    {
      assert KeptOne(h, h', i, t);
    }
  }

  lemma AppendTiled(h: Heap, t: nat)
    requires Tiled(h, 0, t) && Fits(h, t) && t + 1 <= Start(h, t)
    requires forall i :: 0 <= i < t ==> t + 1 <= Start(h, i)
    requires t > 0 ==> Stop(h, t - 1) == Start(h, t)
    ensures Tiled(h, 0, t + 1)
  {
  }

  lemma AttachValid(st: State, n: Node, st': State)
    requires Attachable(st, n) && Attached(st, n, st'.heap) && st'.last == st.Count()
    requires st'.omegus
          == st.omegus.(units := st.Count() + 1, next := if st.last == OMEGA then st.Count() else st.omegus.next)
    ensures Valid(st') && Free(st')
    ensures forall i :: 0 <= i < st.Count() ==> Shows(st.heap, st'.heap, i)
  {
    EndBehindTable(st);
    AttachOthers(st, n, st'.heap);
    KeptTiled(st.heap, st'.heap, st.Count());
    AttachedTiled(st, n, st'.heap);
    forall i | 0 <= i < st'.Count()
      ensures GoodRecord(NodeAt(st'.heap, i), i, st'.Count())
    {
      assert i < st.Count() ==> KeptOne(st.heap, st'.heap, i, st.Count());
    }
    assert st.Count() > 0 ==> KeptOne(st.heap, st'.heap, 0, st.Count());
  }

  lemma AttachedTiled(st: State, n: Node, h': Heap)
    requires Attachable(st, n) && Attached(st, n, h')
    ensures Tiled(h', 0, st.Count() + 1)
    ensures Fits(h', st.Count()) && NodeAt(h', st.Count()) == n
  {
    var t := st.Count();
    EndBehindTable(st);
    AttachOthers(st, n, h');
    KeptTiled(st.heap, h', t);
    forall i | 0 <= i < t
      ensures t + 1 <= Start(h', i) && Stop(h', i) == Stop(st.heap, i)
    {
      assert KeptOne(st.heap, h', i, t);
    }
    AppendTiled(h', t);
  }

  /** Attaching a node behind the last one keeps the invariant and all other contents; the new
      node starts with its initial bytes. */
  lemma AttachKeeps(st: State, n: Node, initial: seq<byte>)
    requires Attachable(st, n) && |initial| <= SIZE * n.count
    ensures var st', t := Attach(st, n, initial), st.Count();
            && Valid(st') && Free(st') && st'.Count() == t + 1 && NodeAt(st'.heap, t) == n
            && (forall i :: 0 <= i < t ==> Shows(st.heap, st'.heap, i))
            && Fits(st'.heap, t) && Agree(initial, NodeBytes(st'.heap, t))
  {
    var st', t := Attach(st, n, initial), st.Count();
    AttachLinks(st, n, initial);
    AttachWrites(st, n, initial);
    AttachValid(st, n, st');
    assert Fits(st'.heap, t) && NodeAt(st'.heap, t) == n;
    FreshBytes(st'.heap, t, initial);
  }

  lemma MovedShows(h: Heap, h': Heap, j: nat, t: nat, k: int)
    requires Moved(h, h', j, t, k)
    ensures forall i :: j <= i < t ==> Shows(h, h', i)
  {
    forall i | j <= i < t
      ensures Shows(h, h', i)
    {
      assert MovedOne(h, h', i, k);
    }
  }

  lemma ShowsBoth(h: Heap, h1: Heap, h2: Heap, t: nat)
    requires forall i :: 0 <= i < t ==> Shows(h, h1, i)
    requires forall i :: 0 <= i < t ==> Shows(h1, h2, i)
    ensures forall i :: 0 <= i < t ==> Shows(h, h2, i)
  {
    forall i | 0 <= i < t
      ensures Shows(h, h2, i)
    {
      assert Shows(h, h1, i) && Shows(h1, h2, i);
    }
  }

  /** A node attached past the end of the heap leaves every other node, and the tiling of their runs,
      as they were. */
  lemma AttachPastKeeps(st: State, n: Node, initial: seq<byte>)
    requires Appendable(st, n) && n.start + n.count > |st.heap|
    ensures var st', t := Attach(st, n, initial), st.Count();
            && st'.Count() == t + 1 && NodeAt(st'.heap, t) == n && Free(st') && !Fits(st'.heap, t)
            && Tiled(st'.heap, 0, t) && (forall i :: 0 <= i < t ==> Shows(st.heap, st'.heap, i))
            && (forall i :: 0 <= i < t ==> t + 1 <= Start(st'.heap, i))
  {
    var st', t := Attach(st, n, initial), st.Count();
    AttachLinks(st, n, initial);
    EndBehindTable(st);
    EndInHeap(st);
    AttachOthers(st, n, st'.heap);
    KeptTiled(st.heap, st'.heap, t);
    forall i | 0 <= i < t
      ensures t + 1 <= Start(st'.heap, i)
    {
      assert KeptOne(st.heap, st'.heap, i, t);
    }
  }

  /** The bytes `b` of a new node: those of `src`, as far as they belong to its units, and otherwise
      whatever the heap held behind the last node. */
  predicate StartsWith(b: seq<byte>, src: Option<seq<byte>>, size: nat, h: Heap, start: int) {
    forall p :: 0 <= p < |b| ==>
      b[p] == if src.Some? && p < |src.value| && p < size then src.value[p] else ByteAt(h, SIZE * start + p)
  }

  lemma LinkedByte(st: State, n: Node, x: nat)
    requires st.Count() < n.start && st.last < n.start && SIZE * n.start <= x
    ensures ByteAt(Linked(st, n), x) == ByteAt(st.heap, x)
  {
    assert x / SIZE >= n.start;
  }

  /** Byte `p` of a new node, whose bytes `initial` have been written over the heap `h`. */
  lemma FreshByte(h: Heap, h': Heap, ix: nat, initial: seq<byte>, p: nat)
    requires Fits(h', ix) && NodeAt(h', ix).offset == NodeAt(h', ix).count && p < SIZE * NodeAt(h', ix).count
    requires Written(h, h', SIZE * NodeAt(h', ix).start, initial)
    ensures NodeBytes(h', ix)[p] ==
              if p < |initial| then initial[p] else ByteAt(h, SIZE * NodeAt(h', ix).start + p)
  {
    NodeBytesAt(h', ix, p);
    assert Address(NodeAt(h', ix), p) == SIZE * NodeAt(h', ix).start + p;
  }

  lemma AttachByte(st: State, n: Node, h': Heap, initial: seq<byte>, p: nat)
    requires st.Count() < n.start && st.last < n.start && n.offset == n.count && p < SIZE * n.count
    requires Fits(h', st.Count()) && NodeAt(h', st.Count()) == n && Written(Linked(st, n), h', SIZE * n.start, initial)
    ensures NodeBytes(h', st.Count())[p] == if p < |initial| then initial[p] else ByteAt(st.heap, SIZE * n.start + p)
  {
    FreshByte(Linked(st, n), h', st.Count(), initial, p);
    LinkedByte(st, n, SIZE * n.start + p);
  }

  lemma AttachWritten(st: State, n: Node, initial: seq<byte>)
    requires Attachable(st, n) && |initial| <= SIZE * n.count
    ensures st.Count() < n.start && st.last < n.start
    ensures Written(Linked(st, n), Attach(st, n, initial).heap, SIZE * n.start, initial)
  {
    EndBehindTable(st);
    PutBytesWrites(Linked(st, n), SIZE * n.start, initial);
  }

  lemma AttachBytes(st: State, n: Node, src: Option<seq<byte>>, size: nat)
    requires Attachable(st, n) && size <= SIZE * n.count
    ensures var st', t := Attach(st, n, Initial(src, size)), st.Count();
            Fits(st'.heap, t) && StartsWith(NodeBytes(st'.heap, t), src, size, st.heap, n.start)
  {
    var initial, t := Initial(src, size), st.Count();
    AttachKeeps(st, n, initial);
    AttachWritten(st, n, initial);
    var h' := Attach(st, n, initial).heap;
    forall p | 0 <= p < SIZE * n.count
      ensures NodeBytes(h', t)[p]
           == if src.Some? && p < |src.value| && p < size then src.value[p] else ByteAt(st.heap, SIZE * n.start + p)
    {
      AttachByte(st, n, h', initial, p);
    }
  }

  /** What Barrel_NodeCtor and the linking do, given a spare record: the node becomes the last one,
      and every other node keeps its contents.  Exactly when there is room for it its run lies
      inside the heap; then it has the given bytes and the invariant holds. */
  predicate Constructed(st: State, unitSize: nat, capacity: nat, src: Option<seq<byte>>, made: Created, st': State)
    requires unitSize >= 1
  {
    var t, n := st.Count(), NewNode(st, unitSize, capacity);
    && (forall i :: 0 <= i < t ==> Shows(st.heap, st'.heap, i))
    && made == (if RoomFor(Needed(unitSize, capacity), |st.heap| - st.End()) then Made(t) else PastEnd(t))
    && st'.Count() == t + 1 && NodeAt(st'.heap, t) == n && Free(st')
    && |st'.heap| == |st.heap| && st'.omegus.count == st.omegus.count
    && (made.PastEnd? ==> Tiled(st'.heap, 0, t) && !Fits(st'.heap, t)
                          && forall i :: 0 <= i < t ==> t + 1 <= Start(st'.heap, i))
    && (made.Made? ==> Valid(st') && Fits(st'.heap, t)
                       && StartsWith(NodeBytes(st'.heap, t), src, n.units * unitSize, st.heap, n.start))
  }

  lemma ConstructKeeps(st: State, unitSize: nat, capacity: nat, src: Option<seq<byte>>)
    requires Valid(st) && Free(st) && unitSize >= 1 && st.omegus.count == st.Count() + 1
    ensures var (made, st') := Construct(st, unitSize, capacity, src);
            Constructed(st, unitSize, capacity, src, made, st')
  {
    var n := NewNode(st, unitSize, capacity);
    NewNodeAppendable(st, unitSize, capacity);
    CtorFits(Needed(unitSize, capacity), |st.heap| - st.End());
    if n.start + n.count <= |st.heap| {
      ConstructMade(st, unitSize, capacity, src);
    } else {
      ConstructPast(st, unitSize, capacity, src);
    }
  }

  lemma ConstructMade(st: State, unitSize: nat, capacity: nat, src: Option<seq<byte>>)
    requires unitSize >= 1 && Attachable(st, NewNode(st, unitSize, capacity))
    requires RoomFor(Needed(unitSize, capacity), |st.heap| - st.End())
    ensures var n := NewNode(st, unitSize, capacity);
            Constructed(st, unitSize, capacity, src, Made(st.Count()), Attach(st, n, Initial(src, n.units * unitSize)))
  {
    var n := NewNode(st, unitSize, capacity);
    AttachKeeps(st, n, Initial(src, n.units * unitSize));
    AttachBytes(st, n, src, n.units * unitSize);
  }

  lemma ConstructPast(st: State, unitSize: nat, capacity: nat, src: Option<seq<byte>>)
    requires unitSize >= 1 && Appendable(st, NewNode(st, unitSize, capacity))
    requires !RoomFor(Needed(unitSize, capacity), |st.heap| - st.End())
    requires NewNode(st, unitSize, capacity).start + NewNode(st, unitSize, capacity).count > |st.heap|
    ensures var n := NewNode(st, unitSize, capacity);
            Constructed(st, unitSize, capacity, src, PastEnd(st.Count()),
                        Attach(st, n, Initial(src, n.units * unitSize)))
  {
    var n := NewNode(st, unitSize, capacity);
    AttachPastKeeps(st, n, Initial(src, n.units * unitSize));
  }

  lemma NewNodeAppendable(st: State, unitSize: nat, capacity: nat)
    requires Valid(st) && Free(st) && unitSize >= 1 && st.omegus.count == st.Count() + 1
    ensures Appendable(st, NewNode(st, unitSize, capacity)) && NewNode(st, unitSize, capacity).unitSize == unitSize
  {
    EndBehindTable(st);
    UnitsFit(unitSize, Needed(unitSize, capacity), NewCount(st, unitSize, capacity));
  }

  /** The record for a new node: there is none exactly when table and heap are full; otherwise the
      table has grown, which changes nothing that any node shows. */
  lemma RecordFirst(st: State)
    requires Valid(st) && Free(st)
    ensures var (ok, st1) := DeltaSize(st, OMEGA, 1);
            && (ok <==> st.Count() < st.omegus.count || st.End() < |st.heap|)
            && (ok ==> Valid(st1) && Free(st1) && st1.Count() == st.Count() && st1.omegus.count == st.Count() + 1
                       && |st1.heap| == |st.heap| && st1.End() == st.End() + st.Count() + 1 - st.omegus.count
                       && forall i :: 0 <= i < st.Count() ==> Shows(st.heap, st1.heap, i))
            && (!ok ==> st1.omegus == st.omegus && OnlyLocked(st.heap, st1.heap, 0, st.Count()))
  {
    TableGrows(st);
    EndInHeap(st);
    var (ok, st1) := DeltaSize(st, OMEGA, 1);
    if ok {
      MovedShows(st.heap, st1.heap, 0, st.Count(), st.Count() + 1 - st.omegus.count);
    }
  }

  /** Barrel_Sourced: the creation is refused for want of a record exactly when the table is full
      and the heap is too; otherwise the table has grown, which may have rolled every node by one
      barrel without changing what it shows, and the node is placed behind the last one, inside the
      heap exactly when there is room for it. */
  lemma SourcedKeeps(st: State, unitSize: nat, capacity: nat, src: Option<seq<byte>>)
    requires Valid(st) && Free(st) && unitSize >= 1
    ensures var (made, st') := Sourced(st, unitSize, capacity, src);
            var st1 := DeltaSize(st, OMEGA, 1).1;
            && (made.NoRecord? <==> st.Count() == st.omegus.count && st.End() == |st.heap|)
            && (made.NoRecord? ==> st'.omegus == st.omegus && OnlyLocked(st.heap, st'.heap, 0, st.Count()))
            && (!made.NoRecord? ==> st1.Count() == st.Count() && st1.omegus.count == st.Count() + 1
                                    && |st1.heap| == |st.heap|
                                    && st1.End() == st.End() + st.Count() + 1 - st.omegus.count
                                    && Constructed(st1, unitSize, capacity, src, made, st'))
            && (!made.NoRecord? ==> forall i :: 0 <= i < st.Count() ==> Shows(st.heap, st1.heap, i))
  {
    RecordFirst(st);
    EndInHeap(st);
    var (ok, st1) := DeltaSize(st, OMEGA, 1);
    if ok {
      ConstructKeeps(st1, unitSize, capacity, src);
    }
  }

  /** When a creation makes a node inside the heap, by the state before the call. */
  lemma CreationInside(st: State, unitSize: nat, capacity: nat, src: Option<seq<byte>>)
    requires Valid(st) && Free(st) && unitSize >= 1
    ensures Sourced(st, unitSize, capacity, src).0.Made? <==>
              && (st.Count() < st.omegus.count || st.End() < |st.heap|)
              && RoomFor(Needed(unitSize, capacity), |st.heap| - st.End() - (st.Count() + 1 - st.omegus.count))
  {
    RecordFirst(st);
    EndInHeap(st);
    var (ok, st1) := DeltaSize(st, OMEGA, 1);
    if ok {
      ConstructInside(st1, unitSize, capacity, src);
    }
  }

  lemma ConstructInside(st: State, unitSize: nat, capacity: nat, src: Option<seq<byte>>)
    requires unitSize >= 1
    ensures Construct(st, unitSize, capacity, src).0.Made?
       <==> RoomFor(Needed(unitSize, capacity), |st.heap| - st.End())
  {
    CtorFits(Needed(unitSize, capacity), |st.heap| - st.End());
  }

  /** A service with no node over a fresh heap of four barrels. */
  function FourBarrels(): State {
    State(seq(4, _ => Words(seq(SIZE, _ => 0))), Node(0, 0, 0, NONE, SIZE, 0, false), OMEGA)
  }

  lemma FourBarrelsValid()
    ensures Valid(FourBarrels()) && Free(FourBarrels()) && FourBarrels().End() == 0
  {
  }

  /** "A creation stays inside the heap" fails: with three barrels free, 96 bytes, which fit them
      exactly, get a run of four. */
  lemma CreationPastEnd()
    ensures var (made, st') := Sourced(FourBarrels(), 32, 3, None);
            made == PastEnd(0) && Start(st'.heap, 0) == 1 && Stop(st'.heap, 0) == 5 && |st'.heap| == 4
  {
    var st := FourBarrels();
    FourBarrelsValid();
    SourcedKeeps(st, 32, 3, None);
    var (made, st') := Sourced(st, 32, 3, None);
    PastEndBehindOne(DeltaSize(st, OMEGA, 1).1, made, st');
  }

  lemma PastEndBehindOne(st1: State, made: Created, st': State)
    requires Constructed(st1, 32, 3, None, made, st') && st1.Count() == 0 && st1.End() == 1 && |st1.heap| == 4
    ensures made == PastEnd(0) && Start(st'.heap, 0) == 1 && Stop(st'.heap, 0) == 5 && |st'.heap| == 4
  {
    assert PowerBelow(3) == 2;
    CtorCountSteps();
    assert NewCount(st1, 32, 3) == CtorCount(1, 96, 96);
  }

  lemma CtorCountSteps()
    ensures CtorCount(1, 96, 96) == 4
  {
    assert CtorCount(4, 96, 96) == 4;
    assert CtorCount(2, 96, 96) == 4;
  }

  /** "A new node has the units asked for" fails: 2^32 units of 2^32 bytes need 2^64 bytes, which is
      0 as a size_t; wherever one barrel is free they get one barrel and no unit. */
  lemma HugeCreation(st: State)
    requires Valid(st) && Free(st) && st.End() + (st.Count() + 1 - st.omegus.count) < |st.heap|
    ensures var (made, st') := Sourced(st, UINT, UINT, None);
            var n := NodeAt(st'.heap, st.Count());
            made == Made(st.Count()) && n.units == 0 && n.count == 1
  {
    assert Needed(UINT, UINT) == 0;
    SourcedKeeps(st, UINT, UINT, None);
    var st1 := DeltaSize(st, OMEGA, 1).1;
    HugeNode(st1);
  }

  lemma HugeNode(st: State)
    ensures NewNode(st, UINT, UINT).units == 0 && NewNode(st, UINT, UINT).count == 1
  {
    assert Needed(UINT, UINT) == 0;
    assert CtorUnits(UINT, 0, 1) == 0;
  }

  // ---- Writing a unit -----------------------------------------------------------------------

  /** A unit written where Barrel_GetUnitPtr says it is. */
  function WriteUnit(st: State, ix: nat, index: nat, data: seq<byte>): State
    requires NodeAt(st.heap, ix).count > 0
  {
    st.(heap := PutBytes(st.heap, UnitAddress(NodeAt(st.heap, ix), index), data))
  }

  /** `b` with `data` written over it from `q` on. */
  function Overwrite(b: seq<byte>, q: nat, data: seq<byte>): (r: seq<byte>)
    ensures |r| == |b|
  {
    seq(|b|, p requires 0 <= p < |b| => if q <= p < q + |data| then data[p - q] else b[p])
  }

  lemma MulMono(m: nat, a: int, b: int)
    ensures a <= b ==> m * a <= m * b
  {
  }

  lemma ModScale(m: nat, a: nat, w: nat)
    requires m > 0 && w > 0
    ensures m * w > 0 && (m * a) % (m * w) == m * (a % w)
  {
    var d, r := a / w, a % w;
    MulMono(m, 1, w);
    MulMono(m, 0, r);
    MulMono(m, r + 1, w);
    assert m * (r + 1) == m * r + m;
    assert m * a == m * r + (m * w) * d by {
      assert a == r + w * d;
    }
    ModShift(m * r, d, m * w);
    ModSmall(m * r, m * w);
  }

  lemma ModSmall(x: nat, m: nat)
    requires x < m
    ensures x % m == x
  {
  }

  /** An index lands on a unit boundary inside the run. */
  lemma UnitPlace(unit: nat, index: nat, c: nat)
    requires unit > 0 && SIZE % unit == 0 && c > 0
    ensures var q := (unit * index) % (c * SIZE);
            q % unit == 0 && 0 <= q && q + unit <= SIZE * c
  {
    var v := SIZE / unit;
    var w := v * c;
    assert SIZE == unit * v;
    MulMono(c, 1, v);
    assert c * SIZE == unit * w by {
      assert c * (unit * v) == unit * (v * c);
    }
    ModScale(unit, index, w);
    var r := index % w;
    ModShift(0, r, unit);
    MulMono(unit, r + 1, w);
    assert unit * (r + 1) == unit * r + unit;
  }

  lemma WriteValid(st: State, st': State, ix: nat, a: int, data: seq<byte>)
    requires Valid(st) && ix < st.Count() && st' == st.(heap := st'.heap)
    requires Written(st.heap, st'.heap, a, data) && data != []
    requires SIZE * Start(st.heap, ix) <= a && a + |data| <= SIZE * Stop(st.heap, ix)
    ensures Valid(st') && (Free(st) ==> Free(st'))
    ensures Fits(st'.heap, ix) && NodeAt(st'.heap, ix) == NodeAt(st.heap, ix)
    ensures forall i :: 0 <= i < st.Count() && i != ix ==> Shows(st.heap, st'.heap, i)
  {
    var h, h', t := st.heap, st'.heap, st.Count();
    EndBehindTable(st);
    forall i | 0 <= i < t
      ensures Fits(h', i) && NodeAt(h', i) == NodeAt(h, i)
      ensures i != ix ==> Shows(h, h', i)
      ensures Start(h', i) == Start(h, i) && Stop(h', i) == Stop(h, i)
    {
      assert Fits(h, i) && h'[i] == h[i];
      if i < ix {
        Ordered(h, 0, t, i, ix);
      } else if ix < i {
        Ordered(h, 0, t, ix, i);
      }
      if i != ix {
        NodeFrame(h, h', i);
      }
    }
  }

  /** `b`, read as a ring, with `data` written over it from `q` on. */
  function OverwriteRing(b: seq<byte>, q: nat, data: seq<byte>): (r: seq<byte>)
    requires |b| > 0
    ensures |r| == |b|
  {
    seq(|b|, p requires 0 <= p < |b| => if (p - q) % |b| < |data| then data[(p - q) % |b|] else b[p])
  }

  /** The unit, in one piece from its address on, ends inside the run. */
  predicate UnitIn(n: Node, index: nat)
    requires n.count > 0
  {
    (n.unitSize * index + n.offset * SIZE) % (n.count * SIZE) + n.unitSize <= n.count * SIZE
  }

  lemma UnitInAddress(n: Node, index: nat)
    requires n.count > 0
    ensures SIZE * n.start <= UnitAddress(n, index) < SIZE * (n.start + n.count)
    ensures UnitIn(n, index) <==> UnitAddress(n, index) + n.unitSize <= SIZE * (n.start + n.count)
  {
  }

  /** The unit lies inside one barrel of the logical contents. */
  predicate InBarrel(unitSize: nat, index: nat) {
    (unitSize * index) % SIZE + unitSize <= SIZE
  }

  /** A turn moves whole barrels. */
  lemma RingPlace(x: nat, o: nat, c: nat)
    requires c > 0
    ensures (x + o * SIZE) % (c * SIZE) == SIZE * ((x / SIZE + o) % c) + x % SIZE
  {
    var b, r := x / SIZE + o, x % SIZE;
    var q, k := b / c, b % c;
    assert x + o * SIZE == SIZE * b + r;
    assert b == k + c * q;
    assert SIZE * b + r == SIZE * k + r + (c * SIZE) * q;
    MulMono(SIZE, k + 1, c);
    ModShift(SIZE * k + r, q, c * SIZE);
    ModSmall(SIZE * k + r, c * SIZE);
  }

  /** A unit ends inside its run however the node is turned exactly when it lies inside one barrel. */
  lemma TurnsExact(n: Node, index: nat)
    requires n.count > 0
    ensures (forall o :: 1 <= o <= n.count ==> UnitIn(n.(offset := o), index)) <==> InBarrel(n.unitSize, index)
  {
    var x, c := n.unitSize * index, n.count;
    forall o | 1 <= o <= c
      ensures InBarrel(n.unitSize, index) ==> UnitIn(n.(offset := o), index)
    {
      RingPlace(x, o, c);
      MulMono(SIZE, (x / SIZE + o) % c + 1, c);
    }
    var k := (x / SIZE) % c;
    var o := if k < c - 1 then c - 1 - k else c;
    RingPlace(x, o, c);
    LastPlace(x / SIZE, o, c);
    assert UnitIn(n.(offset := o), index) <==> InBarrel(n.unitSize, index);
  }

  lemma LastPlace(b: nat, o: nat, c: nat)
    requires c > 0 && o == if b % c < c - 1 then c - 1 - b % c else c
    ensures (b + o) % c == c - 1
  {
    ModAbsorbs(b, o, c);
    if b % c < c - 1 {
      ModSmall(c - 1, c);
    } else {
      ModShift(c - 1, 1, c);
      ModSmall(c - 1, c);
    }
  }

  /** Such a unit does not go round the ring. */
  lemma WholeUnit(n: Node, index: nat, b: seq<byte>, data: seq<byte>)
    requires 1 <= n.offset <= n.count && InBarrel(n.unitSize, index)
    requires |b| == SIZE * n.count && |data| == n.unitSize
    ensures UnitIn(n, index)
    ensures var q := (n.unitSize * index) % (n.count * SIZE);
            q >= 0 && OverwriteRing(b, q, data) == Overwrite(b, q, data)
  {
    var m := n.count * SIZE;
    var q := (n.unitSize * index) % m;
    TurnsExact(n, index);
    assert n.(offset := n.offset) == n;
    RingPlace(n.unitSize * index, 0, n.count);
    var k := (n.unitSize * index / SIZE) % n.count;
    MulMono(SIZE, k + 1, n.count);
    assert q + |data| <= m;
    forall p | 0 <= p < m
      ensures OverwriteRing(b, q, data)[p] == Overwrite(b, q, data)[p]
    {
      Round(p, q, m);
    }
  }

  lemma Round(p: nat, q: nat, m: nat)
    requires p < m && q < m
    ensures (p - q) % m == if q <= p then p - q else p - q + m
  {
    if p < q {
      ModShift(p - q, 1, m);
      ModSmall(p - q + m, m);
    } else {
      ModSmall(p - q, m);
    }
  }

  lemma WrittenPlace(n: Node, index: nat, p: nat)
    requires 1 <= n.offset <= n.count && UnitIn(n, index) && p < SIZE * n.count
    ensures var a, d := UnitAddress(n, index), (p - (n.unitSize * index) % (n.count * SIZE)) % (n.count * SIZE);
            && d >= 0 && (a <= Address(n, p) < a + n.unitSize <==> d < n.unitSize)
            && (d < n.unitSize ==> Address(n, p) == a + d)
  {
    var m, o := n.count * SIZE, n.offset * SIZE;
    var x := n.unitSize * index;
    RingAddress(n, p);
    SubMod(p + o, x + o, m);
    SubMod(p, x, m);
    ModSmall(p, m);
    Round((p + o) % m, (x + o) % m, m);
  }

  lemma WriteBytes(h: Heap, h': Heap, ix: nat, index: nat, data: seq<byte>)
    requires Fits(h, ix) && Fits(h', ix) && NodeAt(h', ix) == NodeAt(h, ix)
    requires |data| == NodeAt(h, ix).unitSize && UnitIn(NodeAt(h, ix), index)
    requires Written(h, h', UnitAddress(NodeAt(h, ix), index), data)
    ensures var q := (|data| * index) % (NodeAt(h, ix).count * SIZE);
            q >= 0 && NodeBytes(h', ix) == OverwriteRing(NodeBytes(h, ix), q, data)
  {
    var q := (|data| * index) % (NodeAt(h, ix).count * SIZE);
    var b', w := NodeBytes(h', ix), OverwriteRing(NodeBytes(h, ix), q, data);
    forall p | 0 <= p < |w|
      ensures b'[p] == w[p]
    {
      WriteByteAt(h, h', ix, index, data, p);
    }
  }

  lemma WriteByteAt(h: Heap, h': Heap, ix: nat, index: nat, data: seq<byte>, p: nat)
    requires Fits(h, ix) && Fits(h', ix) && NodeAt(h', ix) == NodeAt(h, ix) && p < SIZE * NodeAt(h, ix).count
    requires |data| == NodeAt(h, ix).unitSize && UnitIn(NodeAt(h, ix), index)
    requires Written(h, h', UnitAddress(NodeAt(h, ix), index), data)
    ensures var d := (p - (|data| * index) % (NodeAt(h, ix).count * SIZE)) % (NodeAt(h, ix).count * SIZE);
            d >= 0 && NodeBytes(h', ix)[p] == if d < |data| then data[d] else NodeBytes(h, ix)[p]
  {
    var n := NodeAt(h, ix);
    WrittenPlace(n, index, p);
    var d := (p - (n.unitSize * index) % (n.count * SIZE)) % (n.count * SIZE);
    WrittenByte(h, h', ix, UnitAddress(n, index), data, p, d);
  }

  lemma WrittenByte(h: Heap, h': Heap, ix: nat, a: int, data: seq<byte>, p: nat, d: int)
    requires Fits(h, ix) && Fits(h', ix) && NodeAt(h', ix) == NodeAt(h, ix) && p < SIZE * NodeAt(h, ix).count
    requires Written(h, h', a, data) && d >= 0
    requires var x := Address(NodeAt(h, ix), p); (a <= x < a + |data| <==> d < |data|) && (d < |data| ==> x == a + d)
    ensures NodeBytes(h', ix)[p] == if d < |data| then data[d] else NodeBytes(h, ix)[p]
  {
    NodeBytesAt(h, ix, p);
    NodeBytesAt(h', ix, p);
  }

  /** Writing unit `index` of a node, whenever the unit ends inside the run, replaces exactly that
      unit of its contents, at the place round the ring that the index has modulo the capacity,
      however the node is turned; no other node and no record is touched. */
  lemma WriteKeeps(st: State, ix: nat, index: nat, data: seq<byte>)
    requires Valid(st) && ix < st.Count() && Fits(st.heap, ix)
    requires |data| == NodeAt(st.heap, ix).unitSize && UnitIn(NodeAt(st.heap, ix), index)
    ensures var st', n := WriteUnit(st, ix, index, data), NodeAt(st.heap, ix);
            && Valid(st') && (Free(st) ==> Free(st')) && Fits(st'.heap, ix) && NodeAt(st'.heap, ix) == n
            && (n.unitSize * index) % (n.count * SIZE) >= 0
            && NodeBytes(st'.heap, ix)
               == OverwriteRing(NodeBytes(st.heap, ix), (n.unitSize * index) % (n.count * SIZE), data)
            && forall i :: 0 <= i < st.Count() && i != ix ==> Shows(st.heap, st'.heap, i)
  {
    var h, n, st' := st.heap, NodeAt(st.heap, ix), WriteUnit(st, ix, index, data);
    var a := UnitAddress(n, index);
    assert GoodRecord(n, ix, st.Count());
    UnitInAddress(n, index);
    PutBytesWrites(h, a, data);
    WriteValid(st, st', ix, a, data);
    WriteBytes(h, st'.heap, ix, index, data);
  }
}
