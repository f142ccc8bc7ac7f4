/** Copying between collections (tCollection.c, tVector.c).

    A chunk is a span of memory read as a ring.  Collection_Transcribe copies element by element,
    each element in one straight piece; Vector_Transcribe copies byte by byte round the ring. */
module Transcribe {
  import opened Ring
  import opened Resize
  import opened Barrels
  import opened Bytes
  import opened Service
  import opened Runs
  import opened Layout
  import opened Data

  datatype Chunk = Chunk(head: nat, size: nat)

  predicate InMemory(mem: seq<byte>, c: Chunk) {
    c.size > 0 && c.head + c.size <= |mem|
  }

  /** The address of ring position `p` of a chunk. */
  function At(c: Chunk, p: nat): (a: nat)
    requires c.size > 0
    ensures c.head <= a < c.head + c.size
  {
    c.head + p % c.size
  }

  /** The first `n` elements copied, element by element, from position `q` of `src` to position
      `p` of `trg`. */
  function ElementsCopied(mem: seq<byte>, trg: Chunk, p: nat, src: Chunk, q: nat, unit: nat, n: nat): (r: seq<byte>)
    requires trg.size > 0 && src.size > 0
    ensures |r| == |mem|
  {
    if n == 0 then mem
    else Transcribed(ElementsCopied(mem, trg, p, src, q, unit, n - 1),
                     At(trg, p + unit * (n - 1)), At(src, q + unit * (n - 1)), unit)
  }

  /** The first `n` bytes copied, byte by byte. */
  function BytesCopied(mem: seq<byte>, trg: Chunk, p: nat, src: Chunk, q: nat, n: nat): (r: seq<byte>)
    requires trg.size > 0 && src.size > 0
    ensures |r| == |mem|
  {
    if n == 0 then mem
    else Copy(BytesCopied(mem, trg, p, src, q, n - 1), At(trg, p + n - 1), At(src, q + n - 1))
  }

  /** rawTranscribe. */
  method RawTranscribe(mem: array<byte>, trg: nat, src: nat, size: nat)
    requires trg + size <= mem.Length && src + size <= mem.Length
    modifies mem
    ensures mem[..] == Transcribed(old(mem[..]), trg, src, size)
  {
    for i := 0 to size
      invariant mem[..] == Transcribed(old(mem[..]), trg, src, i)
    {
      mem[trg + i] := mem[src + i];
    }
  }

  /** Element `e` of a chunk, in one piece from its address on, lies in memory of `size` bytes. */
  predicate ElementIn(size: nat, c: Chunk, offset: nat, unit: nat, e: nat)
    requires c.size > 0
  {
    At(c, offset + unit * e) + unit <= size
  }

  /** The loop of Collection_Transcribe, from the offset the collections hand out. */
  method CollectionTranscribe(mem: array<byte>, trg: Chunk, trgOffset: nat, src: Chunk, srcOffset: nat,
                              unit: nat, trgStart: nat, srcStart: nat, count: nat)
    requires InMemory(mem[..], trg) && InMemory(mem[..], src)
    requires forall e :: trgStart <= e < trgStart + count ==> ElementIn(mem.Length, trg, trgOffset, unit, e)
    requires forall e :: srcStart <= e < srcStart + count ==> ElementIn(mem.Length, src, srcOffset, unit, e)
    modifies mem
    ensures mem[..] == ElementsCopied(old(mem[..]), trg, trgOffset + unit * trgStart,
                                      src, srcOffset + unit * srcStart, unit, count)
  {
    ghost var p, q := trgOffset + unit * trgStart, srcOffset + unit * srcStart;
    for i := 0 to count
      invariant mem[..] == ElementsCopied(old(mem[..]), trg, p, src, q, unit, i)
    {
      Further(trgOffset, unit, trgStart, i);
      Further(srcOffset, unit, srcStart, i);
      assert ElementIn(mem.Length, trg, trgOffset, unit, trgStart + i);
      assert ElementIn(mem.Length, src, srcOffset, unit, srcStart + i);
      var t, s := At(trg, trgOffset + unit * (trgStart + i)), At(src, srcOffset + unit * (srcStart + i));
      RawTranscribe(mem, t, s, unit);
    }
  }

  lemma Further(offset: nat, unit: nat, start: nat, i: nat)
    ensures offset + unit * (start + i) == offset + unit * start + unit * i
  {
  }

  /** The loop of Vector_Transcribe, with the index alone taken round the ring. */
  method VectorTranscribe(mem: array<byte>, trg: Chunk, src: Chunk, unit: nat, trgIx: nat, srcIx: nat, count: nat)
    requires InMemory(mem[..], trg) && InMemory(mem[..], src)
    modifies mem
    ensures mem[..] == BytesCopied(old(mem[..]), trg, unit * trgIx, src, unit * srcIx, unit * count)
  {
    var span, trgPtr, srcPtr := unit * count, unit * trgIx, unit * srcIx;
    for i := 0 to span
      invariant mem[..] == BytesCopied(old(mem[..]), trg, trgPtr, src, srcPtr, i)
    {
      var t, s := At(trg, trgPtr + i), At(src, srcPtr + i);
      mem[t] := mem[s];
    }
  }

  // ---- The two copies agree -----------------------------------------------------------------

  lemma ModBound(x: int, m: nat)
    requires m > 0
    ensures 0 <= x % m < m
  {
  }

  lemma MulUp(m: nat, a: int, b: int)
    ensures a <= b ==> m * a <= m * b
  {
  }

  /** `a` and `m` are multiples of `unit`, so an element at `a` ends before the ring does. */
  lemma Aligned(a: nat, m: nat, unit: nat)
    requires unit > 0 && m > 0 && a % unit == 0 && m % unit == 0
    ensures a % m + unit <= m
  {
    var v, u, d := a / unit, m / unit, a / m;
    var w := v - u * d;
    assert a % m == unit * w by {
      assert a == unit * v && m == unit * u;
      assert m * d == unit * (u * d);
    }
    ModBound(a, m);
    MulUp(unit, u, w);
    MulUp(unit, w + 1, u);
    assert unit * (w + 1) == unit * w + unit;
  }

  /** The `k`-th byte of an element at ring position `p` lies `k` behind its first. */
  predicate Straight(c: Chunk, p: nat, k: nat)
    requires c.size > 0
  {
    At(c, p + k) == At(c, p) + k
  }

  /** Copying an element in one piece is right exactly when it ends before the ring does. */
  lemma StraightExact(c: Chunk, p: nat, unit: nat)
    requires 0 < unit && c.size > 0
    ensures p % c.size + unit <= c.size <==> forall k :: 0 <= k < unit ==> Straight(c, p, k)
  {
    if p % c.size + unit <= c.size {
      forall k | 0 <= k < unit
        ensures Straight(c, p, k)
      {
        StraightByte(p, c.size, k);
      }
    } else {
      assert !Straight(c, p, unit - 1);
    }
  }

  lemma StraightByte(a: nat, m: nat, k: nat)
    requires m > 0 && a % m + k < m
    ensures (a + k) % m == a % m + k
  {
    ModShift(a % m + k, a / m, m);
    assert a + k == a % m + k + m * (a / m);
    AsModSmall(a % m + k, m);
  }

  lemma AsModSmall(x: nat, m: nat)
    requires x < m
    ensures x % m == x
  {
  }

  /** One element copied in a straight piece is its bytes copied round the rings. */
  lemma {:induction false} ElementIsBytes(mem: seq<byte>, trg: Chunk, p: nat, src: Chunk, q: nat, k: nat)
    requires trg.size > 0 && src.size > 0
    requires forall j :: 0 <= j < k ==> Straight(trg, p, j) && Straight(src, q, j)
    ensures Transcribed(mem, At(trg, p), At(src, q), k) == BytesCopied(mem, trg, p, src, q, k)
  {
    if k > 0 {
      ElementIsBytes(mem, trg, p, src, q, k - 1);
      assert Straight(trg, p, k - 1) && Straight(src, q, k - 1);
    }
  }

  lemma {:induction false} BytesSplit(mem: seq<byte>, trg: Chunk, p: nat, src: Chunk, q: nat, n: nat, k: nat)
    requires trg.size > 0 && src.size > 0
    ensures BytesCopied(BytesCopied(mem, trg, p, src, q, n), trg, p + n, src, q + n, k)
            == BytesCopied(mem, trg, p, src, q, n + k)
  {
    if k > 0 {
      BytesSplit(mem, trg, p, src, q, n, k - 1);
    }
  }

  /** A position that is a multiple of the unit size, in a ring whose size is one too. */
  predicate AlignedIn(c: Chunk, p: nat, unit: nat) {
    unit > 0 && c.size > 0 && c.size % unit == 0 && p % unit == 0
  }

  lemma AlignedFurther(c: Chunk, p: nat, unit: nat, n: nat)
    requires AlignedIn(c, p, unit)
    ensures AlignedIn(c, p + unit * n, unit)
  {
    ModShift(p, n, unit);
  }

  lemma AlignedElement(mem: seq<byte>, trg: Chunk, p: nat, src: Chunk, q: nat, unit: nat)
    requires AlignedIn(trg, p, unit) && AlignedIn(src, q, unit)
    ensures Transcribed(mem, At(trg, p), At(src, q), unit) == BytesCopied(mem, trg, p, src, q, unit)
  {
    Aligned(p, trg.size, unit);
    Aligned(q, src.size, unit);
    StraightExact(trg, p, unit);
    StraightExact(src, q, unit);
    ElementIsBytes(mem, trg, p, src, q, unit);
  }

  /** The per-element copy agrees with the per-byte copy whenever the unit size divides both
      chunks and both positions, as it does when it divides the barrel size; source and target
      may overlap. */
  lemma {:induction false} CopiesAgree(mem: seq<byte>, trg: Chunk, p: nat, src: Chunk, q: nat,
                                       unit: nat, n: nat, bytes: nat)
    requires AlignedIn(trg, p, unit) && AlignedIn(src, q, unit) && bytes == unit * n
    ensures ElementsCopied(mem, trg, p, src, q, unit, n) == BytesCopied(mem, trg, p, src, q, bytes)
  {
    if n > 0 {
      Further(0, unit, 1, n - 1);
      var m := bytes - unit;
      assert m == unit * (n - 1);
      CopiesAgree(mem, trg, p, src, q, unit, n - 1, m);
      OneMoreElement(mem, trg, p, src, q, unit, m, n - 1);
    }
  }

  lemma OneMoreElement(mem: seq<byte>, trg: Chunk, p: nat, src: Chunk, q: nat, unit: nat, m: nat, n: nat)
    requires AlignedIn(trg, p, unit) && AlignedIn(src, q, unit) && m == unit * n
    ensures Transcribed(BytesCopied(mem, trg, p, src, q, m), At(trg, p + m), At(src, q + m), unit)
            == BytesCopied(mem, trg, p, src, q, m + unit)
  {
    AlignedFurther(trg, p, unit, n);
    AlignedFurther(src, q, unit, n);
    AlignedElement(BytesCopied(mem, trg, p, src, q, m), trg, p + m, src, q + m, unit);
    BytesSplit(mem, trg, p, src, q, m, unit);
  }

  // ---- Spans --------------------------------------------------------------------------------

  predicate Disjoint(a: Chunk, b: Chunk) {
    a.head + a.size <= b.head || b.head + b.size <= a.head
  }

  /** Ring positions that differ by less than the ring have different addresses. */
  lemma AtInjective(c: Chunk, p: nat, q: nat)
    requires c.size > 0 && p <= q < p + c.size && At(c, p) == At(c, q)
    ensures p == q
  {
    SubMod(q, p, c.size);
    AsModSmall(q - p, c.size);
    AsModSmall(0, c.size);
  }

  /** The `n` bytes of a chunk from ring position `p` on. */
  function Span(mem: seq<byte>, c: Chunk, p: nat, n: nat): (r: seq<byte>)
    requires InMemory(mem, c)
    ensures |r| == n
  {
    seq(n, i requires 0 <= i < n => mem[At(c, p + i)])
  }

  predicate SameOff(mem: seq<byte>, r: seq<byte>, c: Chunk) {
    && |r| == |mem|
    && forall a :: 0 <= a < |mem| && !(c.head <= a < c.head + c.size) ==> r[a] == mem[a]
  }

  lemma {:induction false} ByteCopied(mem: seq<byte>, trg: Chunk, p: nat, src: Chunk, q: nat, n: nat, i: nat)
    requires InMemory(mem, trg) && InMemory(mem, src) && Disjoint(trg, src) && n <= trg.size && i < trg.size
    ensures BytesCopied(mem, trg, p, src, q, n)[At(trg, p + i)]
            == if i < n then mem[At(src, q + i)] else mem[At(trg, p + i)]
    ensures SameOff(mem, BytesCopied(mem, trg, p, src, q, n), trg)
  {
    if n > 0 {
      ByteCopied(mem, trg, p, src, q, n - 1, i);
      if i < n - 1 && At(trg, p + i) == At(trg, p + n - 1) {
        AtInjective(trg, p + i, p + n - 1);
      } else if n - 1 < i && At(trg, p + i) == At(trg, p + n - 1) {
        AtInjective(trg, p + n - 1, p + i);
      }
    }
  }

  /** A byte copy of no more than a ring between disjoint chunks: the span of the target becomes
      the span of the source; the rest of the ring and all memory outside it stay. */
  lemma SpanCopied(mem: seq<byte>, trg: Chunk, p: nat, src: Chunk, q: nat, n: nat)
    requires InMemory(mem, trg) && InMemory(mem, src) && Disjoint(trg, src) && n <= trg.size
    ensures var r := BytesCopied(mem, trg, p, src, q, n);
            && Span(r, trg, p, n) == Span(mem, src, q, n) && SameOff(mem, r, trg)
            && Span(r, trg, p + n, trg.size - n) == Span(mem, trg, p + n, trg.size - n)
  {
    var r := BytesCopied(mem, trg, p, src, q, n);
    ByteCopied(mem, trg, p, src, q, n, 0);
    forall i | 0 <= i < n
      ensures Span(r, trg, p, n)[i] == Span(mem, src, q, n)[i]
    {
      ByteCopied(mem, trg, p, src, q, n, i);
    }
    var after, before := Span(r, trg, p + n, trg.size - n), Span(mem, trg, p + n, trg.size - n);
    forall i | 0 <= i < trg.size - n
      ensures after[i] == before[i]
    {
      ByteCopied(mem, trg, p, src, q, n, n + i);
    }
  }

  /** Collection_WriteSpan then Collection_ReadSpan.  `n` bytes are written from buffer `b` to
      ring position `p` of collection `c`.  Before they are read back into buffer `b2`, the
      collection may have become `c2`, with the same bytes at ring position `p2`.  The reader gets
      what the writer gave. */
  lemma WriteThenRead(mem: seq<byte>, c: Chunk, p: nat, b: Chunk, n: nat,
                      mem2: seq<byte>, c2: Chunk, p2: nat, b2: Chunk)
    requires InMemory(mem, c) && InMemory(mem, b) && Disjoint(c, b) && n <= c.size
    requires InMemory(mem2, c2) && InMemory(mem2, b2) && Disjoint(b2, c2) && n <= b2.size
    requires Span(mem2, c2, p2, n) == Span(BytesCopied(mem, c, p, b, 0, n), c, p, n)
    ensures Span(BytesCopied(mem2, b2, 0, c2, p2, n), b2, 0, n) == Span(mem, b, 0, n)
  {
    SpanCopied(mem, c, p, b, 0, n);
    SpanCopied(mem2, b2, 0, c2, p2, n);
  }

  // ---- Collections in the barrel heap -------------------------------------------------------

  /** Memory whose first part is the barrel heap.  What bytes a table record has is left open. */
  predicate Holds(mem: seq<byte>, h: Heap) {
    SIZE * |h| <= |mem| && forall a :: 0 <= a < SIZE * |h| && h[a / SIZE].Words? ==> mem[a] == ByteAt(h, a)
  }

  /** Memory stays memory of a heap when its records are written with any other bytes. */
  lemma RecordsOpen(mem: seq<byte>, mem2: seq<byte>, h: Heap)
    requires Holds(mem, h) && |mem2| == |mem|
    requires forall a :: 0 <= a < SIZE * |h| && h[a / SIZE].Words? ==> mem2[a] == mem[a]
    ensures Holds(mem2, h)
  {
    forall a | 0 <= a < SIZE * |h| && h[a / SIZE].Words?
      ensures mem2[a] == ByteAt(h, a)
    {
      assert mem2[a] == mem[a];
    }
  }

  /** Barrel_GetChunk: the chunk of a node. */
  function NodeChunk(n: Node): Chunk
    requires n.start >= 0
  {
    Chunk(SIZE * n.start, SIZE * n.count)
  }

  /** `n` logical bytes of a node from `p` on. */
  function NodeSpan(h: Heap, ix: nat, p: nat, n: nat): (r: seq<byte>)
    requires Fits(h, ix) && p + n <= SIZE * NodeAt(h, ix).count
  {
    seq(n, i requires 0 <= i < n => NodeBytes(h, ix)[p + i])
  }

  /** Ring position `offset * 32 + p` of a node's chunk is its logical byte `p`. */
  lemma ChunkShowsNode(mem: seq<byte>, h: Heap, ix: nat, p: nat, n: nat)
    requires Holds(mem, h) && Fits(h, ix) && RunOfData(h, ix) && p + n <= SIZE * NodeAt(h, ix).count
    ensures var (c, q) := Place(h, ix, p); InMemory(mem, c) && Span(mem, c, q, n) == NodeSpan(h, ix, p, n)
  {
    var (c, q) := Place(h, ix, p);
    var x, y := Span(mem, c, q, n), NodeSpan(h, ix, p, n);
    forall i | 0 <= i < n
      ensures x[i] == y[i]
    {
      ChunkByte(mem, h, ix, p, n, i);
    }
  }

  lemma ChunkByte(mem: seq<byte>, h: Heap, ix: nat, p: nat, n: nat, i: nat)
    requires Holds(mem, h) && Fits(h, ix) && RunOfData(h, ix) && p + n <= SIZE * NodeAt(h, ix).count && i < n
    ensures var (c, q) := Place(h, ix, p); InMemory(mem, c) && Span(mem, c, q, n)[i] == NodeSpan(h, ix, p, n)[i]
  {
    NodeByteIn(mem, h, ix, p + i);
  }

  lemma NodeByteIn(mem: seq<byte>, h: Heap, ix: nat, p: nat)
    requires Holds(mem, h) && Fits(h, ix) && RunOfData(h, ix) && p < SIZE * NodeAt(h, ix).count
    ensures var m := NodeAt(h, ix);
            InMemory(mem, NodeChunk(m)) && mem[At(NodeChunk(m), SIZE * m.offset + p)] == NodeBytes(h, ix)[p]
  {
    var m := NodeAt(h, ix);
    RingAddress(m, p);
    assert At(NodeChunk(m), SIZE * m.offset + p) == Address(m, p);
    NodeBytesAt(h, ix, p);
  }

  lemma SameSpan(h: Heap, h2: Heap, ix: nat, p: nat, n: nat)
    requires Fits(h, ix) && Fits(h2, ix) && SameElements(Shown(h, ix), Shown(h2, ix))
    requires p + n <= NodeAt(h, ix).units * NodeAt(h, ix).unitSize
    ensures NodeAt(h2, ix).units * NodeAt(h2, ix).unitSize == NodeAt(h, ix).units * NodeAt(h, ix).unitSize
    ensures p + n <= SIZE * NodeAt(h, ix).count && p + n <= SIZE * NodeAt(h2, ix).count
    ensures NodeSpan(h2, ix, p, n) == NodeSpan(h, ix, p, n)
  {
    var e, e2 := Shown(h, ix), Shown(h2, ix);
    assert |e.bytes| == SIZE * NodeAt(h, ix).count && |e2.bytes| == SIZE * NodeAt(h2, ix).count;
    var x, y := NodeSpan(h2, ix, p, n), NodeSpan(h, ix, p, n);
    forall i | 0 <= i < n
      ensures x[i] == y[i]
    {
      assert e2.bytes[p + i] == e.bytes[p + i];
    }
  }

  /** The chunk and the ring position at which logical byte `p` of a node is found. */
  function Place(h: Heap, ix: nat, p: nat): (r: (Chunk, nat))
    requires Fits(h, ix)
  {
    (NodeChunk(NodeAt(h, ix)), SIZE * NodeAt(h, ix).offset + p)
  }

  lemma SpanSurvives(mem: seq<byte>, b: Chunk, h: Heap, h2: Heap, ix: nat, p: nat, n: nat,
                     mem2: seq<byte>, b2: Chunk)
    requires Fits(h, ix) && Fits(h2, ix) && SameElements(Shown(h, ix), Shown(h2, ix))
    requires RunOfData(h, ix) && RunOfData(h2, ix)
    requires p + n <= NodeAt(h, ix).units * NodeAt(h, ix).unitSize
    requires var (c, q) := Place(h, ix, p);
             && InMemory(mem, c) && InMemory(mem, b) && Disjoint(c, b) && n <= c.size
             && Holds(BytesCopied(mem, c, q, b, 0, n), h)
    requires InMemory(mem2, b2) && n <= b2.size && Holds(mem2, h2) && SIZE * |h2| <= b2.head
    ensures var (c2, q2) := Place(h2, ix, p);
            InMemory(mem2, c2) && Span(BytesCopied(mem2, b2, 0, c2, q2, n), b2, 0, n) == Span(mem, b, 0, n)
  {
    SameSpan(h, h2, ix, p, n);
    var (c, q) := Place(h, ix, p);
    var (c2, q2) := Place(h2, ix, p);
    ChunkShowsNode(BytesCopied(mem, c, q, b, 0, n), h, ix, p, n);
    ChunkShowsNode(mem2, h2, ix, p, n);
    assert c2.head + c2.size <= SIZE * |h2|;
    WriteThenRead(mem, c, q, b, n, mem2, c2, q2, b2);
  }

  /** A span of elements written into a node, any creations, growths, rolls and writes to other
      nodes, and the span read back: the elements come back.  `st` is the service after the
      write, `mem2` the memory when the span is read. */
  lemma SpanSurvivesRun(mem: seq<byte>, b: Chunk, st: State, ops: seq<Op>, ix: nat, p: nat, n: nat,
                        mem2: seq<byte>, b2: Chunk)
    requires Valid(st) && Free(st) && Plain(st) && ix < st.Count() && Fits(st.heap, ix)
    requires p + n <= NodeAt(st.heap, ix).units * NodeAt(st.heap, ix).unitSize
    requires forall i :: 0 <= i < |ops| ==> !WritesTo(ops[i], ix)
    requires var (c, q) := Place(st.heap, ix, p);
             && InMemory(mem, c) && InMemory(mem, b) && Disjoint(c, b) && n <= c.size
             && Holds(BytesCopied(mem, c, q, b, 0, n), st.heap)
    requires var h2 := Run(st, ops).heap;
             InMemory(mem2, b2) && n <= b2.size && Holds(mem2, h2) && SIZE * |h2| <= b2.head
    ensures var h2 := Run(st, ops).heap;
            && Fits(h2, ix)
            && var (c2, q2) := Place(h2, ix, p);
               InMemory(mem2, c2) && Span(BytesCopied(mem2, b2, 0, c2, q2, n), b2, 0, n) == Span(mem, b, 0, n)
  {
    ElementsKept(st, ops, ix);
    SurvivorData(st, ops, ix);
    SpanSurvives(mem, b, st.heap, Run(st, ops).heap, ix, p, n, mem2, b2);
  }

  /** A unit size that divides a barrel divides the chunk of every node and the place of each unit in
      it, however the node is turned. */
  lemma PlaceAligned(h: Heap, ix: nat, unit: nat, index: nat)
    requires Fits(h, ix) && unit > 0 && SIZE % unit == 0
    ensures var (c, q) := Place(h, ix, unit * index); AlignedIn(c, q, unit)
  {
    var m := NodeAt(h, ix);
    var v := SIZE / unit;
    assert SIZE == unit * v;
    ModShift(0, v * m.count, unit);
    ModShift(0, v * m.offset + index, unit);
    assert SIZE * m.count == unit * (v * m.count);
    assert SIZE * m.offset + unit * index == unit * (v * m.offset + index);
  }

  /** So the per-element copy of a span between a buffer and a node, in either direction, is the
      per-byte copy that SpanSurvivesRun is about. */
  lemma NodeElementsAreBytes(mem: seq<byte>, h: Heap, ix: nat, index: nat, b: Chunk, unit: nat, n: nat, bytes: nat)
    requires Fits(h, ix) && unit > 0 && SIZE % unit == 0 && b.size > 0 && b.size % unit == 0 && bytes == unit * n
    ensures var (c, q) := Place(h, ix, unit * index);
            && c.size > 0
            && ElementsCopied(mem, c, q, b, 0, unit, n) == BytesCopied(mem, c, q, b, 0, bytes)
            && ElementsCopied(mem, b, 0, c, q, unit, n) == BytesCopied(mem, b, 0, c, q, bytes)
  {
    var (c, q) := Place(h, ix, unit * index);
    PlaceAligned(h, ix, unit, index);
    CopiesAgree(mem, c, q, b, 0, unit, n, bytes);
    CopiesAgree(mem, b, 0, c, q, unit, n, bytes);
  }

  /** A node's barrels are data before and after any run. */
  lemma SurvivorData(st: State, ops: seq<Op>, ix: nat)
    requires Valid(st) && Free(st) && Plain(st) && ix < st.Count()
    ensures RunOfData(st.heap, ix) && RunOfData(Run(st, ops).heap, ix)
  {
    RunData(st, []);
    RunData(st, ops);
    RunRefines(st, ops);
    PlacedGrows(st, ops);
    AllPlaced(st);
    NodeData(st, ix);
    NodeData(Run(st, ops), ix);
  }

  lemma PlacedGrows(st: State, ops: seq<Op>)
    requires Valid(st) && Free(st)
    ensures st.Count() <= Placed(Run(st, ops))
  {
    RunRefines(st, ops);
    AllPlaced(st);
    AbsRunGrows(Abs(st), ops, Play(st, ops).calls, Abs(Run(st, ops)));
  }

  lemma {:induction false} AbsRunGrows(a: Table, ops: seq<Op>, n: nat, a': Table)
    requires AbsRun(a, ops, n, a')
    ensures |a.entries| <= |a'.entries|
    decreases |ops|
  {
    if ops != [] && AbsCovered(a, ops[0]) && !Halts(a, ops[0]) {
      var m :| AbsStep(a, ops[0], m) && AbsRun(m, ops[1..], n - 1, a');
      AbsRunGrows(m, ops[1..], n - 1, a');
    }
  }

  // ---- Two offsets as written ---------------------------------------------------------------

  /** Barrel_Manage hands out the whole run as ring offset where Barrel_GetUnitPtr uses the
      offset of the node.  The two address the same bytes exactly when the node is not turned. */
  lemma HandedOffsetExact(n: Node)
    requires 1 <= n.offset <= n.count && n.start >= 0
    ensures (forall p: nat :: Handed(n, p)) <==> n.offset == n.count
  {
    if n.offset != n.count {
      var m := SIZE * n.count;
      ModOnce(m, m);
      ModOnce(SIZE * n.offset, m);
      assert !Handed(n, 0);
    }
  }

  predicate Handed(n: Node, p: nat)
    requires n.count > 0 && n.start >= 0
  {
    At(NodeChunk(n), SIZE * n.count + p) == At(NodeChunk(n), SIZE * n.offset + p)
  }

  /** Vector_Transcribe takes the head of the source round the ring together with the index.
      That is the index alone exactly when the ring's size divides its head. */
  lemma FoldedHeadExact(c: Chunk)
    requires c.size > 0
    ensures (forall p: nat :: At(c, c.head + p) == At(c, p)) <==> c.head % c.size == 0
  {
    if c.head % c.size == 0 {
      forall p: nat
        ensures At(c, c.head + p) == At(c, p)
      {
        ModShift(p, c.head / c.size, c.size);
        assert c.head + p == p + c.size * (c.head / c.size);
      }
    } else {
      assert At(c, c.head + 0) != At(c, 0);
    }
  }
}
