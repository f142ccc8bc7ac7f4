/** Byte addresses in the barrel heap (tBarrel.c, tHelpers.c).

    Byte address `a` is byte `a % 32` of barrel `a / 32`.  The logical bytes of a node are those
    of its logical barrels; Barrel_GetUnitPtr finds them by one `%` over the size of the run. */
module Bytes {
  import opened Ring
  import opened Barrels
  import Resize

  /** The bytes of a barrel.  The byte image of a table record is not modelled. */
  function Raw(b: Barrel): Block {
    if b.Words? then b.bytes else seq(SIZE, _ => 0)
  }

  function ByteAt(h: Heap, a: int): byte {
    if 0 <= a / SIZE < |h| then Raw(h[a / SIZE])[a % SIZE] else 0
  }

  function PutByte(h: Heap, a: int, v: byte): (r: Heap)
    ensures |r| == |h|
  {
    if 0 <= a / SIZE < |h| then h[a / SIZE := Words(Raw(h[a / SIZE])[a % SIZE := v])] else h
  }

  /** rawTranscribe into the heap: `data` is written from address `a` on, in ascending order. */
  function PutBytes(h: Heap, a: int, data: seq<byte>): (r: Heap)
    ensures |r| == |h|
  {
    if data == [] then h
    else PutByte(PutBytes(h, a, data[..|data| - 1]), a + |data| - 1, data[|data| - 1])
  }

  /** `h'` is `h` with `data` at address `a`, byte by byte, as far as the heap goes; barrels off that
      span are the same. */
  predicate Written(h: Heap, h': Heap, a: int, data: seq<byte>) {
    && |h'| == |h|
    && (forall x :: 0 <= x < SIZE * |h| ==> ByteAt(h', x) == if a <= x < a + |data| then data[x - a] else ByteAt(h, x))
    && (forall b :: 0 <= b < |h| && (SIZE * b + SIZE <= a || a + |data| <= SIZE * b) ==> h'[b] == h[b])
  }

  lemma PutByteAt(h: Heap, a: int, v: byte, x: int)
    requires 0 <= a && 0 <= x < SIZE * |h|
    ensures ByteAt(PutByte(h, a, v), x) == if x == a then v else ByteAt(h, x)
  {
  }

  lemma {:induction false} PutBytesWrites(h: Heap, a: int, data: seq<byte>)
    requires 0 <= a
    ensures Written(h, PutBytes(h, a, data), a, data)
  {
    if data != [] {
      var n := |data| - 1;
      PutBytesWrites(h, a, data[..n]);
      var h1 := PutBytes(h, a, data[..n]);
      forall x | 0 <= x < SIZE * |h|
        ensures ByteAt(PutBytes(h, a, data), x) == if a <= x < a + |data| then data[x - a] else ByteAt(h, x)
      {
        PutByteAt(h1, a + n, data[n], x);
      }
    }
  }

  /** Bytes written from barrel `b0` on leave the barrels in front of it alone, also where they would
      go past the end of the heap. */
  lemma {:induction false} PutBytesBehind(h: Heap, b0: nat, data: seq<byte>)
    ensures forall b :: 0 <= b < b0 && b < |h| ==> PutBytes(h, SIZE * b0, data)[b] == h[b]
  {
    if data != [] {
      PutBytesBehind(h, b0, data[..|data| - 1]);
    }
  }

  /** What would be written past the end of the heap is not. */
  lemma {:induction false} PutBytesCut(h: Heap, a: nat, data: seq<byte>, m: nat)
    requires m <= |data| && a + m >= SIZE * |h|
    ensures PutBytes(h, a, data) == PutBytes(h, a, data[..m])
  {
    if m < |data| {
      var front := data[..|data| - 1];
      PutBytesCut(h, a, front, m);
      assert front[..m] == data[..m];
    } else {
      assert data[..m] == data;
    }
  }

  // ---- Logical bytes ------------------------------------------------------------------------

  /** The address of logical byte `p` of a run. */
  function Address(n: Node, p: nat): int
    requires n.offset <= n.count && p < SIZE * n.count
  {
    SIZE * (n.start + Slot(n.count, n.offset, p / SIZE)) + p % SIZE
  }

  /** Barrel_GetUnitPtr, relative to the start of the heap. */
  function UnitAddress(n: Node, index: nat): int
    requires n.count > 0
  {
    n.start * SIZE + (n.unitSize * index + n.offset * SIZE) % (n.count * SIZE)
  }

  /** The byte at an offset into the ring: the `%` over the run's bytes finds the slot of the
      barrel and the place in it. */
  lemma RingAddress(n: Node, p: nat)
    requires 1 <= n.offset <= n.count && p < SIZE * n.count
    ensures n.start * SIZE + (p + n.offset * SIZE) % (n.count * SIZE) == Address(n, p)
  {
    ModOnce(p + n.offset * SIZE, n.count * SIZE);
  }

  /** Barrel_GetUnitPtr wraps an index past the capacity round the ring. */
  lemma UnitAddressIs(n: Node, index: nat)
    requires 1 <= n.offset <= n.count
    ensures var p := (n.unitSize * index) % (n.count * SIZE);
            0 <= p < SIZE * n.count && UnitAddress(n, index) == Address(n, p)
  {
    var m, x := n.count * SIZE, n.unitSize * index;
    RingAddress(n, x % m);
    ModAbsorbs(x, n.offset * SIZE, m);
  }

  lemma ModAbsorbs(x: nat, y: nat, m: nat)
    requires m > 0
    ensures (x + y) % m == (x % m + y) % m
  {
    Resize.ModShift(x % m + y, x / m, m);
    assert x + y == x % m + y + m * (x / m);
  }

  /** A unit whose size divides a barrel never crosses a barrel, so the address of its `k`-th
      byte is `k` past the address of its first. */
  lemma UnitStays(n: Node, p: nat, unit: nat, k: nat)
    requires 1 <= n.offset <= n.count && unit > 0 && SIZE % unit == 0 && p % unit == 0 && k < unit
    requires p < SIZE * n.count
    ensures p + k < SIZE * n.count && Address(n, p + k) == Address(n, p) + k
  {
    SameBarrel(p, unit, k);
  }

  lemma SameBarrel(p: nat, unit: nat, k: nat)
    requires unit > 0 && SIZE % unit == 0 && p % unit == 0 && k < unit
    ensures (p + k) / SIZE == p / SIZE && (p + k) % SIZE == p % SIZE + k
  {
    var r, u, v := p % SIZE, SIZE / unit, p / unit;
    assert r == unit * (v - u * (p / SIZE)) by {
      assert p == unit * v && SIZE == unit * u;
      assert unit * (u * (p / SIZE)) == SIZE * (p / SIZE);
    }
    var w := v - u * (p / SIZE);
    assert unit * w < unit * u;
    assert w < u by { Resize.MulBound(unit, w - u); }
    assert unit * (w + 1) <= unit * u;
  }

  /** The logical bytes of a node. */
  function NodeBytes(h: Heap, ix: nat): (r: seq<byte>)
    requires Fits(h, ix)
    ensures |r| == SIZE * NodeAt(h, ix).count
  {
    seq(SIZE * NodeAt(h, ix).count, p requires 0 <= p < SIZE * NodeAt(h, ix).count =>
      Raw(View(h, ix)[p / SIZE])[p % SIZE])
  }

  lemma NodeBytesAt(h: Heap, ix: nat, p: nat)
    requires Fits(h, ix) && p < SIZE * NodeAt(h, ix).count
    ensures NodeBytes(h, ix)[p] == ByteAt(h, Address(NodeAt(h, ix), p))
    ensures SIZE * NodeAt(h, ix).start <= Address(NodeAt(h, ix), p) < SIZE * (NodeAt(h, ix).start + NodeAt(h, ix).count)
  {
  }

  /** Distinct logical bytes have distinct addresses. */
  lemma AddressInjective(n: Node, p: nat, q: nat)
    requires 1 <= n.offset <= n.count && p < SIZE * n.count && q < SIZE * n.count && p != q
    ensures Address(n, p) != Address(n, q)
  {
  }
}
