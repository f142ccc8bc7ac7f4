/** The barrel heap as a value (tBarrel.c, tModules.h).

    The heap is one sequence of barrels.  A barrel holds 32 bytes of user data or one record of
    the node table, which lives in the same heap: the record of node `ix` is barrel `ix`, where
    Barrel_GetNode looks for it.  The functions here say what each rolling operation does to the
    heap; the methods of class `BarrelService` are proved equal to them. */
module Barrels {
  import opened Ring

  const SIZE: nat := 32            // sizeof(Barrel), and sizeof(BarrelNode)
  const NONE: int := -2
  const OMEGA: int := -1
  const MAX_BARRELS: nat := 0x4000_0000

  type byte = b: int | 0 <= b < 256
  type Block = w: seq<byte> | |w| == SIZE witness seq(SIZE, _ => 0)

  datatype Node = Node(start: int, count: nat, offset: nat, next: int,
                       unitSize: nat, units: nat, locked: bool)
  datatype Barrel = Words(bytes: Block) | Record(node: Node)

  type Heap = seq<Barrel>

  // ---- Records ------------------------------------------------------------------------------

  /** The record at a table index; anything else reads as an empty record. */
  function NodeAt(h: Heap, ix: int): Node {
    if 0 <= ix < |h| && h[ix].Record? then h[ix].node else Node(0, 0, 0, NONE, 1, 0, false)
  }

  function SetNode(h: Heap, ix: int, n: Node): (r: Heap)
    ensures |r| == |h|
  {
    if 0 <= ix < |h| then h[ix := Record(n)] else h
  }

  function SetLock(h: Heap, ix: int, locked: bool): (r: Heap)
    ensures |r| == |h|
  {
    SetNode(h, ix, NodeAt(h, ix).(locked := locked))
  }

  /** The record of `ix` describes a proper run behind the table. */
  predicate Fits(h: Heap, ix: nat) {
    && ix < |h| <= MAX_BARRELS && h[ix].Record?
    && var n := h[ix].node;
       ix < n.start && 1 <= n.offset <= n.count && n.start + n.count <= |h|
  }

  function View(h: Heap, ix: nat): (r: seq<Barrel>)
    requires Fits(h, ix)
    ensures |r| == NodeAt(h, ix).count
  {
    var n := NodeAt(h, ix);
    Logical(h, n.start, n.count, n.offset)
  }

  // ---- Rolling one node ---------------------------------------------------------------------

  /** Barrel_RollForward with a request of 1. */
  function ForwardOne(h: Heap, ix: int): (r: Heap)
    ensures |r| == |h|
  {
    var n := NodeAt(h, ix);
    SetNode(Copy(h, n.start + n.count, n.start), ix,
            n.(start := n.start + 1, offset := OffsetAfter(n.offset, n.count, 1)))
  }

  /** Barrel_RollBack with a request of -1. */
  function BackOne(h: Heap, ix: int): (r: Heap)
    ensures |r| == |h|
  {
    var n := NodeAt(h, ix);
    SetNode(Copy(h, n.start - 1, n.start - 1 + n.count), ix,
            n.(start := n.start - 1, offset := OffsetAfter(n.offset, n.count, -1)))
  }

  /** A longer roll is a composition of unit rolls. */
  function RollForward(h: Heap, ix: int, k: nat): (r: Heap)
    ensures |r| == |h|
  {
    if k == 0 then h else ForwardOne(RollForward(h, ix, k - 1), ix)
  }

  function RollBack(h: Heap, ix: int, k: nat): (r: Heap)
    ensures |r| == |h|
  {
    if k == 0 then h else BackOne(RollBack(h, ix, k - 1), ix)
  }

  /** The run of `ix` has moved by `k` and shows the same contents. */
  predicate MovedOne(h: Heap, h': Heap, ix: nat, k: int) {
    && Fits(h, ix) && Fits(h', ix) && |h'| == |h|
    && NodeAt(h', ix) == NodeAt(h, ix).(start := NodeAt(h, ix).start + k, offset := NodeAt(h', ix).offset)
    && View(h', ix) == View(h, ix)
  }

  /** `h'` differs from `h` in barrel `ix` and in `[lo, hi)` only. */
  predicate SameOutside(h: Heap, h': Heap, ix: nat, lo: int, hi: int) {
    && |h'| == |h|
    && forall b :: 0 <= b < |h| && b != ix && !(lo <= b < hi) ==> h'[b] == h[b]
  }

  lemma ForwardOneMoves(h: Heap, ix: nat)
    requires Fits(h, ix) && NodeAt(h, ix).start + NodeAt(h, ix).count < |h|
    ensures MovedOne(h, ForwardOne(h, ix), ix, 1)
    ensures var e := NodeAt(h, ix).start + NodeAt(h, ix).count;
            SameOutside(h, ForwardOne(h, ix), ix, e, e + 1)
  {
    var n := NodeAt(h, ix);
    var s, c, o := n.start, n.count, n.offset;
    OffsetStep(o, c);
    RollForwardKeeps(h, s, c, o);
    LogicalFrame(Copy(h, s + c, s), ForwardOne(h, ix), s + 1, c, OffsetAfter(o, c, 1));
  }

  lemma BackOneMoves(h: Heap, ix: nat)
    requires Fits(h, ix) && ix < NodeAt(h, ix).start - 1
    ensures MovedOne(h, BackOne(h, ix), ix, -1)
    ensures SameOutside(h, BackOne(h, ix), ix, NodeAt(h, ix).start - 1, NodeAt(h, ix).start)
  {
    var n := NodeAt(h, ix);
    var s, c, o := n.start, n.count, n.offset;
    OffsetStep(o, c);
    RollBackKeeps(h, s, c, o);
    LogicalFrame(Copy(h, s - 1, s + c - 1), BackOne(h, ix), s - 1, c, OffsetAfter(o, c, -1));
  }

  /** `k` unit rolls forward move the run by `k`, keep the contents, and write only the `k`
      barrels behind the run. */
  lemma {:induction false} RollForwardMoves(h: Heap, ix: nat, k: nat)
    requires Fits(h, ix) && NodeAt(h, ix).start + NodeAt(h, ix).count + k <= |h|
    ensures MovedOne(h, RollForward(h, ix, k), ix, k)
    ensures var e := NodeAt(h, ix).start + NodeAt(h, ix).count;
            SameOutside(h, RollForward(h, ix, k), ix, e, e + k)
  {
    if k > 0 {
      RollForwardMoves(h, ix, k - 1);
      ForwardOneMoves(RollForward(h, ix, k - 1), ix);
    }
  }

  lemma {:induction false} RollBackMoves(h: Heap, ix: nat, k: nat)
    requires Fits(h, ix) && ix < NodeAt(h, ix).start - k
    ensures MovedOne(h, RollBack(h, ix, k), ix, -(k as int))
    ensures SameOutside(h, RollBack(h, ix, k), ix, NodeAt(h, ix).start - k, NodeAt(h, ix).start)
  {
    if k > 0 {
      RollBackMoves(h, ix, k - 1);
      BackOneMoves(RollBack(h, ix, k - 1), ix);
    }
  }

  /** A roll forward undone by a roll back: the whole heap is as before, but for the one barrel
      behind the run that the first roll wrote. */
  lemma ForwardThenBack(h: Heap, ix: nat)
    requires Fits(h, ix) && NodeAt(h, ix).start + NodeAt(h, ix).count < |h|
    ensures var h', e := BackOne(ForwardOne(h, ix), ix), NodeAt(h, ix).start + NodeAt(h, ix).count;
            |h'| == |h| && forall b :: 0 <= b < |h| && b != e ==> h'[b] == h[b]
  {
    OffsetStep(NodeAt(h, ix).offset, NodeAt(h, ix).count);
  }

  /** A roll back undone by a roll forward, but for the barrel in front of the run. */
  lemma BackThenForward(h: Heap, ix: nat)
    requires Fits(h, ix) && ix < NodeAt(h, ix).start - 1
    ensures var h', b0 := ForwardOne(BackOne(h, ix), ix), NodeAt(h, ix).start - 1;
            |h'| == |h| && forall b :: 0 <= b < |h| && b != b0 ==> h'[b] == h[b]
  {
    OffsetStep(NodeAt(h, ix).offset, NodeAt(h, ix).count);
  }

  lemma ModMinusOne(x: int, c: nat)
    requires c > 0
    ensures (x - 1) % c == if x % c == 0 then c - 1 else x % c - 1
  {
    var q, k := x / c, x % c;
    if k == 0 {
      assert x - 1 == c * (q - 1) + (c - 1);
      ModPlace(c - 1, q - 1, c);
    } else {
      assert x - 1 == c * q + (k - 1);
      ModPlace(k - 1, q, c);
    }
  }

  lemma ModPlace(k: int, q: int, c: nat)
    requires 0 <= k < c
    ensures (c * q + k) % c == k
  {
    var y := c * q + k;
    var d := y / c - q;
    assert c * d == k - y % c;
    if d >= 1 {
      MulAtLeast(c, d);
    } else if d <= -1 {
      MulAtLeast(c, -d);
    }
  }

  lemma MulAtLeast(c: nat, d: int)
    requires d >= 1
    ensures c * d >= c
  {
  }

  lemma ForwardOneOffset(h: Heap, ix: nat)
    requires Fits(h, ix) && NodeAt(h, ix).start + NodeAt(h, ix).count < |h|
    ensures var n := NodeAt(h, ix);
            NodeAt(ForwardOne(h, ix), ix).offset == if n.offset == 1 then n.count else n.offset - 1
  {
    OffsetStep(NodeAt(h, ix).offset, NodeAt(h, ix).count);
  }

  /** The offset `o` turned back `k` places in `1..c`. */
  function Turned(o: nat, c: nat, k: nat): nat {
    if k == 0 then o else var p := Turned(o, c, k - 1); if p <= 1 then c else p - 1
  }

  lemma {:induction false} TurnedIs(o: nat, c: nat, k: nat)
    requires 1 <= o <= c
    ensures Turned(o, c, k) == (o - 1 - k) % c + 1
  {
    if k == 0 {
      ModPlace(o - 1, 0, c);
    } else {
      TurnedIs(o, c, k - 1);
      ModMinusOne(o - k, c);
    }
  }

  /** `k` unit rolls compose to a rotation by `k`: the offset has turned back `k` places. */
  lemma {:induction false} RollForwardTurns(h: Heap, ix: nat, k: nat)
    requires Fits(h, ix) && NodeAt(h, ix).start + NodeAt(h, ix).count + k <= |h|
    ensures NodeAt(RollForward(h, ix, k), ix).offset == Turned(NodeAt(h, ix).offset, NodeAt(h, ix).count, k)
  {
    if k > 0 {
      RollForwardTurns(h, ix, k - 1);
      RollForwardMoves(h, ix, k - 1);
      ForwardOneOffset(RollForward(h, ix, k - 1), ix);
    }
  }
}
