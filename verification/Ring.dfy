/** A run of barrels read as a ring (tBarrel.c).

    A collection owns the run `[s, s + c)` of the heap.  Its logical barrel `l` is the barrel
    `(o + l) % c` of the run, where `o` is the ring offset, kept in `0..c`.  This module holds
    the ring view, the single barrel copy and the offset step, and shows that a roll by one
    barrel is a rotation: it moves the run by one and leaves the view alone. */
module Ring {

  const UINT: int := 0x1_0000_0000

  /** The barrel of the run that holds logical barrel `l`. */
  function Slot(c: nat, o: nat, l: nat): nat
    requires o <= c && l < c
  {
    if o + l < c then o + l else o + l - c
  }

  /** The logical contents of a run: what lies from the offset on, then what lies before it. */
  function Logical<T>(h: seq<T>, s: nat, c: nat, o: nat): (r: seq<T>)
    requires o <= c && s + c <= |h|
    ensures |r| == c
  {
    seq(c, l requires 0 <= l < c => h[s + Slot(c, o, l)])
  }

  lemma ModOnce(x: nat, c: nat)
    requires 0 < c && x < 2 * c
    ensures x % c == if x < c then x else x - c
  {
  }

  /** Ring addressing: logical barrel `l` is barrel `(o + l) % c` of the run, as in the target
      term of Barrel_GetUnitPtr. */
  lemma LogicalAt<T>(h: seq<T>, s: nat, c: nat, o: nat, l: nat)
    requires o <= c && s + c <= |h| && l < c
    ensures 0 <= (o + l) % c < c
    ensures Logical(h, s, c, o)[l] == h[s + (o + l) % c]
  {
    ModOnce(o + l, c);
  }

  /** The two sequences agree wherever both are defined: one is a prefix of the other. */
  predicate Agree<T(==)>(a: seq<T>, b: seq<T>) {
    forall l :: 0 <= l < |a| && l < |b| ==> a[l] == b[l]
  }

  /** One barrel assignment; an index outside the heap leaves the heap as it is. */
  function Copy<T>(h: seq<T>, dst: int, src: int): (r: seq<T>)
    ensures |r| == |h|
  {
    if 0 <= dst < |h| && 0 <= src < |h| then h[dst := h[src]] else h
  }

  /** barrelTranscribe: `n` barrels copied one after the other in ascending order. */
  function Transcribed<T>(h: seq<T>, dst: int, src: int, n: nat): (r: seq<T>)
    ensures |r| == |h|
  {
    if n == 0 then h else Copy(Transcribed(h, dst, src, n - 1), dst + n - 1, src + n - 1)
  }

  /** Barrel_Offset: the new offset after a roll by `request`, with the unsigned wrap-around of
      the subtraction and the two repairs that follow it. */
  function OffsetAfter(o: nat, c: nat, request: int): nat {
    var w := (o - request) % UINT;
    if w < 1 then c else if w > c then 1 else w
  }

  /** A step of one keeps the offset in `1..c` and turns it by one place; the two directions
      undo each other. */
  lemma OffsetStep(o: nat, c: nat)
    requires 1 <= o <= c < UINT - 1
    ensures OffsetAfter(o, c, 1) == if o == 1 then c else o - 1
    ensures OffsetAfter(o, c, -1) == if o == c then 1 else o + 1
    ensures OffsetAfter(OffsetAfter(o, c, 1), c, -1) == o == OffsetAfter(OffsetAfter(o, c, -1), c, 1)
  {
  }

  /** A roll forward by one: the first barrel is copied behind the last one. */
  lemma RollForwardKeeps<T>(h: seq<T>, s: nat, c: nat, o: nat)
    requires 1 <= o <= c < UINT - 1 && s + c < |h|
    ensures OffsetAfter(o, c, 1) <= c
    ensures Logical(Copy(h, s + c, s), s + 1, c, OffsetAfter(o, c, 1)) == Logical(h, s, c, o)
  {
    OffsetStep(o, c);
  }

  /** A roll back by one: the last barrel is copied in front of the first one. */
  lemma RollBackKeeps<T>(h: seq<T>, s: nat, c: nat, o: nat)
    requires 1 <= o <= c < UINT - 1 && 1 <= s && s + c <= |h|
    ensures OffsetAfter(o, c, -1) <= c
    ensures Logical(Copy(h, s - 1, s + c - 1), s - 1, c, OffsetAfter(o, c, -1)) == Logical(h, s, c, o)
  {
    OffsetStep(o, c);
  }

  /** The view depends on the barrels of the run and on nothing else. */
  lemma LogicalFrame<T>(h: seq<T>, h': seq<T>, s: nat, c: nat, o: nat)
    requires o <= c && s + c <= |h| == |h'|
    requires forall b :: s <= b < s + c ==> h'[b] == h[b]
    ensures Logical(h', s, c, o) == Logical(h, s, c, o)
  {
  }
}
