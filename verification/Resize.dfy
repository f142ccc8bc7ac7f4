/** Growing and shrinking one run, and the barrel delta of a resize (tBarrel.c).

    The copying loops are stated over the barrel their indices count from (`base`): the run's own
    start in the service, barrel 0 in module `AsWritten`. */
module Resize {
  import opened Ring

  /** `h'` is `h` with the barrels `[lo, hi)` taken from `away` places further on. */
  predicate Shifted<T(==)>(h: seq<T>, h': seq<T>, lo: int, hi: int, away: int) {
    && |h'| == |h|
    && forall b {:trigger h'[b]} :: 0 <= b < |h| ==>
         h'[b] == if lo <= b < hi && 0 <= b + away < |h| then h[b + away] else h[b]
  }

  predicate Untouched<T(==)>(h: seq<T>, h': seq<T>, lo: int, hi: int) {
    && |h'| == |h|
    && forall b :: 0 <= b < |h| && !(lo <= b < hi) ==> h'[b] == h[b]
  }

  // ---- Barrel_Grow --------------------------------------------------------------------------

  /** The passes of Barrel_Grow for the indices `c + r - 1` down to `stop`. */
  function GrowCopied<T>(h: seq<T>, base: nat, c: nat, r: nat, stop: nat): (h': seq<T>)
    ensures |h'| == |h|
    decreases c + r - stop
  {
    if stop >= c + r then h
    else Copy(GrowCopied(h, base, c, r, stop + 1), base + stop, base + stop - r)
  }

  lemma {:induction false} GrowCopiedAt<T>(h: seq<T>, base: nat, c: nat, r: nat, stop: nat)
    requires base + c + r <= |h| && 0 < r
    ensures Shifted(h, GrowCopied(h, base, c, r, stop), base + stop, base + c + r, -(r as int))
    decreases c + r - stop
  {
    if stop < c + r {
      GrowCopiedAt(h, base, c, r, stop + 1);
      var h1 := GrowCopied(h, base, c, r, stop + 1);
      assert base + stop >= r ==> h1[base + stop - r] == h[base + stop - r];
    }
  }

  /** A grown run keeps its old contents as a prefix, and writes nothing outside itself. */
  lemma GrowKeeps<T>(h: seq<T>, s: nat, c: nat, o: nat, r: nat)
    requires 1 <= o <= c && 1 <= r && s + c + r <= |h|
    ensures Agree(Logical(h, s, c, o), Logical(GrowCopied(h, s, c, r, o + r), s, c + r, o + r))
    ensures Untouched(h, GrowCopied(h, s, c, r, o + r), s, s + c + r)
  {
    GrowCopiedAt(h, s, c, r, o + r);
  }

  /** The new barrels of a grown run are its last logical ones; they lie in the gap at the
      offset. */
  lemma GrowGap<T>(h: seq<T>, s: nat, c: nat, o: nat, r: nat)
    requires 1 <= o <= c && 1 <= r && s + c + r <= |h|
    ensures Logical(h, s, c + r, o + r)[c..] == h[s + o..s + o + r]
  {
  }

  // ---- Barrel_Shrink ------------------------------------------------------------------------

  /** The passes of Barrel_Shrink for the indices `from..to - 1`. */
  function ShrinkCopied<T>(h: seq<T>, base: nat, step: nat, from: nat, to: nat): (h': seq<T>)
    ensures |h'| == |h|
  {
    if to <= from then h
    else Copy(ShrinkCopied(h, base, step, from, to - 1), base + to - 1, base + to - 1 + step)
  }

  lemma {:induction false} ShrinkCopiedAt<T>(h: seq<T>, base: nat, step: nat, from: nat, to: nat)
    requires base + to + step <= |h| && 0 < step
    ensures Shifted(h, ShrinkCopied(h, base, step, from, to), base + from, base + to, step)
  {
    if from < to {
      ShrinkCopiedAt(h, base, step, from, to - 1);
      var h1 := ShrinkCopied(h, base, step, from, to - 1);
      assert h1[base + to - 1 + step] == h[base + to - 1 + step];
    }
  }

  /** Where the copying starts, by how much it moves, and the offset it leaves, for a run of `c`
      barrels at offset `o` that gives up `m` of them. */
  function ShrinkFrom(o: nat, m: nat): nat { if o < m then 0 else o - m }

  function ShrinkStep(o: nat, m: nat): nat { if o < m then o else m }

  function ShrinkOffset(c: nat, o: nat, m: nat): nat
    requires m <= c
  {
    if c == o then c - m else if o <= m then c - m else o - m
  }

  function Shrunk<T>(h: seq<T>, base: nat, c: nat, o: nat, m: nat): (h': seq<T>)
    requires m <= c
    ensures |h'| == |h|
  {
    if c == o then h else ShrinkCopied(h, base, ShrinkStep(o, m), ShrinkFrom(o, m), c - m)
  }

  /** In each of the cases (offset at the end of the run, offset at least `m`, offset below `m`)
      exactly the first `c - m` logical barrels stay. */
  lemma ShrinkKeeps<T>(h: seq<T>, s: nat, c: nat, o: nat, m: nat)
    requires 1 <= o <= c && 1 <= m <= c && s + c <= |h|
    ensures ShrinkOffset(c, o, m) <= c - m
    ensures Agree(Logical(h, s, c, o), Logical(Shrunk(h, s, c, o, m), s, c - m, ShrinkOffset(c, o, m)))
    ensures Untouched(h, Shrunk(h, s, c, o, m), s, s + c - m)
  {
    if c != o {
      if o < m {
        ShrinkBelow(h, s, c, o, m);
      } else {
        ShrinkAbove(h, s, c, o, m);
      }
    }
  }

  lemma ShrinkBelow<T>(h: seq<T>, s: nat, c: nat, o: nat, m: nat)
    requires 1 <= o < c && o < m <= c && s + c <= |h|
    ensures var h' := ShrinkCopied(h, s, o, 0, c - m);
            Agree(Logical(h, s, c, o), Logical(h', s, c - m, c - m)) && Untouched(h, h', s, s + c - m)
  {
    ShrinkCopiedAt(h, s, o, 0, c - m);
  }

  lemma ShrinkAbove<T>(h: seq<T>, s: nat, c: nat, o: nat, m: nat)
    requires 1 <= m <= o < c && s + c <= |h|
    ensures var h' := ShrinkCopied(h, s, m, o - m, c - m);
            Agree(Logical(h, s, c, o), Logical(h', s, c - m, ShrinkOffset(c, o, m))) && Untouched(h, h', s, s + c - m)
  {
    ShrinkCopiedAt(h, s, m, o - m, c - m);
  }

  /** Shrinking by what was just grown restores count, offset and contents. */
  lemma GrowThenShrink<T>(h: seq<T>, s: nat, c: nat, o: nat, r: nat)
    requires 1 <= o <= c && 1 <= r && s + c + r <= |h|
    ensures ShrinkOffset(c + r, o + r, r) == o
    ensures var h' := Shrunk(GrowCopied(h, s, c, r, o + r), s, c + r, o + r, r);
            Logical(h', s, c, o) == Logical(h, s, c, o)
  {
    var g := GrowCopied(h, s, c, r, o + r);
    GrowKeeps(h, s, c, o, r);
    ShrinkKeeps(g, s, c + r, o + r, r);
    var v, v1, v2 := Logical(h, s, c, o), Logical(g, s, c + r, o + r), Logical(Shrunk(g, s, c + r, o + r, r), s, c, o);
    assert forall l :: 0 <= l < c ==> v[l] == v1[l] && v1[l] == v2[l];
  }

  // ---- The barrel delta of a resize ---------------------------------------------------------

  const SIZET: int := 0x1_0000_0000_0000_0000

  /** Narrowing to a 32-bit `int`. */
  function ToInt(x: int): int {
    var w := x % UINT;
    if w < UINT / 2 then w else w - UINT
  }

  function CeilDiv(a: int): int { (a + 31) / 32 }

  /** Barrel_DeltaSize, the number of barrels to add for `d` more (or fewer) units: size_t
      arithmetic throughout, narrowed to int at the end. */
  function BarrelDelta(count: nat, units: nat, unitSize: nat, d: int): int {
    var remaining := (count * 32 - units * unitSize) % SIZET;
    var size := ((if d < 0 then -d else d) * unitSize) % SIZET;
    if d > 0 then
      var x := (size - remaining) % SIZET;
      ToInt(x / 32 + if x % 32 > 0 then 1 else 0)
    else if d < 0 then
      ToInt(((-ToInt(remaining - size)) % SIZET) / 32)
    else 0
  }

  lemma MulBound(m: int, d: int)
    requires m > 0
    ensures d >= 1 ==> m * d >= m
    ensures d <= -1 ==> m * d <= -m
  {
  }

  lemma ModShift(x: int, k: int, m: int)
    requires m > 0
    ensures (x + m * k) % m == x % m
  {
    var y := x + m * k;
    var d := y / m - x / m - k;
    assert m * d == x % m - y % m;
    MulBound(m, d);
  }

  lemma SubMod(a: int, b: int, m: int)
    requires m > 0
    ensures (a % m - b % m) % m == (a - b) % m
  {
    var k := a / m - b / m;
    assert a - b == a % m - b % m + m * k;
    ModShift(a % m - b % m, k, m);
  }

  /** Wrap-around of the subtraction does not show in the narrowed quotient. */
  lemma CeilWraps(v: int)
    ensures var x := v % SIZET;
            ToInt(x / 32 + if x % 32 > 0 then 1 else 0) == ToInt(CeilDiv(v))
  {
    var x, q := v % SIZET, v / SIZET;
    CeilPlus(x, q * 0x800_0000_0000_0000);
    ModShift(CeilDiv(x), q * 0x800_0000, UINT);
  }

  lemma CeilPlus(x: int, y: int)
    ensures CeilDiv(x + 32 * y) == CeilDiv(x) + y
    ensures x / 32 + (if x % 32 > 0 then 1 else 0) == CeilDiv(x)
  {
  }

  /** A growing call computes, for every input, the narrowed distance to the tightest fit. */
  lemma GrowingDelta(count: nat, units: nat, unitSize: nat, d: int)
    requires d > 0
    ensures BarrelDelta(count, units, unitSize, d) == ToInt(CeilDiv((units + d) * unitSize) - count)
  {
    var used := units * unitSize;
    var v := d * unitSize - (count * 32 - used);
    SubMod(d * unitSize, count * 32 - used, SIZET);
    CeilWraps(v);
    assert (units + d) * unitSize == d * unitSize + used;
    assert CeilDiv(v) == CeilDiv((units + d) * unitSize) - count;
  }

  /** The delta is exact just when the distance to the tightest fit is an int. */
  lemma GrowingDeltaExact(count: nat, units: nat, unitSize: nat, d: int)
    requires d > 0
    ensures var fit := CeilDiv((units + d) * unitSize);
            BarrelDelta(count, units, unitSize, d) == fit - count <==> -UINT / 2 <= fit - count < UINT / 2
  {
    GrowingDelta(count, units, unitSize, d);
  }

  /** The tightest fit: no fewer barrels hold the units. */
  lemma TightestFit(size: nat)
    ensures size <= 32 * CeilDiv(size) && (CeilDiv(size) > 0 ==> 32 * (CeilDiv(size) - 1) < size)
  {
  }
}
