/** The copying loops of tBarrel.c exactly as they are written, and exactly when they do what the
    service needs.

    Barrel_RollForward and Barrel_RollBack pass the whole request as the copy length of every
    pass; Barrel_Grow and Barrel_Shrink index from barrel 0 of the heap.  "For every heap" is
    stated over heaps of integers: a heap whose barrels are all different shows every failure. */
module AsWritten {
  import opened Ring
  import opened Resize

  /** The first `i` passes of a rolling loop: pass `j` copies `m` barrels from `src + j` to
      `dst + j`. */
  function Passes<T>(h: seq<T>, dst: int, src: int, m: nat, i: nat): (r: seq<T>)
    ensures |r| == |h|
  {
    if i == 0 then h else Transcribed(Passes(h, dst, src, m, i - 1), dst + i - 1, src + i - 1, m)
  }

  method CopyBarrels<T>(heap: array<T>, dst: nat, src: nat, n: nat)
    requires dst + n <= heap.Length && src + n <= heap.Length
    modifies heap
    ensures heap[..] == Transcribed(old(heap[..]), dst, src, n)
  {
    for i := 0 to n
      invariant heap[..] == Transcribed(old(heap[..]), dst, src, i)
    {
      heap[dst + i] := heap[src + i];
    }
  }

  /** The loop of Barrel_RollForward. */
  method ForwardPasses<T>(heap: array<T>, start: nat, count: nat, request: nat)
    requires start + count + 2 * request <= heap.Length + 1
    modifies heap
    ensures heap[..] == Passes(old(heap[..]), start + count, start, request, request)
  {
    for i := 0 to request
      invariant heap[..] == Passes(old(heap[..]), start + count, start, request, i)
    {
      CopyBarrels(heap, start + count + i, start + i, request);
    }
  }

  /** The loop of Barrel_RollBack, from the new start of the run. */
  method BackPasses<T>(heap: array<T>, start: nat, count: nat, m: nat)
    requires start + count + 2 * m <= heap.Length + 1
    modifies heap
    ensures heap[..] == Passes(old(heap[..]), start, start + count, m, m)
  {
    for i := 0 to m
      invariant heap[..] == Passes(old(heap[..]), start, start + count, m, i)
    {
      CopyBarrels(heap, start + i, start + count + i, m);
    }
  }

  /** A heap in which each barrel holds its own index. */
  function Distinct(len: nat): (h: seq<int>)
    ensures |h| == len && forall b :: 0 <= b < len ==> h[b] == b
  {
    seq(len, b => b)
  }

  // ---- Barrel_RollForward -------------------------------------------------------------------

  /** Barrel `b` of the run `[s, s + c)` continued for ever. */
  function Repeated<T>(h: seq<T>, s: nat, c: nat, b: nat): T
    requires c > 0 && s + c <= |h| && s <= b
  {
    h[s + (b - s) % c]
  }

  lemma RepeatedNext<T>(h: seq<T>, s: nat, c: nat, b: nat)
    requires c > 0 && s + c <= |h| && s <= b
    ensures Repeated(h, s, c, b + c) == Repeated(h, s, c, b)
    ensures b < s + c ==> Repeated(h, s, c, b) == h[b]
  {
    ModShift(b - s, 1, c);
  }

  /** The run `[s, s + c)` repeats itself in the `m` barrels behind it. */
  predicate Repeats<T(==)>(h: seq<T>, h': seq<T>, s: nat, c: nat, m: nat)
    requires c > 0 && s + c <= |h|
  {
    && |h'| == |h|
    && forall b {:trigger h'[b]} :: 0 <= b < |h| ==>
         h'[b] == if s + c <= b < s + c + m then Repeated(h, s, c, b) else h[b]
  }

  lemma {:induction false} CopyRepeats<T>(h: seq<T>, h1: seq<T>, s: nat, c: nat, m: nat, i: nat, n: nat)
    requires c > 0 && s + c + i + n <= |h| && i <= m && s + c + m <= |h| && Repeats(h, h1, s, c, m)
    ensures Repeats(h, Transcribed(h1, s + c + i, s + i, n), s, c, if m < i + n then i + n else m)
  {
    if n > 0 {
      CopyRepeats(h, h1, s, c, m, i, n - 1);
      RepeatedNext(h, s, c, s + i + n - 1);
      assert Transcribed(h1, s + c + i, s + i, n - 1)[s + i + n - 1] == Repeated(h, s, c, s + i + n - 1);
    }
  }

  lemma {:induction false} ForwardRepeats<T>(h: seq<T>, s: nat, c: nat, r: nat, i: nat)
    requires c > 0 && r > 0 && i <= r && s + c + 2 * r - 1 <= |h|
    ensures Repeats(h, Passes(h, s + c, s, r, i), s, c, if i == 0 then 0 else i + r - 1)
  {
    if i > 0 {
      ForwardRepeats(h, s, c, r, i - 1);
      CopyRepeats(h, Passes(h, s + c, s, r, i - 1), s, c, if i == 1 then 0 else i + r - 2, i - 1, r);
    }
  }

  /** The run after Barrel_RollForward by `r` as written, at its new start and offset. */
  function ForwardView<T>(h: seq<T>, s: nat, c: nat, o: nat, r: nat): seq<T>
    requires 1 <= o <= c && s + c + r <= |h|
  {
    var o' := OffsetAfter(o, c, r);
    Logical(Passes(h, s + c, s, r, r), s + r, c, if o' <= c then o' else c)
  }

  lemma OffsetForward(c: nat, o: nat, r: nat)
    requires 1 <= o <= c < UINT / 2 && 1 <= r < UINT / 2
    ensures OffsetAfter(o, c, r) == if r < o then o - r else if r == o then c else 1
  {
  }

  /** What a view shows at `l` after the roll: the run continued, read from the new offset. */
  lemma ForwardShows<T>(h: seq<T>, s: nat, c: nat, o: nat, r: nat, l: nat)
    requires 1 <= o <= c < UINT / 2 && 1 <= r < UINT / 2 && s + c + 2 * r - 1 <= |h| && l < c
    ensures 1 <= OffsetAfter(o, c, r) <= c
    ensures ForwardView(h, s, c, o, r)[l] == Repeated(h, s, c, s + r + Slot(c, OffsetAfter(o, c, r), l))
  {
    OffsetForward(c, o, r);
    ForwardRepeats(h, s, c, r, r);
    var k := Slot(c, OffsetAfter(o, c, r), l);
    if s + r + k < s + c {
      RepeatedNext(h, s, c, s + r + k);
    }
  }

  /** The offset as written is right: it has turned back by `r` places. */
  predicate TurnedRight(c: nat, o: nat, r: nat)
    requires c > 0
  {
    r <= o || (r + 1 - o) % c == 0
  }

  lemma TurnedRightIs(c: nat, o: nat, r: nat)
    requires 1 <= o <= c < UINT / 2 && 1 <= r < UINT / 2
    ensures TurnedRight(c, o, r) <==> (r + OffsetAfter(o, c, r) - o) % c == 0
  {
    OffsetForward(c, o, r);
    TurnedBy(c, o, r, OffsetAfter(o, c, r));
  }

  lemma TurnedBy(c: nat, o: nat, r: nat, o': nat)
    requires 1 <= o <= c && o' == if r < o then o - r else if r == o then c else 1
    ensures TurnedRight(c, o, r) <==> (r + o' - o) % c == 0
  {
    ModShift(0, 1, c);
  }

  /** The slot of `l` after the roll, continued by `r`, is the slot it had before, just when the
      offset has turned back by `r`. */
  lemma SlotTurned(c: nat, o: nat, o': nat, r: nat, l: nat)
    requires 1 <= o <= c && 1 <= o' <= c && l < c
    ensures (r + o' - o) % c == 0 <==> (r + Slot(c, o', l)) % c == Slot(c, o, l)
  {
    var d := r + Slot(c, o', l) - Slot(c, o, l);
    var e := (if o' + l < c then 0 else 1) - if o + l < c then 0 else 1;
    assert d == r + o' - o - c * e;
    ModShift(d, e, c);
    ModEqual(r + Slot(c, o', l), Slot(c, o, l), c);
  }

  lemma ModEqual(x: nat, y: nat, c: nat)
    requires y < c
    ensures x % c == y <==> (x - y) % c == 0
  {
    var k := x % c;
    ModSmall(y, c);
    SubMod(x, y, c);
    if k >= y {
      ModSmall(k - y, c);
    } else {
      ModShift(k - y, 1, c);
      ModSmall(k - y + c, c);
    }
  }

  lemma ModSmall(x: nat, c: nat)
    requires x < c
    ensures x % c == x
  {
  }

  /** Barrel_RollForward by `r` as written keeps the contents of every heap's run. */
  ghost predicate ForwardKeepsRun(len: nat, s: nat, c: nat, o: nat, r: nat)
    requires 1 <= o <= c && s + c + r <= len
  {
    forall h: seq<int> | |h| == len :: ForwardView(h, s, c, o, r) == Logical(h, s, c, o)
  }

  /** A roll as written keeps the run's own contents exactly when the offset has not to wrap, or
      wraps to the place where the code puts it. */
  lemma ForwardRunExact(len: nat, s: nat, c: nat, o: nat, r: nat)
    requires 1 <= o <= c < UINT / 2 && 1 <= r < UINT / 2 && s + c + 2 * r - 1 <= len
    ensures ForwardKeepsRun(len, s, c, o, r) <==> r <= o || (r + 1 - o) % c == 0
  {
    TurnedRightIs(c, o, r);
    var o' := OffsetAfter(o, c, r);
    if TurnedRight(c, o, r) {
      forall h: seq<int> | |h| == len
        ensures ForwardView(h, s, c, o, r) == Logical(h, s, c, o)
      {
        ForwardRight(h, s, c, o, r);
      }
    } else {
      var h := Distinct(len);
      ForwardShows(h, s, c, o, r, 0);
      SlotTurned(c, o, o', r, 0);
      assert ForwardView(h, s, c, o, r)[0] != Logical(h, s, c, o)[0];
    }
  }

  lemma ForwardRight<T>(h: seq<T>, s: nat, c: nat, o: nat, r: nat)
    requires 1 <= o <= c < UINT / 2 && 1 <= r < UINT / 2 && s + c + 2 * r - 1 <= |h| && TurnedRight(c, o, r)
    ensures ForwardView(h, s, c, o, r) == Logical(h, s, c, o)
  {
    TurnedRightIs(c, o, r);
    forall l | 0 <= l < c
      ensures ForwardView(h, s, c, o, r)[l] == Logical(h, s, c, o)[l]
    {
      ForwardShows(h, s, c, o, r, l);
      SlotTurned(c, o, OffsetAfter(o, c, r), r, l);
    }
  }

  /** Barrel_RollForward by `r` as written leaves alone what lies behind the moved run, where the
      next node already is. */
  ghost predicate ForwardKeepsNext(len: nat, s: nat, c: nat, r: nat) {
    forall h: seq<int> | |h| == len ::
      forall b :: s + c + r <= b < len ==> Passes(h, s + c, s, r, r)[b] == h[b]
  }

  /** ... exactly when it is by one: every longer roll overwrites barrels of the next node. */
  lemma ForwardNextExact(len: nat, s: nat, c: nat, r: nat)
    requires 1 <= c && 1 <= r && s + c + 2 * r - 1 <= len && s + c + r < len
    ensures ForwardKeepsNext(len, s, c, r) <==> r == 1
  {
    if r == 1 {
      forall h: seq<int> | |h| == len
        ensures forall b :: s + c + r <= b < len ==> Passes(h, s + c, s, r, r)[b] == h[b]
      {
        ForwardRepeats(h, s, c, r, r);
      }
    } else {
      ForwardNextWrong(len, s, c, r);
      assert Passes(Distinct(len), s + c, s, r, r)[s + c + r] != Distinct(len)[s + c + r];
    }
  }

  lemma ForwardNextWrong(len: nat, s: nat, c: nat, r: nat)
    requires 1 <= c && 2 <= r && s + c + 2 * r - 1 <= len && s + c + r < len
    ensures Passes(Distinct(len), s + c, s, r, r)[s + c + r] != Distinct(len)[s + c + r]
  {
    ForwardRepeats(Distinct(len), s, c, r, r);
    assert Repeated(Distinct(len), s, c, s + c + r) < s + c;
  }

  // ---- Barrel_RollBack ----------------------------------------------------------------------

  /** While no pass reads what an earlier one wrote, the passes move barrels by `c`. */
  lemma {:induction false} BackShifts<T>(h: seq<T>, n: nat, c: nat, m: nat, i: nat)
    requires 1 <= m <= c && i <= m && n + c + 2 * m - 1 <= |h|
    ensures Shifted(h, Passes(h, n, n + c, m, i), n, if i == 0 then n else n + i + m - 1, c)
  {
    if i > 0 {
      BackShifts(h, n, c, m, i - 1);
      CopyShifts(h, Passes(h, n, n + c, m, i - 1), n, c, if i == 1 then 0 else i + m - 2, i - 1, m);
    }
  }

  lemma {:induction false} CopyShifts<T>(h: seq<T>, h1: seq<T>, n: nat, c: nat, w: nat, i: nat, k: nat)
    requires i <= w <= i + c && k <= c && n + c + i + k <= |h| && n + c + w <= |h| && Shifted(h, h1, n, n + w, c)
    ensures Shifted(h, Transcribed(h1, n + i, n + c + i, k), n, n + if w < i + k then i + k else w, c)
  {
    if k > 0 {
      CopyShifts(h, h1, n, c, w, i, k - 1);
    }
  }

  /** The first barrel in front of the run gets what lies `c` behind it, and keeps it. */
  lemma {:induction false} BackFirst<T>(h: seq<T>, n: nat, c: nat, m: nat, i: nat)
    requires 1 <= i <= m && 1 <= c && n + c + 2 * m - 1 <= |h|
    ensures Passes(h, n, n + c, m, i)[n] == h[n + c]
  {
    if i == 1 {
      CopyFirst(h, n, c, m);
    } else {
      BackFirst(h, n, c, m, i - 1);
      CopyBehind(Passes(h, n, n + c, m, i - 1), n + i - 1, n + c + i - 1, m, n);
    }
  }

  lemma {:induction false} CopyBehind<T>(h: seq<T>, dst: nat, src: nat, k: nat, b: nat)
    requires b < dst && b < |h|
    ensures Transcribed(h, dst, src, k)[b] == h[b]
  {
    if k > 0 {
      CopyBehind(h, dst, src, k - 1, b);
    }
  }

  lemma {:induction false} CopyFirst<T>(h: seq<T>, n: nat, c: nat, k: nat)
    requires 1 <= c && 1 <= k && n + c + k <= |h|
    ensures Transcribed(h, n, n + c, k)[n] == h[n + c]
  {
    if k > 1 {
      CopyFirst(h, n, c, k - 1);
    }
  }

  /** The run after Barrel_RollBack by `m` as written, at its new start and offset. */
  function BackView<T>(h: seq<T>, s: nat, c: nat, o: nat, m: nat): seq<T>
    requires 1 <= o <= c && m <= s && s + c <= |h|
  {
    var o' := OffsetAfter(o, c, -(m as int));
    Logical(Passes(h, s - m, s - m + c, m, m), s - m, c, if o' <= c then o' else c)
  }

  ghost predicate BackKeepsRun(len: nat, s: nat, c: nat, o: nat, m: nat)
    requires 1 <= o <= c && m <= s && s + c <= len
  {
    forall h: seq<int> | |h| == len :: BackView(h, s, c, o, m) == Logical(h, s, c, o)
  }

  /** A roll back as written keeps the run's contents exactly when it is by one, or by the whole
      run with the offset at its first barrel. */
  lemma BackRunExact(len: nat, s: nat, c: nat, o: nat, m: nat)
    requires 1 <= o <= c < UINT / 2 && 1 <= m < UINT / 2 && m <= s && s + c + m - 1 <= len && s + c <= len
    ensures BackKeepsRun(len, s, c, o, m) <==> m == 1 || (m == c && o == 1)
  {
    if m == 1 || (m == c && o == 1) {
      forall h: seq<int> | |h| == len
        ensures BackView(h, s, c, o, m) == Logical(h, s, c, o)
      {
        BackRight(h, s, c, o, m);
      }
    } else {
      BackWrong(len, s, c, o, m);
    }
  }

  lemma OnePass<T>(h: seq<T>, dst: int, src: int)
    ensures Passes(h, dst, src, 1, 1) == Copy(h, dst, src)
  {
    var h0 := Passes(h, dst, src, 1, 0);
    assert Transcribed(h0, dst, src, 1) == Copy(Transcribed(h0, dst, src, 0), dst, src);
  }

  lemma BackRight<T>(h: seq<T>, s: nat, c: nat, o: nat, m: nat)
    requires 1 <= o <= c < UINT / 2 && 1 <= m < UINT / 2 && m <= s && s + c + m - 1 <= |h|
    requires m == 1 || (m == c && o == 1)
    ensures BackView(h, s, c, o, m) == Logical(h, s, c, o)
  {
    if m == 1 {
      RollBackKeeps(h, s, c, o);
      OnePass(h, s - 1, s - 1 + c);
    } else {
      BackShifts(h, s - m, c, m, m);
      forall l | 0 <= l < c
        ensures BackView(h, s, c, o, m)[l] == Logical(h, s, c, o)[l]
      {
      }
    }
  }

  lemma OffsetBack(c: nat, o: nat, m: nat)
    requires 1 <= o <= c < UINT / 2 && 1 <= m < UINT / 2
    ensures OffsetAfter(o, c, -(m as int)) == if o + m > c then 1 else o + m
  {
  }

  lemma BackWrong(len: nat, s: nat, c: nat, o: nat, m: nat)
    requires 1 <= o <= c < UINT / 2 && 2 <= m < UINT / 2 && m <= s && s + c + m - 1 <= len
    requires !(m == c && o == 1)
    ensures BackView(Distinct(len), s, c, o, m) != Logical(Distinct(len), s, c, o)
  {
    if m < c {
      BackWrongShort(len, s, c, o, m);
    } else if m == c {
      BackWrongWhole(len, s, c, o);
    } else {
      BackWrongLong(len, s, c, o, m);
    }
  }

  lemma BackWrongShort(len: nat, s: nat, c: nat, o: nat, m: nat)
    requires 1 <= o <= c < UINT / 2 && 2 <= m < c && m <= s && s + c + m - 1 <= len
    ensures BackView(Distinct(len), s, c, o, m) != Logical(Distinct(len), s, c, o)
  {
    OffsetBack(c, o, m);
    BackShifts(Distinct(len), s - m, c, m, m);
    ForeignBarrel(len, Passes(Distinct(len), s - m, s - m + c, m, m), s, c, o, if o + m > c then 1 else o + m, m);
  }

  /** The barrel behind the old run shows in the new one. */
  lemma ForeignBarrel(len: nat, h': seq<int>, s: nat, c: nat, o: nat, o': nat, m: nat)
    requires 1 <= o <= c && 1 <= o' <= c && 2 <= m < c && m <= s && s + c + m - 1 <= len
    requires Shifted(Distinct(len), h', s - m, s + m - 1, c)
    ensures Logical(h', s - m, c, o') != Logical(Distinct(len), s, c, o)
  {
    var l := if o' <= m then m - o' else m - o' + c;
    assert Logical(h', s - m, c, o')[l] == h'[s] == s + c;
    assert Logical(Distinct(len), s, c, o)[l] == s + Slot(c, o, l);
  }

  lemma BackWrongWhole(len: nat, s: nat, c: nat, o: nat)
    requires 2 <= o <= c < UINT / 2 && c <= s && s + c + c - 1 <= len
    ensures BackView(Distinct(len), s, c, o, c) != Logical(Distinct(len), s, c, o)
  {
    var h, n := Distinct(len), s - c;
    var h' := Passes(h, n, n + c, c, c);
    OffsetBack(c, o, c);
    BackShifts(h, n, c, c, c);
    assert Logical(h', n, c, 1)[0] == h'[n + 1] == s + 1;
    assert Logical(h, s, c, o)[0] == s + Slot(c, o, 0);
  }

  lemma BackWrongLong(len: nat, s: nat, c: nat, o: nat, m: nat)
    requires 1 <= o <= c < UINT / 2 && c < m < UINT / 2 && m <= s && s + c + m - 1 <= len
    ensures BackView(Distinct(len), s, c, o, m) != Logical(Distinct(len), s, c, o)
  {
    var h, n := Distinct(len), s - m;
    var h' := Passes(h, n, n + c, m, m);
    OffsetBack(c, o, m);
    BackFirst(h, n, c, m, m);
    assert Logical(h', n, c, 1)[c - 1] == h'[n] == n + c;
    assert Logical(h, s, c, o)[c - 1] == s + Slot(c, o, c - 1);
  }

  // ---- Barrel_Grow and Barrel_Shrink --------------------------------------------------------

  /** Barrel_Grow as written: the passes count from barrel 0 and go on to fill the gap. */
  function GrownFromZero<T>(h: seq<T>, c: nat, o: nat, r: nat): (h': seq<T>)
    ensures |h'| == |h|
  {
    if c == o then h else GrowCopied(h, 0, c, r, o)
  }

  /** The loop of Barrel_Grow; for a request beyond the offset it would read in front of the heap. */
  method GrowPasses<T>(heap: array<T>, count: nat, offset: nat, request: nat)
    requires offset <= count && request <= offset && count + request <= heap.Length
    modifies heap
    ensures heap[..] == GrownFromZero(old(heap[..]), count, offset, request)
  {
    if count != offset {
      var i := count + request;
      while i > offset
        invariant offset <= i <= count + request
        invariant heap[..] == GrowCopied(old(heap[..]), 0, count, request, i)
      {
        heap[i - 1] := heap[i - (1 + request)];
        i := i - 1;
      }
    }
  }

  ghost predicate GrowKeepsRun(len: nat, s: nat, c: nat, o: nat, r: nat)
    requires 1 <= o <= c && s + c + r <= len
  {
    forall h: seq<int> | |h| == len ::
      Agree(Logical(h, s, c, o), Logical(GrownFromZero(h, c, o, r), s, c + r, o + r))
  }

  lemma GrowRight<T>(h: seq<T>, s: nat, c: nat, o: nat, r: nat)
    requires 1 <= o <= c && 1 <= r && s + c + r <= |h| && (o == c || s == 0)
    ensures Agree(Logical(h, s, c, o), Logical(GrownFromZero(h, c, o, r), s, c + r, o + r))
  {
    GrowCopiedAt(h, 0, c, r, o);
  }

  lemma GrowWrong(len: nat, s: nat, c: nat, o: nat, r: nat)
    requires 1 <= o < c && 1 <= r && 1 <= s && s + c + r <= len
    ensures var h := Distinct(len);
            Logical(GrownFromZero(h, c, o, r), s, c + r, o + r)[c - 1 - o] != Logical(h, s, c, o)[c - 1 - o]
  {
    var h, l := Distinct(len), c - 1 - o;
    var h' := GrownFromZero(h, c, o, r);
    GrowCopiedAt(h, 0, c, r, o);
    assert Logical(h', s, c + r, o + r)[l] == h'[s + c + r - 1] == s + c + r - 1;
    assert Logical(h, s, c, o)[l] == s + c - 1;
  }

  /** Barrel_Grow as written keeps a run's contents exactly when the run has not been turned or
      starts at barrel 0, that is, for untouched runs and for the table. */
  lemma GrowExact(len: nat, s: nat, c: nat, o: nat, r: nat)
    requires 1 <= o <= c && 1 <= r && s + c + r <= len
    ensures GrowKeepsRun(len, s, c, o, r) <==> o == c || s == 0
  {
    if o == c || s == 0 {
      forall h: seq<int> | |h| == len
        ensures Agree(Logical(h, s, c, o), Logical(GrownFromZero(h, c, o, r), s, c + r, o + r))
      {
        GrowRight(h, s, c, o, r);
      }
    } else {
      GrowWrong(len, s, c, o, r);
      assert !Agree(Logical(Distinct(len), s, c, o), Logical(GrownFromZero(Distinct(len), c, o, r), s, c + r, o + r));
    }
  }

  ghost predicate ShrinkKeepsRun(len: nat, s: nat, c: nat, o: nat, m: nat)
    requires 1 <= o <= c && m < c && s + c <= len
  {
    forall h: seq<int> | |h| == len ::
      Agree(Logical(h, s, c, o), Logical(Shrunk(h, 0, c, o, m), s, c - m, ShrinkOffset(c, o, m)))
  }

  lemma ShrinkRight<T>(h: seq<T>, s: nat, c: nat, o: nat, m: nat)
    requires 1 <= o <= c && 1 <= m < c && s + c <= |h| && (o == c || s == 0)
    ensures Agree(Logical(h, s, c, o), Logical(Shrunk(h, 0, c, o, m), s, c - m, ShrinkOffset(c, o, m)))
  {
    if s == 0 {
      ShrinkKeeps(h, 0, c, o, m);
    }
  }

  lemma ShrinkWrong(len: nat, s: nat, c: nat, o: nat, m: nat) returns (l: nat)
    requires 1 <= o < c && 1 <= m < c && 1 <= s && s + c <= len
    ensures var h := Distinct(len);
            l < c - m && Logical(Shrunk(h, 0, c, o, m), s, c - m, ShrinkOffset(c, o, m))[l] != Logical(h, s, c, o)[l]
  {
    var h := Distinct(len);
    var h', o' := Shrunk(h, 0, c, o, m), ShrinkOffset(c, o, m);
    ShrinkCopiedAt(h, 0, ShrinkStep(o, m), ShrinkFrom(o, m), c - m);
    l := if o < m then c - m - 1 else c - 1 - o;
    assert Logical(h', s, c - m, o')[l] == h'[s + c - m - 1] == s + c - m - 1;
    assert Logical(h, s, c, o)[l] == s + if o < m then o + c - m - 1 else c - 1;
  }

  /** The same condition for Barrel_Shrink as written. */
  lemma ShrinkExact(len: nat, s: nat, c: nat, o: nat, m: nat)
    requires 1 <= o <= c && 1 <= m < c && s + c <= len
    ensures ShrinkKeepsRun(len, s, c, o, m) <==> o == c || s == 0
  {
    if o == c || s == 0 {
      forall h: seq<int> | |h| == len
        ensures Agree(Logical(h, s, c, o), Logical(Shrunk(h, 0, c, o, m), s, c - m, ShrinkOffset(c, o, m)))
      {
        ShrinkRight(h, s, c, o, m);
      }
    } else {
      var l := ShrinkWrong(len, s, c, o, m);
      var h := Distinct(len);
      assert !Agree(Logical(h, s, c, o), Logical(Shrunk(h, 0, c, o, m), s, c - m, ShrinkOffset(c, o, m)));
    }
  }

  // ---- The shrink arm of Barrel_DeltaSize ---------------------------------------------------

  /** For a negative unit delta the code subtracts the freed bytes from the slack, and narrows the
      difference to an int.  What it computes, for every input: */
  lemma ShrinkArm(count: nat, units: nat, unitSize: nat, d: nat)
    requires 1 <= d
    ensures BarrelDelta(count, units, unitSize, -(d as int))
              == -CeilDiv(ToInt(32 * count - units * unitSize - d * unitSize))
  {
    var a, b := 32 * count - units * unitSize, d * unitSize;
    ToIntMod(a, b);
    ToIntRange(a - b);
    FloorNarrow(-ToInt(a - b));
  }

  lemma ToIntMod(a: int, b: int)
    ensures ToInt(a % SIZET - b % SIZET) == ToInt(a - b)
  {
    var k := a / SIZET - b / SIZET;
    assert a - b == a % SIZET - b % SIZET + SIZET * k;
    ModShift(a % SIZET - b % SIZET, 0x1_0000_0000 * k, UINT);
  }

  lemma ToIntRange(x: int)
    ensures -UINT / 2 <= ToInt(x) < UINT / 2
    ensures -UINT / 2 <= x < UINT / 2 ==> ToInt(x) == x
  {
  }

  lemma FloorNarrow(w: int)
    requires -UINT / 2 < w <= UINT / 2
    ensures ToInt((w % SIZET) / 32) == w / 32 == -CeilDiv(-w)
  {
    var q := if w >= 0 then w else w + SIZET;
    assert w % SIZET == q;
    assert q / 32 == w / 32 + if w >= 0 then 0 else SIZET / 32;
    NarrowSmall(w / 32, if w >= 0 then 0 else 1);
  }

  /** SIZET / 32 is a multiple of UINT. */
  lemma NarrowSmall(x: int, k: nat)
    requires -UINT / 2 <= x < UINT / 2 && k <= 1
    ensures ToInt(x + k * (SIZET / 32)) == x
  {
    assert SIZET / 32 == UINT * 0x800_0000;
    ModShift(x, k * 0x800_0000, UINT);
  }

  lemma Overshoot(v: int)
    ensures 32 * CeilDiv(v) == v + (-v) % 32
  {
  }

  /** The call keeps room for the units that stay exactly when the narrowed difference, rounded up to
      barrels, is no more than slack and freed bytes together. */
  lemma ShrinkArmExact(count: nat, units: nat, unitSize: nat, d: nat)
    requires 1 <= d <= units && units * unitSize <= 32 * count
    ensures var delta := BarrelDelta(count, units, unitSize, -(d as int));
            var freed, slack := d * unitSize, 32 * count - units * unitSize;
            var v := ToInt(slack - freed);
            units * unitSize - freed <= 32 * (count + delta) <==> v + (-v) % 32 <= slack + freed
  {
    var freed, slack := d * unitSize, 32 * count - units * unitSize;
    ShrinkArm(count, units, unitSize, d);
    Overshoot(ToInt(slack - freed));
  }

  /** While the difference is an int: when rounding overshoots by no more than twice the freed bytes. */
  lemma ShrinkArmInRange(count: nat, units: nat, unitSize: nat, d: nat)
    requires 1 <= d <= units && units * unitSize <= 32 * count
    requires var v := 32 * count - units * unitSize - d * unitSize; -UINT / 2 <= v < UINT / 2
    ensures var delta := BarrelDelta(count, units, unitSize, -(d as int));
            var freed, slack := d * unitSize, 32 * count - units * unitSize;
            units * unitSize - freed <= 32 * (count + delta) <==> (freed - slack) % 32 <= 2 * freed
  {
    ShrinkArmExact(count, units, unitSize, d);
    ToIntRange(32 * count - units * unitSize - d * unitSize);
  }

  /** One of six 4-byte units given up by a one-barrel run: the run loses its only barrel. */
  lemma ShrinkArmLoses()
    ensures BarrelDelta(1, 6, 4, -1) == -1
  {
    ShrinkArm(1, 6, 4, 1);
    ToIntRange(4);
  }

  /** A growth out of the range of an int: 2^17 more units of 2^20 bytes need 2^32 barrels, and the
      narrowed delta makes a run of one barrel give that up instead. */
  lemma HugeGrowthShrinks()
    ensures BarrelDelta(1, 0, 0x10_0000, 0x2_0000) == -1
    ensures CeilDiv(0x2_0000 * 0x10_0000) == 0x1_0000_0000
  {
    GrowingDelta(1, 0, 0x10_0000, 0x2_0000);
  }
}
