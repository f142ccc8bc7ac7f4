/** Barrel_Roll over a chain of nodes (tBarrel.c).

    A node is never freed and is always placed behind the last physical node, so physical order
    is table order: following `_nextNode` from node `j` visits `j, j + 1, ..., t - 1`, where `t`
    is the number of nodes.  Rolling a node asks the next physical node first when the move is
    up, and last when it is down, so that a run is copied only onto barrels nobody owns. */
module Chain {
  import opened Barrels

  function Start(h: Heap, ix: nat): int {
    NodeAt(h, ix).start
  }

  function Stop(h: Heap, ix: nat): int {
    NodeAt(h, ix).start + NodeAt(h, ix).count
  }

  /** The runs of the nodes `j..t - 1` lie one behind the other without gap or overlap, behind
      the `t` records of the table. */
  predicate Tiled(h: Heap, j: nat, t: nat) {
    && (forall i :: j <= i < t ==> Fits(h, i) && t <= Start(h, i))
    && (forall i, n :: j <= i < t && j <= n < t && n == i + 1 ==> Stop(h, i) == Start(h, n))
  }

  predicate Unlocked(h: Heap, j: nat, t: nat) {
    forall i :: j <= i < t ==> !NodeAt(h, i).locked
  }

  /** Barrel_Roll upward on node `j`: lock, next node first, then this one, unlock.  A failed
      call returns with the locks it has taken. */
  function RollUpward(h: Heap, j: nat, t: nat, k: nat): (res: (bool, Heap))
    requires j < t
    ensures |res.1| == |h|
    decreases t - j
  {
    var h1 := SetLock(h, j, true);
    var next := if j + 1 < t then RollUpward(h1, j + 1, t, k) else (Stop(h1, j) + k <= |h1|, h1);
    if !next.0 then next else (true, SetLock(RollForward(next.1, j, k), j, false))
  }

  /** Barrel_Roll downward on node `j`: lock, this node first, then the next one, unlock. */
  function RollDownward(h: Heap, j: nat, t: nat, k: nat): (r: Heap)
    requires j < t
    ensures |r| == |h|
    decreases t - j
  {
    var h1 := RollBack(SetLock(h, j, true), j, k);
    var h2 := if j + 1 < t then RollDownward(h1, j + 1, t, k) else h1;
    SetLock(h2, j, false)
  }

  /** Barrel_Roll. */
  function Roll(h: Heap, j: nat, t: nat, request: int): (res: (bool, Heap))
    requires j < t
    ensures |res.1| == |h|
  {
    if request == 0 then (true, h)
    else if request > 0 then RollUpward(h, j, t, request)
    else (true, RollDownward(h, j, t, -request))
  }

  /** What a successful roll does: each of the nodes `j..t - 1` has moved by `k` and shows the
      contents it showed before. */
  predicate Moved(h: Heap, h': Heap, j: nat, t: nat, k: int) {
    forall i :: j <= i < t ==> MovedOne(h, h', i, k)
  }

  /** Nothing is written but the records `j..t - 1` and the barrels `[lo, hi)`. */
  predicate SameBut(h: Heap, h': Heap, j: nat, t: nat, lo: int, hi: int) {
    && |h'| == |h|
    && forall b :: 0 <= b < |h| && !(j <= b < t) && !(lo <= b < hi) ==> h'[b] == h[b]
  }

  lemma MovedTwice(h: Heap, h1: Heap, h2: Heap, j: nat, t: nat, k: int)
    requires Moved(h, h1, j, t, 0) && Moved(h1, h2, j, t, k)
    ensures Moved(h, h2, j, t, k)
  {
    forall i | j <= i < t
      ensures MovedOne(h, h2, i, k)
    {
      assert MovedOne(h, h1, i, 0) && MovedOne(h1, h2, i, k);
    }
  }

  lemma NothingMoved(h: Heap, j: nat, t: nat)
    requires Tiled(h, j, t)
    ensures Moved(h, h, j, t, 0)
  {
  }

  /** What a failed roll does: nothing but taking the locks of the nodes `j..t - 1`. */
  predicate OnlyLocked(h: Heap, h': Heap, j: nat, t: nat) {
    && SameBut(h, h', j, t, 0, 0)
    && forall i :: j <= i < t ==> i < |h| && h'[i] == Record(NodeAt(h, i).(locked := true))
  }

  // ---- Frames -------------------------------------------------------------------------------

  /** A node keeps its record and contents when neither is written. */
  lemma NodeFrame(h: Heap, h': Heap, ix: nat)
    requires Fits(h, ix) && |h'| == |h| && h'[ix] == h[ix]
    requires forall b :: Start(h, ix) <= b < Stop(h, ix) ==> h'[b] == h[b]
    ensures Fits(h', ix) && NodeAt(h', ix) == NodeAt(h, ix) && View(h', ix) == View(h, ix)
  {
  }

  /** Setting a lock leaves runs and contents alone. */
  lemma LockFrame(h: Heap, ix: nat, locked: bool)
    requires Fits(h, ix)
    ensures var h' := SetLock(h, ix, locked);
            && Fits(h', ix) && View(h', ix) == View(h, ix)
            && NodeAt(h', ix) == NodeAt(h, ix).(locked := locked)
            && SameOutside(h, h', ix, 0, 0)
  {
  }

  /** Along a tiled chain runs are in order, hence disjoint. */
  lemma {:induction false} Ordered(h: Heap, j: nat, t: nat, i: nat, n: nat)
    requires Tiled(h, j, t) && j <= i < n < t
    ensures Start(h, i) < Stop(h, i) <= Start(h, n) < Stop(h, n) <= |h|
    decreases n
  {
    assert Fits(h, i) && Fits(h, n);
    if i + 1 < n {
      Ordered(h, j, t, i, n - 1);
    }
  }

  /** A chain keeps its tiling under writes that stay off its records and runs. */
  lemma TiledFrame(h: Heap, h': Heap, j: nat, t: nat)
    requires Tiled(h, j, t) && j < t && |h'| == |h|
    requires forall i :: j <= i < t && i < |h| ==> h'[i] == h[i]
    requires forall b :: Start(h, j) <= b < |h| ==> h'[b] == h[b]
    ensures Tiled(h', j, t) && Moved(h, h', j, t, 0)
    ensures forall i :: j <= i < t ==> NodeAt(h', i) == NodeAt(h, i)
  {
    forall i | j <= i < t
      ensures NodeAt(h', i) == NodeAt(h, i) && MovedOne(h, h', i, 0)
      ensures Fits(h', i) && t <= Start(h', i) == Start(h, i) && Stop(h', i) == Stop(h, i)
    {
      if j < i {
        Ordered(h, j, t, j, i);
      }
      NodeFrame(h, h', i);
    }
  }

  /** Moving every node of a tiled chain by `k` gives a tiled chain. */
  lemma MovedTiled(h: Heap, h': Heap, j: nat, t: nat, k: int)
    requires Tiled(h, j, t) && Moved(h, h', j, t, k)
    requires j < t ==> t <= Start(h, j) + k
    ensures Tiled(h', j, t)
    ensures forall i :: j <= i < t ==> Start(h', i) == Start(h, i) + k && Stop(h', i) == Stop(h, i) + k
  {
    forall i | j <= i < t
      ensures Fits(h', i) && Start(h', i) == Start(h, i) + k
      ensures Stop(h', i) == Stop(h, i) + k && t <= Start(h', i)
    {
      assert MovedOne(h, h', i, k);
      if j < i {
        Ordered(h, j, t, j, i);
      }
    }
  }

  // ---- One step of the recursion ------------------------------------------------------------

  /** The node's own part of an upward roll, after the nodes behind it have been rolled. */
  lemma OwnUp(h: Heap, h2: Heap, ix: nat, k: nat)
    requires Fits(h, ix) && !NodeAt(h, ix).locked && |h2| == |h|
    requires h2[ix] == Record(NodeAt(h, ix).(locked := true)) && Stop(h, ix) + k <= |h|
    requires forall b :: Start(h, ix) <= b < Stop(h, ix) ==> h2[b] == h[b]
    ensures var h4 := SetLock(RollForward(h2, ix, k), ix, false);
            MovedOne(h, h4, ix, k) && SameOutside(h2, h4, ix, Stop(h, ix), Stop(h, ix) + k)
  {
    NodeFrame(SetLock(h, ix, true), h2, ix);
    RollForwardMoves(h2, ix, k);
    LockFrame(RollForward(h2, ix, k), ix, false);
  }

  /** The node's own part of a downward roll, with the lock given back. */
  lemma OwnDown(h: Heap, ix: nat, k: nat)
    requires Fits(h, ix) && !NodeAt(h, ix).locked && ix < Start(h, ix) - k
    ensures var h2 := RollBack(SetLock(h, ix, true), ix, k);
            && MovedOne(h, SetLock(h2, ix, false), ix, -(k as int)) && Fits(h2, ix)
            && Start(h2, ix) == Start(h, ix) - k && Stop(h2, ix) == Stop(h, ix) - k
            && SameOutside(h, h2, ix, Start(h, ix) - k, Start(h, ix))
  {
    LockFrame(h, ix, true);
    RollBackMoves(SetLock(h, ix, true), ix, k);
    LockFrame(RollBack(SetLock(h, ix, true), ix, k), ix, false);
  }

  /** A move survives later writes elsewhere. */
  lemma MovedLater(h: Heap, h2: Heap, h3: Heap, ix: nat, k: int)
    requires MovedOne(h, h2, ix, k) && |h3| == |h2| && h3[ix] == h2[ix]
    requires forall b :: Start(h2, ix) <= b < Stop(h2, ix) ==> h3[b] == h2[b]
    ensures MovedOne(h, h3, ix, k)
  {
    NodeFrame(h2, h3, ix);
  }

  /** The nodes behind `j`, moved from `h1` (which shows what `h` shows) to `h2`, stay moved when
      node `j` is written afterwards. */
  lemma BehindLater(h: Heap, h1: Heap, h2: Heap, h4: Heap, j: nat, t: nat, k: int, lo: int, hi: int)
    requires Tiled(h2, j + 1, t) && Moved(h, h1, j + 1, t, 0) && Moved(h1, h2, j + 1, t, k)
    requires SameOutside(h2, h4, j, lo, hi)
    requires hi == 0 || (t <= lo && (j + 1 < t ==> hi <= Start(h2, j + 1)))
    ensures Moved(h, h4, j + 1, t, k)
  {
    forall i | j + 1 <= i < t
      ensures MovedOne(h, h4, i, k)
    {
      assert MovedOne(h, h1, i, 0) && MovedOne(h1, h2, i, k);
      if j + 1 < i {
        Ordered(h2, j + 1, t, j + 1, i);
      }
      assert t <= Start(h2, j + 1) <= Start(h2, i);
      MovedLater(h, h2, h4, i, k);
    }
  }

  lemma JoinFrames(h: Heap, h2: Heap, h3: Heap, h4: Heap, j: nat, t: nat, a: int, b: int, lo: int, hi: int)
    requires SameOutside(h, h2, j, lo, a) && SameBut(h2, h3, j + 1, t, b, hi) && SameOutside(h3, h4, j, 0, 0)
    requires j < t && lo <= b && a <= hi
    ensures SameBut(h, h4, j, t, lo, hi)
  {
  }

  // ---- Whole rolls --------------------------------------------------------------------------

  lemma BehindUp(h: Heap, j: nat, t: nat)
    requires j + 1 < t && Tiled(h, j, t) && Unlocked(h, j, t)
    ensures var h1 := SetLock(h, j, true);
            && Tiled(h1, j + 1, t) && Unlocked(h1, j + 1, t) && Moved(h, h1, j + 1, t, 0)
            && Start(h1, j + 1) == Stop(h, j) && Stop(h1, t - 1) == Stop(h, t - 1)
  {
    LockFrame(h, j, true);
    TiledFrame(h, SetLock(h, j, true), j + 1, t);
  }

  /** The last node rolled up alone. */
  lemma LastUp(h: Heap, j: nat, t: nat, k: nat)
    requires j + 1 == t && k > 0 && Fits(h, j) && !NodeAt(h, j).locked && Stop(h, j) + k <= |h|
    ensures RollUpward(h, j, t, k).0 && MovedOne(h, RollUpward(h, j, t, k).1, j, k)
    ensures SameBut(h, RollUpward(h, j, t, k).1, j, t, Start(h, j), Stop(h, j) + k)
  {
    LockFrame(h, j, true);
    OwnUp(h, SetLock(h, j, true), j, k);
  }

  /** A node rolled up after the nodes behind it. */
  lemma FinishUp(h: Heap, h1: Heap, h2: Heap, h4: Heap, j: nat, t: nat, k: nat)
    requires j + 1 < t && Tiled(h, j, t) && Unlocked(h, j, t) && Stop(h, t - 1) + k <= |h|
    requires h1 == SetLock(h, j, true) && h4 == SetLock(RollForward(h2, j, k), j, false)
    requires Moved(h1, h2, j + 1, t, k)
    requires SameBut(h1, h2, j + 1, t, Start(h1, j + 1), Stop(h1, t - 1) + k)
    ensures Moved(h, h4, j, t, k) && SameBut(h, h4, j, t, Start(h, j), Stop(h, t - 1) + k)
  {
    BehindUp(h, j, t);
    Ordered(h, j, t, j, t - 1);
    OwnUp(h, h2, j, k);
    MovedTiled(h1, h2, j + 1, t, k);
    BehindLater(h, h1, h2, h4, j, t, k, Stop(h, j), Stop(h, j) + k);
  }

  /** Barrel_Roll upward: with room behind the last node it succeeds, moves every node from `j`
      on up and keeps all contents, although each run is copied onto the run behind it. */
  lemma {:induction false} RollUp(h: Heap, j: nat, t: nat, k: nat)
    requires j < t && k > 0 && Tiled(h, j, t) && Unlocked(h, j, t) && Stop(h, t - 1) + k <= |h|
    ensures RollUpward(h, j, t, k).0 && Moved(h, RollUpward(h, j, t, k).1, j, t, k)
    ensures SameBut(h, RollUpward(h, j, t, k).1, j, t, Start(h, j), Stop(h, t - 1) + k)
    decreases t - j
  {
    if j + 1 == t {
      LastUp(h, j, t, k);
    } else {
      var h1 := SetLock(h, j, true);
      BehindUp(h, j, t);
      RollUp(h1, j + 1, t, k);
      FinishUp(h, h1, RollUpward(h1, j + 1, t, k).1, RollUpward(h, j, t, k).1, j, t, k);
    }
  }

  lemma BehindDown(h: Heap, j: nat, t: nat, k: nat)
    requires j + 1 < t && Tiled(h, j, t) && Unlocked(h, j, t) && t + k <= Start(h, j)
    ensures var h2 := RollBack(SetLock(h, j, true), j, k);
            && Tiled(h2, j + 1, t) && Unlocked(h2, j + 1, t) && Moved(h, h2, j + 1, t, 0)
            && Start(h2, j + 1) == Stop(h, j) && Stop(h2, t - 1) == Stop(h, t - 1)
  {
    OwnDown(h, j, k);
    TiledFrame(h, RollBack(SetLock(h, j, true), j, k), j + 1, t);
  }

  lemma LastDown(h: Heap, j: nat, t: nat, k: nat)
    requires j + 1 == t && k > 0 && Fits(h, j) && !NodeAt(h, j).locked && t + k <= Start(h, j)
    ensures MovedOne(h, RollDownward(h, j, t, k), j, -(k as int))
    ensures SameBut(h, RollDownward(h, j, t, k), j, t, Start(h, j) - k, Stop(h, j))
  {
    OwnDown(h, j, k);
  }

  /** A node that has been rolled down stays as it is while the nodes behind it follow. */
  lemma HeadDown(h: Heap, h2: Heap, h3: Heap, j: nat, t: nat, k: nat, hi: int)
    requires Fits(h, j) && !NodeAt(h, j).locked && j < t <= Start(h, j) - k
    requires h2 == RollBack(SetLock(h, j, true), j, k) && SameBut(h2, h3, j + 1, t, Stop(h, j) - k, hi)
    ensures MovedOne(h, SetLock(h3, j, false), j, -(k as int))
    ensures SameOutside(h3, SetLock(h3, j, false), j, 0, 0)
    ensures SameOutside(h, h2, j, Start(h, j) - k, Start(h, j))
  {
    OwnDown(h, j, k);
    MovedLater(h, SetLock(h2, j, false), SetLock(h3, j, false), j, -(k as int));
  }

  /** A node rolled down before the nodes behind it. */
  lemma FinishDown(h: Heap, h2: Heap, h3: Heap, h4: Heap, j: nat, t: nat, k: nat)
    requires j + 1 < t && Tiled(h, j, t) && Unlocked(h, j, t) && t + k <= Start(h, j)
    requires h2 == RollBack(SetLock(h, j, true), j, k) && h4 == SetLock(h3, j, false)
    requires Moved(h2, h3, j + 1, t, -(k as int))
    requires SameBut(h2, h3, j + 1, t, Start(h2, j + 1) - k, Stop(h2, t - 1))
    ensures Moved(h, h4, j, t, -(k as int))
  {
    BehindDown(h, j, t, k);
    HeadDown(h, h2, h3, j, t, k, Stop(h, t - 1));
    MovedTiled(h2, h3, j + 1, t, -(k as int));
    BehindLater(h, h2, h3, h4, j, t, -(k as int), 0, 0);
  }

  lemma FrameDown(h: Heap, h2: Heap, h3: Heap, h4: Heap, j: nat, t: nat, k: nat)
    requires j + 1 < t && Tiled(h, j, t) && Unlocked(h, j, t) && t + k <= Start(h, j)
    requires h2 == RollBack(SetLock(h, j, true), j, k) && h4 == SetLock(h3, j, false)
    requires SameBut(h2, h3, j + 1, t, Start(h2, j + 1) - k, Stop(h2, t - 1))
    ensures SameBut(h, h4, j, t, Start(h, j) - k, Stop(h, t - 1))
  {
    Ordered(h, j, t, j, t - 1);
    BehindDown(h, j, t, k);
    HeadDown(h, h2, h3, j, t, k, Stop(h, t - 1));
    JoinFrames(h, h2, h3, h4, j, t, Start(h, j), Stop(h, j) - k, Start(h, j) - k, Stop(h, t - 1));
  }

  lemma StepDown(h: Heap, h2: Heap, h3: Heap, j: nat, t: nat, k: nat)
    requires j + 1 < t && Tiled(h, j, t) && Unlocked(h, j, t) && t + k <= Start(h, j)
    requires h2 == RollBack(SetLock(h, j, true), j, k) && Moved(h2, h3, j + 1, t, -(k as int))
    requires SameBut(h2, h3, j + 1, t, Start(h2, j + 1) - k, Stop(h2, t - 1))
    ensures Moved(h, SetLock(h3, j, false), j, t, -(k as int))
    ensures SameBut(h, SetLock(h3, j, false), j, t, Start(h, j) - k, Stop(h, t - 1))
  {
    FinishDown(h, h2, h3, SetLock(h3, j, false), j, t, k);
    FrameDown(h, h2, h3, SetLock(h3, j, false), j, t, k);
  }

  /** Barrel_Roll downward: with free barrels in front of node `j` it succeeds, moves every node
      from `j` on down and keeps all contents. */
  lemma {:induction false} RollDown(h: Heap, j: nat, t: nat, k: nat)
    requires j < t && k > 0 && Tiled(h, j, t) && Unlocked(h, j, t) && t + k <= Start(h, j)
    ensures Moved(h, RollDownward(h, j, t, k), j, t, -(k as int))
    ensures SameBut(h, RollDownward(h, j, t, k), j, t, Start(h, j) - k, Stop(h, t - 1))
    decreases t - j
  {
    if j + 1 == t {
      LastDown(h, j, t, k);
    } else {
      var h2 := RollBack(SetLock(h, j, true), j, k);
      BehindDown(h, j, t, k);
      RollDown(h2, j + 1, t, k);
      StepDown(h, h2, RollDownward(h2, j + 1, t, k), j, t, k);
    }
  }

  /** Barrel_Roll upward without room behind the last node fails, and all it has done is to take
      the locks of the nodes from `j` on. */
  lemma {:induction false} RollUpFails(h: Heap, j: nat, t: nat, k: nat)
    requires j < t && k > 0 && Tiled(h, j, t) && Unlocked(h, j, t) && Stop(h, t - 1) + k > |h|
    ensures var (ok, h') := RollUpward(h, j, t, k);
            !ok && OnlyLocked(h, h', j, t)
    decreases t - j
  {
    LockFrame(h, j, true);
    if j + 1 < t {
      BehindUp(h, j, t);
      RollUpFails(SetLock(h, j, true), j + 1, t, k);
    }
  }

  /** Barrel_Roll of a chain by any request: upward it succeeds exactly if there is room behind the last
      run, and downward, where there is room behind the table, always; it moves each node by the
      request and keeps its contents, or, when it fails, has taken the locks and nothing else. */
  lemma RollMoves(h: Heap, j: nat, t: nat, request: int)
    requires j < t && Tiled(h, j, t) && Unlocked(h, j, t) && t <= Start(h, j) + request
    ensures var (ok, h') := Roll(h, j, t, request);
            && (ok <==> request <= 0 || Stop(h, t - 1) + request <= |h|)
            && (ok ==> Moved(h, h', j, t, request)) && (!ok ==> OnlyLocked(h, h', j, t))
            && (request == 0 ==> h' == h)
  {
    if request == 0 {
      NothingMoved(h, j, t);
    } else if request < 0 {
      RollDown(h, j, t, -request);
    } else if Stop(h, t - 1) + request <= |h| {
      RollUp(h, j, t, request);
    } else {
      RollUpFails(h, j, t, request);
    }
  }
}
