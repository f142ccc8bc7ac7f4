/** What every reachable state of the barrel service looks like (tBarrel.c). */
module Layout {
  import opened Ring
  import opened Barrels
  import opened Chain
  import opened Bytes
  import opened Service
  import opened Creation
  import opened Runs

  /** Barrel_ServiceInit: an empty table at barrel 0 and no node. */
  function Init(barrels: nat): State {
    State(seq(barrels, _ => Words(seq(SIZE, _ => 0))), Node(0, 0, 0, NONE, SIZE, 0, false), OMEGA)
  }

  function Reached(barrels: nat, ops: seq<Op>): State { Run(Init(barrels), ops) }

  lemma ReachedValid(barrels: nat, ops: seq<Op>)
    requires barrels <= MAX_BARRELS
    ensures var st := Reached(barrels, ops);
            Free(st) && Placed(st) == st.Count() ==> Valid(st)
  {
    RunRefines(Init(barrels), ops);
  }

  // ---- The chain of links -------------------------------------------------------------------

  /** The index reached from the table by `k + 1` steps along `_nextNode`. */
  function Follow(st: State, k: nat): int {
    if k == 0 then st.omegus.next else NodeAt(st.heap, Follow(st, k - 1)).next
  }

  /** In every reachable state the links visit each node of the table once, in order of creation,
      and end behind the last physical node. */
  lemma {:induction false} LinksVisitAll(st: State, k: nat)
    requires Valid(st) && k <= st.Count()
    ensures Follow(st, k) == if k < st.Count() then k else NONE
    ensures k == st.Count() > 0 ==> Follow(st, k - 1) == st.last
  {
    if k > 0 {
      LinksVisitAll(st, k - 1);
      assert GoodRecord(NodeAt(st.heap, k - 1), k - 1, st.Count());
    }
  }

  /** Barrel `b` lies in the run of node `ix`, or in the table's run when `ix` is OMEGA. */
  predicate Owns(st: State, ix: int, b: nat) {
    if ix == OMEGA then b < st.omegus.count
    else 0 <= ix < st.Count() && Start(st.heap, ix) <= b < Stop(st.heap, ix)
  }

  /** The runs tile the used part of the heap: each barrel in front of the end has an owner ... */
  lemma {:induction false} OwnerOf(st: State, b: nat, t: nat) returns (ix: int)
    requires Valid(st) && t <= st.Count()
    requires b < if t == 0 then st.omegus.count else Stop(st.heap, t - 1)
    ensures Owns(st, ix, b)
  {
    if b < st.omegus.count {
      ix := OMEGA;
    } else if Start(st.heap, t - 1) <= b {
      ix := t - 1;
    } else {
      assert t >= 2 ==> Stop(st.heap, t - 2) == Start(st.heap, t - 1);
      ix := OwnerOf(st, b, t - 1);
    }
  }

  /** ... and no two. */
  lemma OneOwner(st: State, b: nat, ix: int, ix': int)
    requires Valid(st) && Owns(st, ix, b) && Owns(st, ix', b)
    ensures ix == ix' && b < st.End()
  {
    EndBehindTable(st);
    if 0 <= ix < ix' {
      Ordered(st.heap, 0, st.Count(), ix, ix');
    } else if 0 <= ix' < ix {
      Ordered(st.heap, 0, st.Count(), ix', ix);
    }
  }

  // ---- Addresses of records -----------------------------------------------------------------

  /** Barrel_GetNode: the record of node `ix` is looked up linearly from the heap's start. */
  function RecordAddress(ix: nat): nat { SIZE * ix }

  /** The table is never turned, so the linear lookup agrees with ring addressing in every
      reachable state, and the address of a node, once handed out, is its address for ever. */
  lemma RecordsStay(st: State, ix: nat)
    requires Valid(st) && ix < st.Count()
    ensures UnitAddress(st.omegus, ix) == RecordAddress(ix)
    ensures st.heap[ix].Record? && Owns(st, OMEGA, ix)
    ensures forall i :: 0 <= i < st.Count() ==> !Owns(st, i, ix)
  {
    assert Fits(st.heap, ix);
    EndBehindTable(st);
    UnitAddressIs(st.omegus, ix);
    ModOnce(SIZE * ix, st.omegus.count * SIZE);
  }

  // ---- Elements -----------------------------------------------------------------------------

  predicate WritesTo(op: Op, ix: nat) { op.Write? && op.ix == ix }

  /** The bytes of the units of an entry. */
  predicate SameElements(e: Entry, e': Entry) {
    && e'.unitSize == e.unitSize && e'.units == e.units
    && e.units * e.unitSize <= |e.bytes| && e.units * e.unitSize <= |e'.bytes|
    && forall p :: 0 <= p < e.units * e.unitSize ==> e'.bytes[p] == e.bytes[p]
  }

  predicate Whole(a: seq<Entry>) {
    forall i :: 0 <= i < |a| ==> a[i].units * a[i].unitSize <= |a[i].bytes|
  }

  lemma SameItself(e: Entry)
    requires e.units * e.unitSize <= |e.bytes|
    ensures SameElements(e, e)
  {
  }

  lemma SameElementsTwice(e: Entry, e1: Entry, e2: Entry)
    requires SameElements(e, e1) && SameElements(e1, e2)
    ensures SameElements(e, e2)
  {
    assert forall p :: 0 <= p < e.units * e.unitSize ==> e1.bytes[p] == e.bytes[p] && e2.bytes[p] == e1.bytes[p];
  }

  lemma AbsStepKeepsElements(a: Table, op: Op, a': Table, ix: nat)
    requires AbsStep(a, op, a') && ix < |a.entries| && !WritesTo(op, ix) && Whole(a.entries)
    ensures ix < |a'.entries| && SameElements(a.entries[ix], a'.entries[ix]) && Whole(a'.entries)
  {
    var es, es' := a.entries, a'.entries;
    assert es[ix].units * es[ix].unitSize <= |es[ix].bytes|;
    forall i | 0 <= i < |es'|
      ensures es'[i].units * es'[i].unitSize <= |es'[i].bytes|
    {
      if i < |es| {
        assert es[i].units * es[i].unitSize <= |es[i].bytes|;
      } else {
        NewEntryUnits(op.unitSize, op.capacity, op.src, Room(a), es'[i]);
      }
    }
  }

  lemma {:induction false} AbsRunKeepsElements(a: Table, ops: seq<Op>, n: nat, a': Table, ix: nat)
    requires AbsRun(a, ops, n, a') && ix < |a.entries| && Whole(a.entries)
    requires forall i :: 0 <= i < |ops| ==> !WritesTo(ops[i], ix)
    ensures ix < |a'.entries| && SameElements(a.entries[ix], a'.entries[ix])
    decreases |ops|
  {
    if ops == [] || !AbsCovered(a, ops[0]) {
      SameItself(a.entries[ix]);
    } else if Halts(a, ops[0]) {
      AbsStepKeepsElements(a, ops[0], a', ix);
    } else {
      var m :| AbsStep(a, ops[0], m) && AbsRun(m, ops[1..], n - 1, a');
      AbsStepKeepsElements(a, ops[0], m, ix);
      AbsRunKeepsElements(m, ops[1..], n - 1, a', ix);
      SameElementsTwice(a.entries[ix], m.entries[ix], a'.entries[ix]);
    }
  }

  /** No run of creations, growths (which may take barrels away again) and writes to other nodes
      loses or changes an element of a node. */
  lemma ElementsKept(st: State, ops: seq<Op>, ix: nat)
    requires Valid(st) && Free(st) && ix < st.Count()
    requires forall i :: 0 <= i < |ops| ==> !WritesTo(ops[i], ix)
    ensures var st' := Run(st, ops);
            && Fits(st.heap, ix) && Fits(st'.heap, ix)
            && SameElements(Shown(st.heap, ix), Shown(st'.heap, ix))
  {
    RunRefines(st, ops);
    AllPlaced(st);
    var es := Entries(st.heap, st.Count());
    forall i | 0 <= i < st.Count()
      ensures es[i].units * es[i].unitSize <= |es[i].bytes|
    {
      assert Fits(st.heap, i) && GoodRecord(NodeAt(st.heap, i), i, st.Count());
    }
    var p := Play(st, ops);
    AbsRunKeepsElements(Abs(st), ops, p.calls, Abs(p.state), ix);
    assert Abs(p.state).entries[ix] == Shown(p.state.heap, ix);
  }
}
