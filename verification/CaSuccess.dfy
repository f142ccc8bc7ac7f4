/** What a run of the CA program achieves: exactly when a batch of requests passes and a command
    reports success, what is on disk then, and that a run goes on while its commands succeed
    (openssl-master/apps/ca.c:830-1119, 1275-1302). */
module CaSuccess {
  import opened Wrappers
  import opened RevInfo
  import opened CaDb
  import opened CaFiles
  import opened CaRuns

  // ---- A batch --------------------------------------------------------------------------------

  /** How many of the first `k` requests are signed. */
  function Signed(reqs: seq<Request>, k: nat): nat
    requires k <= |reqs|
  {
    if k == 0 then 0 else Signed(reqs, k - 1) + if reqs[k - 1].verdict == Sign then 1 else 0
  }

  /** The subject that request `k` is entered with: its own, or its serial number printed. */
  function Subject(env: Env, start: nat, reqs: seq<Request>, k: nat): string
    requires k < |reqs|
  {
    if reqs[k].subject == "" then env.hex(start + Signed(reqs, k)) else reqs[k].subject
  }

  /** The serial number of request `k` is not in the table, and, with unique subjects, neither is its
      subject, nor has a request before it been signed with the same one. */
  predicate Unused(env: Env, db: Db, start: nat, reqs: seq<Request>, k: nat)
    requires k < |reqs|
  {
    && (forall i :: 0 <= i < |db.rows| ==> db.rows[i].serial != start + Signed(reqs, k))
    && (db.unique ==> Subject(env, start, reqs, k) !in db.names && !Signer(env, start, reqs, k))
  }

  predicate Signer(env: Env, start: nat, reqs: seq<Request>, k: nat)
    requires k < |reqs|
  {
    exists j :: 0 <= j < k && reqs[j].verdict == Sign && Subject(env, start, reqs, j) == Subject(env, start, reqs, k)
  }

  predicate PassesAt(env: Env, db: Db, start: nat, reqs: seq<Request>, k: nat)
    requires k < |reqs|
  {
    reqs[k].verdict == Reject || (reqs[k].verdict != Fault && Unused(env, db, start, reqs, k))
  }

  /** No request of the batch ends it with an error. */
  predicate Passes(env: Env, db: Db, start: nat, reqs: seq<Request>) {
    forall k :: 0 <= k < |reqs| ==> PassesAt(env, db, start, reqs, k)
  }

  /** The row of request `k`, if it is signed. */
  predicate EnteredAt(env: Env, before: seq<Entry>, start: nat, reqs: seq<Request>, after: seq<Entry>, k: nat)
    requires k < |reqs|
  {
    var at := |before| + Signed(reqs, k);
    reqs[k].verdict == Sign ==>
      at < |after|
      && after[at] == Entry(VAL, reqs[k].expiry, "", start + Signed(reqs, k), Subject(env, start, reqs, k))
  }

  /** Behind the rows that were there come the signed requests in order, numbered one after another. */
  predicate Entered(env: Env, before: seq<Entry>, start: nat, reqs: seq<Request>, after: seq<Entry>) {
    && before <= after && |after| == |before| + Signed(reqs, |reqs|)
    && forall k :: 0 <= k < |reqs| ==> EnteredAt(env, before, start, reqs, after, k)
  }

  lemma {:induction false} SignedTail(reqs: seq<Request>, k: nat)
    requires 1 <= k <= |reqs|
    ensures Signed(reqs, k) == (if reqs[0].verdict == Sign then 1 else 0) + Signed(reqs[1..], k - 1)
  {
    if k > 1 {
      SignedTail(reqs, k - 1);
    } else {
      assert Signed(reqs, 0) == 0 && Signed(reqs[1..], 0) == 0;
    }
  }

  lemma SubjectTail(env: Env, start: nat, reqs: seq<Request>, k: nat)
    requires 1 <= k < |reqs|
    ensures var n := if reqs[0].verdict == Sign then start + 1 else start;
            && start + Signed(reqs, k) == n + Signed(reqs[1..], k - 1)
            && Subject(env, start, reqs, k) == Subject(env, n, reqs[1..], k - 1)
  {
    SignedTail(reqs, k);
  }

  /** A signed request apart from the first has the subject of request `k` exactly if one of the rest
      has. */
  lemma SignerTail(env: Env, start: nat, reqs: seq<Request>, k: nat)
    requires 1 <= k < |reqs|
    ensures var n := if reqs[0].verdict == Sign then start + 1 else start;
            Signer(env, start, reqs, k) <==>
              || (reqs[0].verdict == Sign && Subject(env, start, reqs, 0) == Subject(env, start, reqs, k))
              || Signer(env, n, reqs[1..], k - 1)
  {
    var n := if reqs[0].verdict == Sign then start + 1 else start;
    SubjectTail(env, start, reqs, k);
    forall j | 1 <= j < k
      ensures Subject(env, start, reqs, j) == Subject(env, n, reqs[1..], j - 1) && reqs[1..][j - 1] == reqs[j]
    {
      SubjectTail(env, start, reqs, j);
    }
    if Signer(env, n, reqs[1..], k - 1) {
      var j :| 0 <= j < k - 1 && reqs[1..][j].verdict == Sign
               && Subject(env, n, reqs[1..], j) == Subject(env, n, reqs[1..], k - 1);
      assert reqs[j + 1].verdict == Sign && Subject(env, start, reqs, j + 1) == Subject(env, start, reqs, k);
    }
    if Signer(env, start, reqs, k) {
      var j :| 0 <= j < k && reqs[j].verdict == Sign && Subject(env, start, reqs, j) == Subject(env, start, reqs, k);
      assert j > 0 ==> reqs[1..][j - 1].verdict == Sign;
    }
  }

  lemma PassesTail(env: Env, db: Db, start: nat, reqs: seq<Request>, db1: Db, k: nat)
    requires 1 <= k < |reqs| && db1.unique == db.unique
    requires First(env, db, start, reqs, db1)
    ensures var n := if reqs[0].verdict == Sign then start + 1 else start;
            PassesAt(env, db, start, reqs, k) <==> PassesAt(env, db1, n, reqs[1..], k - 1)
  {
    SubjectTail(env, start, reqs, k);
    SignerTail(env, start, reqs, k);
    var s := start + Signed(reqs, k);
    if reqs[0].verdict == Sign {
      assert s != start;
      assert forall i :: 0 <= i < |db.rows| ==> db1.rows[i] == db.rows[i];
      assert db1.rows[|db.rows|].serial == start;
    }
  }

  /** What the first request makes of the table. */
  predicate First(env: Env, db: Db, start: nat, reqs: seq<Request>, db1: Db)
    requires reqs != []
  {
    if reqs[0].verdict == Sign
    then db1 == Inserted(db, Entry(VAL, reqs[0].expiry, "", start, Subject(env, start, reqs, 0))) else db1 == db
  }

  /** The first request passes exactly if Issue reports no error. */
  lemma FirstPasses(env: Env, db: Db, start: nat, reqs: seq<Request>)
    requires reqs != []
    ensures var c := Cert(reqs[0].subject, start, reqs[0].expiry);
            var (db1, j) := Issue(env, db, c, reqs[0].verdict);
            && (j >= 0 <==> PassesAt(env, db, start, reqs, 0)) && (j > 0 ==> reqs[0].verdict == Sign)
            && (j >= 0 ==> (j > 0 <==> reqs[0].verdict == Sign) && First(env, db, start, reqs, db1))
  {
    assert Signed(reqs, 0) == 0;
  }

  lemma EnteredTail(env: Env, before: seq<Entry>, start: nat, reqs: seq<Request>, after: seq<Entry>)
    requires reqs != []
    requires var e := Entry(VAL, reqs[0].expiry, "", start, Subject(env, start, reqs, 0));
             if reqs[0].verdict == Sign then Entered(env, before + [e], start + 1, reqs[1..], after)
             else Entered(env, before, start, reqs[1..], after)
    ensures Entered(env, before, start, reqs, after)
  {
    SignedTail(reqs, |reqs|);
    var e := Entry(VAL, reqs[0].expiry, "", start, Subject(env, start, reqs, 0));
    var n := if reqs[0].verdict == Sign then start + 1 else start;
    var b := if reqs[0].verdict == Sign then before + [e] else before;
    assert before <= b <= after;
    forall k | 0 <= k < |reqs| ensures EnteredAt(env, before, start, reqs, after, k) {
      if k == 0 {
        assert Signed(reqs, 0) == 0;
        assert reqs[0].verdict == Sign ==> after[|before|] == b[|before|];
      } else {
        assert EnteredAt(env, b, n, reqs[1..], after, k - 1);
        SubjectTail(env, start, reqs, k);
      }
    }
  }

  /** A batch passes exactly if each request is rejected outright, or is free of errors with a serial
      number and a subject not yet used; then its signed requests are entered in order. */
  lemma {:induction false} BatchExact(env: Env, db: Db, start: nat, reqs: seq<Request>)
    ensures var (db', n, ok) := IssueAll(env, db, start, reqs);
            && (ok <==> Passes(env, db, start, reqs))
            && (ok ==> n == start + Signed(reqs, |reqs|) && db'.unique == db.unique
                       && Entered(env, db.rows, start, reqs, db'.rows))
    decreases |reqs|
  {
    if reqs != [] {
      FirstPasses(env, db, start, reqs);
      var (db1, j) := Issue(env, db, Cert(reqs[0].subject, start, reqs[0].expiry), reqs[0].verdict);
      if j >= 0 {
        var n := if j > 0 then start + 1 else start;
        BatchExact(env, db1, n, reqs[1..]);
        BatchTail(env, db, start, reqs, db1, n);
        SignedTail(reqs, |reqs|);
        var after := IssueAll(env, db1, n, reqs[1..]).0.rows;
        if Entered(env, db1.rows, n, reqs[1..], after) {
          EnteredTail(env, db.rows, start, reqs, after);
        }
      }
    }
  }

  lemma BatchTail(env: Env, db: Db, start: nat, reqs: seq<Request>, db1: Db, n: nat)
    requires reqs != [] && PassesAt(env, db, start, reqs, 0) && db1.unique == db.unique
    requires n == if reqs[0].verdict == Sign then start + 1 else start
    requires First(env, db, start, reqs, db1)
    ensures Passes(env, db, start, reqs) <==> Passes(env, db1, n, reqs[1..])
  {
    forall k | 1 <= k < |reqs|
      ensures PassesAt(env, db, start, reqs, k) <==> PassesAt(env, db1, n, reqs[1..], k - 1)
    {
      PassesTail(env, db, start, reqs, db1, k);
    }
    if Passes(env, db, start, reqs) {
      forall k | 0 <= k < |reqs[1..]| ensures PassesAt(env, db1, n, reqs[1..], k) {
        assert PassesAt(env, db, start, reqs, k + 1);
      }
    }
    if Passes(env, db1, n, reqs[1..]) {
      forall k | 1 <= k < |reqs| ensures PassesAt(env, db, start, reqs, k) {
        assert PassesAt(env, db1, n, reqs[1..], k - 1);
      }
    }
  }

  // ---- Commands -------------------------------------------------------------------------------

  /** A file after its write: all that was written, or what it was cut to. */
  predicate Carries<T(==)>(f: File<T>, w: Write<T>, v: T) {
    match w
    case Whole => f == Text(v)
    case Cut(left) => f == left
    case Reported => false
  }

  predicate IndexCarries(f: Files, luck: Luck, db: Db) {
    Carries(f.index.cur, luck.saveIndex, db.rows) && Carries(f.attr.cur, luck.saveAttr, db.unique)
  }

  lemma IndexCommitted(f: Files, db: Db, luck: Luck, between: bool)
    ensures var o := CommitIndex([f], db, luck, between);
            (o.ok <==> between && IndexReplaced(f, luck)) && (o.ok ==> IndexCarries(Top(o.seen), luck, db))
    ensures CommitIndex([f], db, luck, between).ok ==>
              Top(CommitIndex([f], db, luck, between).seen).serial == f.serial
  {
    CommitIndexExact(f, db, luck, between);
  }

  /** Expiring reports success exactly if the date of every valid row parses and, when the date of one
      has come, the index is replaced; it is left alone otherwise.  Those rows are then expired on
      disk. */
  lemma UpdateExact(env: Env, f: Files, db: Db, now: int, luck: Luck)
    ensures var p := Perform(env, f, db, Update(now, luck));
            var due := exists k :: 0 <= k < |db.rows| && Ripe(env, db.rows[k], now);
            && p.out.seen != []
            && (p.out.ok <==> (forall k :: 0 <= k < |db.rows| ==> !Unparsable(env, db.rows[k]))
                              && (due ==> IndexReplaced(f, luck)))
            && (p.out.ok ==>
                  && |p.db.rows| == |db.rows| && p.db == db.(rows := p.db.rows)
                  && (forall k :: 0 <= k < |db.rows| ==>
                        p.db.rows[k] == if Ripe(env, db.rows[k], now) then db.rows[k].(kind := EXP) else db.rows[k])
                  && if due then IndexCarries(Top(p.out.seen), luck, p.db) else p.out.seen == [f])
  {
    var (rows, n) := Expire(env, db.rows, now, 0);
    ExpireExact(env, db.rows, now, 0);
    if n != -1 {
      ExpireCount(env, db.rows, now, 0);
      var due := Due(env, db.rows, now, 0);
      if k :| 0 <= k < |db.rows| && Ripe(env, db.rows[k], now) {
        assert k in due;
      } else {
        assert due == {};
      }
      IndexCommitted(f, db.(rows := rows), luck, true);
    }
  }

  /** Revoking reports success exactly if the certificate can be revoked, as in RevokeExact, and the
      index is replaced; it then holds the table with the revocation. */
  lemma WithdrawExact(env: Env, f: Files, db: Db, c: Cert, t: RevType, arg: string, stamp: string, luck: Luck)
    ensures var p := Perform(env, f, db, Withdraw(c, t, arg, stamp, luck));
            var i := Find(db.rows, c.serial);
            && p.out.seen != []
            && (p.out.ok <==>
                  && (if i.Some? then
                        db.rows[i.value].name == NameOf(env, c) && db.rows[i.value].kind != REV
                        && t != RevType.Valid && GoodArgument(env.parsers, t, arg)
                      else
                        !(db.unique && NameOf(env, c) in db.names) && GoodArgument(env.parsers, t, arg))
                  && IndexReplaced(f, luck))
            && p.db == Revoke(env, db, c, t, arg, stamp).0
            && (p.out.ok ==> IndexCarries(Top(p.out.seen), luck, p.db))
  {
    RevokeExact(env, db, c, t, arg, stamp);
    if Find(db.rows, c.serial).Some? {
      RevokeFound(env, db, c, t, arg, stamp);
    } else {
      RevokeMissing(env, db, c, t, arg, stamp);
    }
    IndexCommitted(f, Revoke(env, db, c, t, arg, stamp).0, luck, true);
  }

  /** The files of a batch are replaced: the certificates are written, the index is replaced, and,
      unless serial numbers are random without a serial file, that file too. */
  predicate BatchReplaced(f: Files, source: Source, luck: Luck) {
    luck.certs && IndexReplaced(f, luck)
    && (!source.Random? ==> Replaced(f.serial, luck.saveSerial, luck.serial(1), luck.serial(2)))
  }

  /** What a batch leaves on disk after its last request. */
  predicate BatchCarries(f: Files, g: Files, source: Source, luck: Luck, db: Db, n: nat) {
    && IndexCarries(g, luck, db)
    && if source.Random? then g.serial == f.serial else Carries(g.serial.cur, luck.saveSerial, n)
  }

  lemma BatchCommitted(f: Files, n: nat, db: Db, source: Source, luck: Luck)
    ensures var o := if source.Random? then CommitIndex([f], db, luck, luck.certs) else CommitBoth([f], n, db, luck);
            && (o.ok <==> BatchReplaced(f, source, luck))
            && (o.ok ==> BatchCarries(f, Top(o.seen), source, luck, db, n))
  {
    if source.Random? {
      CommitIndexExact(f, db, luck, luck.certs);
    } else {
      CommitBothExact(f, n, db, luck);
    }
  }

  /** What CertifyExact says of a batch that has its start. */
  predicate Certified(env: Env, f: Files, db: Db, start: nat, reqs: seq<Request>, source: Source, agreed: bool,
                      luck: Luck, out: Outcome, db': Db)
  {
    var signed := Signed(reqs, |reqs|);
    && out.seen != []
    && (out.ok <==> Passes(env, db, start, reqs) && (signed > 0 ==> agreed && BatchReplaced(f, source, luck)))
    && (out.ok ==>
          && Entered(env, db.rows, start, reqs, db'.rows) && db'.unique == db.unique
          && if signed == 0 then out.seen == [f]
             else BatchCarries(f, Top(out.seen), source, luck, db', start + signed))
  }

  lemma CertifyEnds(env: Env, f: Files, db: Db, start: nat, reqs: seq<Request>, source: Source, agreed: bool,
                    luck: Luck, out: Outcome, written: Outcome)
    requires var (db', n, ok) := IssueAll(env, db, start, reqs);
             && (written.ok <==> BatchReplaced(f, source, luck)) && written.seen != []
             && (written.ok ==> BatchCarries(f, Top(written.seen), source, luck, db', n))
             && out == if !ok then Outcome([f], false)
                       else if n == start then Outcome([f], true)
                       else if !agreed then Outcome([f], false) else written
    ensures Certified(env, f, db, start, reqs, source, agreed, luck, out, IssueAll(env, db, start, reqs).0)
  {
    BatchExact(env, db, start, reqs);
  }

  /** Issuing reports success exactly if the serial file, where it is needed, can be read, no request
      fails, and, when one has been signed, the operator agrees and the files are replaced: they then
      hold the new table and, where a serial file is configured, the number after the last one used.
      Without a signed request nothing is written. */
  lemma CertifyExact(env: Env, f: Files, db: Db, reqs: seq<Request>, source: Source, agreed: bool, luck: Luck)
    ensures var p := Perform(env, f, db, Certify(reqs, source, agreed, luck));
            if source == FromFile && !f.serial.cur.Text? then p.out == Outcome([f], false) && p.db == db
            else Certified(env, f, db, Start(f, source), reqs, source, agreed, luck, p.out, p.db)
  {
    if source != FromFile || f.serial.cur.Text? {
      var start := Start(f, source);
      var (db', n, ok) := IssueAll(env, db, start, reqs);
      BatchCommitted(f, n, db', source, luck);
      var out := Perform(env, f, db, Certify(reqs, source, agreed, luck)).out;
      var o := if source.Random? then CommitIndex([f], db', luck, luck.certs) else CommitBoth([f], n, db', luck);
      CertifyEnds(env, f, db, start, reqs, source, agreed, luck, out, o);
    }
  }

  // ---- Runs -----------------------------------------------------------------------------------

  /** Command `k` performed on the files and the table that the one before, which reported success,
      has left. */
  predicate Link(env: Env, f: Files, db: Db, cs: seq<Command>, ps: seq<Result>, k: nat)
    requires k < |ps| <= |cs|
  {
    if k == 0 then ps[0] == Perform(env, f, db, cs[0])
    else
      && ps[k - 1].out.ok && ps[k - 1].out.seen != []
      && ps[k] == Perform(env, Top(ps[k - 1].out.seen), ps[k - 1].db, cs[k])
  }

  predicate Chain(env: Env, f: Files, db: Db, cs: seq<Command>, ps: seq<Result>) {
    |ps| <= |cs| && forall k :: 0 <= k < |ps| ==> Link(env, f, db, cs, ps, k)
  }

  lemma ChainTail(env: Env, f: Files, db: Db, cs: seq<Command>, ps: seq<Result>)
    requires Chain(env, f, db, cs, ps) && |ps| > 1
    ensures ps[0].out.ok && ps[0].out.seen != []
    ensures Chain(env, Top(ps[0].out.seen), ps[0].db, cs[1..], ps[1..])
  {
    assert Link(env, f, db, cs, ps, 1);
    forall k | 0 <= k < |ps[1..]|
      ensures Link(env, Top(ps[0].out.seen), ps[0].db, cs[1..], ps[1..], k)
    {
      assert Link(env, f, db, cs, ps, k + 1);
    }
  }

  /** The stage from which the run goes on. */
  function LastStage(st: Stage, p: Result, drawn: set<nat>): Stage
    requires p.out.seen != []
  {
    Mark(Top(p.out.seen), st.issued, drawn + p.drawn)
  }

  lemma FirstReached(env: Env, st: Stage, p: Result, rest: seq<Command>, drawn: set<nat>, m: nat)
    requires m < |p.out.seen|
    ensures var r := Follow(env, st, p, rest, drawn); m < |r| && r[m].files == p.out.seen[m]
  {
  }

  lemma LaterReached(env: Env, st: Stage, p: Result, rest: seq<Command>, drawn: set<nat>, i: nat)
    requires p.out.ok && p.out.seen != []
    requires i < |Exec(env, LastStage(st, p, drawn), p.db, rest, drawn + p.drawn)|
    ensures var r := Follow(env, st, p, rest, drawn);
            && |p.out.seen| + i < |r|
            && r[|p.out.seen| + i] == Exec(env, LastStage(st, p, drawn), p.db, rest, drawn + p.drawn)[i]
  {
  }

  lemma {:induction false} FollowReaches(env: Env, st: Stage, f: Files, db: Db, cs: seq<Command>, drawn: set<nat>,
                                         ps: seq<Result>, k: nat, m: nat) returns (i: nat)
    requires Chain(env, f, db, cs, ps) && k < |ps| && m < |ps[k].out.seen|
    ensures var r := Follow(env, st, ps[0], cs[1..], drawn); i < |r| && r[i].files == ps[k].out.seen[m]
    decreases |cs|, 0
  {
    if k == 0 {
      FirstReached(env, st, ps[0], cs[1..], drawn, m);
      i := m;
    } else {
      ChainTail(env, f, db, cs, ps);
      var last := LastStage(st, ps[0], drawn);
      i := ExecReaches(env, last, ps[0].db, cs[1..], drawn + ps[0].drawn, ps[1..], k - 1, m);
      LaterReached(env, st, ps[0], cs[1..], drawn, i);
      i := |ps[0].out.seen| + i;
    }
  }

  /** A run goes on while its commands report success, and passes through each of their file states. */
  lemma {:induction false} ExecReaches(env: Env, st: Stage, db: Db, cs: seq<Command>, drawn: set<nat>,
                                       ps: seq<Result>, k: nat, m: nat) returns (i: nat)
    requires Chain(env, st.files, db, cs, ps) && k < |ps| && m < |ps[k].out.seen|
    ensures i < |Exec(env, st, db, cs, drawn)| && Exec(env, st, db, cs, drawn)[i].files == ps[k].out.seen[m]
    decreases |cs|, 1
  {
    assert Link(env, st.files, db, cs, ps, 0);
    i := FollowReaches(env, st, st.files, db, cs, drawn, ps, k, m);
  }

  /** The program starts on every index that loads, with the table in it, and takes unique_subject from
      the attributes where they can be read. */
  lemma InvokeReaches(env: Env, st: Stage, cs: seq<Command>, unique: bool, db: Db, ps: seq<Result>, k: nat, m: nat)
    returns (i: nat)
    requires st.files.index.cur.Text?
    requires db.unique == if st.files.attr.cur.Text? then st.files.attr.cur.value else unique
    requires Load(env, st.files.index.cur.value, db.unique) == Some(db)
    requires Chain(env, st.files, db, cs, ps) && k < |ps| && m < |ps[k].out.seen|
    ensures i < |Invoke(env, st, cs, unique)| && Invoke(env, st, cs, unique)[i].files == ps[k].out.seen[m]
  {
    i := ExecReaches(env, st, db, cs, {}, ps, k, m);
  }

  /** Every state a run passes through may be the one it is stopped in, and the next run starts in. */
  lemma AfterReaches(env: Env, st: Stage, h: seq<Invocation>, cs: seq<Command>, unique: bool, i: nat)
    requires i < |Invoke(env, After(env, st, h), cs, unique)|
    ensures After(env, st, h + [Invocation(cs, unique, i)]) == Invoke(env, After(env, st, h), cs, unique)[i]
  {
    var h' := h + [Invocation(cs, unique, i)];
    assert h'[..|h'| - 1] == h;
  }
}
