/** Runs of the CA program over its files: each run loads the index, works on it in memory, commits
    after each command, and may be stopped anywhere (openssl-master/apps/ca.c:675-755, 830-1119,
    1275-1302). */
module CaRuns {
  import opened Wrappers
  import opened RevInfo
  import opened CaDb
  import opened CaFiles
  import opened CaTable

  // ---- Issuing a batch ------------------------------------------------------------------------

  datatype Request = Request(subject: string, expiry: string, verdict: Verdict)

  /** The certify calls of one run: the serial number advances with each certificate entered, and an
      error ends the run. */
  function IssueAll(env: Env, db: Db, serial: nat, reqs: seq<Request>): (Db, nat, bool)
    decreases |reqs|
  {
    if reqs == [] then (db, serial, true)
    else
      var (db', j) := Issue(env, db, Cert(reqs[0].subject, serial, reqs[0].expiry), reqs[0].verdict);
      if j < 0 then (db', serial, false)
      else IssueAll(env, db', if j > 0 then serial + 1 else serial, reqs[1..])
  }

  method CertifyAll(table: Table, env: Env, start: nat, reqs: seq<Request>) returns (serial: nat, ok: bool)
    requires table.Valid()
    modifies table`rows, table`names
    ensures table.Valid() && (table.Contents(), serial, ok) == IssueAll(env, old(table.Contents()), start, reqs)
  {
    serial := start;
    var i := 0;
    while i < |reqs|
      invariant i <= |reqs| && table.Valid()
      invariant IssueAll(env, old(table.Contents()), start, reqs)
             == IssueAll(env, table.Contents(), serial, reqs[i..])
    {
      assert reqs[i..][1..] == reqs[i + 1..];
      var j := table.DoBody(env, Cert(reqs[i].subject, serial, reqs[i].expiry), reqs[i].verdict);
      if j < 0 { return serial, false; }
      if j > 0 { serial := serial + 1; }
      i := i + 1;
    }
    return serial, true;
  }

  function Serials(rows: seq<Entry>): set<nat> {
    set i | 0 <= i < |rows| :: rows[i].serial
  }

  function Range(a: nat, b: nat): (r: set<nat>)
    ensures forall s :: s in r <==> a <= s < b
    decreases b - a
  {
    if a >= b then {} else {a} + Range(a + 1, b)
  }

  lemma {:induction false} IssueAllKeeps(env: Env, db: Db, serial: nat, reqs: seq<Request>)
    requires Sound(db)
    ensures var (db', n, ok) := IssueAll(env, db, serial, reqs);
            Sound(db') && Follows(db.rows, db'.rows) && serial <= n && (n == serial ==> db' == db)
    decreases |reqs|
  {
    if reqs != [] {
      var c := Cert(reqs[0].subject, serial, reqs[0].expiry);
      var (db1, j) := Issue(env, db, c, reqs[0].verdict);
      IssueKeeps(env, db, c, reqs[0].verdict);
      if j >= 0 {
        var n1 := if j > 0 then serial + 1 else serial;
        IssueAllKeeps(env, db1, n1, reqs[1..]);
        FollowsTrans(db.rows, db1.rows, IssueAll(env, db1, n1, reqs[1..]).0.rows);
      }
    }
  }

  /** A batch enters exactly the serial numbers it counted off, none of which was there before. */
  lemma {:induction false} IssueAllEnters(env: Env, db: Db, serial: nat, reqs: seq<Request>)
    ensures var (db', n, ok) := IssueAll(env, db, serial, reqs);
            && serial <= n && |db'.rows| == |db.rows| + (n - serial)
            && Serials(db'.rows) == Serials(db.rows) + Range(serial, n)
            && Serials(db.rows) !! Range(serial, n)
    decreases |reqs|
  {
    if reqs != [] {
      var c := Cert(reqs[0].subject, serial, reqs[0].expiry);
      var (db1, j) := Issue(env, db, c, reqs[0].verdict);
      if j > 0 {
        IssueAllEnters(env, db1, serial + 1, reqs[1..]);
        var e := Entry(VAL, c.expiry, "", serial, NameOf(env, c));
        assert db1.rows == db.rows + [e];
        SerialsPlus(db.rows, e);
      } else if j == 0 {
        IssueAllEnters(env, db, serial, reqs[1..]);
      }
    }
  }

  lemma SerialsPlus(rows: seq<Entry>, e: Entry)
    ensures Serials(rows + [e]) == Serials(rows) + {e.serial}
  {
    var all := rows + [e];
    assert all[|rows|] == e;
    forall s | s in Serials(rows) ensures s in Serials(all) {
      var i :| 0 <= i < |rows| && rows[i].serial == s;
      assert all[i].serial == s;
    }
  }

  // ---- Commands -------------------------------------------------------------------------------

  /** Where serial numbers come from: the serial file; a random start with the configuration's
      rand_serial; or a random start with the option -rand_serial while a serial file is configured,
      which is then overwritten. */
  datatype Source = FromFile | Random(start: nat) | RandomOverFile(start: nat)

  datatype Command =
    | Update(now: int, luck: Luck)
    | Certify(reqs: seq<Request>, source: Source, agreed: bool, luck: Luck)
    | Withdraw(c: Cert, t: RevType, arg: string, stamp: string, luck: Luck)

  /** The files seen, the table in memory, success, and the numbers drawn from the serial file. */
  datatype Result = Result(out: Outcome, db: Db, drawn: set<nat>)

  function Perform(env: Env, f: Files, db: Db, c: Command): Result {
    match c
    case Update(now, luck) =>
      var (rows, n) := Expire(env, db.rows, now, 0);
      var db' := db.(rows := rows);
      Result(if n == -1 then Outcome([f], false) else if n == 0 then Outcome([f], true)
             else CommitIndex([f], db', luck, true), db', {})
    case Withdraw(cert, t, arg, stamp, luck) =>
      var (db', j) := Revoke(env, db, cert, t, arg, stamp);
      Result(if j <= 0 then Outcome([f], false) else CommitIndex([f], db', luck, true), db', {})
    case Certify(reqs, source, agreed, luck) =>
      if source == FromFile && !f.serial.cur.Text? then Result(Outcome([f], false), db, {})
      else
        var start := if source == FromFile then f.serial.cur.value else source.start;
        var (db', n, ok) := IssueAll(env, db, start, reqs);
        Result(if !ok then Outcome([f], false)
               else if n == start then Outcome([f], true)
               else if !agreed then Outcome([f], false)
               else if source.Random? then CommitIndex([f], db', luck, luck.certs)
               else CommitBoth([f], n, db', luck),
               db', if source == FromFile then Range(start, n) else {})
  }

  /** A file state together with the serial numbers that issuing from the serial file has entered in
      the index so far. */
  datatype Stage = Stage(files: Files, issued: set<nat>)

  /** The stage of a file state, when the run has drawn the numbers `drawn` from the serial file. */
  function Mark(g: Files, issued: set<nat>, drawn: set<nat>): Stage {
    Stage(g, if g.index.cur.Text? then issued + (drawn * Serials(g.index.cur.value)) else issued)
  }

  function Marks(gs: seq<Files>, issued: set<nat>, drawn: set<nat>): (r: seq<Stage>)
    ensures |r| == |gs| && forall k :: 0 <= k < |gs| ==> r[k] == Mark(gs[k], issued, drawn)
  {
    seq(|gs|, k requires 0 <= k < |gs| => Mark(gs[k], issued, drawn))
  }

  /** The commands of one run in order, each only if the one before succeeded; `drawn` are the numbers
      the run has drawn from the serial file before. */
  function Exec(env: Env, st: Stage, db: Db, cs: seq<Command>, drawn: set<nat>): (r: seq<Stage>)
    ensures r != []
    decreases |cs|, 0
  {
    if cs == [] then [st] else Follow(env, st, Perform(env, st.files, db, cs[0]), cs[1..], drawn)
  }

  /** A command that has been performed as `p`, and the rest of the run. */
  function Follow(env: Env, st: Stage, p: Result, rest: seq<Command>, drawn: set<nat>): (r: seq<Stage>)
    ensures r != []
    decreases |rest|, 1
  {
    var stages := Marks(p.out.seen, st.issued, drawn + p.drawn);
    if stages == [] then [st]
    else if !p.out.ok then stages
    else stages + Exec(env, stages[|stages| - 1], p.db, rest, drawn + p.drawn)
  }

  /** One run of the program: without a readable index nothing happens. */
  function Invoke(env: Env, st: Stage, cs: seq<Command>, unique: bool): (r: seq<Stage>)
    ensures r != []
  {
    if !st.files.index.cur.Text? then [st]
    else
      var u := if st.files.attr.cur.Text? then st.files.attr.cur.value else unique;
      match Load(env, st.files.index.cur.value, u)
      case None => [st]
      case Some(db) => Exec(env, st, db, cs, {})
  }

  /** Runs one after another; each ends, or is stopped, in some state it passed through. */
  datatype Invocation = Invocation(cs: seq<Command>, unique: bool, stop: nat)

  function After(env: Env, st: Stage, h: seq<Invocation>): Stage {
    if h == [] then st
    else
      var last := h[|h| - 1];
      var seen := Invoke(env, After(env, st, h[..|h| - 1]), last.cs, last.unique);
      seen[if last.stop < |seen| then last.stop else |seen| - 1]
  }

  // ---- What is true of the files at every moment ----------------------------------------------

  /** The index, if it can be read, is as it was or as the command makes it. */
  predicate Shows(g: Files, before: File<seq<Entry>>, rows: seq<Entry>) {
    g.index.cur.Text? ==> g.index.cur == before || g.index.cur == Text(rows)
  }

  /** The index is there and, if it can be read, is the table in memory. */
  predicate Mirrors(f: Files, db: Db) {
    !f.index.cur.Gone? && (f.index.cur.Text? ==> f.index.cur == Text(db.rows))
  }

  predicate StampedCommand(c: Command) {
    c.Withdraw? ==> Stamp(c.stamp)
  }

  /** No index is cut short to something that can be read. */
  predicate GoodIndex(c: Command) {
    Noticed(c.luck.saveIndex)
  }

  /** What PerformStates says of one command. */
  predicate Performed(f: Files, db: Db, p: Result) {
    && p.out.seen != [] && Sound(p.db) && Follows(db.rows, p.db.rows)
    && (forall k :: 0 <= k < |p.out.seen| ==> Shows(p.out.seen[k], f.index.cur, p.db.rows))
    && (p.out.ok ==> Mirrors(Top(p.out.seen), p.db))
  }

  lemma CommitIndexShows(f: Files, db: Db, luck: Luck, between: bool)
    requires !f.index.cur.Gone? && Noticed(luck.saveIndex)
    ensures var o := CommitIndex([f], db, luck, between);
            && (forall k :: 0 <= k < |o.seen| ==> Shows(o.seen[k], f.index.cur, db.rows))
            && (o.ok ==> Mirrors(Top(o.seen), db))
  {
    CommitIndexBetween(f, db, luck, between);
    var o := CommitIndex([f], db, luck, between);
    assert forall k :: 0 <= k < |o.seen| ==> IndexBetween(f, o.seen[k], Left(luck.saveIndex, db.rows));
  }

  lemma CommitBothShows(f: Files, n: nat, db: Db, luck: Luck)
    requires !f.index.cur.Gone? && Noticed(luck.saveIndex)
    ensures var o := CommitBoth([f], n, db, luck);
            && (forall k :: 0 <= k < |o.seen| ==> Shows(o.seen[k], f.index.cur, db.rows))
            && (o.ok ==> Mirrors(Top(o.seen), db))
  {
    CommitBothBetween(f, n, db, luck);
    var o := CommitBoth([f], n, db, luck);
    var i, s := Left(luck.saveIndex, db.rows), Left(luck.saveSerial, n);
    assert forall k :: 0 <= k < |o.seen| ==> Between(f, o.seen[k], i, s);
  }

  lemma PerformStates(env: Env, f: Files, db: Db, c: Command)
    requires Sound(db) && Mirrors(f, db) && StampedCommand(c) && GoodIndex(c)
    ensures Performed(f, db, Perform(env, f, db, c))
  {
    match c
    case Update(now, luck) =>
      ExpireKeeps(env, db, now, 0);
      var (rows, n) := Expire(env, db.rows, now, 0);
      if n == 0 { ExpireNone(env, db.rows, now, 0); }
      CommitIndexShows(f, db.(rows := rows), luck, true);
    case Withdraw(cert, t, arg, stamp, luck) =>
      RevokeKeeps(env, db, cert, t, arg, stamp);
      CommitIndexShows(f, Revoke(env, db, cert, t, arg, stamp).0, luck, true);
    case Certify(reqs, source, agreed, luck) =>
      if source != FromFile || f.serial.cur.Text? {
        CertifyStates(env, f, db, c);
      }
  }

  lemma CertifyStates(env: Env, f: Files, db: Db, c: Command)
    requires Sound(db) && Mirrors(f, db) && GoodIndex(c)
    requires c.Certify? && (c.source != FromFile || f.serial.cur.Text?)
    ensures Performed(f, db, Perform(env, f, db, c))
  {
    var start := if c.source == FromFile then f.serial.cur.value else c.source.start;
    IssueAllKeeps(env, db, start, c.reqs);
    var (db', n, ok) := IssueAll(env, db, start, c.reqs);
    CommitIndexShows(f, db', c.luck, c.luck.certs);
    CommitBothShows(f, n, db', c.luck);
  }

  lemma {:induction false} ExpireNone(env: Env, rows: seq<Entry>, now: int, i: nat)
    requires i <= |rows| && Expire(env, rows, now, i).1 == 0
    ensures Expire(env, rows, now, i).0 == rows
    decreases |rows| - i
  {
    if i < |rows| && !Ripe(env, rows[i], now) && !Unparsable(env, rows[i]) {
      ExpireNone(env, rows, now, i + 1);
    }
  }

  /** An index that follows on from `base`, or none that can be read. */
  predicate IndexFollows(base: seq<Entry>, g: Files) {
    g.index.cur.Text? ==>
      UniqueSerials(g.index.cur.value) && Dated(g.index.cur.value) && Follows(base, g.index.cur.value)
  }

  predicate Dated(rows: seq<Entry>) {
    forall i :: 0 <= i < |rows| ==> (rows[i].kind == REV <==> rows[i].revoked != "")
  }

  predicate GoodCommands(cs: seq<Command>) {
    forall k :: 0 <= k < |cs| ==> StampedCommand(cs[k]) && GoodIndex(cs[k])
  }

  predicate AllFollow(base: seq<Entry>, seen: seq<Stage>) {
    forall k :: 0 <= k < |seen| ==> IndexFollows(base, seen[k].files)
  }

  lemma PerformFollows(base: seq<Entry>, st: Stage, db: Db, p: Result, drawn: set<nat>)
    requires Sound(db) && Mirrors(st.files, db) && Follows(base, db.rows)
    requires Performed(st.files, db, p)
    ensures Follows(base, p.db.rows) && AllFollow(base, Marks(p.out.seen, st.issued, drawn))
  {
    FollowsTrans(base, db.rows, p.db.rows);
    assert Dated(db.rows) && Dated(p.db.rows);
    forall k | 0 <= k < |p.out.seen| ensures IndexFollows(base, p.out.seen[k]) {
      assert Shows(p.out.seen[k], st.files.index.cur, p.db.rows);
    }
  }

  lemma AllFollowPlus(base: seq<Entry>, a: seq<Stage>, b: seq<Stage>)
    requires AllFollow(base, a) && AllFollow(base, b)
    ensures AllFollow(base, a + b)
  {
  }

  lemma {:induction false} ExecFollows(env: Env, base: seq<Entry>, st: Stage, db: Db, cs: seq<Command>, drawn: set<nat>)
    requires Sound(db) && Mirrors(st.files, db) && GoodCommands(cs)
    requires Follows(base, db.rows)
    ensures AllFollow(base, Exec(env, st, db, cs, drawn))
    decreases |cs|
  {
    if cs == [] {
      assert AllFollow(base, [st]) by { assert Dated(db.rows); }
    } else {
      var p := Perform(env, st.files, db, cs[0]);
      PerformStates(env, st.files, db, cs[0]);
      var all := drawn + p.drawn;
      PerformFollows(base, st, db, p, all);
      var stages := Marks(p.out.seen, st.issued, all);
      if p.out.ok {
        ExecFollows(env, base, stages[|stages| - 1], p.db, cs[1..], all);
        AllFollowPlus(base, stages, Exec(env, stages[|stages| - 1], p.db, cs[1..], all));
      }
    }
  }

  lemma InvokeFollows(env: Env, base: seq<Entry>, st: Stage, cs: seq<Command>, unique: bool)
    requires Sane(env) && GoodCommands(cs) && IndexFollows(base, st.files)
    ensures AllFollow(base, Invoke(env, st, cs, unique))
  {
    if st.files.index.cur.Text? {
      var u := if st.files.attr.cur.Text? then st.files.attr.cur.value else unique;
      var rows := st.files.index.cur.value;
      if Load(env, rows, u).Some? {
        LoadSound(env, rows, u);
        ExecFollows(env, base, st, Load(env, rows, u).value, cs, {});
      }
    }
  }

  predicate GoodHistory(h: seq<Invocation>) {
    forall k :: 0 <= k < |h| ==> GoodCommands(h[k].cs)
  }

  /** Whatever is run, whatever reports a failure and wherever runs are stopped, as long as no index
      is cut short to something that can still be read: if the index can be read, its serial numbers
      are unique, exactly its revoked rows have a revocation field, and each row it had is still
      there and has only moved on. */
  lemma {:induction false} IndexOnlyMovesOn(env: Env, st: Stage, h: seq<Invocation>)
    requires Sane(env) && GoodHistory(h) && st.files.index.cur.Text?
    requires UniqueSerials(st.files.index.cur.value) && Dated(st.files.index.cur.value)
    ensures IndexFollows(st.files.index.cur.value, After(env, st, h).files)
  {
    if h != [] {
      var n := |h| - 1;
      IndexOnlyMovesOn(env, st, h[..n]);
      InvokeFollows(env, st.files.index.cur.value, After(env, st, h[..n]), h[n].cs, h[n].unique);
    }
  }

  /** A revocation that is on disk when a run ends is on disk, with the same field, whenever the
      index can be read after any further runs. */
  lemma RevokedOnDisk(env: Env, st: Stage, h: seq<Invocation>, i: nat)
    requires Sane(env) && GoodHistory(h) && st.files.index.cur.Text?
    requires UniqueSerials(st.files.index.cur.value) && Dated(st.files.index.cur.value)
    requires i < |st.files.index.cur.value| && st.files.index.cur.value[i].kind == REV
    ensures var g := After(env, st, h).files;
            var e := st.files.index.cur.value[i];
            g.index.cur.Text? ==> Find(g.index.cur.value, e.serial) == Some(i) && g.index.cur.value[i] == e
  {
    IndexOnlyMovesOn(env, st, h);
    var g := After(env, st, h).files;
    if g.index.cur.Text? {
      assert Later(st.files.index.cur.value[i], g.index.cur.value[i]);
      FindIs(g.index.cur.value, i);
    }
  }

  /** Without an index that can be read no run changes anything. */
  lemma {:induction false} UnreadableStays(env: Env, st: Stage, h: seq<Invocation>)
    requires !st.files.index.cur.Text?
    ensures After(env, st, h) == st
  {
    if h != [] {
      UnreadableStays(env, st, h[..|h| - 1]);
    }
  }

  lemma FollowsCut(a: seq<Entry>, b: seq<Entry>, k: nat)
    requires Follows(a, b) && |a| <= k <= |b|
    ensures Follows(a, b[..k])
  {
    forall i | 0 <= i < |a| ensures Later(a[i], b[..k][i]) {
      assert Later(a[i], b[i]);
    }
  }

  /** A command whose index is cut short reports success all the same.  When the rows from `k` on are
      missing, the index follows on from the one before if and only if at least as many rows are left
      as there were. */
  lemma CutIndexExact(env: Env, f: Files, db: Db, c: Command, k: nat)
    requires Sound(db) && f.index.cur == Text(db.rows) && StampedCommand(c)
    requires var p := Perform(env, f, db, c);
             p.out.ok && p.db != db && k <= |p.db.rows| && c.luck.saveIndex == Cut(Text(p.db.rows[..k]))
    ensures var g := Top(Perform(env, f, db, c).out.seen);
            g.index.cur == c.luck.saveIndex.left && (IndexFollows(db.rows, g) <==> |db.rows| <= k)
  {
    var p := Perform(env, f, db, c);
    MemoryKeeps(env, f, db, c);
    IndexWritten(env, f, db, c);
    if |db.rows| <= k {
      FollowsCut(db.rows, p.db.rows, k);
    }
  }

  /** A command that has changed the table and reports success has written the index. */
  lemma IndexWritten(env: Env, f: Files, db: Db, c: Command)
    requires Sound(db) && !f.index.cur.Gone?
    ensures var p := Perform(env, f, db, c);
            p.out.ok && p.db != db ==> Top(p.out.seen).index.cur == Left(c.luck.saveIndex, p.db.rows)
  {
    var p := Perform(env, f, db, c);
    match c
    case Update(now, luck) =>
      if Expire(env, db.rows, now, 0).1 == 0 { ExpireNone(env, db.rows, now, 0); }
      CommitIndexBetween(f, p.db, luck, true);
    case Withdraw(_, _, _, _, luck) => CommitIndexBetween(f, p.db, luck, true);
    case Certify(reqs, source, _, luck) =>
      if source != FromFile || f.serial.cur.Text? {
        IssueAllKeeps(env, db, Start(f, source), reqs);
        CommitIndexBetween(f, p.db, luck, luck.certs);
        CommitBothBetween(f, IssueAll(env, db, Start(f, source), reqs).1, p.db, luck);
      }
  }

  /** The table in memory stays sound whatever happens to the files. */
  lemma MemoryKeeps(env: Env, f: Files, db: Db, c: Command)
    requires Sound(db) && StampedCommand(c)
    ensures var db' := Perform(env, f, db, c).db; Sound(db') && Follows(db.rows, db'.rows)
  {
    match c
    case Update(now, luck) => ExpireKeeps(env, db, now, 0);
    case Withdraw(cert, t, arg, stamp, luck) => RevokeKeeps(env, db, cert, t, arg, stamp);
    case Certify(reqs, source, agreed, luck) =>
      if source != FromFile || f.serial.cur.Text? {
        IssueAllKeeps(env, db, if source == FromFile then f.serial.cur.value else source.start, reqs);
      }
  }

  // ---- The serial file stays ahead ------------------------------------------------------------

  /** Every number issued from the serial file is in the index, if it can be read, and below the
      serial file's number. */
  predicate Ahead(st: Stage) {
    && (st.files.index.cur.Text? ==> st.issued <= Serials(st.files.index.cur.value))
    && Below(st.issued, st.files)
  }

  predicate Below(numbers: set<nat>, f: Files) {
    Number(f).Text? ==> forall s :: s in numbers ==> s < Number(f).value
  }

  /** The same during a run, for the table in memory and with the numbers drawn by the run. */
  predicate RunAhead(f: Files, db: Db, numbers: set<nat>) {
    Mirrors(f, db) && numbers <= Serials(db.rows) && Below(numbers, f)
  }

  /** The serial file is not overwritten with a random number, and is not cut short to something that
      can still be read. */
  predicate KeepsFile(c: Command) {
    c.Certify? ==> !c.source.RandomOverFile? && Noticed(c.luck.saveSerial)
  }

  lemma SerialsFollow(a: seq<Entry>, b: seq<Entry>)
    requires Follows(a, b)
    ensures Serials(a) <= Serials(b)
  {
    forall s | s in Serials(a) ensures s in Serials(b) {
      var i :| 0 <= i < |a| && a[i].serial == s;
      assert Later(a[i], b[i]);
    }
  }

  predicate AllAhead(seen: seq<Stage>) {
    forall k :: 0 <= k < |seen| ==> Ahead(seen[k])
  }

  /** What PerformAhead says of one command. */
  predicate StaysAhead(st: Stage, drawn: set<nat>, p: Result) {
    && AllAhead(Marks(p.out.seen, st.issued, drawn + p.drawn))
    && (p.out.ok && p.out.seen != [] ==> RunAhead(Top(p.out.seen), p.db, st.issued + drawn + p.drawn))
  }

  lemma PerformAhead(env: Env, st: Stage, db: Db, c: Command, drawn: set<nat>)
    requires Sound(db) && StampedCommand(c) && GoodIndex(c) && KeepsFile(c)
    requires RunAhead(st.files, db, st.issued + drawn)
    ensures StaysAhead(st, drawn, Perform(env, st.files, db, c))
  {
    var p := Perform(env, st.files, db, c);
    PerformStates(env, st.files, db, c);
    SerialsFollow(db.rows, p.db.rows);
    if c.Certify? && c.source == FromFile {
      if st.files.serial.cur.Text? {
        CertifyAhead(env, st, db, c, drawn);
      }
    } else {
      CommandIndexBetween(env, st.files, db, c);
      IndexAhead(st, db, p, drawn, Left(c.luck.saveIndex, p.db.rows));
    }
  }

  lemma CommandIndexBetween(env: Env, f: Files, db: Db, c: Command)
    requires !f.index.cur.Gone? && (c.Certify? ==> c.source.Random?)
    ensures var p := Perform(env, f, db, c);
            AllIndexBetween(f, p.out.seen, Left(c.luck.saveIndex, p.db.rows)) && p.drawn == {}
  {
    CommitIndexBetween(f, Perform(env, f, db, c).db, c.luck, c.Certify? ==> c.luck.certs);
  }

  lemma IndexAhead(st: Stage, db: Db, p: Result, drawn: set<nat>, i: File<seq<Entry>>)
    requires RunAhead(st.files, db, st.issued + drawn) && Serials(db.rows) <= Serials(p.db.rows)
    requires Performed(st.files, db, p) && p.drawn == {} && AllIndexBetween(st.files, p.out.seen, i)
    ensures StaysAhead(st, drawn, p)
  {
    forall k | 0 <= k < |p.out.seen| ensures Ahead(Mark(p.out.seen[k], st.issued, drawn + p.drawn)) {
      assert IndexBetween(st.files, p.out.seen[k], i) && Shows(p.out.seen[k], st.files.index.cur, p.db.rows);
    }
  }

  lemma CertifyAhead(env: Env, st: Stage, db: Db, c: Command, drawn: set<nat>)
    requires Sound(db) && GoodIndex(c) && KeepsFile(c) && RunAhead(st.files, db, st.issued + drawn)
    requires c.Certify? && c.source == FromFile && st.files.serial.cur.Text?
    ensures StaysAhead(st, drawn, Perform(env, st.files, db, c))
  {
    var p := Perform(env, st.files, db, c);
    var start := st.files.serial.cur.value;
    var n := IssueAll(env, db, start, c.reqs).1;
    IssueAllKeeps(env, db, start, c.reqs);
    IssueAllEnters(env, db, start, c.reqs);
    CertifyBetween(env, st.files, db, c);
    PerformStates(env, st.files, db, c);
    var i, s := Left(c.luck.saveIndex, p.db.rows), Left(c.luck.saveSerial, n);
    forall k | 0 <= k < |p.out.seen| ensures Ahead(Mark(p.out.seen[k], st.issued, drawn + p.drawn)) {
      assert Between(st.files, p.out.seen[k], i, s);
      BetweenAhead(st, p.out.seen[k], db, p.db.rows, start, n, i, s, drawn);
    }
    if p.out.ok {
      EndsAhead(st.files, Top(p.out.seen), db, p.db, start, n, s, st.issued + drawn);
      assert st.issued + drawn + p.drawn == (st.issued + drawn) + Range(start, n);
    }
  }

  lemma EndsAhead(f: Files, g: Files, db: Db, db': Db, start: nat, n: nat, s: File<nat>, numbers: set<nat>)
    requires RunAhead(f, db, numbers) && f.serial.cur == Text(start) && start <= n && Mirrors(g, db')
    requires Serials(db'.rows) == Serials(db.rows) + Range(start, n) && (s.Text? ==> s == Text(n))
    requires if n == start then g == f else Number(g) == s
    ensures RunAhead(g, db', numbers + Range(start, n))
  {
  }

  function Start(f: Files, source: Source): nat
    requires source == FromFile ==> f.serial.cur.Text?
  {
    if source == FromFile then f.serial.cur.value else source.start
  }

  /** What a batch that writes the serial file passes through, and where it ends if it reports
      success. */
  lemma CertifyBetween(env: Env, f: Files, db: Db, c: Command)
    requires !f.index.cur.Gone? && c.Certify? && !c.source.Random? && (c.source == FromFile ==> f.serial.cur.Text?)
    ensures var p := Perform(env, f, db, c);
            var start := Start(f, c.source);
            var n := IssueAll(env, db, start, c.reqs).1;
            && AllBetween(f, p.out.seen, Left(c.luck.saveIndex, p.db.rows), Left(c.luck.saveSerial, n))
            && (p.out.ok ==> if n == start then Top(p.out.seen) == f
                             else Number(Top(p.out.seen)) == Left(c.luck.saveSerial, n))
  {
    var n := IssueAll(env, db, Start(f, c.source), c.reqs).1;
    CommitBothBetween(f, n, Perform(env, f, db, c).db, c.luck);
  }

  lemma BetweenAhead(st: Stage, g: Files, db: Db, rows: seq<Entry>, start: nat, n: nat,
                     i: File<seq<Entry>>, s: File<nat>, drawn: set<nat>)
    requires RunAhead(st.files, db, st.issued + drawn) && st.files.serial.cur == Text(start) && start <= n
    requires Serials(rows) == Serials(db.rows) + Range(start, n) && Serials(db.rows) !! Range(start, n)
    requires (i.Text? ==> i == Text(rows)) && (s.Text? ==> s == Text(n))
    requires Between(st.files, g, i, s)
    ensures Ahead(Mark(g, st.issued, drawn + Range(start, n)))
  {
  }

  lemma RunAheadLast(st: Stage, p: Result, drawn: set<nat>, stages: seq<Stage>)
    requires p.out.seen != [] && p.out.ok && StaysAhead(st, drawn, p)
    requires stages == Marks(p.out.seen, st.issued, drawn + p.drawn)
    ensures var last := stages[|stages| - 1];
            RunAhead(last.files, p.db, last.issued + (drawn + p.drawn)) && last.files == Top(p.out.seen)
  {
    var last := stages[|stages| - 1];
    assert last.issued + (drawn + p.drawn) == st.issued + drawn + p.drawn;
  }

  lemma {:induction false} ExecAhead(env: Env, st: Stage, db: Db, cs: seq<Command>, drawn: set<nat>)
    requires Sound(db) && GoodCommands(cs) && RunAhead(st.files, db, st.issued + drawn)
    requires forall k :: 0 <= k < |cs| ==> KeepsFile(cs[k])
    ensures AllAhead(Exec(env, st, db, cs, drawn))
    decreases |cs|
  {
    if cs != [] {
      var p := Perform(env, st.files, db, cs[0]);
      PerformStates(env, st.files, db, cs[0]);
      PerformAhead(env, st, db, cs[0], drawn);
      var all := drawn + p.drawn;
      var stages := Marks(p.out.seen, st.issued, all);
      if p.out.ok {
        RunAheadLast(st, p, drawn, stages);
        ExecAhead(env, stages[|stages| - 1], p.db, cs[1..], all);
      }
    }
  }

  /** Over any history in which no run overwrites the serial file with a random number and no write
      is cut short to something that can still be read, at every moment: each serial number issued
      from the file is below the number in the file, even when a run fails or stops between the
      renames. */
  lemma {:induction false} SerialFileAhead(env: Env, st: Stage, h: seq<Invocation>)
    requires Sane(env) && GoodHistory(h) && Ahead(st)
    requires forall k, j :: 0 <= k < |h| && 0 <= j < |h[k].cs| ==> KeepsFile(h[k].cs[j])
    ensures Ahead(After(env, st, h))
  {
    if h != [] {
      var n := |h| - 1;
      SerialFileAhead(env, st, h[..n]);
      var mid := After(env, st, h[..n]);
      if mid.files.index.cur.Text? {
        var u := if mid.files.attr.cur.Text? then mid.files.attr.cur.value else h[n].unique;
        var rows := mid.files.index.cur.value;
        if Load(env, rows, u).Some? {
          LoadSound(env, rows, u);
          ExecAhead(env, mid, Load(env, rows, u).value, h[n].cs, {});
        }
      }
    }
  }

  // ---- Where it falls behind ------------------------------------------------------------------

  /** A batch from the file whose serial file is cut short reports success all the same; the file is
      still ahead if and only if what is left cannot be read or reads as no smaller number. */
  lemma CutSerialExact(env: Env, st: Stage, db: Db, c: Command)
    requires Sound(db) && st.files.index.cur == Text(db.rows) && Ahead(st)
    requires c.Certify? && c.source == FromFile && st.files.serial.cur.Text?
    requires c.luck.saveSerial.Cut? && c.luck.saveIndex.Whole?
    ensures var p := Perform(env, st.files, db, c);
            var left := c.luck.saveSerial.left;
            var n := st.files.serial.cur.value + (|p.db.rows| - |db.rows|);
            p.out.ok && p.db != db ==>
              && Top(p.out.seen).serial.cur == left && Top(p.out.seen).index.cur == Text(p.db.rows)
              && (Ahead(Mark(Top(p.out.seen), st.issued, p.drawn)) <==> !left.Text? || left.value >= n)
  {
    var p := Perform(env, st.files, db, c);
    var start := st.files.serial.cur.value;
    var n := IssueAll(env, db, start, c.reqs).1;
    IssueAllKeeps(env, db, start, c.reqs);
    IssueAllEnters(env, db, start, c.reqs);
    CommitBothBetween(st.files, n, p.db, c.luck);
    if p.out.ok && p.db != db {
      assert n - 1 in Range(start, n);
    }
  }

  /** With -rand_serial given as an option the serial file is not read but is overwritten: wherever
      the run stops, the file is still ahead if and only if it has not been overwritten or the random
      numbers begin above all that it had issued. */
  lemma OverwrittenFileAhead(env: Env, st: Stage, db: Db, c: Command, k: nat)
    requires Sound(db) && st.files.index.cur == Text(db.rows) && Ahead(st)
    requires c.Certify? && c.source.RandomOverFile? && !c.luck.saveSerial.Cut? && !c.luck.saveIndex.Cut?
    requires k < |Perform(env, st.files, db, c).out.seen|
    ensures var p := Perform(env, st.files, db, c);
            var g := p.out.seen[k];
            Ahead(Mark(g, st.issued, p.drawn)) <==>
              Number(g) == Number(st.files) || forall s :: s in st.issued ==> s < c.source.start
  {
    var p := Perform(env, st.files, db, c);
    var start := c.source.start;
    var n := IssueAll(env, db, start, c.reqs).1;
    IssueAllKeeps(env, db, start, c.reqs);
    IssueAllEnters(env, db, start, c.reqs);
    CertifyBetween(env, st.files, db, c);
    var i, s := Left(c.luck.saveIndex, p.db.rows), Left(c.luck.saveSerial, n);
    assert Between(st.files, p.out.seen[k], i, s);
    if c.luck.saveSerial.Reported? { ReportedStays(env, st.files, db, c, k); }
    OverwrittenAt(st, p.out.seen[k], db, p.db.rows, start, n, i, s);
  }

  /** A serial file whose write was reported as failed is never rotated into place. */
  lemma ReportedStays(env: Env, f: Files, db: Db, c: Command, k: nat)
    requires c.Certify? && c.luck.saveSerial.Reported? && !c.source.Random?
    requires k < |Perform(env, f, db, c).out.seen|
    ensures Number(Perform(env, f, db, c).out.seen[k]) == Number(f)
  {
  }

  /** A batch of random numbers that reports success leaves the number after its last one in the file. */
  lemma OverwrittenEnd(env: Env, f: Files, db: Db, c: Command)
    requires Sound(db) && !f.index.cur.Gone?
    requires c.Certify? && c.source.RandomOverFile? && !c.luck.saveSerial.Cut?
    ensures var p := Perform(env, f, db, c);
            p.out.ok && p.db != db ==> Number(Top(p.out.seen)) == Text(c.source.start + (|p.db.rows| - |db.rows|))
  {
    IssueAllKeeps(env, db, c.source.start, c.reqs);
    IssueAllEnters(env, db, c.source.start, c.reqs);
    CertifyBetween(env, f, db, c);
  }

  lemma OverwrittenAt(st: Stage, g: Files, db: Db, rows: seq<Entry>, start: nat, n: nat,
                      i: File<seq<Entry>>, s: File<nat>)
    requires st.files.index.cur == Text(db.rows) && Ahead(st) && start <= n && (n == start ==> rows == db.rows)
    requires Serials(rows) == Serials(db.rows) + Range(start, n) && Serials(db.rows) !! Range(start, n)
    requires (i.Text? ==> i == Text(rows)) && Between(st.files, g, i, s)
    requires s == Text(n) || Number(g) == Number(st.files)
    ensures Ahead(Mark(g, st.issued, {})) <==>
              Number(g) == Number(st.files) || forall s :: s in st.issued ==> s < start
  {
  }

  /** If the number in the serial file is already in the index, a batch from the file enters nothing:
      it fails at the first request that is not rejected outright, and the files stay as they are. */
  lemma {:induction false} StuckSerial(env: Env, f: Files, db: Db, reqs: seq<Request>, agreed: bool, luck: Luck)
    requires f.serial.cur.Text? && Find(db.rows, f.serial.cur.value).Some?
    ensures var p := Perform(env, f, db, Certify(reqs, FromFile, agreed, luck));
            p.out.seen == [f] && p.db == db && (p.out.ok <==> forall k :: 0 <= k < |reqs| ==> reqs[k].verdict == Reject)
  {
    StuckBatch(env, db, f.serial.cur.value, reqs);
  }

  lemma {:induction false} StuckBatch(env: Env, db: Db, n: nat, reqs: seq<Request>)
    requires Find(db.rows, n).Some?
    ensures var (db', n', ok) := IssueAll(env, db, n, reqs);
            db' == db && n' == n && (ok <==> forall k :: 0 <= k < |reqs| ==> reqs[k].verdict == Reject)
  {
    if reqs != [] && reqs[0].verdict == Reject {
      StuckBatch(env, db, n, reqs[1..]);
      assert forall k :: 0 < k < |reqs| ==> reqs[k] == reqs[1..][k - 1];
    }
  }

  // ---- Runs in which it does ------------------------------------------------------------------

  /** Parsers that take every text but the empty one, and operations that all succeed. */
  const PLAIN := Env(Parsers(t => t != "", _ => true, _ => true), _ => Some(0), _ => "x")

  const SMOOTH := Luck(Whole, Whole, Whole, true, _ => true, _ => true)

  function OneRequest(source: Source, luck: Luck): Command {
    Certify([Request("a", "d", Sign)], source, true, luck)
  }

  function Issued(serial: nat): Entry {
    Entry(VAL, "d", "", serial, "a")
  }

  function Fresh(index: seq<Entry>, serial: nat): Files {
    Files(Slot(Text(serial), Gone, Gone), Slot(Text(index), Gone, Gone), Slot(Text(false), Gone, Gone))
  }

  lemma OneEntered(env: Env, rows: seq<Entry>, start: nat)
    requires Find(rows, start).None?
    ensures var db := Db(rows, false, {});
            IssueAll(env, db, start, [Request("a", "d", Sign)])
            == (db.(rows := rows + [Issued(start)]), start + 1, true)
  {
    var db := Db(rows, false, {});
    var reqs := [Request("a", "d", Sign)];
    assert reqs[1..] == [];
    assert Issue(env, db, Cert("a", start, "d"), Sign) == (db.(rows := rows + [Issued(start)]), 1);
  }

  predicate OneMore(f: Files, rows: seq<Entry>, start: nat, luck: Luck) {
    && f.index.cur == Text(rows + [Issued(start)]) && f.attr.cur == Text(false)
    && f.serial.cur == Left(luck.saveSerial, start + 1)
  }

  lemma CertifyIs(env: Env, f: Files, db: Db, c: Command, db': Db, n: nat)
    requires c.Certify? && c.agreed && !c.source.Random? && (c.source == FromFile ==> f.serial.cur.Text?)
    requires n != Start(f, c.source) && IssueAll(env, db, Start(f, c.source), c.reqs) == (db', n, true)
    ensures Perform(env, f, db, c) ==
              Result(CommitBoth([f], n, db', c.luck), db',
                     if c.source == FromFile then Range(Start(f, c.source), n) else {})
  {
  }

  lemma OnePerformed(env: Env, f: Files, rows: seq<Entry>, source: Source, luck: Luck)
    requires f.index.cur == Text(rows) && f.serial.cur.Text? && !source.Random? && Find(rows, Start(f, source)).None?
    requires luck == SMOOTH.(saveSerial := luck.saveSerial) && Left(luck.saveSerial, 0).Text?
    ensures var start := Start(f, source);
            var p := Perform(env, f, Db(rows, false, {}), OneRequest(source, luck));
            && p.out.seen != [] && p.drawn == (if source == FromFile then {start} else {})
            && OneMore(Top(p.out.seen), rows, start, luck)
  {
    var start := Start(f, source);
    var db := Db(rows, false, {});
    OneEntered(env, rows, start);
    CertifyIs(env, f, db, OneRequest(source, luck), db.(rows := rows + [Issued(start)]), start + 1);
    CommitBothExact(f, start + 1, db.(rows := rows + [Issued(start)]), luck);
    assert Range(start, start + 1) == {start};
  }

  /** A run passes through the last file state of its first command. */
  lemma FirstRun(env: Env, st: Stage, c: Command, unique: bool, rows: seq<Entry>, db: Db, p: Result)
    requires st.files.index.cur == Text(rows) && st.files.attr.cur == Text(unique)
    requires Load(env, rows, unique) == Some(db)
    requires Perform(env, st.files, db, c) == p && p.out.seen != []
    ensures Mark(Top(p.out.seen), st.issued, p.drawn) in Invoke(env, st, [c], unique)
  {
    var stages := Marks(p.out.seen, st.issued, {} + p.drawn);
    assert {} + p.drawn == p.drawn;
    assert Exec(env, st, db, [c], {}) == Follow(env, st, p, [c][1..], {});
    assert Follow(env, st, p, [c][1..], {})[|stages| - 1] == stages[|stages| - 1];
  }

  lemma OneIssued(env: Env, st: Stage, rows: seq<Entry>, source: Source, luck: Luck) returns (g: Stage)
    requires st.files.index.cur == Text(rows) && st.files.serial.cur.Text? && st.files.attr.cur == Text(false)
    requires Loadable(env, rows, false) && !source.Random? && Find(rows, Start(st.files, source)).None?
    requires luck == SMOOTH.(saveSerial := luck.saveSerial) && Left(luck.saveSerial, 0).Text?
    ensures var start := Start(st.files, source);
            && g in Invoke(env, st, [OneRequest(source, luck)], false)
            && OneMore(g.files, rows, start, luck) && g.issued == st.issued + if source == FromFile then {start} else {}
  {
    OnePerformed(env, st.files, rows, source, luck);
    var db := Db(rows, false, {});
    var p := Perform(env, st.files, db, OneRequest(source, luck));
    FirstRun(env, st, OneRequest(source, luck), false, rows, db, p);
    g := Mark(Top(p.out.seen), st.issued, p.drawn);
    MarkEntered(g.files, rows, Start(st.files, source), st.issued, p.drawn);
  }

  lemma MarkEntered(f: Files, rows: seq<Entry>, start: nat, issued: set<nat>, drawn: set<nat>)
    requires f.index.cur == Text(rows + [Issued(start)]) && drawn <= {start}
    ensures Mark(f, issued, drawn) == Stage(f, issued + drawn)
  {
    SerialsPlus(rows, Issued(start));
  }

  /** The serial file holds 0x1234 and is cut to its first byte after one more certificate: 0x1234
      has been issued and the file says 0x12. */
  lemma ShortSerial() returns (g: Stage)
    ensures var st := Stage(Fresh([], 0x1234), {});
            var c := OneRequest(FromFile, SMOOTH.(saveSerial := Cut(Text(0x12))));
            && Ahead(st) && g in Invoke(PLAIN, st, [c], false)
            && g.issued == {0x1234} && Number(g.files) == Text(0x12) && !Ahead(g)
  {
    var st := Stage(Fresh([], 0x1234), {});
    g := OneIssued(PLAIN, st, [], FromFile, SMOOTH.(saveSerial := Cut(Text(0x12))));
  }

  lemma OneExpired(f: Files, db: Db, luck: Luck)
    requires luck == SMOOTH.(saveIndex := Cut(Text([]))) && !f.index.cur.Gone?
    requires Expire(PLAIN, db.rows, 0, 0).1 > 0
    ensures var out := Perform(PLAIN, f, db, Update(0, luck)).out;
            out.seen != [] && Top(out.seen).index.cur == Text([])
  {
    CommitIndexBetween(f, db.(rows := Expire(PLAIN, db.rows, 0, 0).0), luck, true);
  }

  /** An index of a revoked and a valid row is cut to nothing when the valid row expires: the
      revocation is gone. */
  lemma ShortIndex() returns (g: Stage)
    ensures var rows := [Entry(REV, "d", "t", 1, "a"), Issued(2)];
            var c := Update(0, SMOOTH.(saveIndex := Cut(Text([]))));
            && UniqueSerials(rows) && Dated(rows)
            && g in Invoke(PLAIN, Stage(Fresh(rows, 3), {}), [c], false) && g.files.index.cur == Text([])
  {
    var rows := [Entry(REV, "d", "t", 1, "a"), Issued(2)];
    var st := Stage(Fresh(rows, 3), {});
    var luck := SMOOTH.(saveIndex := Cut(Text([])));
    ExpireExact(PLAIN, rows, 0, 0);
    ExpireCount(PLAIN, rows, 0, 0);
    assert Due(PLAIN, rows, 0, 0) == {1};
    var db := Db(rows, false, {});
    OneExpired(st.files, db, luck);
    var p := Perform(PLAIN, st.files, db, Update(0, luck));
    FirstRun(PLAIN, st, Update(0, luck), false, rows, db, p);
    g := Mark(Top(p.out.seen), st.issued, p.drawn);
  }

  lemma SmallIndexes()
    ensures Loadable(PLAIN, [Issued(5)], false) && Find([Issued(5)], 3).None?
    ensures Loadable(PLAIN, [Issued(5)] + [Issued(3)], false) && Find([Issued(5)] + [Issued(3)], 4).None?
    ensures Find([Issued(5)] + [Issued(3)] + [Issued(4)], 5).Some?
  {
    FindIs([Issued(5)] + [Issued(3)] + [Issued(4)], 0);
  }

  /** The index holds 5 and the serial file 6.  One certificate with the random number 3 leaves the
      file at 4, behind what it has issued, and one more from the file leaves it at 5, where
      StuckSerial applies. */
  lemma OverwrittenSticks() returns (behind: Stage, stuck: Stage)
    ensures var st := Stage(Fresh([Issued(5)], 6), {5});
            && Ahead(st) && !Ahead(behind)
            && behind in Invoke(PLAIN, st, [OneRequest(RandomOverFile(3), SMOOTH)], false)
            && stuck in Invoke(PLAIN, behind, [OneRequest(FromFile, SMOOTH)], false)
            && stuck.files.index.cur.Text? && stuck.files.serial.cur == Text(5)
            && Find(stuck.files.index.cur.value, 5).Some?
  {
    var st := Stage(Fresh([Issued(5)], 6), {5});
    SmallIndexes();
    assert [Issued(5)][0].serial == 5;
    behind := OneIssued(PLAIN, st, [Issued(5)], RandomOverFile(3), SMOOTH);
    assert 5 in behind.issued;
    stuck := OneIssued(PLAIN, behind, [Issued(5)] + [Issued(3)], FromFile, SMOOTH);
  }
}
