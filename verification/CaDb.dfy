/** The CA database as a value: the rows of index.txt, the indexes built over them, and what issuing,
    revoking and expiring do to them (openssl-master/apps/ca.c:684-730, 1781-1933, 2099-2203,
    2272-2320; openssl-master/apps/lib/apps.c:1455-1488, 1736-1759).

    A serial number is a natural number; its two hexadecimal spellings, with and without leading
    zeros, are one number, as the comparison of the serial index makes them. */
module CaDb {
  import opened Wrappers
  import opened RevInfo

  /** One row: type, expiry date, revocation field, serial number, subject. */
  datatype Entry = Entry(kind: char, expiry: string, revoked: string, serial: nat, name: string)

  /** `names` is the name index: the subjects of the rows that were valid when they were indexed. */
  datatype Db = Db(rows: seq<Entry>, unique: bool, names: set<string>)

  /** The library functions that stay uninterpreted: the parsers of the revocation field, the
      parser of expiry dates and the printer of serial numbers. */
  datatype Env = Env(parsers: Parsers, expiry: string -> Option<int>, hex: nat -> string)

  datatype Cert = Cert(subject: string, serial: nat, expiry: string)

  const VAL := 'V'
  const REV := 'R'
  const EXP := 'E'

  // ---- Lookups --------------------------------------------------------------------------------

  /** The row of a serial number, through the serial index. */
  function Find(rows: seq<Entry>, serial: nat): (r: Option<nat>)
    ensures r.Some? ==> r.value < |rows| && rows[r.value].serial == serial
    ensures r.None? ==> forall i :: 0 <= i < |rows| ==> rows[i].serial != serial
  {
    if rows == [] then None
    else if rows[|rows| - 1].serial == serial then Some(|rows| - 1)
    else Find(rows[..|rows| - 1], serial)
  }

  predicate UniqueSerials(rows: seq<Entry>) {
    forall i, j :: 0 <= i < j < |rows| ==> rows[i].serial != rows[j].serial
  }

  lemma FindIs(rows: seq<Entry>, i: nat)
    requires UniqueSerials(rows) && i < |rows|
    ensures Find(rows, rows[i].serial) == Some(i)
  {
  }

  /** An empty subject is replaced by the printed serial number. */
  function NameOf(env: Env, c: Cert): string {
    if c.subject == "" then env.hex(c.serial) else c.subject
  }

  // ---- Loading --------------------------------------------------------------------------------

  /** The checks made on each row of a file just read. */
  predicate RowOk(env: Env, e: Entry) {
    && (e.kind != REV ==> e.revoked == "")
    && (e.kind == REV ==> Unpack(env.parsers, e.revoked).Some?)
    && env.expiry(e.expiry).Some?
  }

  predicate UniqueNames(rows: seq<Entry>) {
    forall i, j :: 0 <= i < j < |rows| && rows[i].kind == VAL && rows[j].kind == VAL ==> rows[i].name != rows[j].name
  }

  predicate Loadable(env: Env, rows: seq<Entry>, unique: bool) {
    (forall i :: 0 <= i < |rows| ==> RowOk(env, rows[i])) && UniqueSerials(rows) && (unique ==> UniqueNames(rows))
  }

  function ValidNames(rows: seq<Entry>): set<string> {
    set i | 0 <= i < |rows| && rows[i].kind == VAL :: rows[i].name
  }

  function Load(env: Env, rows: seq<Entry>, unique: bool): Option<Db> {
    if Loadable(env, rows, unique) then Some(Db(rows, unique, if unique then ValidNames(rows) else {})) else None
  }

  // ---- Issuing --------------------------------------------------------------------------------

  predicate Clash(db: Db, name: string, serial: nat) {
    (db.unique && name in db.names) || Find(db.rows, serial).Some?
  }

  function Inserted(db: Db, e: Entry): Db {
    db.(rows := db.rows + [e], names := if db.unique && e.kind == VAL then db.names + {e.name} else db.names)
  }

  /** What becomes of a request apart from the database: rejected before the database is looked at,
      refused by the operator afterwards, signed, or failing with an error. */
  datatype Verdict = Reject | Refuse | Sign | Fault

  /** The database part of do_body: 1 if the certificate was entered, 0 if the request was rejected
      or refused, -1 on an error. */
  function Issue(env: Env, db: Db, c: Cert, v: Verdict): (Db, int) {
    if v == Reject then (db, 0)
    else if Clash(db, NameOf(env, c), c.serial) || v == Fault then (db, -1)
    else if v == Refuse then (db, 0)
    else (Inserted(db, Entry(VAL, c.expiry, "", c.serial, NameOf(env, c))), 1)
  }

  // ---- Revoking -------------------------------------------------------------------------------

  /** do_revoke on a row that is present. */
  function RevokeRow(env: Env, db: Db, i: nat, name: string, t: RevType, arg: string, now: string): (Db, int)
    requires i < |db.rows|
  {
    var e := db.rows[i];
    if e.name != name || t == RevType.Valid || e.kind == REV then (db, -1)
    else match Print(env.parsers, now, t, arg)
      case None => (db, -1)
      case Some(field) => (db.(rows := db.rows[i := e.(kind := REV, revoked := field)]), 1)
  }

  /** do_revoke: a certificate that is not in the database is first added to it. */
  function Revoke(env: Env, db: Db, c: Cert, t: RevType, arg: string, now: string): (Db, int) {
    var name := NameOf(env, c);
    match Find(db.rows, c.serial)
    case Some(i) => RevokeRow(env, db, i, name, t, arg, now)
    case None =>
      if Clash(db, name, c.serial) then (db, -1)
      else
        var db' := Inserted(db, Entry(VAL, c.expiry, "", c.serial, name));
        if t == RevType.Valid then (db', 1) else RevokeRow(env, db', |db.rows|, name, t, arg, now)
  }

  // ---- Expiring -------------------------------------------------------------------------------

  /** do_updatedb from row `i` on; -1 if an expiry date does not parse, and then the rows before it
      stay changed. */
  function Expire(env: Env, rows: seq<Entry>, now: int, i: nat): (r: (seq<Entry>, int))
    requires i <= |rows|
    ensures |r.0| == |rows| && r.1 >= -1
    decreases |rows| - i
  {
    if i == |rows| then (rows, 0)
    else if rows[i].kind != VAL then Expire(env, rows, now, i + 1)
    else match env.expiry(rows[i].expiry)
      case None => (rows, -1)
      case Some(t) =>
        if t > now then Expire(env, rows, now, i + 1)
        else
          var (rows', n) := Expire(env, rows[i := rows[i].(kind := EXP)], now, i + 1);
          (rows', if n == -1 then -1 else n + 1)
  }

  // ---- Exactly what they do -------------------------------------------------------------------

  /** A file loads exactly if each row has a revocation field just when it is revoked, one that can be
      read then, and a date that parses, no two rows have one serial number, and, with unique
      subjects, no two valid rows one subject.  The name index is then that of the valid rows. */
  lemma LoadExact(env: Env, rows: seq<Entry>, unique: bool)
    ensures Load(env, rows, unique).Some? <==>
              && (forall i :: 0 <= i < |rows| ==>
                    (rows[i].kind == REV || rows[i].revoked == "") && env.expiry(rows[i].expiry).Some?
                    && (rows[i].kind == REV ==> Unpack(env.parsers, rows[i].revoked).Some?))
              && (forall i, j :: 0 <= i < |rows| && 0 <= j < |rows| && i != j ==> rows[i].serial != rows[j].serial)
              && (unique ==> forall i, j ::
                    0 <= i < |rows| && 0 <= j < |rows| && i != j && rows[i].kind == VAL && rows[j].kind == VAL ==>
                      rows[i].name != rows[j].name)
    ensures Load(env, rows, unique).Some? ==>
              var db := Load(env, rows, unique).value;
              && db.rows == rows && db.unique == unique
              && forall n ::
                   n in db.names <==> unique && exists i :: 0 <= i < |rows| && rows[i].kind == VAL && rows[i].name == n
  {
  }

  /** A request is entered exactly if it is signed with a serial number and a subject not yet used; it
      is turned down if it is rejected, or refused after those checks; anything else is an error. */
  lemma IssueExact(env: Env, db: Db, c: Cert, v: Verdict)
    ensures var (db', j) := Issue(env, db, c, v);
            var name := if c.subject == "" then env.hex(c.serial) else c.subject;
            var unused := (forall i :: 0 <= i < |db.rows| ==> db.rows[i].serial != c.serial)
                          && !(db.unique && name in db.names);
            && (j == 1 <==> v == Sign && unused)
            && (j == 0 <==> v == Reject || (v == Refuse && unused))
            && (j == -1 <==> v == Fault || (v != Reject && !unused))
            && (j == 1 ==> db' == Db(db.rows + [Entry('V', c.expiry, "", c.serial, name)], db.unique,
                                     if db.unique then db.names + {name} else db.names))
            && (j != 1 ==> db' == db)
  {
  }

  // ---- What every operation keeps -------------------------------------------------------------

  /** A revocation field is present exactly in revoked rows, serial numbers are unique, and with
      unique_subject no two valid rows share a subject. */
  predicate Sound(db: Db) {
    && UniqueSerials(db.rows)
    && (forall i :: 0 <= i < |db.rows| ==> (db.rows[i].kind == REV <==> db.rows[i].revoked != ""))
    && (db.unique ==> UniqueNames(db.rows) && ValidNames(db.rows) <= db.names)
  }

  /** What a row may turn into: itself, expired if it was valid, or revoked if it was not. */
  predicate Later(e: Entry, f: Entry) {
    || f == e
    || (e.kind == VAL && f == e.(kind := EXP))
    || (e.kind != REV && f == e.(kind := REV, revoked := f.revoked) && f.revoked != "")
  }

  /** Rows are never removed or reordered, and each only moves on. */
  predicate Follows(a: seq<Entry>, b: seq<Entry>) {
    |a| <= |b| && forall i :: 0 <= i < |a| ==> Later(a[i], b[i])
  }

  lemma FollowsTrans(a: seq<Entry>, b: seq<Entry>, c: seq<Entry>)
    requires Follows(a, b) && Follows(b, c)
    ensures Follows(a, c)
  {
    forall i | 0 <= i < |a| ensures Later(a[i], c[i]) {
      assert Later(b[i], c[i]);
    }
  }

  /** A parser that takes no empty text for a time, and a current time that is a text. */
  predicate Sane(env: Env) {
    !env.parsers.utcTime("")
  }

  predicate Stamp(now: string) {
    now != "" && ',' !in now
  }

  lemma LoadSound(env: Env, rows: seq<Entry>, unique: bool)
    requires Sane(env) && Load(env, rows, unique).Some?
    ensures Sound(Load(env, rows, unique).value)
  {
    forall i | 0 <= i < |rows| ensures rows[i].kind == REV <==> rows[i].revoked != "" {
      assert RowOk(env, rows[i]);
      assert Head("") == "";
    }
  }

  lemma InsertSound(db: Db, e: Entry)
    requires Sound(db) && !Clash(db, e.name, e.serial) && e.kind == VAL && e.revoked == ""
    ensures Sound(Inserted(db, e)) && Follows(db.rows, Inserted(db, e).rows)
  {
    var db' := Inserted(db, e);
    if db.unique {
      forall i | 0 <= i < |db.rows| && db.rows[i].kind == VAL ensures db.rows[i].name != e.name {
        assert db.rows[i].name in ValidNames(db.rows);
      }
      forall n | n in ValidNames(db'.rows) ensures n in db'.names {
        var i :| 0 <= i < |db'.rows| && db'.rows[i].kind == VAL && db'.rows[i].name == n;
        if i < |db.rows| { assert n in ValidNames(db.rows); }
      }
    }
  }

  /** Changing a row to one that is no longer valid keeps the database sound. */
  lemma ChangeSound(db: Db, i: nat, f: Entry)
    requires Sound(db) && i < |db.rows| && Later(db.rows[i], f) && f.kind != VAL
    ensures Sound(db.(rows := db.rows[i := f])) && Follows(db.rows, db.rows[i := f])
  {
    var db' := db.(rows := db.rows[i := f]);
    forall n | n in ValidNames(db'.rows) ensures n in ValidNames(db.rows) {
      var j :| 0 <= j < |db'.rows| && db'.rows[j].kind == VAL && db'.rows[j].name == n;
      assert db.rows[j].kind == VAL;
    }
  }

  lemma IssueKeeps(env: Env, db: Db, c: Cert, v: Verdict)
    requires Sound(db)
    ensures Sound(Issue(env, db, c, v).0) && Follows(db.rows, Issue(env, db, c, v).0.rows)
  {
    if Issue(env, db, c, v).1 == 1 {
      InsertSound(db, Entry(VAL, c.expiry, "", c.serial, NameOf(env, c)));
    }
  }

  lemma RevokeRowKeeps(env: Env, db: Db, i: nat, name: string, t: RevType, arg: string, now: string)
    requires Sound(db) && Stamp(now) && i < |db.rows|
    ensures var db' := RevokeRow(env, db, i, name, t, arg, now).0; Sound(db') && Follows(db.rows, db'.rows)
  {
    if RevokeRow(env, db, i, name, t, arg, now).1 == 1 {
      var field := Print(env.parsers, now, t, arg).value;
      assert field[0] == now[0];
      ChangeSound(db, i, db.rows[i].(kind := REV, revoked := field));
    }
  }

  lemma RevokeKeeps(env: Env, db: Db, c: Cert, t: RevType, arg: string, now: string)
    requires Sound(db) && Stamp(now)
    ensures var db' := Revoke(env, db, c, t, arg, now).0; Sound(db') && Follows(db.rows, db'.rows)
  {
    var name := NameOf(env, c);
    match Find(db.rows, c.serial)
    case Some(i) => RevokeRowKeeps(env, db, i, name, t, arg, now);
    case None =>
      if !Clash(db, name, c.serial) {
        var db' := Inserted(db, Entry(VAL, c.expiry, "", c.serial, name));
        InsertSound(db, Entry(VAL, c.expiry, "", c.serial, name));
        if t != RevType.Valid {
          RevokeRowKeeps(env, db', |db.rows|, name, t, arg, now);
          FollowsTrans(db.rows, db'.rows, RevokeRow(env, db', |db.rows|, name, t, arg, now).0.rows);
        }
      }
  }

  lemma ExpireKeeps(env: Env, db: Db, now: int, i: nat)
    requires Sound(db) && i <= |db.rows|
    ensures var rows := Expire(env, db.rows, now, i).0; Sound(db.(rows := rows)) && Follows(db.rows, rows)
    decreases |db.rows| - i
  {
    if i < |db.rows| {
      var e := db.rows[i];
      if e.kind == VAL && env.expiry(e.expiry).Some? && env.expiry(e.expiry).value <= now {
        var db' := db.(rows := db.rows[i := e.(kind := EXP)]);
        ChangeSound(db, i, e.(kind := EXP));
        ExpireKeeps(env, db', now, i + 1);
        FollowsTrans(db.rows, db'.rows, Expire(env, db'.rows, now, i + 1).0);
      } else if e.kind != VAL || env.expiry(e.expiry).Some? {
        ExpireKeeps(env, db, now, i + 1);
      }
    }
  }

  predicate Ripe(env: Env, e: Entry, now: int) {
    e.kind == VAL && env.expiry(e.expiry).Some? && env.expiry(e.expiry).value <= now
  }

  predicate Unparsable(env: Env, e: Entry) {
    e.kind == VAL && env.expiry(e.expiry).None?
  }

  function Due(env: Env, rows: seq<Entry>, now: int, i: nat): set<int> {
    set k | i <= k < |rows| && Ripe(env, rows[k], now)
  }

  /** The pass fails exactly if a valid row has a date that does not parse; otherwise it expires
      exactly the valid rows whose date has come. */
  lemma {:induction false} ExpireExact(env: Env, rows: seq<Entry>, now: int, i: nat)
    requires i <= |rows|
    ensures Expire(env, rows, now, i).1 == -1 <==> exists k :: i <= k < |rows| && Unparsable(env, rows[k])
    ensures Expire(env, rows, now, i).1 != -1 ==>
              forall k :: 0 <= k < |rows| ==>
                Expire(env, rows, now, i).0[k] ==
                  if i <= k && Ripe(env, rows[k], now) then rows[k].(kind := EXP) else rows[k]
    decreases |rows| - i
  {
    if i < |rows| && !Unparsable(env, rows[i]) {
      if Ripe(env, rows[i], now) {
        var rows' := rows[i := rows[i].(kind := EXP)];
        ExpireExact(env, rows', now, i + 1);
        assert forall k :: i < k < |rows| ==> rows'[k] == rows[k];
        assert forall k :: i < k < |rows| ==> Unparsable(env, rows[k]) == Unparsable(env, rows'[k]);
      } else {
        ExpireExact(env, rows, now, i + 1);
      }
    }
  }

  /** The count returned is the number of rows expired. */
  lemma {:induction false} ExpireCount(env: Env, rows: seq<Entry>, now: int, i: nat)
    requires i <= |rows| && Expire(env, rows, now, i).1 != -1
    ensures Expire(env, rows, now, i).1 == |Due(env, rows, now, i)|
    decreases |rows| - i
  {
    if i < |rows| {
      var rest := Due(env, rows, now, i + 1);
      if Ripe(env, rows[i], now) {
        var rows' := rows[i := rows[i].(kind := EXP)];
        ExpireCount(env, rows', now, i + 1);
        assert Due(env, rows', now, i + 1) == rest;
        assert Due(env, rows, now, i) == rest + {i};
      } else {
        ExpireCount(env, rows, now, i + 1);
        assert Due(env, rows, now, i) == rest;
      }
    }
  }

  // ---- When a revocation succeeds -------------------------------------------------------------

  /** do_revoke reports success exactly in these cases; only then is the database written out. */
  lemma RevokeExact(env: Env, db: Db, c: Cert, t: RevType, arg: string, now: string)
    ensures var i := Find(db.rows, c.serial);
            Revoke(env, db, c, t, arg, now).1 == 1 <==>
              if i.Some? then
                db.rows[i.value].name == NameOf(env, c) && db.rows[i.value].kind != REV
                && t != RevType.Valid && GoodArgument(env.parsers, t, arg)
              else
                !(db.unique && NameOf(env, c) in db.names) && GoodArgument(env.parsers, t, arg)
  {
    PrintsExactly(env.parsers, now, t, arg);
  }

  /** A row found has its type and revocation field replaced, and keeps the rest; the other rows stay. */
  lemma RevokeFound(env: Env, db: Db, c: Cert, t: RevType, arg: string, now: string)
    requires Find(db.rows, c.serial).Some?
    ensures var (db', j) := Revoke(env, db, c, t, arg, now);
            var (i, field) := (Find(db.rows, c.serial).value, Print(env.parsers, now, t, arg));
            && db'.unique == db.unique && db'.names == db.names && |db'.rows| == |db.rows|
            && (j == 1 || (j == -1 && db' == db)) && (j == 1 ==> field.Some?)
            && forall k :: 0 <= k < |db.rows| ==>
                 db'.rows[k] ==
                   if j == 1 && k == i then db.rows[k].(kind := REV, revoked := field.value) else db.rows[k]
  {
  }

  /** For a serial number that is not in the table a row is added: revoked if the argument was accepted,
      and still valid if no revocation was asked for or the argument was refused. */
  lemma RevokeMissing(env: Env, db: Db, c: Cert, t: RevType, arg: string, now: string)
    requires Find(db.rows, c.serial).None?
    ensures var (db', j) := Revoke(env, db, c, t, arg, now);
            var (name, field) := (NameOf(env, c), Print(env.parsers, now, t, arg));
            if db.unique && name in db.names then db' == db && j == -1
            else
              && db'.rows == db.rows + [if t != RevType.Valid && field.Some?
                                        then Entry(REV, c.expiry, field.value, c.serial, name)
                                        else Entry(VAL, c.expiry, "", c.serial, name)]
              && db'.unique == db.unique && db'.names == (if db.unique then db.names + {name} else db.names)
              && j == if t == RevType.Valid || field.Some? then 1 else -1
  {
    var e := Entry(VAL, c.expiry, "", c.serial, NameOf(env, c));
    assert (db.rows + [e])[|db.rows|] == e;
    assert forall f: Entry :: (db.rows + [e])[|db.rows| := f] == db.rows + [f];
  }

  /** After a successful revocation the row of the serial number is revoked, and its field reads
      back as what the caller said, at the time the caller said it. */
  lemma RevokedRow(env: Env, db: Db, c: Cert, t: RevType, arg: string, now: string)
    requires Sound(db) && Stamp(now) && t != RevType.Valid && Revoke(env, db, c, t, arg, now).1 == 1
    ensures var rows := Revoke(env, db, c, t, arg, now).0.rows;
            var i := Find(rows, c.serial);
            && i.Some? && rows[i.value].kind == REV && rows[i.value].name == NameOf(env, c)
            && var info := Unpack(env.parsers, rows[i.value].revoked);
            if env.parsers.utcTime(now) then info.Some? && Says(t, arg, now, info.value) else info == None
  {
    RevokeExact(env, db, c, t, arg, now);
    RoundTrip(env.parsers, now, t, arg);
    RevokeKeeps(env, db, c, t, arg, now);
    var rows := Revoke(env, db, c, t, arg, now).0.rows;
    var i := if Find(db.rows, c.serial).Some? then Find(db.rows, c.serial).value else |db.rows|;
    assert rows[i].serial == c.serial;
    FindIs(rows, i);
  }

  // ---- Runs -----------------------------------------------------------------------------------

  /** One operation of some run of the program; Reload is the next run reading the file again. */
  datatype Event =
    | Issuing(c: Cert, v: Verdict)
    | Revoking(c: Cert, t: RevType, arg: string, stamp: string)
    | Expiring(now: int)
    | Reload

  function Step(env: Env, db: Db, e: Event): Db {
    match e
    case Issuing(c, v) => Issue(env, db, c, v).0
    case Revoking(c, t, arg, stamp) => Revoke(env, db, c, t, arg, stamp).0
    case Expiring(now) => db.(rows := Expire(env, db.rows, now, 0).0)
    case Reload => match Load(env, db.rows, db.unique) case Some(db') => db' case None => db
  }

  function Run(env: Env, db: Db, es: seq<Event>): Db {
    if es == [] then db else Step(env, Run(env, db, es[..|es| - 1]), es[|es| - 1])
  }

  /** What one operation leaves. */
  predicate Makes(env: Env, db: Db, e: Event, db': Db) {
    match e
    case Issuing(c, v) => db' == Issue(env, db, c, v).0
    case Revoking(c, t, arg, stamp) => db' == Revoke(env, db, c, t, arg, stamp).0
    case Expiring(now) => db' == Db(Expire(env, db.rows, now, 0).0, db.unique, db.names)
    case Reload =>
      db' == if Loadable(env, db.rows, db.unique)
             then Db(db.rows, db.unique, if db.unique then ValidNames(db.rows) else {}) else db
  }

  /** A run makes its operations one after another, each on what the ones before have left. */
  lemma RunMakes(env: Env, db: Db, es: seq<Event>, e: Event)
    ensures Run(env, db, []) == db && Makes(env, Run(env, db, es), e, Run(env, db, es + [e]))
  {
    var all := es + [e];
    assert all[..|all| - 1] == es && all[|all| - 1] == e;
  }

  predicate Stamped(es: seq<Event>) {
    forall k :: 0 <= k < |es| && es[k].Revoking? ==> Stamp(es[k].stamp)
  }

  lemma StepKeeps(env: Env, db: Db, e: Event)
    requires Sane(env) && Sound(db) && (e.Revoking? ==> Stamp(e.stamp))
    ensures Sound(Step(env, db, e)) && Follows(db.rows, Step(env, db, e).rows)
  {
    match e
    case Issuing(c, v) => IssueKeeps(env, db, c, v);
    case Revoking(c, t, arg, stamp) => RevokeKeeps(env, db, c, t, arg, stamp);
    case Expiring(now) => ExpireKeeps(env, db, now, 0);
    case Reload => if Load(env, db.rows, db.unique).Some? { LoadSound(env, db.rows, db.unique); }
  }

  /** Over every run the database stays sound and every row only moves on. */
  lemma {:induction false} RunKeeps(env: Env, db: Db, es: seq<Event>)
    requires Sane(env) && Sound(db) && Stamped(es)
    ensures Sound(Run(env, db, es)) && Follows(db.rows, Run(env, db, es).rows)
  {
    if es != [] {
      var n := |es| - 1;
      var mid := Run(env, db, es[..n]);
      RunKeeps(env, db, es[..n]);
      StepKeeps(env, mid, es[n]);
      FollowsTrans(db.rows, mid.rows, Run(env, db, es).rows);
    }
  }

  /** Once revoked, a serial number stays revoked with the same field over every run, and a second
      revocation of it is refused. */
  lemma RevokedForEver(env: Env, db: Db, es: seq<Event>, i: nat)
    requires Sane(env) && Sound(db) && Stamped(es)
    requires i < |db.rows| && db.rows[i].kind == REV
    ensures var db' := Run(env, db, es);
            Find(db'.rows, db.rows[i].serial) == Some(i) && db'.rows[i] == db.rows[i]
    ensures forall c: Cert, t: RevType, arg: string, now: string ::
              c.serial == db.rows[i].serial ==> Revoke(env, Run(env, db, es), c, t, arg, now).1 == -1
  {
    RunKeeps(env, db, es);
    var db' := Run(env, db, es);
    assert Later(db.rows[i], db'.rows[i]);
    FindIs(db'.rows, i);
  }

  // ---- The file stays readable ----------------------------------------------------------------

  /** Rows that pass the checks of the next load. */
  predicate Readable(env: Env, rows: seq<Entry>) {
    forall i :: 0 <= i < |rows| ==> RowOk(env, rows[i])
  }

  lemma FieldReads(p: Parsers, now: string, t: RevType, arg: string)
    requires Stamp(now) && Print(p, now, t, arg).Some?
    ensures Unpack(p, Print(p, now, t, arg).value).Some? <==> p.utcTime(now)
  {
    PrintsExactly(p, now, t, arg);
    RoundTrip(p, now, t, arg);
  }

  lemma RevokeRowReadable(env: Env, db: Db, i: nat, name: string, t: RevType, arg: string, now: string)
    requires Readable(env, db.rows) && Stamp(now) && i < |db.rows|
    requires RevokeRow(env, db, i, name, t, arg, now).1 == 1
    ensures Readable(env, RevokeRow(env, db, i, name, t, arg, now).0.rows) <==> env.parsers.utcTime(now)
  {
    FieldReads(env.parsers, now, t, arg);
    var e := db.rows[i].(kind := REV, revoked := Print(env.parsers, now, t, arg).value);
    var rows := db.rows[i := e];
    assert RowOk(env, db.rows[i]);
    assert RowOk(env, e) <==> env.parsers.utcTime(now);
    assert rows[i] == e;
    assert forall k :: 0 <= k < |rows| && k != i ==> rows[k] == db.rows[k];
  }

  /** A successful revocation leaves a file that the next run can load exactly when the current
      time is printed as a UTCTime: from 2050 on the field written is refused by every later run,
      of the responder as well. */
  lemma RevokeReadable(env: Env, db: Db, c: Cert, t: RevType, arg: string, now: string)
    requires Sound(db) && Readable(env, db.rows) && Stamp(now)
    requires env.expiry(c.expiry).Some?
    requires t != RevType.Valid && Revoke(env, db, c, t, arg, now).1 == 1
    ensures var db' := Revoke(env, db, c, t, arg, now).0;
            Loadable(env, db'.rows, db'.unique) <==> env.parsers.utcTime(now)
  {
    RevokeKeeps(env, db, c, t, arg, now);
    var name := NameOf(env, c);
    match Find(db.rows, c.serial)
    case Some(i) => RevokeRowReadable(env, db, i, name, t, arg, now);
    case None =>
      var db' := Inserted(db, Entry(VAL, c.expiry, "", c.serial, name));
      assert Readable(env, db'.rows);
      RevokeRowReadable(env, db', |db.rows|, name, t, arg, now);
  }

  /** A revocation on the first day of 2050, when times are printed with 15 characters and no longer
      with the 13 of a UTCTime: it succeeds, and the index that could be loaded cannot be any more. */
  lemma RevokedIn2050()
    ensures var env := Env(Parsers(t => |t| == 13, t => |t| == 15, _ => true), _ => Some(0), _ => "01");
            var db := Db([Entry(VAL, "d", "", 1, "a")], false, {});
            var (db', j) := Revoke(env, db, Cert("a", 1, "d"), NoInfo, "", "20500101000000Z");
            Loadable(env, db.rows, false) && j == 1 && !Loadable(env, db'.rows, false)
  {
    var env := Env(Parsers(t => |t| == 13, t => |t| == 15, _ => true), _ => Some(0), _ => "01");
    var db := Db([Entry(VAL, "d", "", 1, "a")], false, {});
    var c := Cert("a", 1, "d");
    FindIs(db.rows, 0);
    assert Sound(db) && Readable(env, db.rows);
    RevokeExact(env, db, c, NoInfo, "", "20500101000000Z");
    RevokeReadable(env, db, c, NoInfo, "", "20500101000000Z");
  }

  predicate Parsable(env: Env, e: Event) {
    match e
    case Issuing(c, _) => env.expiry(c.expiry).Some?
    case Revoking(c, _, _, stamp) => Stamp(stamp) && env.parsers.utcTime(stamp) && env.expiry(c.expiry).Some?
    case Expiring(_) => true
    case Reload => true
  }

  lemma ExpireReadable(env: Env, rows: seq<Entry>, now: int, i: nat)
    requires Readable(env, rows) && i <= |rows|
    ensures Readable(env, Expire(env, rows, now, i).0) && Expire(env, rows, now, i).1 != -1
    decreases |rows| - i
  {
    if i < |rows| {
      assert RowOk(env, rows[i]);
      if rows[i].kind == VAL && env.expiry(rows[i].expiry).value <= now {
        ExpireReadable(env, rows[i := rows[i].(kind := EXP)], now, i + 1);
      } else {
        ExpireReadable(env, rows, now, i + 1);
      }
    }
  }

  lemma RevokeStaysReadable(env: Env, db: Db, c: Cert, t: RevType, arg: string, now: string)
    requires Sound(db) && Readable(env, db.rows) && Stamp(now)
    requires env.expiry(c.expiry).Some? && env.parsers.utcTime(now)
    ensures Readable(env, Revoke(env, db, c, t, arg, now).0.rows)
  {
    if t != RevType.Valid && Revoke(env, db, c, t, arg, now).1 == 1 {
      RevokeReadable(env, db, c, t, arg, now);
    }
  }

  lemma StepReadable(env: Env, db: Db, e: Event)
    requires Sound(db) && Readable(env, db.rows) && Parsable(env, e)
    ensures Readable(env, Step(env, db, e).rows) && Step(env, db, e).unique == db.unique
  {
    match e
    case Issuing(c, v) =>
    case Revoking(c, t, arg, stamp) => RevokeStaysReadable(env, db, c, t, arg, stamp);
    case Expiring(now) => ExpireReadable(env, db.rows, now, 0);
    case Reload =>
  }

  /** From a file that loads, every run whose dates parse leaves a file that loads again. */
  lemma {:induction false} RunLoads(env: Env, rows: seq<Entry>, unique: bool, es: seq<Event>)
    requires Sane(env) && Loadable(env, rows, unique)
    requires forall k :: 0 <= k < |es| ==> Parsable(env, es[k])
    ensures var db := Run(env, Load(env, rows, unique).value, es);
            Sound(db) && db.unique == unique && Loadable(env, db.rows, unique)
  {
    var db := Load(env, rows, unique).value;
    LoadSound(env, rows, unique);
    RunKeeps(env, db, es);
    if es != [] {
      var n := |es| - 1;
      RunLoads(env, rows, unique, es[..n]);
      StepReadable(env, Run(env, db, es[..n]), es[n]);
    }
  }
}
