/** The CA database in the form ca.c keeps it: rows that are overwritten in place, looked up through
    an index.  Each method is proved to do to the table what the function of the same operation in
    module CaDb does to its value. */
module CaTable {
  import opened Wrappers
  import opened RevInfo
  import opened CaDb

  class Row {
    var kind: char
    var expiry: string
    var revoked: string
    const serial: nat
    const name: string

    constructor (kind: char, expiry: string, revoked: string, serial: nat, name: string)
      ensures Value() == Entry(kind, expiry, revoked, serial, name)
    {
      this.kind, this.expiry, this.revoked, this.serial, this.name := kind, expiry, revoked, serial, name;
    }

    function Value(): Entry
      reads this
    {
      Entry(kind, expiry, revoked, serial, name)
    }
  }

  class Table {
    var rows: seq<Row>
    var unique: bool
    var names: set<string>

    ghost predicate Valid()
      reads this
    {
      forall i, j :: 0 <= i < j < |rows| ==> rows[i] != rows[j]
    }

    ghost function Rows(): (r: seq<Entry>)
      reads this, rows
      ensures |r| == |rows| && forall i :: 0 <= i < |rows| ==> r[i] == rows[i].Value()
    {
      seq(|rows|, i requires 0 <= i < |rows| reads this, rows => rows[i].Value())
    }

    ghost function Contents(): Db
      reads this, rows
    {
      Db(Rows(), unique, names)
    }

    constructor (rows: seq<Row>, unique: bool)
      requires forall i, j :: 0 <= i < j < |rows| ==> rows[i] != rows[j]
      ensures Valid() && this.rows == rows && this.unique == unique && names == {}
    {
      this.rows, this.unique, this.names := rows, unique, {};
    }

    /** TXT_DB_get_by_index on the serial number. */
    method Lookup(serial: nat) returns (i: Option<nat>)
      ensures i == Find(Rows(), serial)
    {
      var k := |rows|;
      ghost var all := Rows();
      assert all[..k] == all;
      while k > 0
        invariant 0 <= k <= |rows|
        invariant Find(all, serial) == Find(all[..k], serial)
      {
        k := k - 1;
        assert all[..k + 1][..k] == all[..k];
        if rows[k].serial == serial {
          return Some(k);
        }
      }
      return None;
    }

    /** The checks of a file just read, and the building of its indexes; on failure the run ends. */
    method Index(env: Env) returns (ok: bool)
      requires Valid() && names == {}
      modifies this`names
      ensures ok <==> Load(env, old(Rows()), old(unique)).Some?
      ensures ok ==> Contents() == Load(env, old(Rows()), old(unique)).value
    {
      ghost var all := Rows();
      var i := 0;
      while i < |rows|
        invariant i <= |rows|
        invariant forall k :: 0 <= k < i ==> RowOk(env, all[k])
      {
        assert rows[i].Value() == all[i];
        if rows[i].kind != REV && rows[i].revoked != "" { return false; }
        if rows[i].kind == REV {
          var info := Unpack(env.parsers, rows[i].revoked);
          if info.None? { return false; }
        }
        if env.expiry(rows[i].expiry).None? { return false; }
        i := i + 1;
      }
      ok := IndexSerials();
      if !ok { return; }
      if unique {
        ok := IndexNames();
      }
    }

    /** The serial number index cannot be built over two rows with one number. */
    method IndexSerials() returns (ok: bool)
      ensures ok <==> UniqueSerials(Rows())
    {
      ghost var all := Rows();
      var seen: set<nat> := {};
      for i := 0 to |rows|
        invariant seen == set k | 0 <= k < i :: all[k].serial
        invariant UniqueSerials(all[..i])
      {
        if rows[i].serial in seen {
          ghost var k :| 0 <= k < i && all[k].serial == all[i].serial;
          return false;
        }
        seen := seen + {rows[i].serial};
      }
      assert all[..|rows|] == all;
      return true;
    }

    /** The name index takes in the valid rows only. */
    method IndexNames() returns (ok: bool)
      requires names == {}
      modifies this`names
      ensures ok <==> UniqueNames(Rows())
      ensures ok ==> names == ValidNames(Rows())
    {
      ghost var all := Rows();
      for i := 0 to |rows|
        invariant names == ValidNames(all[..i])
        invariant UniqueNames(all[..i])
      {
        assert rows[i].Value() == all[i];
        NamesStep(all, i);
        if rows[i].kind == VAL {
          if rows[i].name in names {
            ghost var k :| 0 <= k < i && all[..i][k].kind == VAL && all[..i][k].name == all[i].name;
            assert all[k].kind == VAL && all[k].name == all[i].name;
            return false;
          }
          names := names + {rows[i].name};
        }
      }
      assert all[..|rows|] == all;
      return true;
    }

    /** TXT_DB_insert of a new valid row: refused if its number, or with unique subjects its name,
        is indexed already. */
    method Insert(e: Entry) returns (ok: bool)
      requires Valid() && e.kind == VAL
      modifies this`rows, this`names
      ensures Valid() && ok == !Clash(old(Contents()), e.name, e.serial)
      ensures Contents() == if ok then Inserted(old(Contents()), e) else old(Contents())
      ensures if ok then |rows| == |old(rows)| + 1 && rows[..|old(rows)|] == old(rows) && fresh(rows[|old(rows)|])
              else rows == old(rows)
    {
      var at := Lookup(e.serial);
      ok := !(unique && e.name in names) && at.None?;
      if ok {
        var row := new Row(e.kind, e.expiry, e.revoked, e.serial, e.name);
        rows := rows + [row];
        if unique { names := names + {e.name}; }
        assert Rows() == old(Rows()) + [e];
      }
    }

    /** The database part of do_body. */
    method DoBody(env: Env, c: Cert, v: Verdict) returns (ok: int)
      requires Valid()
      modifies this`rows, this`names
      ensures Valid() && (Contents(), ok) == Issue(env, old(Contents()), c, v)
    {
      if v == Reject { return 0; }
      var name := if c.subject == "" then env.hex(c.serial) else c.subject;
      if unique && name in names { return -1; }
      var clash := Lookup(c.serial);
      if clash.Some? { return -1; }
      if v == Refuse { return 0; }
      if v == Fault { return -1; }
      var inserted := Insert(Entry(VAL, c.expiry, "", c.serial, name));
      return if inserted then 1 else -1;
    }

    /** The row that do_revoke found. */
    method RevokeAt(env: Env, i: nat, name: string, t: RevType, arg: string, now: string) returns (ok: int)
      requires Valid() && i < |rows| && '\0' !in now && '\0' !in arg
      modifies rows[i]
      ensures Valid() && (Contents(), ok) == RevokeRow(env, old(Contents()), i, name, t, arg, now)
    {
      var row := rows[i];
      if name != row.name { return -1; }
      if t == RevType.Valid { return -1; }
      if row.kind == REV { return -1; }
      var field := MakeRevocationStr(env.parsers, now, t, arg);
      if field.None? { return -1; }
      row.kind := REV;
      row.revoked := field.value;
      assert Rows() == old(Rows())[i := old(row.Value()).(kind := REV, revoked := field.value)];
      return 1;
    }

    /** do_revoke.  After adding a row that was missing it calls itself once. */
    method DoRevoke(env: Env, c: Cert, t: RevType, arg: string, now: string) returns (ok: int)
      requires Valid() && '\0' !in now && '\0' !in arg
      modifies this`rows, this`names, rows
      ensures Valid() && (Contents(), ok) == Revoke(env, old(Contents()), c, t, arg, now)
      decreases Find(Rows(), c.serial).None?
    {
      var name := if c.subject == "" then env.hex(c.serial) else c.subject;
      var at := Lookup(c.serial);
      if at.None? {
        var inserted := Insert(Entry(VAL, c.expiry, "", c.serial, name));
        if !inserted { return -1; }
        if t == RevType.Valid { return 1; }
        assert Find(Rows(), c.serial) == Some(|old(rows)|);
        ok := DoRevoke(env, c, t, arg, now);
      } else {
        ok := RevokeAt(env, at.value, name, t, arg, now);
      }
    }

    /** One pass of the loop: 1 if the row was expired, -1 if its date does not parse. */
    method UpdateRow(env: Env, now: int, i: nat) returns (j: int)
      requires Valid() && i < |rows|
      modifies rows
      ensures j == Update(env, old(Rows())[i], now).1
      ensures Valid() && Contents() == old(Contents()).(rows := old(Rows())[i := Update(env, old(Rows())[i], now).0])
    {
      ghost var before := Rows();
      var row := rows[i];
      assert row.Value() == before[i];
      j := 0;
      if row.kind == VAL {
        var date := env.expiry(row.expiry);
        if date.None? {
          j := -1;
        } else if date.value <= now {
          row.kind := EXP;
          j := 1;
        }
      }
      assert Rows() == before[i := Update(env, before[i], now).0];
    }

    method UpdateNext(env: Env, now: int, i: nat, ghost count: nat, ghost goal: (seq<Entry>, int)) returns (j: int)
      requires Valid() && i < |rows| && goal == Counted(Expire(env, Rows(), now, i), count)
      modifies rows
      ensures Valid() && -1 <= j
      ensures if j == -1 then goal == (Rows(), -1) else goal == Counted(Expire(env, Rows(), now, i + 1), count + j)
    {
      ghost var was := Rows();
      j := UpdateRow(env, now, i);
      assert Rows() == was[i := Update(env, was[i], now).0];
      CountedStep(env, was, now, i, count, goal);
    }

    /** do_updatedb. */
    method DoUpdateDb(env: Env, now: int) returns (count: int)
      requires Valid()
      modifies rows
      ensures Valid() && Contents() == old(Contents()).(rows := Expire(env, old(Rows()), now, 0).0)
      ensures count == Expire(env, old(Rows()), now, 0).1
    {
      count := 0;
      var i := 0;
      ghost var goal := Expire(env, Rows(), now, 0);
      while i < |rows|
        invariant i <= |rows| && count >= 0
        invariant goal == Counted(Expire(env, Rows(), now, i), count)
      {
        var j := UpdateNext(env, now, i, count, goal);
        if j == -1 { return -1; }
        count := count + j;
        i := i + 1;
      }
    }
  }

  function Update(env: Env, e: Entry, now: int): (Entry, int) {
    if e.kind != VAL then (e, 0)
    else match env.expiry(e.expiry)
      case None => (e, -1)
      case Some(t) => if t > now then (e, 0) else (e.(kind := EXP), 1)
  }

  lemma ExpireStep(env: Env, rows: seq<Entry>, now: int, i: nat)
    requires i < |rows|
    ensures var (e, j) := Update(env, rows[i], now);
            Expire(env, rows, now, i)
            == if j == -1 then (rows, -1) else Counted(Expire(env, rows[i := e], now, i + 1), j)
  {
    assert rows[i := rows[i]] == rows;
  }

  /** A later part's result together with the count so far. */
  function Counted(r: (seq<Entry>, int), count: int): (seq<Entry>, int) {
    (r.0, if r.1 == -1 then -1 else r.1 + count)
  }

  lemma CountedStep(env: Env, rows: seq<Entry>, now: int, i: nat, count: nat, goal: (seq<Entry>, int))
    requires i < |rows| && goal == Counted(Expire(env, rows, now, i), count)
    ensures var (e, j) := Update(env, rows[i], now);
            if j == -1 then goal == (rows, -1) && rows[i := e] == rows
            else goal == Counted(Expire(env, rows[i := e], now, i + 1), count + j)
  {
    ExpireStep(env, rows, now, i);
  }

  lemma NamesStep(rows: seq<Entry>, i: nat)
    requires i < |rows|
    ensures ValidNames(rows[..i + 1]) == ValidNames(rows[..i]) + if rows[i].kind == VAL then {rows[i].name} else {}
  {
    var a, b := rows[..i], rows[..i + 1];
    forall n | n in ValidNames(a) ensures n in ValidNames(b) {
      var k :| 0 <= k < |a| && a[k].kind == VAL && a[k].name == n;
      assert b[k] == a[k];
    }
    if rows[i].kind == VAL {
      assert b[i].kind == VAL;
    }
    forall n | n in ValidNames(b) ensures n in ValidNames(a) || (rows[i].kind == VAL && n == rows[i].name) {
      var k :| 0 <= k < |b| && b[k].kind == VAL && b[k].name == n;
      if k < i { assert a[k] == b[k]; }
    }
  }
}
