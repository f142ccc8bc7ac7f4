/** The status decision of the OCSP responder (openssl-master/apps/ocsp.c:1034-1204). */
module Ocsp {
  import opened Wrappers
  import opened RevInfo
  import opened CaDb
  import opened CaFiles
  import opened CaRuns

  /** A certificate to be looked up: how its issuer was hashed, the issuer's hash, its serial number. */
  datatype CertId = CertId(digest: nat, issuer: nat, serial: nat)

  /** One answer.  `id` is the identifier it is given under. */
  datatype Single =
    | Good(id: CertId)
    | Revoked(id: CertId, info: Info)
    | Unknown(id: CertId)

  datatype Response = Malformed | InternalError | Successful(singles: seq<Single>)

  /** The responder: its CA certificates, the digests it knows, the hash of a CA certificate under a
      digest, the digest asked for in responses, the serial number the library gives an identifier
      hashed without a certificate, and whether signing the response works. */
  datatype Responder = Responder(cas: seq<nat>, digests: set<nat>, hash: (nat, nat) -> nat,
                                 respond: Option<nat>, blank: nat, signs: bool)

  // ---- What the standard asks for -------------------------------------------------------------

  /** Some CA certificate of the responder is the issuer. */
  predicate Known(r: Responder, id: CertId) {
    exists k :: 0 <= k < |r.cas| && r.hash(id.digest, r.cas[k]) == id.issuer
  }

  /** The least index of an issuer from `k` on, or the number of CA certificates. */
  function Issuer(r: Responder, id: CertId, k: nat): (j: nat)
    requires k <= |r.cas|
    ensures k <= j <= |r.cas|
    ensures j < |r.cas| ==> r.hash(id.digest, r.cas[j]) == id.issuer
    ensures forall i :: k <= i < j ==> r.hash(id.digest, r.cas[i]) != id.issuer
    decreases |r.cas| - k
  {
    if k == |r.cas| || r.hash(id.digest, r.cas[k]) == id.issuer then k else Issuer(r, id, k + 1)
  }

  lemma KnownIs(r: Responder, id: CertId)
    ensures Known(r, id) <==> Issuer(r, id, 0) < |r.cas|
  {
  }

  /** The identifier of the answer: hashed again, without a certificate, if the responder was told
      which digest to use. */
  function AnswerId(r: Responder, id: CertId): CertId {
    var k := Issuer(r, id, 0);
    if k < |r.cas| && r.respond.Some?
    then CertId(r.respond.value, r.hash(r.respond.value, r.cas[k]), r.blank)
    else id
  }

  /** What unpack_revinfo leaves with its caller, which ignores its result: if anything behind the
      time is wrong, the time without a reason. */
  function Told(env: Env, field: string): Info {
    match Unpack(env.parsers, field) case Some(info) => info case None => Info(Head(field), NO_STATUS, None, None)
  }

  /** A revoked row whose revocation time does not parse: no status can be added for it. */
  predicate Broken(env: Env, r: Responder, db: Db, id: CertId) {
    Issuer(r, id, 0) < |r.cas| &&
    match Find(db.rows, id.serial)
    case None => false
    case Some(i) => db.rows[i].kind == REV && !env.parsers.utcTime(Head(db.rows[i].revoked))
  }

  /** What is answered for one certificate: nothing for a row that is neither valid nor revoked. */
  function Answer(env: Env, r: Responder, db: Db, id: CertId): seq<Single> {
    if Issuer(r, id, 0) == |r.cas| then [Unknown(id)]
    else match Find(db.rows, id.serial)
      case None => [Unknown(AnswerId(r, id))]
      case Some(i) =>
        if db.rows[i].kind == VAL then [Good(AnswerId(r, id))]
        else if db.rows[i].kind == REV then [Revoked(AnswerId(r, id), Told(env, db.rows[i].revoked))]
        else []
  }

  function Answers(env: Env, r: Responder, db: Db, ids: seq<CertId>): seq<Single> {
    if ids == [] then [] else Answers(env, r, db, ids[..|ids| - 1]) + Answer(env, r, db, ids[|ids| - 1])
  }

  predicate Refused(env: Env, r: Responder, db: Db, id: CertId) {
    id.digest !in r.digests || Broken(env, r, db, id)
  }

  function Respond(env: Env, r: Responder, db: Db, ids: seq<CertId>): Response {
    if ids == [] then Malformed
    else if exists k :: 0 <= k < |ids| && Refused(env, r, db, ids[k]) then InternalError
    else if !r.signs then InternalError
    else Successful(Answers(env, r, db, ids))
  }

  // ---- What a response must be ----------------------------------------------------------------

  predicate RowIs(db: Db, serial: nat, kind: char) {
    exists i :: 0 <= i < |db.rows| && db.rows[i].serial == serial && db.rows[i].kind == kind
  }

  predicate HasRow(db: Db, serial: nat) {
    exists i :: 0 <= i < |db.rows| && db.rows[i].serial == serial
  }

  /** The row of a known certificate is revoked, at a time that cannot be read. */
  predicate Unreadable(env: Env, r: Responder, db: Db, id: CertId) {
    Known(r, id) && exists i :: 0 <= i < |db.rows| && db.rows[i].serial == id.serial && db.rows[i].kind == REV
                                && !env.parsers.utcTime(Head(db.rows[i].revoked))
  }

  /** The row of a known certificate is neither valid nor revoked. */
  predicate Silent(r: Responder, db: Db, id: CertId) {
    Known(r, id) && HasRow(db, id.serial) && !RowIs(db, id.serial, VAL) && !RowIs(db, id.serial, REV)
  }

  /** The identifier is the one asked about; or it is hashed again, with the digest asked for in
      responses, over the first CA certificate that is the issuer, and without a serial number. */
  predicate Names(r: Responder, id: CertId, x: CertId) {
    if r.respond.None? || !Known(r, id) then x == id
    else exists k :: 0 <= k < |r.cas| && IssuerAt(r, id, k)
                     && x == CertId(r.respond.value, r.hash(r.respond.value, r.cas[k]), r.blank)
  }

  /** CA certificate `k` is the issuer, and none before it. */
  predicate IssuerAt(r: Responder, id: CertId, k: nat)
    requires k < |r.cas|
  {
    r.hash(id.digest, r.cas[k]) == id.issuer && forall j :: 0 <= j < k ==> r.hash(id.digest, r.cas[j]) != id.issuer
  }

  /** What is told of a revocation field: all it says, or, if that cannot be read, its time alone. */
  predicate Reports(env: Env, field: string, info: Info) {
    && info.time <= field && ',' !in info.time && (|info.time| < |field| ==> field[|info.time|] == ',')
    && if Unpack(env.parsers, field).Some? then Unpack(env.parsers, field) == Some(info)
       else info.code == NO_STATUS && info.hold.None? && info.invalidity.None?
  }

  /** `a` is the right answer to a question about `id`. */
  predicate Answering(env: Env, r: Responder, db: Db, id: CertId, a: Single) {
    Names(r, id, a.id) &&
    match a
    case Good(_) => Known(r, id) && RowIs(db, id.serial, VAL)
    case Revoked(_, info) =>
      Known(r, id) && exists i :: 0 <= i < |db.rows| && db.rows[i].serial == id.serial && db.rows[i].kind == REV
                                  && Reports(env, db.rows[i].revoked, info)
    case Unknown(_) => !Known(r, id) || !HasRow(db, id.serial)
  }

  /** How many of the first `k` identifiers are to be answered. */
  function Spoken(r: Responder, db: Db, ids: seq<CertId>, k: nat): nat
    requires k <= |ids|
  {
    if k == 0 then 0 else Spoken(r, db, ids, k - 1) + if Silent(r, db, ids[k - 1]) then 0 else 1
  }

  /** Each identifier that is to be answered has its right answer, in the order of the request, and
      there are no others. */
  predicate InOrder(env: Env, r: Responder, db: Db, ids: seq<CertId>, singles: seq<Single>) {
    |singles| == Spoken(r, db, ids, |ids|) && forall k :: 0 <= k < |ids| ==> AnsweredAt(env, r, db, ids, singles, k)
  }

  predicate AnsweredAt(env: Env, r: Responder, db: Db, ids: seq<CertId>, singles: seq<Single>, k: nat)
    requires k < |ids|
  {
    var n := Spoken(r, db, ids, k);
    Silent(r, db, ids[k]) || (n < |singles| && Answering(env, r, db, ids[k], singles[n]))
  }

  /** The response to a request: malformed exactly if there is no identifier in it; successful exactly
      if there is one, all digests are known, no revocation time is unreadable and signing works. */
  predicate Rightly(env: Env, r: Responder, db: Db, ids: seq<CertId>, resp: Response) {
    && (resp.Malformed? <==> ids == [])
    && (resp.Successful? <==>
          ids != [] && r.signs
          && forall k :: 0 <= k < |ids| ==> ids[k].digest in r.digests && !Unreadable(env, r, db, ids[k]))
    && (resp.Successful? ==> InOrder(env, r, db, ids, resp.singles))
  }

  lemma BrokenIs(env: Env, r: Responder, db: Db, id: CertId)
    requires UniqueSerials(db.rows)
    ensures Broken(env, r, db, id) <==> Unreadable(env, r, db, id)
  {
    KnownIs(r, id);
  }

  lemma NamesIs(r: Responder, id: CertId)
    ensures Names(r, id, AnswerId(r, id)) && (!Known(r, id) ==> AnswerId(r, id) == id)
  {
    KnownIs(r, id);
    var k := Issuer(r, id, 0);
    assert k < |r.cas| ==> IssuerAt(r, id, k);
  }

  lemma ToldReports(env: Env, field: string)
    ensures Reports(env, field, Told(env, field))
  {
    var time := Head(field);
    assert time <= field && ',' !in time && (|time| < |field| ==> field[|time|] == ',');
  }

  lemma OneAnswer(env: Env, r: Responder, db: Db, id: CertId)
    requires UniqueSerials(db.rows)
    ensures var a := Answer(env, r, db, id);
            if Silent(r, db, id) then a == [] else |a| == 1 && Answering(env, r, db, id, a[0])
  {
    KnownIs(r, id);
    NamesIs(r, id);
    match Find(db.rows, id.serial)
    case None =>
    case Some(i) =>
      assert RowIs(db, id.serial, db.rows[i].kind) && HasRow(db, id.serial);
      ToldReports(env, db.rows[i].revoked);
  }

  lemma {:induction false} SpokenFront(r: Responder, db: Db, ids: seq<CertId>, k: nat)
    requires ids != [] && k <= |ids| - 1
    ensures Spoken(r, db, ids, k) == Spoken(r, db, ids[..|ids| - 1], k)
  {
    if k > 0 { SpokenFront(r, db, ids, k - 1); }
  }

  lemma LastAnswer(env: Env, r: Responder, db: Db, ids: seq<CertId>, before: seq<Single>, one: seq<Single>)
    requires ids != []
    requires InOrder(env, r, db, ids[..|ids| - 1], before)
    requires var id := ids[|ids| - 1];
             if Silent(r, db, id) then one == [] else |one| == 1 && Answering(env, r, db, id, one[0])
    ensures InOrder(env, r, db, ids, before + one)
  {
    var n := |ids| - 1;
    var front, all := ids[..n], before + one;
    SpokenFront(r, db, ids, n);
    forall k | 0 <= k < |ids| ensures AnsweredAt(env, r, db, ids, all, k) {
      SpokenFront(r, db, ids, k);
      if k < n {
        assert AnsweredAt(env, r, db, front, before, k);
      }
    }
  }

  lemma {:induction false} AnswersRight(env: Env, r: Responder, db: Db, ids: seq<CertId>)
    requires UniqueSerials(db.rows)
    ensures InOrder(env, r, db, ids, Answers(env, r, db, ids))
  {
    if ids != [] {
      var n := |ids| - 1;
      AnswersRight(env, r, db, ids[..n]);
      OneAnswer(env, r, db, ids[n]);
      LastAnswer(env, r, db, ids, Answers(env, r, db, ids[..n]), Answer(env, r, db, ids[n]));
    }
  }

  lemma ResponseExact(env: Env, r: Responder, db: Db, ids: seq<CertId>)
    requires UniqueSerials(db.rows)
    ensures Rightly(env, r, db, ids, Respond(env, r, db, ids))
  {
    AnswersRight(env, r, db, ids);
    forall k | 0 <= k < |ids|
      ensures Refused(env, r, db, ids[k]) <==> ids[k].digest !in r.digests || Unreadable(env, r, db, ids[k])
    {
      BrokenIs(env, r, db, ids[k]);
    }
  }

  // ---- The program's form ---------------------------------------------------------------------

  /** The inner loop over the CA certificates. */
  method SeekIssuer(r: Responder, id: CertId) returns (found: bool, answerId: CertId)
    ensures found <==> Issuer(r, id, 0) < |r.cas|
    ensures answerId == AnswerId(r, id)
  {
    var j := 0;
    found, answerId := false, id;
    while j < |r.cas| && !found
      invariant j <= |r.cas|
      invariant if found then 0 < j && Issuer(r, id, 0) == j - 1 && answerId == AnswerId(r, id)
                else Issuer(r, id, 0) == Issuer(r, id, j) && answerId == id
    {
      if r.hash(id.digest, r.cas[j]) == id.issuer {
        found := true;
        if r.respond.Some? {
          answerId := CertId(r.respond.value, r.hash(r.respond.value, r.cas[j]), r.blank);
        }
      }
      j := j + 1;
    }
  }

  /** One pass of the loop over the identifiers. */
  method AddStatus(env: Env, r: Responder, db: Db, id: CertId) returns (ok: bool, added: seq<Single>)
    ensures ok <==> !Refused(env, r, db, id)
    ensures ok ==> added == Answer(env, r, db, id)
  {
    if id.digest !in r.digests { return false, []; }
    var found, answerId := SeekIssuer(r, id);
    var row := Find(db.rows, id.serial);
    if !found {
      return true, [Unknown(answerId)];
    } else if row.None? {
      return true, [Unknown(answerId)];
    } else if db.rows[row.value].kind == VAL {
      return true, [Good(answerId)];
    } else if db.rows[row.value].kind == REV {
      var field := db.rows[row.value].revoked;
      if !env.parsers.utcTime(Head(field)) { return false, []; }
      return true, [Revoked(answerId, Told(env, field))];
    }
    return true, [];
  }

  /** make_ocsp_response. */
  method MakeResponse(env: Env, r: Responder, db: Db, ids: seq<CertId>) returns (resp: Response)
    ensures resp == Respond(env, r, db, ids)
    ensures UniqueSerials(db.rows) ==> Rightly(env, r, db, ids, resp)
  {
    if UniqueSerials(db.rows) { ResponseExact(env, r, db, ids); }
    if |ids| == 0 { return Malformed; }
    var singles: seq<Single> := [];
    for i := 0 to |ids|
      invariant singles == Answers(env, r, db, ids[..i])
      invariant forall k :: 0 <= k < i ==> !Refused(env, r, db, ids[k])
    {
      assert ids[..i + 1][..i] == ids[..i];
      var ok, added := AddStatus(env, r, db, ids[i]);
      if !ok { return InternalError; }
      singles := singles + added;
    }
    assert ids[..|ids|] == ids;
    if !r.signs { return InternalError; }
    return Successful(singles);
  }

  // ---- Section 2.2 of RFC 6960 ----------------------------------------------------------------

  /** The answers name the certificate asked about exactly if no digest was asked for in responses, or
      the issuer is not known, or the certificate happens to have the number of an identifier hashed
      without one. */
  lemma AnswerNamesExact(env: Env, r: Responder, db: Db, id: CertId)
    ensures (forall a :: a in Answer(env, r, db, id) ==> a.id.serial == id.serial) <==>
              Answer(env, r, db, id) == [] || r.respond.None? || !Known(r, id) || id.serial == r.blank
  {
    KnownIs(r, id);
    var answers := Answer(env, r, db, id);
    if answers != [] {
      assert answers[0] in answers;
    }
  }

  /** Asked about number 5, a responder told to answer with a digest says that number 0 is good. */
  lemma AnswerNamesOther(env: Env)
    ensures var r := Responder([7], {1}, (d, ca) => ca, Some(1), 0, true);
            var db := Db([Entry(VAL, "d", "", 5, "a")], false, {});
            Known(r, CertId(1, 7, 5)) && Answer(env, r, db, CertId(1, 7, 5)) == [Good(CertId(1, 7, 0))]
  {
    var r := Responder([7], {1}, (d, ca) => ca, Some(1), 0, true);
    var db := Db([Entry(VAL, "d", "", 5, "a")], false, {});
    FindIs(db.rows, 0);
    assert r.hash(1, r.cas[0]) == 7;
  }

  /** "good" is answered exactly for a known issuer and a row of type V, "revoked" exactly for a known
      issuer and a row of type R, "unknown" exactly when the issuer is not known or there is no row.
      For any other row, an expired one in particular, the response holds no answer at all. */
  lemma StatusExact(env: Env, r: Responder, db: Db, id: CertId)
    requires UniqueSerials(db.rows)
    ensures var a := Answer(env, r, db, id);
            && |a| <= 1
            && (|a| == 1 && a[0].Good? <==> Known(r, id) && RowIs(db, id.serial, VAL))
            && (|a| == 1 && a[0].Revoked? <==> Known(r, id) && RowIs(db, id.serial, REV))
            && (|a| == 1 && a[0].Unknown? <==>
                  !Known(r, id) || forall i :: 0 <= i < |db.rows| ==> db.rows[i].serial != id.serial)
            && (a == [] <==>
                  Known(r, id) && Find(db.rows, id.serial).Some?
                  && !RowIs(db, id.serial, VAL) && !RowIs(db, id.serial, REV))
  {
    KnownIs(r, id);
    match Find(db.rows, id.serial)
    case None =>
    case Some(i) =>
      assert RowIs(db, id.serial, db.rows[i].kind);
  }

  /** How many of the first `k` identifiers get an answer. */
  function Answered(env: Env, r: Responder, db: Db, ids: seq<CertId>, k: nat): nat
    requires k <= |ids|
  {
    |Answers(env, r, db, ids[..k])|
  }

  /** The answers come in the order of the request: the k-th identifier's answer, if it has one, is
      preceded by exactly those of the identifiers before it. */
  lemma {:induction false} AnswersInOrder(env: Env, r: Responder, db: Db, ids: seq<CertId>, k: nat)
    requires k < |ids|
    ensures var a := Answers(env, r, db, ids);
            var n := Answered(env, r, db, ids, k);
            var one := Answer(env, r, db, ids[k]);
            n + |one| <= |a| && a[n..n + |one|] == one
    decreases |ids|
  {
    var m := |ids| - 1;
    var front := ids[..m];
    var before, last := Answers(env, r, db, front), Answer(env, r, db, ids[m]);
    assert Answers(env, r, db, ids) == before + last;
    if k == m {
      Slices(before, last, |before|, 0);
    } else {
      AnswersInOrder(env, r, db, front, k);
      assert front[..k] == ids[..k];
      Slices(before, last, Answered(env, r, db, ids, k), |Answer(env, r, db, ids[k])|);
    }
  }

  lemma Slices(a: seq<Single>, b: seq<Single>, n: nat, k: nat)
    requires n + k <= |a|
    ensures (a + b)[n..n + k] == a[n..n + k] && (a + b)[|a|..|a| + |b|] == b
  {
  }

  /** After a certificate has been revoked, every later run of issuing, expiring and revoking leaves
      the responder answering "revoked" for it under a known issuer, with what the revocation said:
      time, reason code, hold instruction and invalidity date. */
  lemma RevokedAnswers(env: Env, r: Responder, db: Db, c: Cert, t: RevType, arg: string, now: string,
                       es: seq<Event>, id: CertId)
    requires Sane(env) && Sound(db) && Stamp(now) && env.parsers.utcTime(now) && Stamped(es)
    requires t != RevType.Valid && Revoke(env, db, c, t, arg, now).1 == 1
    requires Known(r, id) && id.serial == c.serial
    ensures var a := Answer(env, r, Run(env, Revoke(env, db, c, t, arg, now).0, es), id);
            !Broken(env, r, Run(env, Revoke(env, db, c, t, arg, now).0, es), id)
            && |a| == 1 && a[0].Revoked? && Says(t, arg, now, a[0].info)
  {
    RevokeKeeps(env, db, c, t, arg, now);
    RevokedRow(env, db, c, t, arg, now);
    var db1 := Revoke(env, db, c, t, arg, now).0;
    RevokedForEver(env, db1, es, Find(db1.rows, c.serial).value);
    KnownIs(r, id);
  }

  /** The answer comes from the row's place and field alone. */
  lemma RowAnswers(env: Env, r: Responder, db: Db, id: CertId, i: nat)
    requires Find(db.rows, id.serial) == Some(i) && db.rows[i].kind == REV && Known(r, id)
    requires Unpack(env.parsers, db.rows[i].revoked).Some?
    ensures !Broken(env, r, db, id)
    ensures Answer(env, r, db, id) == [Revoked(AnswerId(r, id), Unpack(env.parsers, db.rows[i].revoked).value)]
  {
    KnownIs(r, id);
  }

  /** The same through the files: once a revocation has reported success, every later history of runs
      leaves the responder, when it can load the index that is then on disk, answering "revoked" with
      what the revocation said. */
  lemma RevokedOnDiskAnswers(env: Env, r: Responder, st: Stage, db: Db, w: Command, h: seq<Invocation>,
                             later: Db, id: CertId)
    requires Sane(env) && Sound(db) && st.files.index.cur == Text(db.rows) && GoodHistory(h)
    requires w.Withdraw? && Stamp(w.stamp) && env.parsers.utcTime(w.stamp) && w.t != RevType.Valid && GoodIndex(w)
    requires Known(r, id) && id.serial == w.c.serial
    requires var p := Perform(env, st.files, db, w);
             p.out.ok && After(env, Stage(Top(p.out.seen), st.issued), h).files.index.cur == Text(later.rows)
    ensures var a := Answer(env, r, later, id);
            !Broken(env, r, later, id) && |a| == 1 && a[0].Revoked? && Says(w.t, w.arg, w.stamp, a[0].info)
  {
    var p := Perform(env, st.files, db, w);
    var mid := Stage(Top(p.out.seen), st.issued);
    PerformStates(env, st.files, db, w);
    RevokedRow(env, db, w.c, w.t, w.arg, w.stamp);
    var i := Find(p.db.rows, w.c.serial).value;
    if mid.files.index.cur.Text? {
      assert Dated(p.db.rows);
      RevokedOnDisk(env, mid, h, i);
      RowAnswers(env, r, later, id, i);
    } else {
      UnreadableStays(env, mid, h);
    }
  }

  /** A certificate that was issued and never revoked is answered "good" until it is marked expired,
      and after that not at all. */
  lemma ExpiredUnanswered(env: Env, r: Responder, db: Db, now: int, id: CertId, i: nat)
    requires Sound(db) && Known(r, id)
    requires i < |db.rows| && db.rows[i].serial == id.serial && db.rows[i].kind == VAL
    requires Expire(env, db.rows, now, 0).1 != -1
    ensures var a := Answer(env, r, db.(rows := Expire(env, db.rows, now, 0).0), id);
            if Ripe(env, db.rows[i], now) then a == [] else |a| == 1 && a[0].Good?
  {
    ExpireExact(env, db.rows, now, 0);
    ExpireKeeps(env, db, now, 0);
    var rows := Expire(env, db.rows, now, 0).0;
    FindIs(rows, i);
    KnownIs(r, id);
  }
}
