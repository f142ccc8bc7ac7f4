/** What the CA program does to its files: the serial number file, the index and the index's
    attributes, each replaced by writing `name.new` and renaming (openssl-master/apps/ca.c:706-755,
    897-921, 934-1051, 1112-1119, 1275-1302; openssl-master/apps/lib/apps.c:1551-1644, 1761-1873).

    Any rename or write may fail, a write may be cut short without being reported, and the program may
    be stopped between any two of them: a run is described by the list of all file states it passes
    through, and the next run may start from any of them. */
module CaFiles {
  import opened CaDb

  /** A file that is not there, one that cannot be read as what it should hold, or what it holds. */
  datatype File<T> = Gone | Garbled | Text(value: T)

  /** A file under its own name, with suffix `.new` and with suffix `.old`. */
  datatype Slot<T> = Slot(cur: File<T>, next: File<T>, past: File<T>)

  datatype Files = Files(serial: Slot<nat>, index: Slot<seq<Entry>>, attr: Slot<bool>)

  /** All file states of an operation, first to last, and whether it reported success. */
  datatype Outcome = Outcome(seen: seq<Files>, ok: bool)

  // ---- Renaming -------------------------------------------------------------------------------

  datatype Place = Cur | Next | Past

  function At<T>(s: Slot<T>, p: Place): File<T> {
    match p case Cur => s.cur case Next => s.next case Past => s.past
  }

  function Put<T>(s: Slot<T>, p: Place, v: File<T>): Slot<T> {
    match p case Cur => s.(cur := v) case Next => s.(next := v) case Past => s.(past := v)
  }

  /** Zero, or the error: the source does not exist, or anything else. */
  datatype Renamed = Done | NoEntry | Failed

  /** rename: it cannot succeed without its source; otherwise `works` decides. */
  function Move<T>(s: Slot<T>, from: Place, to: Place, works: bool): (r: (Slot<T>, Renamed))
    requires from != to
  {
    if At(s, from).Gone? then (s, NoEntry)
    else if !works then (s, Failed)
    else (Put(Put(s, to, At(s, from)), from, Gone), Done)
  }

  function MoveSerial(f: Files, from: Place, to: Place, works: bool): (Files, Renamed)
    requires from != to
  {
    var (s, r) := Move(f.serial, from, to, works); (f.(serial := s), r)
  }

  function MoveIndex(f: Files, from: Place, to: Place, works: bool): (Files, Renamed)
    requires from != to
  {
    var (s, r) := Move(f.index, from, to, works); (f.(index := s), r)
  }

  function MoveAttr(f: Files, from: Place, to: Place, works: bool): (Files, Renamed)
    requires from != to
  {
    var (s, r) := Move(f.attr, from, to, works); (f.(attr := s), r)
  }

  // ---- Replacing the files --------------------------------------------------------------------

  function Top(seen: seq<Files>): Files
    requires seen != []
  {
    seen[|seen| - 1]
  }

  /** rotate_serial after the states `seen`; `works(k)` decides the k-th rename in the text of the
      function. */
  function RotateSerial(seen: seq<Files>, works: nat -> bool): (o: Outcome)
    requires seen != []
    ensures o.seen != []
  {
    var (f1, r1) := MoveSerial(Top(seen), Cur, Past, works(1));
    var s1 := seen + [f1];
    if r1 == Failed then Outcome(s1, false)
    else
      var (f2, r2) := MoveSerial(f1, Next, Cur, works(2));
      var s2 := s1 + [f2];
      if r2 == Done then Outcome(s2, true) else Outcome(s2 + [MoveSerial(f2, Past, Cur, works(3)).0], false)
  }

  /** The renames that put the index back. */
  function PutBack(seen: seq<Files>, works: nat -> bool): (r: seq<Files>)
    requires seen != []
    ensures r != []
  {
    var f1 := MoveIndex(Top(seen), Cur, Next, works(7)).0;
    seen + [f1] + [MoveIndex(f1, Past, Cur, works(8)).0]
  }

  /** rotate_index, from its third rename on: the attributes. */
  function RotateAttr(seen: seq<Files>, works: nat -> bool): (o: Outcome)
    requires seen != []
    ensures o.seen != []
  {
    var (f3, r3) := MoveAttr(Top(seen), Cur, Past, works(4));
    var s3 := seen + [f3];
    if r3 == Failed then Outcome(PutBack(s3, works), false)
    else
      var (f4, r4) := MoveAttr(f3, Next, Cur, works(5));
      var s4 := s3 + [f4];
      if r4 == Done then Outcome(s4, true)
      else Outcome(PutBack(s4 + [MoveAttr(f4, Past, Cur, works(6)).0], works), false)
  }

  /** rotate_index. */
  function RotateIndex(seen: seq<Files>, works: nat -> bool): (o: Outcome)
    requires seen != []
    ensures o.seen != []
  {
    var (f1, r1) := MoveIndex(Top(seen), Cur, Past, works(1));
    var s1 := seen + [f1];
    if r1 == Failed then Outcome(s1, false)
    else
      var (f2, r2) := MoveIndex(f1, Next, Cur, works(2));
      var s2 := s1 + [f2];
      if r2 != Done then Outcome(s2 + [MoveIndex(f2, Past, Cur, works(3)).0], false) else RotateAttr(s2, works)
  }

  /** How a write ends: the file holds all of it; it fails, and the caller is told; or it is cut
      short and the caller is told it was done, because neither the results of the printing calls
      nor that of the last flush are looked at.  `left` is then what the file reads as. */
  datatype Write<T> = Whole | Reported | Cut(left: File<T>)

  function Left<T>(w: Write<T>, v: T): File<T> {
    match w case Whole => Text(v) case Reported => Garbled case Cut(left) => left
  }

  /** Nothing is missing from a write reported as done. */
  predicate Kept<T(==)>(w: Write<T>, v: T) {
    w.Cut? ==> w.left == Text(v)
  }

  /** A write cut short leaves something that cannot be read. */
  predicate Noticed<T>(w: Write<T>) {
    w.Cut? ==> !w.left.Text?
  }

  /** ... that is, whatever is written, what can be read afterwards is all of it. */
  lemma NoticedExact<T(!new)>(w: Write<T>, a: T, b: T)
    requires a != b
    ensures Noticed(w) <==> forall v: T :: Left(w, v).Text? ==> Left(w, v) == Text(v)
  {
    assert w.Cut? ==> Left(w, a) == Left(w, b);
  }

  /** save_serial: opening a file for writing empties it. */
  function SaveSerial(seen: seq<Files>, n: nat, w: Write<nat>): (o: Outcome)
    requires seen != []
    ensures o.seen != []
  {
    var f := Top(seen);
    var s1 := seen + [f.(serial := f.serial.(next := Garbled))];
    if w.Reported? then Outcome(s1, false) else Outcome(s1 + [f.(serial := f.serial.(next := Left(w, n)))], true)
  }

  /** save_index: an empty index file holds no rows, an empty attribute file says nothing. */
  function SaveIndex(seen: seq<Files>, db: Db, w: Write<seq<Entry>>, wAttr: Write<bool>): (o: Outcome)
    requires seen != []
    ensures o.seen != []
  {
    var f := Top(seen);
    var s1 := seen + [f.(index := f.index.(next := Text([])))];
    if w.Reported? then Outcome(s1, false)
    else
      var f2 := f.(index := f.index.(next := Left(w, db.rows)));
      var s2 := s1 + [f2] + [f2.(attr := f2.attr.(next := Garbled))];
      if wAttr.Reported? then Outcome(s2, false)
      else Outcome(s2 + [f2.(attr := f2.attr.(next := Left(wAttr, db.unique)))], true)
  }

  /** How the steps of a commit go: the writes, whatever comes between them and the renames (the
      certificate files after issuing), and the renames. */
  datatype Luck = Luck(saveSerial: Write<nat>, saveIndex: Write<seq<Entry>>, saveAttr: Write<bool>, certs: bool,
                       serial: nat -> bool, index: nat -> bool)

  /** Writing and rotating the index alone; `between` says whether what comes between goes well: there
      is nothing after expiring and revoking, and the certificate files after issuing. */
  function CommitIndex(seen: seq<Files>, db: Db, luck: Luck, between: bool): (o: Outcome)
    requires seen != []
    ensures o.seen != []
  {
    var a := SaveIndex(seen, db, luck.saveIndex, luck.saveAttr);
    if a.ok && between then RotateIndex(a.seen, luck.index) else Outcome(a.seen, false)
  }

  /** The commit after issuing: both new files are written, then the certificates, then the serial
      file is rotated, then the index. */
  function CommitBoth(seen: seq<Files>, n: nat, db: Db, luck: Luck): (o: Outcome)
    requires seen != []
    ensures o.seen != []
  {
    var a := SaveSerial(seen, n, luck.saveSerial);
    if !a.ok then a
    else
      var b := SaveIndex(a.seen, db, luck.saveIndex, luck.saveAttr);
      if !b.ok || !luck.certs then Outcome(b.seen, false)
      else
        var c := RotateSerial(b.seen, luck.serial);
        if !c.ok then c else RotateIndex(c.seen, luck.index)
  }

  // ---- The commit never gets ahead of the serial file -----------------------------------------

  /** A file, or what it was before it was renamed away. */
  function Latest<T>(s: Slot<T>): File<T> {
    if s.cur.Gone? then s.past else s.cur
  }

  function Number(f: Files): File<nat> {
    Latest(f.serial)
  }

  /** Compared with the files `f` before a commit that writes the index `i` and the serial file `s`:
      the index is the old one, the written one or missing, the serial file the old one, the written
      one or renamed away, and the written index is never there before the written serial file. */
  predicate Between(f: Files, g: Files, i: File<seq<Entry>>, s: File<nat>) {
    && (g.index.cur == Gone || g.index.cur == f.index.cur || g.index.cur == i)
    && (Number(g) == Number(f) || Number(g) == s)
    && (g.index.cur == i && g.index.cur != f.index.cur ==> Number(g) == s)
  }

  /** The same for a commit of the index alone. */
  predicate IndexBetween(f: Files, g: Files, i: File<seq<Entry>>) {
    g.serial == f.serial && (g.index.cur == Gone || g.index.cur == f.index.cur || g.index.cur == i)
  }

  /** All states seen are such. */
  predicate AllBetween(f: Files, seen: seq<Files>, i: File<seq<Entry>>, s: File<nat>) {
    forall k :: 0 <= k < |seen| ==> Between(f, seen[k], i, s)
  }

  predicate AllIndexBetween(f: Files, seen: seq<Files>, i: File<seq<Entry>>) {
    forall k :: 0 <= k < |seen| ==> IndexBetween(f, seen[k], i)
  }

  lemma SavesBetween(f: Files, n: nat, db: Db, luck: Luck)
    ensures var a := SaveSerial([f], n, luck.saveSerial);
            var b := SaveIndex(a.seen, db, luck.saveIndex, luck.saveAttr);
            var i := Left(luck.saveIndex, db.rows);
            var s := Left(luck.saveSerial, n);
            && AllBetween(f, a.seen, i, s) && AllBetween(f, b.seen, i, s)
            && (a.ok && b.ok ==>
                  Top(b.seen) == Files(f.serial.(next := s), f.index.(next := i),
                                       f.attr.(next := Left(luck.saveAttr, db.unique))))
  {
  }

  lemma RotateSerialBetween(f: Files, seen: seq<Files>, works: nat -> bool, i: File<seq<Entry>>, s: File<nat>)
    requires seen != [] && AllBetween(f, seen, i, s)
    requires Top(seen).serial == f.serial.(next := s) && Top(seen).index.cur == f.index.cur
    ensures var o := RotateSerial(seen, works);
            AllBetween(f, o.seen, i, s)
            && (o.ok ==> Top(o.seen).serial.cur == s == Number(Top(o.seen))
                         && Top(o.seen).index == Top(seen).index && Top(o.seen).attr == Top(seen).attr)
  {
  }

  /** The attributes' half, after the index `f.index` has been replaced. */
  lemma RotateAttrShows(f: Files, seen: seq<Files>, works: nat -> bool)
    requires seen != [] && !f.index.cur.Gone?
    requires Top(seen).index == Slot(f.index.next, Gone, f.index.cur) && Top(seen).serial == f.serial
    ensures var o := RotateAttr(seen, works);
            && seen <= o.seen
            && (forall k :: |seen| <= k < |o.seen| ==> IndexBetween(f, o.seen[k], f.index.next))
            && (o.ok ==> Top(o.seen).index.cur == f.index.next && Top(o.seen).attr.cur == Top(seen).attr.next)
  {
  }

  /** What RotateIndex passes through, whatever the files were before. */
  lemma RotateIndexShows(seen: seq<Files>, works: nat -> bool)
    requires seen != [] && !Top(seen).index.cur.Gone?
    ensures var o := RotateIndex(seen, works);
            && seen <= o.seen
            && (forall k :: |seen| <= k < |o.seen| ==> IndexBetween(Top(seen), o.seen[k], Top(seen).index.next))
            && (o.ok ==> !Top(o.seen).index.cur.Gone? && Top(o.seen).index.cur == Top(seen).index.next
                         && Top(o.seen).attr.cur == Top(seen).attr.next)
  {
    var f := Top(seen);
    var (f1, r1) := MoveIndex(f, Cur, Past, works(1));
    if r1 == Done {
      var (f2, r2) := MoveIndex(f1, Next, Cur, works(2));
      if r2 == Done { RotateAttrShows(f, seen + [f1] + [f2], works); }
    }
  }

  /** At every moment of a commit after issuing, wherever it fails and whatever is cut short, the
      files agree in the sense of Between.  If it reports success they are the written ones, and so
      the new ones if and only if none of the three writes was cut short. */
  lemma CommitBothBetween(f: Files, n: nat, db: Db, luck: Luck)
    requires !f.index.cur.Gone?
    ensures var o := CommitBoth([f], n, db, luck);
            var g := Top(o.seen);
            && AllBetween(f, o.seen, Left(luck.saveIndex, db.rows), Left(luck.saveSerial, n))
            && (o.ok ==>
                  && !g.index.cur.Gone? && g.index.cur == Left(luck.saveIndex, db.rows)
                  && g.serial.cur == Number(g) == Left(luck.saveSerial, n)
                  && (g.serial.cur == Text(n) && g.index.cur == Text(db.rows) && g.attr.cur == Text(db.unique) <==>
                        Kept(luck.saveSerial, n) && Kept(luck.saveIndex, db.rows) && Kept(luck.saveAttr, db.unique)))
  {
    SavesBetween(f, n, db, luck);
    var a := SaveSerial([f], n, luck.saveSerial);
    var b := SaveIndex(a.seen, db, luck.saveIndex, luck.saveAttr);
    var i, s := Left(luck.saveIndex, db.rows), Left(luck.saveSerial, n);
    if a.ok && b.ok && luck.certs {
      RotateSerialBetween(f, b.seen, luck.serial, i, s);
      var c := RotateSerial(b.seen, luck.serial);
      if c.ok {
        RotateIndexShows(c.seen, luck.index);
        var o := RotateIndex(c.seen, luck.index);
        forall k | 0 <= k < |o.seen| ensures Between(f, o.seen[k], i, s) {
          if k < |c.seen| {
            assert o.seen[k] == c.seen[k];
          } else {
            assert IndexBetween(Top(c.seen), o.seen[k], i);
          }
        }
      }
    }
  }

  lemma CommitIndexBetween(f: Files, db: Db, luck: Luck, between: bool)
    requires !f.index.cur.Gone?
    ensures var o := CommitIndex([f], db, luck, between);
            var g := Top(o.seen);
            && AllIndexBetween(f, o.seen, Left(luck.saveIndex, db.rows))
            && (o.ok ==>
                  && !g.index.cur.Gone? && g.index.cur == Left(luck.saveIndex, db.rows)
                  && (g.index.cur == Text(db.rows) && g.attr.cur == Text(db.unique) <==>
                        Kept(luck.saveIndex, db.rows) && Kept(luck.saveAttr, db.unique)))
  {
    var a := SaveIndex([f], db, luck.saveIndex, luck.saveAttr);
    var i := Left(luck.saveIndex, db.rows);
    assert AllIndexBetween(f, a.seen, i);
    if a.ok && between {
      RotateIndexShows(a.seen, luck.index);
      var o := RotateIndex(a.seen, luck.index);
      forall k | 0 <= k < |o.seen| ensures IndexBetween(f, o.seen[k], i) {
        if k < |a.seen| {
          assert o.seen[k] == a.seen[k];
        } else {
          assert IndexBetween(Top(a.seen), o.seen[k], i);
        }
      }
    }
  }

  // ---- When a commit succeeds -----------------------------------------------------------------

  /** A file is replaced: its write reports no failure and leaves a file, and no rename of a file that
      is there fails. */
  predicate Replaced<T>(s: Slot<T>, w: Write<T>, away: bool, here: bool) {
    !w.Reported? && !(w.Cut? && w.left.Gone?) && (s.cur.Gone? || away) && here
  }

  lemma RotateSerialExact(seen: seq<Files>, works: nat -> bool)
    requires seen != []
    ensures var o := RotateSerial(seen, works);
            var f := Top(seen);
            && (o.ok <==> (f.serial.cur.Gone? || works(1)) && !f.serial.next.Gone? && works(2))
            && (o.ok ==> Top(o.seen) == f.(serial := Slot(f.serial.next, Gone, Latest(f.serial))))
  {
  }

  lemma RotateIndexExact(seen: seq<Files>, works: nat -> bool)
    requires seen != []
    ensures var o := RotateIndex(seen, works);
            var f := Top(seen);
            && (o.ok <==> (f.index.cur.Gone? || works(1)) && !f.index.next.Gone? && works(2)
                          && (f.attr.cur.Gone? || works(4)) && !f.attr.next.Gone? && works(5))
            && (o.ok ==> Top(o.seen) == Files(f.serial, Slot(f.index.next, Gone, Latest(f.index)),
                                              Slot(f.attr.next, Gone, Latest(f.attr))))
  {
  }

  /** A commit after issuing reports success exactly if no write reports a failure and no rename of a
      file that is there fails; the files replaced are then kept under their old names. */
  lemma CommitBothExact(f: Files, n: nat, db: Db, luck: Luck)
    ensures var o := CommitBoth([f], n, db, luck);
            && (o.ok <==> luck.certs && Replaced(f.serial, luck.saveSerial, luck.serial(1), luck.serial(2))
                          && Replaced(f.index, luck.saveIndex, luck.index(1), luck.index(2))
                          && Replaced(f.attr, luck.saveAttr, luck.index(4), luck.index(5)))
            && (o.ok ==>
                  Top(o.seen) == Files(Slot(Left(luck.saveSerial, n), Gone, Latest(f.serial)),
                                       Slot(Left(luck.saveIndex, db.rows), Gone, Latest(f.index)),
                                       Slot(Left(luck.saveAttr, db.unique), Gone, Latest(f.attr))))
  {
    SavesBetween(f, n, db, luck);
    var b := SaveIndex(SaveSerial([f], n, luck.saveSerial).seen, db, luck.saveIndex, luck.saveAttr);
    if b.ok {
      RotateSerialExact(b.seen, luck.serial);
      RotateIndexExact(RotateSerial(b.seen, luck.serial).seen, luck.index);
    }
  }

  predicate IndexReplaced(f: Files, luck: Luck) {
    && Replaced(f.index, luck.saveIndex, luck.index(1), luck.index(2))
    && Replaced(f.attr, luck.saveAttr, luck.index(4), luck.index(5))
  }

  /** The same for a commit of the index alone. */
  lemma CommitIndexExact(f: Files, db: Db, luck: Luck, between: bool)
    ensures var o := CommitIndex([f], db, luck, between);
            && (o.ok <==> between && IndexReplaced(f, luck))
            && (o.ok ==> Top(o.seen) == Files(f.serial, Slot(Left(luck.saveIndex, db.rows), Gone, Latest(f.index)),
                                              Slot(Left(luck.saveAttr, db.unique), Gone, Latest(f.attr))))
  {
    var a := SaveIndex([f], db, luck.saveIndex, luck.saveAttr);
    if a.ok && between {
      RotateIndexExact(a.seen, luck.index);
    }
  }

  // ---- What a failed commit leaves ------------------------------------------------------------

  /** A file comes back under its own name: it is renamed back; or there was none, and none is brought
      back from the old name. */
  predicate ComesBack<T>(s: Slot<T>, undo: bool) {
    if s.cur.Gone? then s.past.Gone? || !undo else undo
  }

  predicate Intact<T(==)>(s: Slot<T>, t: Slot<T>) {
    s.cur == t.cur && s.next == t.next
  }

  /** A rotation of the serial file that fails: nothing has changed if its first rename failed, and
      otherwise the serial file is what it was if and only if the undo that was due worked. */
  predicate SerialUndone(f: Files, g: Files, works: nat -> bool) {
    && g.index == f.index && g.attr == f.attr && g.serial.next == f.serial.next
    && if !f.serial.cur.Gone? && !works(1) then g.serial == f.serial
       else g.serial.cur == f.serial.cur <==> ComesBack(f.serial, works(3))
  }

  /** The attributes, when their rotation fails: unchanged if their first rename failed, and otherwise
      what they were if and only if the sixth rename worked. */
  predicate AttrUndone(f: Files, g: Files, works: nat -> bool) {
    if !f.attr.cur.Gone? && !works(4) then g.attr == f.attr
    else g.attr.next == f.attr.next && (g.attr.cur == f.attr.cur <==> ComesBack(f.attr, works(6)))
  }

  /** A rotation of the index that fails in its first rename has changed nothing; in its second, the
      index is what it was if and only if the third rename, which undoes the first, worked; later, the
      new index is put aside again and the old one brought back if and only if the seventh and the
      eighth worked.  The serial file is left as it is. */
  predicate IndexUndone(f: Files, g: Files, works: nat -> bool) {
    g.serial == f.serial &&
    if !f.index.cur.Gone? && !works(1) then g == f
    else if f.index.next.Gone? || !works(2) then
      && g.attr == f.attr && g.index.next == f.index.next
      && (g.index.cur == f.index.cur <==> ComesBack(f.index, works(3)))
    else
      && AttrUndone(f, g, works) && (Intact(g.index, f.index) <==> works(7) && ComesBack(f.index, works(8)))
      && (!f.index.cur.Gone? && works(8) ==> g.index.cur == f.index.cur)
  }

  lemma RotateSerialUndone(seen: seq<Files>, works: nat -> bool)
    requires seen != [] && !RotateSerial(seen, works).ok
    ensures SerialUndone(Top(seen), Top(RotateSerial(seen, works).seen), works)
  {
  }

  /** Once the index has been replaced: it was `f.index`, and is now kept under its old name. */
  lemma RotateAttrUndone(f: Files, seen: seq<Files>, works: nat -> bool)
    requires seen != [] && !f.index.next.Gone? && !RotateAttr(seen, works).ok
    requires Top(seen) == f.(index := Slot(f.index.next, Gone, Latest(f.index)))
    ensures var g := Top(RotateAttr(seen, works).seen);
            && g.serial == f.serial && AttrUndone(f, g, works)
            && (Intact(g.index, f.index) <==> works(7) && ComesBack(f.index, works(8)))
            && (!f.index.cur.Gone? && works(8) ==> g.index.cur == f.index.cur)
  {
  }

  lemma RotateIndexUndone(seen: seq<Files>, works: nat -> bool)
    requires seen != [] && !RotateIndex(seen, works).ok
    ensures IndexUndone(Top(seen), Top(RotateIndex(seen, works).seen), works)
  {
    var f := Top(seen);
    var (f1, r1) := MoveIndex(f, Cur, Past, works(1));
    if r1 != Failed && !f.index.next.Gone? && works(2) {
      var f2 := MoveIndex(f1, Next, Cur, works(2)).0;
      assert f2 == f.(index := Slot(f.index.next, Gone, Latest(f.index)));
      RotateAttrUndone(f, seen + [f1] + [f2], works);
    }
  }

  /** Neither a file nor its old version has been touched. */
  predicate Untouched<T(==)>(s: Slot<T>, t: Slot<T>) {
    s.cur == t.cur && s.past == t.past
  }

  /** The files as the renaming of a commit finds them. */
  function Staged(f: Files, n: nat, db: Db, luck: Luck): Files {
    Files(f.serial.(next := Left(luck.saveSerial, n)), f.index.(next := Left(luck.saveIndex, db.rows)),
          f.attr.(next := Left(luck.saveAttr, db.unique)))
  }

  /** What a commit after issuing leaves when it fails: if the writes or what follows them fail, every
      file as it was; if the serial file's renames fail, that file as SerialUndone says; and otherwise
      the new serial file, which is not undone, with the index and its attributes as IndexUndone says. */
  lemma CommitBothFails(f: Files, n: nat, db: Db, luck: Luck)
    requires !CommitBoth([f], n, db, luck).ok
    ensures var g := Top(CommitBoth([f], n, db, luck).seen);
            var s := Staged(f, n, db, luck);
            if luck.saveSerial.Reported? || luck.saveIndex.Reported? || luck.saveAttr.Reported? || !luck.certs then
              Untouched(g.serial, f.serial) && Untouched(g.index, f.index) && Untouched(g.attr, f.attr)
            else if !Replaced(f.serial, luck.saveSerial, luck.serial(1), luck.serial(2)) then
              SerialUndone(s, g, luck.serial)
            else
              IndexUndone(s.(serial := Slot(s.serial.next, Gone, Latest(f.serial))), g, luck.index)
  {
    SavesBetween(f, n, db, luck);
    var a := SaveSerial([f], n, luck.saveSerial);
    var b := SaveIndex(a.seen, db, luck.saveIndex, luck.saveAttr);
    if a.ok && b.ok && luck.certs {
      assert Top(b.seen) == Staged(f, n, db, luck);
      RotateSerialExact(b.seen, luck.serial);
      var c := RotateSerial(b.seen, luck.serial);
      if c.ok {
        RotateIndexUndone(c.seen, luck.index);
      } else {
        RotateSerialUndone(b.seen, luck.serial);
      }
    }
  }

  /** The same for the index alone. */
  lemma CommitIndexFails(f: Files, db: Db, luck: Luck, between: bool)
    requires !CommitIndex([f], db, luck, between).ok
    ensures var g := Top(CommitIndex([f], db, luck, between).seen);
            if luck.saveIndex.Reported? || luck.saveAttr.Reported? || !between then
              g.serial == f.serial && Untouched(g.index, f.index) && Untouched(g.attr, f.attr)
            else
              IndexUndone(Staged(f, 0, db, luck).(serial := f.serial), g, luck.index)
  {
    var a := SaveIndex([f], db, luck.saveIndex, luck.saveAttr);
    if a.ok && between {
      RotateIndexUndone(a.seen, luck.index);
    }
  }

  // ---- Every moment ---------------------------------------------------------------------------

  /** The states of a commit that succeeds, one by one: each file is emptied and then written under its
      new name, and then each is renamed away and its new version put in its place, first the serial
      file, then the index, then its attributes. */
  lemma CommitBothMoments(f: Files, n: nat, db: Db, luck: Luck)
    requires CommitBoth([f], n, db, luck).ok
    requires !f.serial.cur.Gone? && !f.index.cur.Gone? && !f.attr.cur.Gone?
    ensures var (s, i, a) := (f.serial, f.index, f.attr);
            var (s', i', a') := (Left(luck.saveSerial, n), Left(luck.saveIndex, db.rows),
                                 Left(luck.saveAttr, db.unique));
            CommitBoth([f], n, db, luck).seen ==
              [f,
               Files(Slot(s.cur, Garbled, s.past), i, a),
               Files(Slot(s.cur, s', s.past), i, a),
               Files(Slot(s.cur, s', s.past), Slot(i.cur, Text([]), i.past), a),
               Files(Slot(s.cur, s', s.past), Slot(i.cur, i', i.past), a),
               Files(Slot(s.cur, s', s.past), Slot(i.cur, i', i.past), Slot(a.cur, Garbled, a.past)),
               Files(Slot(s.cur, s', s.past), Slot(i.cur, i', i.past), Slot(a.cur, a', a.past)),
               Files(Slot(Gone, s', s.cur), Slot(i.cur, i', i.past), Slot(a.cur, a', a.past)),
               Files(Slot(s', Gone, s.cur), Slot(i.cur, i', i.past), Slot(a.cur, a', a.past)),
               Files(Slot(s', Gone, s.cur), Slot(Gone, i', i.cur), Slot(a.cur, a', a.past)),
               Files(Slot(s', Gone, s.cur), Slot(i', Gone, i.cur), Slot(a.cur, a', a.past)),
               Files(Slot(s', Gone, s.cur), Slot(i', Gone, i.cur), Slot(Gone, a', a.cur)),
               Files(Slot(s', Gone, s.cur), Slot(i', Gone, i.cur), Slot(a', Gone, a.cur))]
  {
    CommitBothExact(f, n, db, luck);
  }

  /** The same for the index alone. */
  lemma CommitIndexMoments(f: Files, db: Db, luck: Luck, between: bool)
    requires CommitIndex([f], db, luck, between).ok && !f.index.cur.Gone? && !f.attr.cur.Gone?
    ensures var (i, a) := (f.index, f.attr);
            var (i', a') := (Left(luck.saveIndex, db.rows), Left(luck.saveAttr, db.unique));
            CommitIndex([f], db, luck, between).seen ==
              [f,
               Files(f.serial, Slot(i.cur, Text([]), i.past), a),
               Files(f.serial, Slot(i.cur, i', i.past), a),
               Files(f.serial, Slot(i.cur, i', i.past), Slot(a.cur, Garbled, a.past)),
               Files(f.serial, Slot(i.cur, i', i.past), Slot(a.cur, a', a.past)),
               Files(f.serial, Slot(Gone, i', i.cur), Slot(a.cur, a', a.past)),
               Files(f.serial, Slot(i', Gone, i.cur), Slot(a.cur, a', a.past)),
               Files(f.serial, Slot(i', Gone, i.cur), Slot(Gone, a', a.cur)),
               Files(f.serial, Slot(i', Gone, i.cur), Slot(a', Gone, a.cur))]
  {
    CommitIndexExact(f, db, luck, between);
  }

  // ---- The program's form ---------------------------------------------------------------------

  /** The directory of the CA.  `seen` records every state it passes through. */
  class Disk {
    var files: Files
    ghost var seen: seq<Files>

    ghost predicate Recorded()
      reads this
    {
      seen != [] && Top(seen) == files
    }

    constructor (files: Files)
      ensures Recorded() && seen == [files]
    {
      this.files, this.seen := files, [files];
    }

    method RenameSerial(from: Place, to: Place, works: bool) returns (r: Renamed)
      requires from != to
      modifies this
      ensures Recorded() && (files, r) == MoveSerial(old(files), from, to, works) && seen == old(seen) + [files]
    {
      var m := Move(files.serial, from, to, works);
      files, r := files.(serial := m.0), m.1;
      seen := seen + [files];
    }

    method RenameIndex(from: Place, to: Place, works: bool) returns (r: Renamed)
      requires from != to
      modifies this
      ensures Recorded() && (files, r) == MoveIndex(old(files), from, to, works) && seen == old(seen) + [files]
    {
      var m := Move(files.index, from, to, works);
      files, r := files.(index := m.0), m.1;
      seen := seen + [files];
    }

    method RenameAttr(from: Place, to: Place, works: bool) returns (r: Renamed)
      requires from != to
      modifies this
      ensures Recorded() && (files, r) == MoveAttr(old(files), from, to, works) && seen == old(seen) + [files]
    {
      var m := Move(files.attr, from, to, works);
      files, r := files.(attr := m.0), m.1;
      seen := seen + [files];
    }

    /** rotate_serial. */
    method Serial(works: nat -> bool) returns (ok: bool)
      requires Recorded()
      modifies this
      ensures Recorded() && Outcome(seen, ok) == RotateSerial(old(seen), works)
    {
      var r := RenameSerial(Cur, Past, works(1));
      if r == Failed { return false; }
      r := RenameSerial(Next, Cur, works(2));
      if r != Done {
        r := RenameSerial(Past, Cur, works(3));
        return false;
      }
      return true;
    }

    /** rotate_index. */
    method Index(works: nat -> bool) returns (ok: bool)
      requires Recorded()
      modifies this
      ensures Recorded() && Outcome(seen, ok) == RotateIndex(old(seen), works)
    {
      var r := RenameIndex(Cur, Past, works(1));
      if r == Failed { return false; }
      r := RenameIndex(Next, Cur, works(2));
      if r != Done {
        r := RenameIndex(Past, Cur, works(3));
        return false;
      }
      ok := Attr(works);
    }

    /** The second half of rotate_index. */
    method Attr(works: nat -> bool) returns (ok: bool)
      requires Recorded()
      modifies this
      ensures Recorded() && Outcome(seen, ok) == RotateAttr(old(seen), works)
    {
      var r := RenameAttr(Cur, Past, works(4));
      ok := r != Failed;
      if ok {
        r := RenameAttr(Next, Cur, works(5));
        ok := r == Done;
        if !ok {
          r := RenameAttr(Past, Cur, works(6));
        }
      }
      if !ok {
        r := RenameIndex(Cur, Next, works(7));
        r := RenameIndex(Past, Cur, works(8));
      }
    }

    /** save_serial. */
    method WriteSerial(n: nat, w: Write<nat>) returns (ok: bool)
      requires Recorded()
      modifies this
      ensures Recorded() && Outcome(seen, ok) == SaveSerial(old(seen), n, w)
    {
      files := files.(serial := files.serial.(next := Garbled));
      seen := seen + [files];
      if w.Reported? { return false; }
      files := files.(serial := files.serial.(next := Left(w, n)));
      seen := seen + [files];
      return true;
    }

    /** save_index. */
    method WriteIndex(db: Db, w: Write<seq<Entry>>, wAttr: Write<bool>) returns (ok: bool)
      requires Recorded()
      modifies this
      ensures Recorded() && Outcome(seen, ok) == SaveIndex(old(seen), db, w, wAttr)
    {
      files := files.(index := files.index.(next := Text([])));
      seen := seen + [files];
      if w.Reported? { return false; }
      files := files.(index := files.index.(next := Left(w, db.rows)));
      seen := seen + [files];
      files := files.(attr := files.attr.(next := Garbled));
      seen := seen + [files];
      if wAttr.Reported? { return false; }
      files := files.(attr := files.attr.(next := Left(wAttr, db.unique)));
      seen := seen + [files];
      return true;
    }

    /** The end of a command that writes the index alone. */
    method WriteAndRotate(db: Db, luck: Luck, between: bool) returns (ok: bool)
      requires Recorded()
      modifies this
      ensures Recorded() && Outcome(seen, ok) == CommitIndex(old(seen), db, luck, between)
    {
      ok := WriteIndex(db, luck.saveIndex, luck.saveAttr);
      if !ok { return; }
      if !between { return false; }
      ok := Index(luck.index);
    }

    /** The end of a run that has issued certificates. */
    method Commit(n: nat, db: Db, luck: Luck) returns (ok: bool)
      requires Recorded()
      modifies this
      ensures Recorded() && Outcome(seen, ok) == CommitBoth(old(seen), n, db, luck)
    {
      ok := WriteSerial(n, luck.saveSerial);
      if !ok { return; }
      ok := WriteIndex(db, luck.saveIndex, luck.saveAttr);
      if !ok { return; }
      if !luck.certs { return false; }
      ok := Serial(luck.serial);
      if !ok { return; }
      ok := Index(luck.index);
    }
  }
}
