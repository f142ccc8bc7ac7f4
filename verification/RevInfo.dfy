/** The revocation field of the CA database (openssl-master/apps/ca.c:2322-2429, 2534-2643).

    make_revocation_str prints `time[,reason[,argument]]`; unpack_revinfo cuts such a text at its
    commas and reads it back.  Whether a text is a UTCTime, a GeneralizedTime or an object
    identifier is decided by library parsers, which are parameters here; a parsed value is
    represented by the text it was parsed from. */
module RevInfo {
  import opened Wrappers
  import opened CText

  datatype Parsers = Parsers(utcTime: string -> bool, generalizedTime: string -> bool, objectId: string -> bool)

  datatype RevType = Valid | NoInfo | CrlReason | Hold | KeyCompromise | CaCompromise

  /** What unpack_revinfo hands to its caller: revocation time, reason code (-1: none given),
      hold instruction and invalidity date. */
  datatype Info = Info(time: string, code: int, hold: Option<string>, invalidity: Option<string>)

  const NO_STATUS := -1
  const KEY_COMPROMISE := 1
  const CA_COMPROMISE := 2
  const CERTIFICATE_HOLD := 6
  const REMOVE_FROM_CRL := 8

  const REASONS: seq<string> := [
    "unspecified", "keyCompromise", "CACompromise", "affiliationChanged", "superseded",
    "cessationOfOperation", "certificateHold", "removeFromCRL",
    "holdInstruction", "keyTime", "CAkeyTime"]

  const CRL_REASONS := 8

  // ---- Case-blind comparison ------------------------------------------------------------------

  function Lower(c: char): char {
    if 'A' <= c <= 'Z' then c + 32 as char else c
  }

  predicate EqualFold(a: string, b: string) {
    |a| == |b| && forall k :: 0 <= k < |a| ==> Lower(a[k]) == Lower(b[k])
  }

  const CAPITALS := "ABCDEFGHIJKLMNOPQRSTUVWXYZ"
  const SMALLS := "abcdefghijklmnopqrstuvwxyz"

  /** The same character, or the same letter as a capital and as a small one. */
  predicate SameLetter(c: char, d: char) {
    c == d || exists i :: 0 <= i < 26 && CapitalAndSmall(c, d, i)
  }

  predicate CapitalAndSmall(c: char, d: char, i: nat)
    requires i < 26
  {
    (c == CAPITALS[i] && d == SMALLS[i]) || (c == SMALLS[i] && d == CAPITALS[i])
  }

  lemma LetterAt(i: nat)
    requires i < 26
    ensures CAPITALS[i] == (65 + i) as char && SMALLS[i] == (97 + i) as char
  {
  }

  lemma LowerExact(c: char, d: char)
    ensures Lower(c) == Lower(d) <==> SameLetter(c, d)
  {
    forall i | 0 <= i < 26 ensures CapitalAndSmall(c, d, i) ==> Lower(c) == Lower(d) { LetterAt(i); }
    if Lower(c) == Lower(d) && c != d {
      var i := Lower(c) as nat - 97;
      LetterAt(i);
      assert CapitalAndSmall(c, d, i);
    }
  }

  /** Two texts are compared letter by letter, whatever their case. */
  lemma FoldExact(a: string, b: string)
    ensures EqualFold(a, b) <==> |a| == |b| && forall k :: 0 <= k < |a| ==> SameLetter(a[k], b[k])
  {
    forall k | 0 <= k < |a| && k < |b| ensures Lower(a[k]) == Lower(b[k]) <==> SameLetter(a[k], b[k]) {
      LowerExact(a[k], b[k]);
    }
  }

  /** No two entries of the table differ by letter case only, so at most one matches a text. */
  lemma ReasonsDistinct(text: string, i: nat, j: nat)
    requires i < |REASONS| && j < |REASONS|
    requires EqualFold(text, REASONS[i]) && EqualFold(text, REASONS[j])
    ensures i == j
  {
    assert Lower(text[0]) == Lower(REASONS[i][0]) == Lower(REASONS[j][0]);
  }

  /** The least index from `i` up to `n` whose reason is `text`, or -1. */
  function FindReason(text: string, i: nat, n: nat): (r: int)
    requires i <= n <= |REASONS|
    ensures r == -1 || (i <= r < n && EqualFold(text, REASONS[r]))
    ensures r == -1 ==> forall j :: i <= j < n ==> !EqualFold(text, REASONS[j])
    decreases n - i
  {
    if i == n then -1 else if EqualFold(text, REASONS[i]) then i else FindReason(text, i + 1, n)
  }

  lemma FindReasonIs(text: string, n: nat, j: nat)
    requires j < n <= |REASONS| && EqualFold(text, REASONS[j])
    ensures FindReason(text, 0, n) == j
  {
    ReasonsDistinct(text, FindReason(text, 0, n), j);
  }

  /** The loop both functions run over the table. */
  method SearchReasons(text: string, n: nat) returns (r: int)
    requires n <= |REASONS|
    ensures r == FindReason(text, 0, n)
  {
    r := -1;
    var i := 0;
    while i < n
      invariant i <= n && r == -1
      invariant FindReason(text, 0, n) == FindReason(text, i, n)
    {
      if EqualFold(text, REASONS[i]) {
        return i;
      }
      i := i + 1;
    }
  }

  // ---- Printing -------------------------------------------------------------------------------

  /** The reason and argument printed for a revocation, or None if the argument is refused. */
  function Tail(p: Parsers, t: RevType, arg: string): Option<(Option<string>, Option<string>)> {
    match t
    case Valid => Some((None, None))
    case NoInfo => Some((None, None))
    case CrlReason =>
      var i := FindReason(arg, 0, CRL_REASONS);
      if i == -1 then None else Some((Some(REASONS[i]), None))
    case Hold => if p.objectId(arg) then Some((Some("holdInstruction"), Some(arg))) else None
    case KeyCompromise => if p.generalizedTime(arg) then Some((Some("keyTime"), Some(arg))) else None
    case CaCompromise => if p.generalizedTime(arg) then Some((Some("CAkeyTime"), Some(arg))) else None
  }

  function Part(o: Option<string>): string {
    if o.Some? then "," + o.value else ""
  }

  function Print(p: Parsers, now: string, t: RevType, arg: string): Option<string> {
    match Tail(p, t, arg)
    case None => None
    case Some((reason, other)) => Some(now + Part(reason) + Part(other))
  }

  lemma Joined(now: string, reason: string, other: string)
    ensures now + Part(None) + Part(None) == now
    ensures now + Part(Some(reason)) + Part(None) == now + "," + reason
    ensures now + Part(Some(reason)) + Part(Some(other)) == now + "," + reason + "," + other
  {
  }

  /** What is printed, word for word: the time alone; with a reason of the table, as the table spells
      it; or with the name of the kind of revocation and its argument as given. */
  lemma PrintedIs(p: Parsers, now: string, t: RevType, arg: string)
    requires Print(p, now, t, arg).Some?
    ensures var text := Print(p, now, t, arg).value;
            match t
            case Valid => text == now
            case NoInfo => text == now
            case CrlReason => exists i :: 0 <= i < 8 && EqualFold(arg, REASONS[i]) && text == now + "," + REASONS[i]
            case Hold => text == now + "," + "holdInstruction" + "," + arg
            case KeyCompromise => text == now + "," + "keyTime" + "," + arg
            case CaCompromise => text == now + "," + "CAkeyTime" + "," + arg
  {
    match t
    case Valid => Joined(now, "", "");
    case NoInfo => Joined(now, "", "");
    case CrlReason => Joined(now, REASONS[FindReason(arg, 0, CRL_REASONS)], "");
    case Hold => Joined(now, "holdInstruction", arg);
    case KeyCompromise => Joined(now, "keyTime", arg);
    case CaCompromise => Joined(now, "CAkeyTime", arg);
  }

  // ---- The printer's buffer -------------------------------------------------------------------

  lemma NoComma(i: nat)
    requires i < |REASONS|
    ensures ',' !in REASONS[i]
  {
  }

  lemma NoNul(i: nat)
    requires i < |REASONS|
    ensures '\0' !in REASONS[i]
  {
  }

  /** The switch of make_revocation_str. */
  method ChooseReason(p: Parsers, t: RevType, arg: string) returns (r: Option<(Option<string>, Option<string>)>)
    ensures r == Tail(p, t, arg)
  {
    match t {
      case Valid => return Some((None, None));
      case NoInfo => return Some((None, None));
      case CrlReason =>
        var i := SearchReasons(arg, CRL_REASONS);
        if i == -1 { return None; }
        return Some((Some(REASONS[i]), None));
      case Hold =>
        if !p.objectId(arg) { return None; }
        return Some((Some("holdInstruction"), Some(arg)));
      case KeyCompromise =>
        if !p.generalizedTime(arg) { return None; }
        return Some((Some("keyTime"), Some(arg)));
      case CaCompromise =>
        if !p.generalizedTime(arg) { return None; }
        return Some((Some("CAkeyTime"), Some(arg)));
    }
  }

  predicate Clean(o: Option<string>) {
    o.Some? ==> '\0' !in o.value
  }

  /** The buffer of make_revocation_str: the size it computes is exactly enough, so nothing is
      cut off. */
  method FormatField(now: string, reason: Option<string>, other: Option<string>) returns (r: string)
    requires '\0' !in now && Clean(reason) && Clean(other)
    ensures r == now + Part(reason) + Part(other)
  {
    var size := |now| + 1;
    if reason.Some? { size := size + |reason.value| + 1; }
    if other.Some? { size := size + |other.value| + 1; }
    var buf := new char[size](_ => '\0');
    CopyText(buf, 0, now);
    assert buf[..][..|now|] == now;
    AppendPart(buf, now, reason);
    AppendPart(buf, now + Part(reason), other);
    HoldsText(buf[..], 0, now + Part(reason) + Part(other));
    r := TextAt(buf[..], 0);
  }

  method AppendPart(buf: array<char>, ghost text: string, part: Option<string>)
    requires Holds(buf[..], 0, text) && Clean(part) && |text| + |Part(part)| < buf.Length
    modifies buf
    ensures Holds(buf[..], 0, text + Part(part))
  {
    if part.Some? {
      Append(buf, text, ",");
      Append(buf, text + ",", part.value);
      assert text + "," + part.value == text + Part(part);
    } else {
      assert text + Part(part) == text;
    }
  }

  method MakeRevocationStr(p: Parsers, now: string, t: RevType, arg: string) returns (r: Option<string>)
    requires '\0' !in now && '\0' !in arg
    ensures r == Print(p, now, t, arg)
  {
    var tail := ChooseReason(p, t, arg);
    if tail.None? { return None; }
    TailClean(p, t, arg);
    var field := FormatField(now, tail.value.0, tail.value.1);
    r := Some(field);
  }

  lemma TailClean(p: Parsers, t: RevType, arg: string)
    requires Tail(p, t, arg).Some? && '\0' !in arg
    ensures Clean(Tail(p, t, arg).value.0) && Clean(Tail(p, t, arg).value.1)
  {
    if Tail(p, t, arg).value.0.Some? {
      var i := ReasonIndex(p, t, arg);
      NoNul(i);
    }
  }

  /** The reason printed is one of the table, and for all but CRL reasons a fixed one. */
  lemma ReasonIndex(p: Parsers, t: RevType, arg: string) returns (i: nat)
    requires Tail(p, t, arg).Some? && Tail(p, t, arg).value.0.Some?
    ensures i < |REASONS| && Tail(p, t, arg).value.0 == Some(REASONS[i])
    ensures t == CrlReason ==> i == FindReason(arg, 0, CRL_REASONS)
    ensures t == Hold ==> i == 8
    ensures t == KeyCompromise ==> i == 9
    ensures t == CaCompromise ==> i == 10
  {
    i := if t == CrlReason then FindReason(arg, 0, CRL_REASONS)
         else if t == Hold then 8 else if t == KeyCompromise then 9 else 10;
  }

  // ---- Reading back ---------------------------------------------------------------------------

  /** A text before its first comma and what follows that comma, if there is one. */
  function Head(s: string): string { s[..Until(s, ',')] }

  function Rest(s: string): Option<string> {
    var k := Until(s, ',');
    if k == |s| then None else Some(s[k + 1..])
  }

  /** The meaning of table entry `i`. */
  function ByIndex(p: Parsers, time: string, i: nat, arg: Option<string>): Option<Info> {
    if i == 7 then Some(Info(time, REMOVE_FROM_CRL, None, None))
    else if i == 8 then
      if arg.Some? && p.objectId(arg.value) then Some(Info(time, CERTIFICATE_HOLD, arg, None)) else None
    else if i == 9 || i == 10 then
      if arg.Some? && p.generalizedTime(arg.value)
      then Some(Info(time, if i == 9 then KEY_COMPROMISE else CA_COMPROMISE, None, arg)) else None
    else Some(Info(time, i, None, None))
  }

  function Classify(p: Parsers, time: string, reason: string, arg: Option<string>): Option<Info> {
    var i := FindReason(reason, 0, |REASONS|);
    if i == -1 then None else ByIndex(p, time, i, arg)
  }

  function Unpack(p: Parsers, s: string): Option<Info> {
    if !p.utcTime(Head(s)) then None
    else match Rest(s)
      case None => Some(Info(Head(s), NO_STATUS, None, None))
      case Some(tail) => Classify(p, Head(s), Head(tail), Rest(tail))
  }

  /** From position `from` to its end a buffer holds exactly `s` and a NUL. */
  predicate Loaded(buf: string, from: nat, s: string) {
    from + |s| + 1 == |buf| && '\0' !in s && buf[from..] == s + ['\0']
  }

  /** strchr, and the NUL written over the comma it finds: afterwards the text at `from` is what
      was before the comma, and what was behind the comma is still in place. */
  method CutAtComma(buf: array<char>, from: nat, ghost s: string) returns (next: Option<nat>)
    requires Loaded(buf[..], from, s)
    modifies buf
    ensures buf[..from] == old(buf[..from])
    ensures Holds(buf[..], from, Head(s))
    ensures next == if Rest(s).Some? then Some(from + |Head(s)| + 1) else None
    ensures Rest(s).Some? ==> Loaded(buf[..], from + |Head(s)| + 1, Rest(s).value)
  {
    var k := from;
    ghost var t := buf[from..];
    while buf[k] != '\0' && buf[k] != ','
      invariant from <= k <= from + |s| && ',' !in s[..k - from]
      decreases buf.Length - k
    {
      assert buf[k] == t[k - from];
      assert s[..k + 1 - from] == s[..k - from] + [s[k - from]];
      k := k + 1;
    }
    assert buf[k] == t[k - from];
    ghost var n := k - from;
    assert n < |s| ==> s[n] in s;
    UntilIs(s, ',', n);
    assert buf[from..k] == t[..n] == s[..n];
    if buf[k] != ',' {
      return None;
    }
    assert s[n + 1..] + ['\0'] == t[n + 1..] == buf[k + 1..];
    buf[k] := '\0';
    next := Some(k + 1);
  }

  /** The first half of unpack_revinfo: duplicates the text, writes NULs over its first two commas
      and reads the pieces in place. */
  method CutField(s: string) returns (time: string, reason: Option<string>, arg: Option<string>)
    requires '\0' !in s
    ensures time == Head(s)
    ensures reason == if Rest(s).Some? then Some(Head(Rest(s).value)) else None
    ensures arg == if Rest(s).Some? then Rest(Rest(s).value) else None
  {
    var tmp := new char[|s| + 1](i => if 0 <= i < |s| then s[i] else '\0');
    assert tmp[0..] == s + ['\0'];
    var second := CutAtComma(tmp, 0, s);
    reason, arg := None, None;
    if second.Some? {
      ghost var was, tail := tmp[..], Rest(s).value;
      var third := CutAtComma(tmp, second.value, tail);
      HoldsFrame(was, tmp[..], 0, Head(s), second.value);
      HoldsText(tmp[..], second.value, Head(tail));
      reason := Some(TextAt(tmp[..], second.value));
      if third.Some? {
        LoadedHolds(tmp[..], third.value, Rest(tail).value);
        arg := Some(TextAt(tmp[..], third.value));
      }
    }
    HoldsText(tmp[..], 0, Head(s));
    time := TextAt(tmp[..], 0);
  }

  lemma LoadedHolds(buf: string, from: nat, s: string)
    requires Loaded(buf, from, s)
    ensures Holds(buf, from, s) && TextAt(buf, from) == s
  {
    assert buf[from..from + |s|] == buf[from..][..|s|] == s;
    assert buf[from + |s|] == buf[from..][|s|];
    HoldsText(buf, from, s);
  }

  /** The second half of unpack_revinfo. */
  method UnpackRevinfo(p: Parsers, s: string) returns (r: Option<Info>)
    requires '\0' !in s
    ensures r == Unpack(p, s)
  {
    var time, reason, arg := CutField(s);
    if !p.utcTime(time) { return None; }
    if reason.None? { return Some(Info(time, NO_STATUS, None, None)); }
    var code := SearchReasons(reason.value, |REASONS|);
    var hold, invalidity: Option<string> := None, None;
    if code == NO_STATUS {
      return None;
    } else if code == 7 {
      code := REMOVE_FROM_CRL;
    } else if code == 8 {
      if arg.None? { return None; }
      code := CERTIFICATE_HOLD;
      if !p.objectId(arg.value) { return None; }
      hold := arg;
    } else if code == 9 || code == 10 {
      if arg.None? || !p.generalizedTime(arg.value) { return None; }
      invalidity := arg;
      code := if code == 9 then KEY_COMPROMISE else CA_COMPROMISE;
    }
    r := Some(Info(time, code, hold, invalidity));
  }

  // ---- The round trip -------------------------------------------------------------------------

  /** Reason codes of section 5.3.1 of RFC 5280. */
  datatype Reason =
    | Unspecified | KeyCompromised | CaCompromised | AffiliationChanged | Superseded
    | CessationOfOperation | OnHold | RemoveFromCrl

  function Code(r: Reason): int {
    match r
    case Unspecified => 0
    case KeyCompromised => 1
    case CaCompromised => 2
    case AffiliationChanged => 3
    case Superseded => 4
    case CessationOfOperation => 5
    case OnHold => 6
    case RemoveFromCrl => 8
  }

  function Name(r: Reason): string {
    match r
    case Unspecified => "unspecified"
    case KeyCompromised => "keyCompromise"
    case CaCompromised => "CACompromise"
    case AffiliationChanged => "affiliationChanged"
    case Superseded => "superseded"
    case CessationOfOperation => "cessationOfOperation"
    case OnHold => "certificateHold"
    case RemoveFromCrl => "removeFromCRL"
  }

  /** What a revocation of the given kind says, by the meaning of its argument. */
  predicate Says(t: RevType, arg: string, now: string, info: Info) {
    info.time == now &&
    match t
    case Valid => info.code == -1 && info.hold == None && info.invalidity == None
    case NoInfo => info.code == -1 && info.hold == None && info.invalidity == None
    case CrlReason =>
      (exists r: Reason :: EqualFold(arg, Name(r)) && info.code == Code(r))
      && info.hold == None && info.invalidity == None
    case Hold => info.code == Code(OnHold) && info.hold == Some(arg) && info.invalidity == None
    case KeyCompromise => info.code == Code(KeyCompromised) && info.hold == None && info.invalidity == Some(arg)
    case CaCompromise => info.code == Code(CaCompromised) && info.hold == None && info.invalidity == Some(arg)
  }

  predicate GoodArgument(p: Parsers, t: RevType, arg: string) {
    match t
    case Valid => true
    case NoInfo => true
    case CrlReason => exists r: Reason :: EqualFold(arg, Name(r))
    case Hold => p.objectId(arg)
    case KeyCompromise => p.generalizedTime(arg)
    case CaCompromise => p.generalizedTime(arg)
  }

  function Index(r: Reason): (i: nat)
    ensures i < CRL_REASONS && REASONS[i] == Name(r)
    ensures Code(r) == if i == 7 then 8 else i
  {
    match r
    case Unspecified => 0
    case KeyCompromised => 1
    case CaCompromised => 2
    case AffiliationChanged => 3
    case Superseded => 4
    case CessationOfOperation => 5
    case OnHold => 6
    case RemoveFromCrl => 7
  }

  function ReasonAt(i: nat): (r: Reason)
    requires i < CRL_REASONS
    ensures Index(r) == i
  {
    [Unspecified, KeyCompromised, CaCompromised, AffiliationChanged, Superseded, CessationOfOperation, OnHold,
     RemoveFromCrl][i]
  }

  /** A text is printed exactly when the argument is acceptable. */
  lemma PrintsExactly(p: Parsers, now: string, t: RevType, arg: string)
    ensures Print(p, now, t, arg).Some? <==> GoodArgument(p, t, arg)
  {
    if t == CrlReason {
      var i := FindReason(arg, 0, CRL_REASONS);
      if i != -1 {
        assert EqualFold(arg, Name(ReasonAt(i)));
      } else {
        forall r: Reason ensures !EqualFold(arg, Name(r)) { var _ := Index(r); }
      }
    }
  }

  lemma SplitAt(a: string, b: string)
    requires ',' !in a
    ensures Head(a) == a && Rest(a) == None
    ensures Head(a + "," + b) == a && Rest(a + "," + b) == Some(b)
  {
    UntilIs(a, ',', |a|);
    var s := a + "," + b;
    assert s[..|a|] == a && s[|a| + 1..] == b;
    UntilIs(s, ',', |a|);
  }

  lemma NamesFound(i: nat)
    requires i < |REASONS|
    ensures FindReason(REASONS[i], 0, |REASONS|) == i
  {
    FindReasonIs(REASONS[i], |REASONS|, i);
  }

  lemma PartsSplit(now: string, reason: string, other: Option<string>)
    requires ',' !in now && ',' !in reason
    ensures var s := now + Part(Some(reason)) + Part(other);
            Head(s) == now && Rest(s) == Some(reason + Part(other))
    ensures Head(reason + Part(other)) == reason && Rest(reason + Part(other)) == other
  {
    var tail := reason + Part(other);
    assert now + Part(Some(reason)) + Part(other) == now + "," + tail;
    SplitAt(now, tail);
    if other.Some? {
      assert tail == reason + "," + other.value;
      SplitAt(reason, other.value);
    } else {
      assert tail == reason;
      SplitAt(reason, "");
    }
  }

  /** Reading a printed field gives the meaning of the table entry printed. */
  lemma UnpackPrintedIs(p: Parsers, now: string, i: nat, other: Option<string>)
    requires ',' !in now && i < |REASONS|
    ensures Unpack(p, now + Part(Some(REASONS[i])) + Part(other))
         == if p.utcTime(now) then ByIndex(p, now, i, other) else None
  {
    NoComma(i);
    NamesFound(i);
    PartsSplit(now, REASONS[i], other);
  }

  /** unpack_revinfo undoes make_revocation_str for every kind of revocation and every accepted
      argument, as long as the current time is printed as a UTCTime; when it is not (from 2050 on
      it is printed as a GeneralizedTime) the field that was just written is refused. */
  lemma RoundTrip(p: Parsers, now: string, t: RevType, arg: string)
    requires ',' !in now && GoodArgument(p, t, arg)
    ensures Print(p, now, t, arg).Some?
    ensures var back := Unpack(p, Print(p, now, t, arg).value);
            if p.utcTime(now) then back.Some? && Says(t, arg, now, back.value) else back == None
  {
    PrintsExactly(p, now, t, arg);
    var (reason, other) := Tail(p, t, arg).value;
    if reason == None {
      assert Print(p, now, t, arg).value == now;
      SplitAt(now, "");
    } else {
      var i := ReasonIndex(p, t, arg);
      UnpackPrintedIs(p, now, i, other);
      EntrySays(p, now, t, arg, i);
    }
  }

  lemma EntrySays(p: Parsers, now: string, t: RevType, arg: string, i: nat)
    requires i < |REASONS| && Tail(p, t, arg).Some? && Tail(p, t, arg).value.0 == Some(REASONS[i])
    ensures var info := ByIndex(p, now, i, Tail(p, t, arg).value.1); info.Some? && Says(t, arg, now, info.value)
  {
    var j := ReasonIndex(p, t, arg);
    NamesFound(i);
    NamesFound(j);
    if t == CrlReason {
      assert EqualFold(arg, Name(ReasonAt(i)));
    }
  }

  /** What a field says by its reason and its argument, if it is one that says something. */
  predicate Reads(p: Parsers, reason: Option<string>, arg: Option<string>, info: Info) {
    if reason.None? then info.code == -1 && info.hold == None && info.invalidity == None
    else if EqualFold(reason.value, "holdInstruction") then
      arg.Some? && p.objectId(arg.value) && info.code == Code(OnHold) && info.hold == arg && info.invalidity == None
    else if EqualFold(reason.value, "keyTime") || EqualFold(reason.value, "CAkeyTime") then
      && arg.Some? && p.generalizedTime(arg.value) && info.hold == None && info.invalidity == arg
      && info.code == if EqualFold(reason.value, "keyTime") then Code(KeyCompromised) else Code(CaCompromised)
    else
      (exists r: Reason :: EqualFold(reason.value, Name(r)) && info.code == Code(r))
      && info.hold == None && info.invalidity == None
  }

  /** unpack_revinfo takes exactly the fields whose time is a UTCTime and whose reason and argument say
      something, and gives what they say. */
  lemma UnpackExact(p: Parsers, time: string, reason: Option<string>, arg: Option<string>, info: Info)
    requires ',' !in time && (reason.Some? ==> ',' !in reason.value) && (reason.None? ==> arg.None?)
    ensures Unpack(p, time + Part(reason) + Part(arg)) == Some(info)
       <==> p.utcTime(time) && info.time == time && Reads(p, reason, arg, info)
  {
    var s := time + Part(reason) + Part(arg);
    if reason.None? {
      assert s == time;
      SplitAt(time, "");
    } else {
      PartsSplit(time, reason.value, arg);
      ClassifyIs(p, time, reason.value, arg, info);
    }
  }

  lemma ClassifyIs(p: Parsers, time: string, reason: string, arg: Option<string>, info: Info)
    ensures Classify(p, time, reason, arg) == Some(info) <==> info.time == time && Reads(p, Some(reason), arg, info)
  {
    var i := FindReason(reason, 0, |REASONS|);
    forall j | 0 <= j < |REASONS| ensures EqualFold(reason, REASONS[j]) <==> j == i {
      if EqualFold(reason, REASONS[j]) { FindReasonIs(reason, |REASONS|, j); }
    }
    assert REASONS[8] == "holdInstruction" && REASONS[9] == "keyTime" && REASONS[10] == "CAkeyTime";
    if 0 <= i < CRL_REASONS {
      assert EqualFold(reason, Name(ReasonAt(i)));
    }
    forall r: Reason ensures EqualFold(reason, Name(r)) <==> Index(r) == i {}
  }

  /** Whatever text it reads, unpack_revinfo gives one of the codes of section 5.3.1 of RFC 5280
      or none, a hold instruction only with code 6, and an invalidity date only with 1 or 2. */
  lemma UnpackedCode(p: Parsers, s: string)
    requires Unpack(p, s).Some?
    ensures var i := Unpack(p, s).value;
            && (i.code == NO_STATUS || exists r: Reason :: i.code == Code(r))
            && (i.hold.Some? ==> i.code == Code(OnHold))
            && (i.invalidity.Some? ==> i.code == Code(KeyCompromised) || i.code == Code(CaCompromised))
  {
    var info := Unpack(p, s).value;
    if info.code != NO_STATUS {
      assert info.code == Code(ReasonAt(if info.code == 8 then 7 else info.code));
    }
  }
}
