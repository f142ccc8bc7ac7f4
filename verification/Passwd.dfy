/** Output encodings of the password hashes (openssl-master/apps/passwd.c:25-35, 448-475, 652-673,
    709-757).  Bit operations on bytes are written as the arithmetic they are: masking with 63 is
    `% 64`, shifting right by six is `/ 64`, and an or of disjoint bits is a sum. */
module Passwd {
  import opened Sequences
  import Resize

  type Byte = b: nat | b < 256

  /** The 64 characters of crypt: `.`, `/`, digits, capitals, small letters. */
  function Char(v: nat): char
    requires v < 64
  {
    if v < 12 then ('.' as nat + v) as char
    else if v < 38 then ('A' as nat + v - 12) as char
    else ('a' as nat + v - 38) as char
  }

  const ALPHABET := "./0123456789" + "ABCDEFGHIJKLMNOPQRSTUVWXYZ" + "abcdefghijklmnopqrstuvwxyz"

  lemma CharIs(v: nat)
    requires v < 64
    ensures |ALPHABET| == 64 && Char(v) == ALPHABET[v]
  {
    if v < 12 {
    } else if v < 38 {
    } else {
    }
  }

  // ---- Six bits at a time ---------------------------------------------------------------------

  /** `n` characters of `w`, the lowest six bits first. */
  function Base64(w: nat, n: nat): (s: string)
    ensures |s| == n
  {
    if n == 0 then "" else [Char(w % 64)] + Base64(w / 64, n - 1)
  }

  function Power64(n: nat): nat {
    if n == 0 then 1 else 64 * Power64(n - 1)
  }

  /** No two numbers of at most 6n bits give the same n characters. */
  lemma {:induction false} Base64Injective(v: nat, w: nat, n: nat)
    requires v < Power64(n) && w < Power64(n) && Base64(v, n) == Base64(w, n)
    ensures v == w
  {
    if n > 0 {
      assert Base64(v, n)[0] == Char(v % 64) && Base64(w, n)[0] == Char(w % 64);
      assert Base64(v, n)[1..] == Base64(v / 64, n - 1) && Base64(w, n)[1..] == Base64(w / 64, n - 1);
      Base64Injective(v / 64, w / 64, n - 1);
    }
  }

  /** Three bytes as one number; a missing byte is zero. */
  function Word(b2: Byte, b1: Byte, b0: Byte): nat {
    b2 * 65536 + b1 * 256 + b0
  }

  /** The macro b64_from_24bit, appending at the output pointer. */
  method B64From24Bit(out: string, b2: Byte, b1: Byte, b0: Byte, n: nat) returns (cp: string)
    ensures cp == out + Base64(Word(b2, b1, b0), n)
  {
    cp := out;
    var w := Word(b2, b1, b0);
    var i := n;
    PlusNil(out);
    while i > 0
      invariant 0 <= i <= n
      invariant cp + Base64(w, i) == out + Base64(Word(b2, b1, b0), n)
    {
      PlusAssoc(cp, [Char(w % 64)], Base64(w / 64, i - 1));
      cp := cp + [Char(w % 64)];
      w := w / 64;
      i := i - 1;
    }
    PlusNil(cp);
  }

  // ---- Encoding by a table --------------------------------------------------------------------

  /** One line of an encoding: the digest bytes taken, high to low, the last one always there. */
  datatype Line =
    | Three(hi: nat, mid: nat, lo: nat)
    | Two(mid: nat, lo: nat)
    | One(lo: nat)

  predicate Fits(l: Line, size: nat) {
    l.lo < size && (!l.One? ==> l.mid < size) && (l.Three? ==> l.hi < size)
  }

  predicate Takes(l: Line, k: nat) {
    l.lo == k || (!l.One? && l.mid == k) || (l.Three? && l.hi == k)
  }

  function Value(d: seq<Byte>, l: Line): nat
    requires Fits(l, |d|)
  {
    match l
    case Three(hi, mid, lo) => Word(d[hi], d[mid], d[lo])
    case Two(mid, lo) => Word(0, d[mid], d[lo])
    case One(lo) => Word(0, 0, d[lo])
  }

  /** How many characters a line gives: enough for its bytes. */
  function Chars(l: Line): nat {
    if l.Three? then 4 else if l.Two? then 3 else 2
  }

  predicate AllFit(table: seq<Line>, size: nat) {
    forall k :: 0 <= k < |table| ==> Fits(table[k], size)
  }

  function Encode(d: seq<Byte>, table: seq<Line>): string
    requires AllFit(table, |d|)
  {
    if table == [] then "" else Base64(Value(d, table[0]), Chars(table[0])) + Encode(d, table[1..])
  }

  /** Every byte of the digest is taken by some line. */
  predicate Covers(table: seq<Line>, size: nat) {
    forall k: nat :: k < size ==> TakenBy(table, k)
  }

  predicate TakenBy(table: seq<Line>, k: nat) {
    exists r :: 0 <= r < |table| && Takes(table[r], k)
  }

  lemma ValueBound(d: seq<Byte>, l: Line)
    requires Fits(l, |d|)
    ensures Value(d, l) < Power64(Chars(l))
  {
    assert Power64(1) == 64 && Power64(2) == 64 * Power64(1) && Power64(3) == 64 * Power64(2)
           && Power64(4) == 64 * Power64(3);
  }

  lemma WordInjective(a2: Byte, a1: Byte, a0: Byte, b2: Byte, b1: Byte, b0: Byte)
    requires Word(a2, a1, a0) == Word(b2, b1, b0)
    ensures a2 == b2 && a1 == b1 && a0 == b0
  {
  }

  lemma SameBytes(d: seq<Byte>, e: seq<Byte>, l: Line, k: nat)
    requires |d| == |e| && Fits(l, |d|) && Value(d, l) == Value(e, l) && Takes(l, k)
    ensures k < |d| && d[k] == e[k]
  {
    match l
    case Three(hi, mid, lo) => WordInjective(d[hi], d[mid], d[lo], e[hi], e[mid], e[lo]);
    case Two(mid, lo) => WordInjective(0, d[mid], d[lo], 0, e[mid], e[lo]);
    case One(lo) =>
  }

  /** The first line's characters and the rest can be told apart. */
  lemma EncodeSplits(d: seq<Byte>, table: seq<Line>)
    requires AllFit(table, |d|) && table != []
    ensures var n := Chars(table[0]);
            && |Encode(d, table)| >= n
            && Encode(d, table)[..n] == Base64(Value(d, table[0]), n)
            && Encode(d, table)[n..] == Encode(d, table[1..])
  {
  }

  /** Equal texts come from equal values, line by line. */
  lemma {:induction false} SameLines(d: seq<Byte>, e: seq<Byte>, table: seq<Line>, r: nat)
    requires |d| == |e| && AllFit(table, |d|) && r < |table| && Encode(d, table) == Encode(e, table)
    ensures Value(d, table[r]) == Value(e, table[r])
    decreases |table|
  {
    EncodeSplits(d, table);
    EncodeSplits(e, table);
    if r == 0 {
      ValueBound(d, table[0]);
      ValueBound(e, table[0]);
      Base64Injective(Value(d, table[0]), Value(e, table[0]), Chars(table[0]));
    } else {
      SameLines(d, e, table[1..], r - 1);
    }
  }

  /** The text determines the digest. */
  lemma EncodeInjective(d: seq<Byte>, e: seq<Byte>, table: seq<Line>)
    requires |d| == |e| && AllFit(table, |d|) && Covers(table, |d|) && Encode(d, table) == Encode(e, table)
    ensures d == e
  {
    forall k | 0 <= k < |d| ensures d[k] == e[k] {
      assert TakenBy(table, k);
      var r :| 0 <= r < |table| && Takes(table[r], k);
      SameLines(d, e, table, r);
      SameBytes(d, e, table[r], k);
    }
  }

  // ---- MD5 ------------------------------------------------------------------------------------

  /** The byte of the digest at place `dest` of the permuted digest. */
  function Source(dest: nat): (s: nat)
    requires dest < 16
    ensures s < 16
  {
    if dest == 14 then 5 else if dest == 15 then 11 else dest * 6 % 17
  }

  /** The place of byte `s`: three is the inverse of six modulo 17. */
  function Place(s: nat): nat
    requires s < 16
  {
    if s == 5 then 14 else if s == 11 then 15 else s * 3 % 17
  }

  lemma Residue(x: int, k: nat, m: int)
    requires k < 17 && x == k + 17 * m
    ensures x % 17 == k
  {
  }

  lemma SixThree(k: nat)
    requires k < 17
    ensures k * 6 % 17 * 3 % 17 == k && k * 3 % 17 * 6 % 17 == k
  {
    Residue(k * 6 % 17 * 3, k, k - 3 * (k * 6 / 17));
    Residue(k * 3 % 17 * 6, k, k - 6 * (k * 3 / 17));
  }

  /** The stepping by six modulo 17 and the two fixed entries are a permutation of 0..15. */
  lemma SourcePermutes(k: nat)
    requires k < 16
    ensures Source(k) < 16 && Place(k) < 16 && Source(Place(k)) == k && Place(Source(k)) == k
  {
    SixThree(k);
  }

  function Permuted(d: seq<Byte>): (p: seq<Byte>)
    requires |d| == 16
    ensures |p| == 16
  {
    seq(16, k requires 0 <= k < 16 => d[Source(k)])
  }

  const MD5_TABLE: seq<Line> :=
    [Three(0, 1, 2), Three(3, 4, 5), Three(6, 7, 8), Three(9, 10, 11), Three(12, 13, 14), One(15)]

  /** The loop of the MD5 encoder writes out its four characters by hand; they are those of
      b64_from_24bit. */
  lemma UnrolledIs(b2: Byte, b1: Byte, b0: Byte)
    ensures b0 % 64 < 64 && b1 % 16 * 4 + b0 / 64 < 64 && b2 % 4 * 16 + b1 / 16 < 64 && b2 / 4 < 64
    ensures [Char(b0 % 64), Char(b1 % 16 * 4 + b0 / 64), Char(b2 % 4 * 16 + b1 / 16), Char(b2 / 4)]
         == Base64(Word(b2, b1, b0), 4)
  {
    var w := Word(b2, b1, b0);
    var w1 := b2 * 1024 + b1 * 4 + b0 / 64;
    var w2 := b2 * 16 + b1 / 16;
    var w3 := b2 / 4;
    assert w == 64 * w1 + b0 % 64;
    assert w1 == 64 * w2 + (b1 % 16 * 4 + b0 / 64);
    assert w2 == 64 * w3 + (b2 % 4 * 16 + b1 / 16);
    Base64Step(w, 4, w1, b0 % 64);
    Base64Step(w1, 3, w2, b1 % 16 * 4 + b0 / 64);
    Base64Step(w2, 2, w3, b2 % 4 * 16 + b1 / 16);
    Base64Step(w3, 1, 0, w3);
    assert Base64(0, 0) == "";
  }

  lemma DivMod64(w: nat, rest: nat, low: nat)
    requires low < 64 && w == 64 * rest + low
    ensures w / 64 == rest && w % 64 == low
  {
  }

  lemma Base64Step(w: nat, n: nat, rest: nat, low: nat)
    requires n > 0 && low < 64 && w == 64 * rest + low
    ensures Base64(w, n) == [Char(low)] + Base64(rest, n - 1)
  {
    DivMod64(w, rest, low);
  }

  lemma StepBySix(d: nat)
    ensures (d * 6 % 17 + 6) % 17 == (d + 1) * 6 % 17
  {
  }

  /** The permutation loop of md5crypt. */
  method Permute(buf: seq<Byte>) returns (perm: array<Byte>)
    requires |buf| == 16
    ensures fresh(perm) && perm[..] == Permuted(buf)
  {
    perm := new Byte[16](_ => 0);
    ghost var p := Permuted(buf);
    var dest, source := 0, 0;
    while dest < 14
      invariant 0 <= dest <= 14 && source == dest * 6 % 17
      invariant forall k :: 0 <= k < dest ==> perm[k] == p[k]
    {
      assert source == Source(dest) && p[dest] == buf[Source(dest)];
      StepBySix(dest);
      perm[dest] := buf[source];
      dest, source := dest + 1, (source + 6) % 17;
    }
    perm[14] := buf[5];
    perm[15] := buf[11];
  }

  lemma Md5Line(p: seq<Byte>, r: nat)
    requires |p| == 16 && r < 5
    ensures Encode(p, MD5_TABLE[r..])
         == Base64(Word(p[3 * r], p[3 * r + 1], p[3 * r + 2]), 4) + Encode(p, MD5_TABLE[r + 1..])
  {
    var rest := MD5_TABLE[r..];
    assert rest[0] == Three(3 * r, 3 * r + 1, 3 * r + 2) && rest[1..] == MD5_TABLE[r + 1..];
  }

  /** The four characters of one turn of the loop. */
  method Emit(out: string, b2: Byte, b1: Byte, b0: Byte) returns (output: string)
    ensures output == out + Base64(Word(b2, b1, b0), 4)
  {
    UnrolledIs(b2, b1, b0);
    output := out + [Char(b0 % 64), Char(b1 % 16 * 4 + b0 / 64), Char(b2 % 4 * 16 + b1 / 16), Char(b2 / 4)];
  }

  lemma Md5LastLine(p: seq<Byte>)
    requires |p| == 16
    ensures p[15] / 64 < 64
    ensures Encode(p, MD5_TABLE[5..]) == [Char(p[15] % 64), Char(p[15] / 64)]
  {
    assert MD5_TABLE[5..] == [One(15)];
    Base64Step(p[15], 2, p[15] / 64, p[15] % 64);
    Base64Step(p[15] / 64, 1, 0, p[15] / 64);
    assert Base64(0, 0) == "";
    PlusNil(Base64(p[15], 2));
  }

  /** The output loop of md5crypt. */
  method EncodeMd5(buf: seq<Byte>) returns (out: string)
    requires |buf| == 16
    ensures out == Encode(Permuted(buf), MD5_TABLE)
  {
    var perm := Permute(buf);
    ghost var p := Permuted(buf);
    out := "";
    var i := 0;
    ghost var r := 0;
    assert MD5_TABLE[0..] == MD5_TABLE;
    PlusNil(Encode(p, MD5_TABLE));
    while i < 15
      invariant 0 <= r <= 5 && i == 3 * r
      invariant out + Encode(p, MD5_TABLE[r..]) == Encode(p, MD5_TABLE)
      modifies {}
    {
      Md5Line(p, r);
      PlusAssoc(out, Base64(Word(p[i], p[i + 1], p[i + 2]), 4), Encode(p, MD5_TABLE[r + 1..]));
      assert perm[i] == p[i] && perm[i + 1] == p[i + 1] && perm[i + 2] == p[i + 2];
      out := Emit(out, perm[i], perm[i + 1], perm[i + 2]);
      i := i + 3;
      r := r + 1;
    }
    assert perm[15] == p[15];
    Md5LastLine(p);
    out := out + [Char(perm[i] % 64), Char(perm[i] / 64)];
  }

  lemma Md5Covers(k: nat)
    requires k < 16
    ensures TakenBy(MD5_TABLE, k)
  {
    assert Takes(MD5_TABLE[k / 3], k);
  }

  /** The output of md5crypt determines the digest. */
  lemma Md5Injective(d: seq<Byte>, e: seq<Byte>)
    requires |d| == 16 && |e| == 16
    requires Encode(Permuted(d), MD5_TABLE) == Encode(Permuted(e), MD5_TABLE)
    ensures d == e
  {
    forall k: nat | k < 16 ensures TakenBy(MD5_TABLE, k) { Md5Covers(k); }
    EncodeInjective(Permuted(d), Permuted(e), MD5_TABLE);
    forall k | 0 <= k < 16 ensures d[k] == e[k] {
      SourcePermutes(k);
      assert Permuted(d)[Place(k)] == d[k] && Permuted(e)[Place(k)] == e[k];
    }
  }

  // ---- SHA-256 and SHA-512 --------------------------------------------------------------------

  const SHA256_TABLE: seq<Line> :=
    [Three(0, 10, 20), Three(21, 1, 11), Three(12, 22, 2), Three(3, 13, 23), Three(24, 4, 14), Three(15, 25, 5),
     Three(6, 16, 26), Three(27, 7, 17), Three(18, 28, 8), Three(9, 19, 29), Two(31, 30)]

  const SHA512_TABLE: seq<Line> :=
    [Three(0, 21, 42), Three(22, 43, 1), Three(44, 2, 23), Three(3, 24, 45), Three(25, 46, 4), Three(47, 5, 26),
     Three(6, 27, 48), Three(28, 49, 7), Three(50, 8, 29), Three(9, 30, 51), Three(31, 52, 10), Three(53, 11, 32),
     Three(12, 33, 54), Three(34, 55, 13), Three(56, 14, 35), Three(15, 36, 57), Three(37, 58, 16),
     Three(59, 17, 38), Three(18, 39, 60), Three(40, 61, 19), Three(62, 20, 41), One(63)]

  /** The lines of shacrypt one after another. */
  method EncodeSha(buf: seq<Byte>, table: seq<Line>) returns (out: string)
    requires AllFit(table, |buf|)
    ensures out == Encode(buf, table)
  {
    out := "";
    var r := 0;
    assert table[0..] == table;
    PlusNil(Encode(buf, table));
    while r < |table|
      invariant r <= |table| && out + Encode(buf, table[r..]) == Encode(buf, table)
    {
      var l := table[r];
      ghost var rest := table[r..];
      assert rest[0] == l && rest[1..] == table[r + 1..];
      PlusAssoc(out, Base64(Value(buf, l), Chars(l)), Encode(buf, rest[1..]));
      match l {
        case Three(hi, mid, lo) => out := B64From24Bit(out, buf[hi], buf[mid], buf[lo], 4);
        case Two(mid, lo) => out := B64From24Bit(out, 0, buf[mid], buf[lo], 3);
        case One(lo) => out := B64From24Bit(out, 0, 0, buf[lo], 2);
      }
      r := r + 1;
    }
    assert table[r..] == [];
    PlusNil(out);
  }

  /** Byte k of a SHA-256 digest is in line k mod 10, the last two in the last line. */
  lemma Sha256Covers(k: nat)
    requires k < 32
    ensures TakenBy(SHA256_TABLE, k)
  {
    assert Takes(SHA256_TABLE[if k < 30 then k % 10 else 10], k);
  }

  /** Byte k of a SHA-512 digest is in line k mod 21, the last one in the last line. */
  lemma Sha512Covers(k: nat)
    requires k < 64
    ensures TakenBy(SHA512_TABLE, k)
  {
    assert Takes(SHA512_TABLE[if k < 63 then k % 21 else 21], k);
  }

  /** The output of shacrypt determines the digest, for both digest sizes. */
  lemma Sha256Injective(d: seq<Byte>, e: seq<Byte>)
    requires |d| == 32 && |e| == 32
    ensures AllFit(SHA256_TABLE, 32)
    ensures Encode(d, SHA256_TABLE) == Encode(e, SHA256_TABLE) ==> d == e
  {
    if Encode(d, SHA256_TABLE) == Encode(e, SHA256_TABLE) {
      forall k: nat | k < 32 ensures TakenBy(SHA256_TABLE, k) { Sha256Covers(k); }
      EncodeInjective(d, e, SHA256_TABLE);
    }
  }

  lemma Sha512Injective(d: seq<Byte>, e: seq<Byte>)
    requires |d| == 64 && |e| == 64
    ensures AllFit(SHA512_TABLE, 64)
    ensures Encode(d, SHA512_TABLE) == Encode(e, SHA512_TABLE) ==> d == e
  {
    if Encode(d, SHA512_TABLE) == Encode(e, SHA512_TABLE) {
      forall k: nat | k < 64 ensures TakenBy(SHA512_TABLE, k) { Sha512Covers(k); }
      EncodeInjective(d, e, SHA512_TABLE);
    }
  }

  // ---- The texts ------------------------------------------------------------------------------

  /** The four characters of three bytes: from the lowest six bits of the last byte to the highest six
      of the first. */
  function Quad(b2: Byte, b1: Byte, b0: Byte): string {
    [ALPHABET[b0 % 64], ALPHABET[b1 % 16 * 4 + b0 / 64], ALPHABET[b2 % 4 * 16 + b1 / 16], ALPHABET[b2 / 4]]
  }

  lemma QuadIs(b2: Byte, b1: Byte, b0: Byte)
    ensures Base64(Word(b2, b1, b0), 4) == Quad(b2, b1, b0)
  {
    UnrolledIs(b2, b1, b0);
    CharIs(b0 % 64);
    CharIs(b1 % 16 * 4 + b0 / 64);
    CharIs(b2 % 4 * 16 + b1 / 16);
    CharIs(b2 / 4);
  }

  /** Behind `r` lines of three bytes stands the text of line `r`. */
  lemma {:induction false} LineAt(d: seq<Byte>, table: seq<Line>, r: nat)
    requires AllFit(table, |d|) && r < |table| && forall k :: 0 <= k < r ==> table[k].Three?
    ensures var n := Chars(table[r]);
            && |Encode(d, table)| == 4 * r + |Encode(d, table[r..])| && |Encode(d, table)| >= 4 * r + n
            && Encode(d, table)[4 * r..4 * r + n] == Base64(Value(d, table[r]), n)
    decreases r
  {
    EncodeSplits(d, table);
    if r == 0 {
      assert table[0..] == table;
    } else {
      var rest := table[1..];
      assert rest[r - 1] == table[r] && rest[r - 1..] == table[r..] && table[0].Three?;
      LineAt(d, rest, r - 1);
      Behind(Encode(d, table), Encode(d, rest), r, Chars(table[r]));
    }
  }

  lemma Behind(text: string, rest: string, r: nat, n: nat)
    requires r >= 1 && |text| >= 4 && text[4..] == rest && |rest| >= 4 * (r - 1) + n
    ensures |text| >= 4 * r + n && text[4 * r..4 * r + n] == rest[4 * (r - 1)..4 * (r - 1) + n]
  {
  }

  lemma QuadAt(d: seq<Byte>, table: seq<Line>, r: nat, hi: nat, mid: nat, lo: nat)
    requires AllFit(table, |d|) && r < |table| && forall k :: 0 <= k < r ==> table[k].Three?
    requires table[r] == Three(hi, mid, lo)
    ensures 4 * r + 4 <= |Encode(d, table)| && Encode(d, table)[4 * r..4 * r + 4] == Quad(d[hi], d[mid], d[lo])
  {
    LineAt(d, table, r);
    QuadIs(d[hi], d[mid], d[lo]);
  }

  lemma Triple(b1: Byte, b0: Byte)
    ensures Base64(Word(0, b1, b0), 3) == Quad(0, b1, b0)[..3]
    ensures Base64(Word(0, 0, b0), 2) == Quad(0, 0, b0)[..2]
  {
    QuadIs(0, b1, b0);
    QuadIs(0, 0, b0);
    BasePrefix(Word(0, b1, b0), 3);
    BasePrefix(Word(0, 0, b0), 3);
    BasePrefix(Word(0, 0, b0), 2);
  }

  lemma {:induction false} BasePrefix(w: nat, n: nat)
    ensures Base64(w, n + 1)[..n] == Base64(w, n)
  {
    if n > 0 {
      BasePrefix(w / 64, n - 1);
      assert Base64(w, n + 1)[1..] == Base64(w / 64, n);
    }
  }

  lemma Md5End(d: seq<Byte>)
    requires |d| == 16
    ensures var text := Encode(Permuted(d), MD5_TABLE); |text| == 22 && text[20..] == Quad(0, 0, d[11])[..2]
  {
    var p := Permuted(d);
    LineAt(p, MD5_TABLE, 5);
    Md5LastLine(p);
    Triple(0, p[15]);
  }

  /** The text of md5crypt: four characters each for bytes t, t + 6 and t + 12 of the digest, t from 0 to
      3, then for bytes 4, 10 and 5, and two for byte 11. */
  lemma Md5Text(d: seq<Byte>, t: nat)
    requires |d| == 16 && t < 5
    ensures var text := Encode(Permuted(d), MD5_TABLE);
            && |text| == 22 && text[20..] == Quad(0, 0, d[11])[..2]
            && text[4 * t..4 * t + 4] == Quad(d[t], d[t + 6], if t < 4 then d[t + 12] else d[5])
  {
    Md5End(d);
    Md5Sources(t);
    QuadAt(Permuted(d), MD5_TABLE, t, 3 * t, 3 * t + 1, 3 * t + 2);
  }

  lemma Md5Sources(t: nat)
    requires t < 5
    ensures MD5_TABLE[t] == Three(3 * t, 3 * t + 1, 3 * t + 2)
    ensures Source(3 * t) == t && Source(3 * t + 1) == t + 6 && Source(3 * t + 2) == if t < 4 then t + 12 else 5
  {
    Residue(3 * t * 6, t, t);
    Residue((3 * t + 1) * 6, t + 6, t);
    if t < 4 { Residue((3 * t + 2) * 6, t + 12, t); }
  }

  lemma Sha256Lines(r: nat)
    requires r < 10
    ensures AllFit(SHA256_TABLE, 32) && (forall k :: 0 <= k < 10 ==> SHA256_TABLE[k].Three?)
    ensures SHA256_TABLE[r] == Three(21 * r % 30, (21 * r + 10) % 30, (21 * r + 20) % 30)
  {
  }

  lemma Sha256End(d: seq<Byte>)
    requires |d| == 32
    ensures AllFit(SHA256_TABLE, 32)
    ensures var text := Encode(d, SHA256_TABLE); |text| == 43 && text[40..] == Quad(0, d[31], d[30])[..3]
  {
    Sha256Lines(0);
    LineAt(d, SHA256_TABLE, 10);
    LastLine(d, SHA256_TABLE, 10);
    Triple(d[31], d[30]);
  }

  lemma LastLine(d: seq<Byte>, table: seq<Line>, r: nat)
    requires AllFit(table, |d|) && |table| == r + 1
    ensures Encode(d, table[r..]) == Base64(Value(d, table[r]), Chars(table[r]))
  {
    assert table[r..] == [table[r]];
    PlusNil(Base64(Value(d, table[r]), Chars(table[r])));
  }

  /** The text of a SHA-256 digest: lines of three bytes ten apart, each line twenty-one places on from
      the line before in a ring of thirty, and the last two bytes. */
  lemma Sha256Text(d: seq<Byte>, r: nat)
    requires |d| == 32 && r < 10
    ensures AllFit(SHA256_TABLE, 32)
    ensures var text := Encode(d, SHA256_TABLE);
            && |text| == 43 && text[40..] == Quad(0, d[31], d[30])[..3]
            && text[4 * r..4 * r + 4] == Quad(d[21 * r % 30], d[(21 * r + 10) % 30], d[(21 * r + 20) % 30])
  {
    Sha256End(d);
    Sha256Lines(r);
    QuadAt(d, SHA256_TABLE, r, 21 * r % 30, (21 * r + 10) % 30, (21 * r + 20) % 30);
  }

  lemma Sha512Fits()
    ensures AllFit(SHA512_TABLE, 64) && |SHA512_TABLE| == 22 && forall k :: 0 <= k < 21 ==> SHA512_TABLE[k].Three?
  {
  }

  lemma Sha512Line(r: nat)
    requires r < 21
    ensures SHA512_TABLE[r] == Three(22 * r % 63, (22 * r + 21) % 63, (22 * r + 42) % 63)
  {
    match r
    case 0 => case 1 => case 2 => case 3 => case 4 => case 5 => case 6 => case 7 => case 8 => case 9 =>
    case 10 => case 11 => case 12 => case 13 => case 14 => case 15 => case 16 => case 17 => case 18 => case 19 =>
    case _ =>
  }

  lemma Sha512End(d: seq<Byte>)
    requires |d| == 64
    ensures AllFit(SHA512_TABLE, 64)
    ensures var text := Encode(d, SHA512_TABLE); |text| == 86 && text[84..] == Quad(0, 0, d[63])[..2]
  {
    Sha512Fits();
    LineAt(d, SHA512_TABLE, 21);
    LastLine(d, SHA512_TABLE, 21);
    Triple(0, d[63]);
  }

  /** The text of a SHA-512 digest: the same with bytes twenty-one apart, lines twenty-two places on in a
      ring of sixty-three, and the last byte. */
  lemma Sha512Text(d: seq<Byte>, r: nat)
    requires |d| == 64 && r < 21
    ensures AllFit(SHA512_TABLE, 64)
    ensures var text := Encode(d, SHA512_TABLE);
            && |text| == 86 && text[84..] == Quad(0, 0, d[63])[..2]
            && text[4 * r..4 * r + 4] == Quad(d[22 * r % 63], d[(22 * r + 21) % 63], d[(22 * r + 42) % 63])
  {
    Sha512End(d);
    Sha512Fits();
    Sha512Line(r);
    QuadAt(d, SHA512_TABLE, r, 22 * r % 63, (22 * r + 21) % 63, (22 * r + 42) % 63);
  }

  // ---- The P and S sequences ------------------------------------------------------------------

  /** The digest over and over, cut to length `n`. */
  function Repeated(digest: seq<Byte>, n: nat): (r: seq<Byte>)
    requires |digest| > 0
    ensures |r| == n
  {
    if n <= |digest| then digest[..n] else digest + Repeated(digest, n - |digest|)
  }

  lemma {:induction false} RepeatedAt(digest: seq<Byte>, n: nat, k: nat)
    requires |digest| > 0 && k < n
    ensures 0 <= k % |digest| < |digest| && Repeated(digest, n)[k] == digest[k % |digest|]
    decreases n
  {
    if k >= |digest| {
      RepeatedAt(digest, n - |digest|, k - |digest|);
      Resize.ModShift(k - |digest|, 1, |digest|);
    } else {
      SmallMod(k, |digest|);
    }
  }

  lemma SmallMod(k: nat, m: nat)
    requires k < m
    ensures k % m == k
  {
  }

  method Copy(dst: array<Byte>, at: nat, src: seq<Byte>, n: nat)
    requires at + n <= dst.Length && n <= |src|
    modifies dst
    ensures dst[..at + n] == old(dst[..at]) + src[..n]
  {
    forall k | 0 <= k < n {
      dst[at + k] := src[k];
    }
  }

  /** The loops that fill p_bytes and s_bytes. */
  method Sequence(digest: seq<Byte>, length: nat) returns (bytes: array<Byte>)
    requires |digest| > 0
    ensures fresh(bytes) && bytes[..] == Repeated(digest, length)
  {
    bytes := new Byte[length](_ => 0);
    var cp, n := 0, length;
    PlusNil(Repeated(digest, length));
    while n > |digest|
      invariant 0 <= cp && 0 <= n && cp + n == length
      invariant bytes[..cp] + Repeated(digest, n) == Repeated(digest, length)
    {
      PlusAssoc(bytes[..cp], digest, Repeated(digest, n - |digest|));
      Copy(bytes, cp, digest, |digest|);
      assert digest[..|digest|] == digest;
      n, cp := n - |digest|, cp + |digest|;
    }
    Copy(bytes, cp, digest, n);
    assert bytes[..] == bytes[..cp + n];
  }
}
