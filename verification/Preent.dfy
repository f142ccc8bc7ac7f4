/** Printing and reading of numbers (tPreent.c:43-60, 68-99). */
module Preent {
  import opened CText
  import opened Sequences

  const MAX_NUM_BUFFER := 50
  const UINT := 0x1_0000_0000

  function Digit(v: nat): char
    requires v < 16
  {
    if v < 10 then ('0' as nat + v) as char else ('A' as nat + v - 10) as char
  }

  /** The digits of a number, most significant first; at least one. */
  function Digits(n: nat, base: nat): (s: string)
    requires 2 <= base <= 16
    ensures |s| > 0
  {
    if n < base then [Digit(n)] else DivLess(n, base); Digits(n / base, base) + [Digit(n % base)]
  }

  lemma DivLess(n: nat, base: nat)
    requires base >= 2 && n > 0
    ensures n / base < n && 2 * (n / base) <= n
  {
    var q := n / base;
    assert n == base * q + n % base;
    assert base * q >= 2 * q by { MulLess(2, base, q); }
  }

  lemma MulLess(a: nat, b: nat, q: nat)
    requires a <= b
    ensures a * q <= b * q
  {
  }

  function Power2(k: nat): nat {
    if k == 0 then 1 else 2 * Power2(k - 1)
  }

  /** In base 2 or more a number below 2^k has at most k digits. */
  lemma {:induction false} DigitsLength(n: nat, base: nat, k: nat)
    requires 2 <= base <= 16 && k > 0 && n < Power2(k)
    ensures |Digits(n, base)| <= k
    decreases k
  {
    if n >= base {
      DivLess(n, base);
      assert Power2(1) == 2;
      DigitsLength(n / base, base, k - 1);
    }
  }

  lemma Uint32Digits(n: nat, base: nat)
    requires 2 <= base <= 16 && n < UINT
    ensures |Digits(n, base)| <= 32
  {
    assert Power2(8) == 256;
    assert Power2(16) == 0x1_0000 by { PowerPlus(8, 8); }
    PowerPlus(16, 16);
    DigitsLength(n, base, 32);
  }

  lemma {:induction false} PowerPlus(a: nat, b: nat)
    ensures Power2(a + b) == Power2(a) * Power2(b)
  {
    if b > 0 {
      PowerPlus(a, b - 1);
      assert Power2(a + b) == 2 * Power2(a + (b - 1));
    }
  }

  lemma {:induction false} DigitsClean(n: nat, base: nat)
    requires 2 <= base <= 16
    ensures '\0' !in Digits(n, base)
    decreases n
  {
    if n >= base {
      DivLess(n, base);
      DigitsClean(n / base, base);
    }
  }

  /** The buffer while the digits of `text` are written into it from the end. */
  predicate Filling(buf: string, ptr: nat, text: string, n: nat, base: nat, more: bool) {
    && 2 <= base <= 16 && |buf| == MAX_NUM_BUFFER && ptr < MAX_NUM_BUFFER && buf[MAX_NUM_BUFFER - 1] == '\0'
    && text == Left(n, base, more) + buf[ptr..MAX_NUM_BUFFER - 1]
  }

  lemma BeforeSlice(s: string, at: nat, end: nat, c: char)
    requires 0 < at <= end <= |s|
    ensures s[at - 1 := c][at - 1..end] == [c] + s[at..end]
  {
  }

  /** One turn of the loop. */
  method PutDigit(buffer: array<char>, at: nat, n: nat, base: nat, ghost text: string) returns (ptr: nat, rest: nat)
    requires Filling(buffer[..], at, text, n, base, true) && |text| < MAX_NUM_BUFFER
    modifies buffer
    ensures Filling(buffer[..], ptr, text, rest, base, rest != 0)
    ensures rest < n || rest == n == 0
  {
    ghost var done := buffer[..][at..MAX_NUM_BUFFER - 1];
    ghost var was := buffer[..];
    var digit: char;
    rest, digit := TakeDigit(n, base);
    PlusAssoc(Left(rest, base, rest != 0), [digit], done);
    ptr := at - 1;
    buffer[ptr] := digit;
    BeforeSlice(was, at, MAX_NUM_BUFFER - 1, digit);
  }

  /** integerConvert: fills the static buffer from its end; the text returned is the digits, and for
      every 32-bit number and every base from 2 to 16 it stays inside the buffer. */
  method IntegerConvert(buffer: array<char>, num: nat, base: nat) returns (ptr: nat)
    requires buffer.Length == MAX_NUM_BUFFER && num < UINT && 2 <= base <= 16
    modifies buffer
    ensures 17 <= ptr < MAX_NUM_BUFFER && Holds(buffer[..], ptr, Digits(num, base))
  {
    ptr := MAX_NUM_BUFFER - 1;
    buffer[ptr] := '\0';
    var n := num;
    var more := true;
    Uint32Digits(num, base);
    ghost var text := Digits(num, base);
    PlusNil(text);
    assert buffer[..][ptr..MAX_NUM_BUFFER - 1] == [];
    while more
      invariant Filling(buffer[..], ptr, text, n, base, more)
      decreases n, more
    {
      ptr, n := PutDigit(buffer, ptr, n, base, text);
      more := n != 0;
    }
    PlusNil(buffer[..][ptr..MAX_NUM_BUFFER - 1]);
    DigitsClean(num, base);
  }

  /** The digits that the loop has still to write. */
  function Left(n: nat, base: nat, more: bool): string
    requires 2 <= base <= 16
  {
    if more then Digits(n, base) else ""
  }

  /** The last digit, and the number without it. */
  method TakeDigit(n: nat, base: nat) returns (rest: nat, digit: char)
    requires 2 <= base <= 16
    ensures Left(n, base, true) == Left(rest, base, rest != 0) + [digit]
    ensures rest < n || rest == n == 0
  {
    if n < base {
      SmallDiv(n, base);
      PlusNil([Digit(n)]);
    } else {
      DivLess(n, base);
      DivPositive(n, base);
    }
    rest, digit := n / base, Digit(n % base);
  }

  lemma DivPositive(n: nat, base: nat)
    requires n >= base > 0
    ensures n / base > 0
  {
  }

  lemma SmallDiv(n: nat, base: nat)
    requires n < base
    ensures n / base == 0 && n % base == n
  {
  }

  // ---- What the digits say --------------------------------------------------------------------

  const HEX := "0123456789ABCDEF"

  /** The number that a text of digits stands for in a base. */
  function ValueOf(s: string, base: nat): int {
    if s == "" then 0 else base * ValueOf(s[..|s| - 1], base) + Worth(s[|s| - 1])
  }

  /** The place of a character among the digits. */
  function Worth(c: char): (v: int)
    ensures (0 <= v < 16 && HEX[v] == c) || (v == -1 && c !in HEX)
  {
    if '0' <= c <= '9' then c as int - 48 else if 'A' <= c <= 'F' then c as int - 55 else -1
  }

  lemma WorthDigit(v: nat)
    requires v < 16
    ensures Digit(v) == HEX[v] && Worth(Digit(v)) == v
  {
  }

  /** A text of digits of a base, with no zero in front unless it is the whole text. */
  predicate Proper(s: string, base: nat) {
    s != "" && (forall k :: 0 <= k < |s| ==> 0 <= Worth(s[k]) < base) && (s[0] == '0' ==> |s| == 1)
  }

  lemma OneMore(s: string, c: char, base: nat)
    requires Proper(s, base) && s[0] != '0' && 0 <= Worth(c) < base
    ensures Proper(s + [c], base) && ValueOf(s + [c], base) == base * ValueOf(s, base) + Worth(c)
  {
    var t := s + [c];
    assert t[..|t| - 1] == s && t[0] == s[0];
  }

  lemma Divided(n: nat, base: nat)
    requires base > 0
    ensures base * (n / base) + n % base == n && 0 <= n % base < base
  {
  }

  lemma OneDigit(n: nat, base: nat)
    requires n < base <= 16
    ensures Proper([Digit(n)], base) && ValueOf([Digit(n)], base) == n
  {
    WorthDigit(n);
    assert [Digit(n)][..0] == "" && ValueOf("", base) == 0;
  }

  /** The text of a number has only digits of the base, no zero in front, and stands for the number. */
  lemma {:induction false} DigitsExact(n: nat, base: nat)
    requires 2 <= base <= 16
    ensures var s := Digits(n, base); Proper(s, base) && ValueOf(s, base) == n && (s[0] == '0' ==> n == 0)
    decreases n
  {
    Divided(n, base);
    if n < base {
      OneDigit(n, base);
      WorthDigit(n);
    } else {
      DivLess(n, base);
      DivPositive(n, base);
      DigitsExact(n / base, base);
      WorthDigit(n % base);
      OneMore(Digits(n / base, base), Digit(n % base), base);
    }
  }

  // ---- Reading --------------------------------------------------------------------------------

  predicate IsDigit(c: char) {
    '0' <= c <= '9'
  }

  function Decimal(s: string): nat
    requires forall k :: 0 <= k < |s| ==> IsDigit(s[k])
  {
    if s == [] then 0
    else
      assert IsDigit(s[|s| - 1]);
      10 * Decimal(s[..|s| - 1]) + (s[|s| - 1] as int - 48)
  }

  /** The length of the part in front of the first digit, and of the digits at the front. */
  function Front(s: string): (k: nat)
    ensures k <= |s| && (forall i :: 0 <= i < k ==> !IsDigit(s[i])) && (k < |s| ==> IsDigit(s[k]))
  {
    if s == [] || IsDigit(s[0]) then 0 else 1 + Front(s[1..])
  }

  function Run(s: string): (k: nat)
    ensures k <= |s| && (forall i :: 0 <= i < k ==> IsDigit(s[i])) && (k < |s| ==> !IsDigit(s[k]))
  {
    if s == [] || !IsDigit(s[0]) then 0 else 1 + Run(s[1..])
  }

  /** The first run of digits. */
  function FirstRun(s: string): (r: string)
    ensures Front(s) + |r| <= |s| && (forall i :: 0 <= i < |r| ==> IsDigit(r[i]) && r[i] == s[Front(s) + i])
    ensures Front(s) + |r| < |s| ==> !IsDigit(s[Front(s) + |r|])
  {
    var tail := s[Front(s)..];
    var r := tail[..Run(tail)];
    assert Front(s) + |r| < |s| ==> s[Front(s) + |r|] == tail[Run(tail)];
    r
  }

  /** The number a text stands for: its first run of digits, negative if there is a minus sign anywhere
      before it; 0 if there is no digit. */
  function Number(s: string): int {
    Decimal(FirstRun(s)) * (if '-' in s[..Front(s)] then -1 else 1)
  }

  newtype Int32 = x: int | -0x8000_0000 <= x < 0x8000_0000

  /** The state of the loop before position `at`. */
  predicate Reading(s: string, at: nat, started: bool, negative: bool, output: int) {
    var k, run := Front(s), FirstRun(s);
    if started then k < at <= k + |run| && negative == ('-' in s[..k]) && output == Decimal(run[..at - k])
    else at <= k && negative == ('-' in s[..at]) && output == 0
  }

  /** A digit met before the number started starts it, and one met inside belongs to it. */
  lemma ReadingDigit(s: string, at: nat, started: bool, negative: bool, output: int)
    requires at < |s| && IsDigit(s[at]) && Reading(s, at, started, negative, output)
    ensures var next := 10 * output + (s[at] as int - 48);
            && Reading(s, at + 1, true, negative, next)
            && 0 <= 10 * output <= next && (next <= Number(s) || next <= -Number(s))
  {
    var k, run := Front(s), FirstRun(s);
    assert at - k < |run|;
    assert !started ==> at == k && Decimal(run[..0]) == 0;
    DigitStep(run, at - k);
  }

  lemma ReadingOther(s: string, at: nat, negative: bool)
    requires at < |s| && !IsDigit(s[at]) && Reading(s, at, false, negative, 0)
    ensures Reading(s, at + 1, false, negative || s[at] == '-', 0)
  {
    assert s[..at + 1] == s[..at] + [s[at]];
  }

  /** Where the loop ends the whole run has been read. */
  lemma ReadingEnds(s: string, at: nat, started: bool, negative: bool, output: int)
    requires at <= |s| && (at == |s| || (started && !IsDigit(s[at]))) && Reading(s, at, started, negative, output)
    ensures Number(s) == output * (if negative then -1 else 1)
  {
    var k, run := Front(s), FirstRun(s);
    if started {
      assert at == k + |run|;
      assert run[..|run|] == run;
    } else {
      assert run == [];
    }
  }

  /** strToInt.  A larger number is an overflow in C; on the way to any other number there is none. */
  method StrToInt(input: string) returns (output: Int32)
    requires -0x8000_0000 < Number(input) < 0x8000_0000
    ensures output as int == Number(input)
  {
    var numStart, isNegative := false, false;
    output := 0;
    var at := 0;
    while at < |input|
      invariant 0 <= at <= |input| && Reading(input, at, numStart, isNegative, output as int)
    {
      var c := input[at];
      if IsDigit(c) {
        ReadingDigit(input, at, numStart, isNegative, output as int);
      } else if !numStart {
        ReadingOther(input, at, isNegative);
      }
      if !numStart && c == '-' {
        isNegative := true;
      }
      if IsDigit(c) {
        numStart := true;
        output := output * 10;
        output := output + (c as int - 48) as Int32;
      } else if numStart {
        break;
      }
      at := at + 1;
    }
    ReadingEnds(input, at, numStart, isNegative, output as int);
    output := output * if isNegative then -1 else 1;
  }

  lemma DigitStep(digits: string, n: nat)
    requires (forall i :: 0 <= i < |digits| ==> IsDigit(digits[i])) && n < |digits|
    ensures Decimal(digits[..n + 1]) == 10 * Decimal(digits[..n]) + (digits[n] as int - 48) <= Decimal(digits)
  {
    assert digits[..n + 1][..n] == digits[..n];
    PrefixBelow(digits, n + 1);
  }

  lemma {:induction false} PrefixBelow(s: string, k: nat)
    requires (forall i :: 0 <= i < |s| ==> IsDigit(s[i])) && k <= |s|
    ensures Decimal(s[..k]) <= Decimal(s)
  {
    if k < |s| {
      PrefixBelow(s[..|s| - 1], k);
      assert s[..|s| - 1][..k] == s[..k];
    } else {
      assert s[..k] == s;
    }
  }

  lemma RunIs(s: string, k: nat)
    requires k <= |s| && (forall i :: 0 <= i < k ==> IsDigit(s[i])) && (k < |s| ==> !IsDigit(s[k]))
    ensures Run(s) == k
  {
  }

  lemma {:induction false} DecimalDigits(n: nat)
    ensures forall k :: 0 <= k < |Digits(n, 10)| ==> IsDigit(Digits(n, 10)[k])
    ensures Decimal(Digits(n, 10)) == n
  {
    if n < 10 {
      assert Decimal([]) == 0;
    } else {
      DecimalDigits(n / 10);
      var s := Digits(n, 10);
      assert s[..|s| - 1] == Digits(n / 10, 10);
    }
  }

  /** Reading a printed number gives it back, whatever text without a digit at its front follows. */
  lemma RoundTrip(n: nat, rest: string)
    requires rest == [] || !IsDigit(rest[0])
    ensures Number(Digits(n, 10) + rest) == n
  {
    DecimalDigits(n);
    var d := Digits(n, 10);
    var s := d + rest;
    assert Front(s) == 0 && s[0..] == s;
    RunIs(s, |d|);
    assert FirstRun(s) == s[..|d|] == d;
  }

  lemma {:induction false} FrontPlus(front: string, s: string)
    requires (forall k :: 0 <= k < |front| ==> !IsDigit(front[k])) && s != [] && IsDigit(s[0])
    ensures Front(front + s) == |front|
  {
    if front == [] {
      assert front + s == s;
    } else {
      assert (front + s)[1..] == front[1..] + s;
      FrontPlus(front[1..], s);
    }
  }

  /** Behind any text without a digit the number read is the one printed, negative exactly if there is
      a minus sign in that text. */
  lemma SignedRoundTrip(front: string, n: nat, rest: string)
    requires (forall k :: 0 <= k < |front| ==> !IsDigit(front[k])) && (rest == [] || !IsDigit(rest[0]))
    ensures Number(front + Digits(n, 10) + rest) == n * if '-' in front then -1 else 1
  {
    DecimalDigits(n);
    var d := Digits(n, 10);
    var s := front + d + rest;
    assert s == front + (d + rest);
    FrontPlus(front, d + rest);
    assert s[|front|..] == d + rest && s[..|front|] == front;
    RunIs(d + rest, |d|);
    assert FirstRun(s) == (d + rest)[..|d|] == d;
  }

  /** A text without a digit reads as 0. */
  lemma NoDigitIsZero(s: string)
    requires forall k :: 0 <= k < |s| ==> !IsDigit(s[k])
    ensures Number(s) == 0
  {
    assert Front(s) == |s|;
    assert FirstRun(s) == "";
  }
}
