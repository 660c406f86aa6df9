/**
 * Go's `strconv.Itoa` and `strconv.Atoi` on a 64-bit platform.
 *
 * `Atoi` follows `strconv.ParseInt(s, 10, 64)`: an optional `+` or `-`, then
 * decimal digits read left to right. A character that is not a digit is a
 * syntax error and gives 0. While the digits are read, only the unsigned
 * 64-bit maximum is checked: a range error is reported once the digits read
 * so far pass it, or, after the last digit, when the whole value lies
 * outside the signed 64-bit range; either gives the nearest signed 64-bit
 * bound. A non-digit after a value that is only outside the signed range is
 * still a syntax error. Atoi's fast path for strings shorter than 19 bytes
 * cannot overflow and agrees with this on every such string.
 */
module Strconv {

  datatype NumError = NoError | ErrSyntax | ErrRange

  /** The pair `(value, err)` that `Atoi` returns. */
  datatype Parsed = Parsed(value: int, err: NumError)

  const MaxUint64: int := 0xFFFF_FFFF_FFFF_FFFF
  const MaxInt64: int := 0x7FFF_FFFF_FFFF_FFFF
  const MinInt64: int := -0x8000_0000_0000_0000

  predicate IsDigit(c: char) {
    '0' <= c <= '9'
  }

  predicate AllDigits(s: string) {
    forall i :: 0 <= i < |s| ==> IsDigit(s[i])
  }

  function DigitValue(c: char): nat
    requires IsDigit(c)
  {
    (c as int) - ('0' as int)
  }

  function DigitChar(d: nat): (c: char)
    requires d < 10
    ensures IsDigit(c) && DigitValue(c) == d
  {
    (('0' as int) + d) as char
  }

  function Pow10(k: nat): (p: nat)
    ensures p >= 1
  {
    if k == 0 then 1 else 10 * Pow10(k - 1)
  }

  /** The number a string of decimal digits denotes, most significant digit first. */
  function DecimalValue(s: string): nat
    requires AllDigits(s)
  {
    if s == [] then 0 else DigitValue(s[0]) * Pow10(|s| - 1) + DecimalValue(s[1..])
  }

  // ---------------------------------------------------------------------------
  // Itoa
  // ---------------------------------------------------------------------------

  /** The decimal digits of `n`, without leading zeros. */
  function Digits(n: nat): (s: string)
    ensures |s| >= 1 && AllDigits(s)
    ensures s[0] == '0' ==> n == 0
  {
    if n < 10 then [DigitChar(n)] else Digits(n / 10) + [DigitChar(n % 10)]
  }

  /** `strconv.Itoa(n)`: a minus sign for negative numbers, then the digits. */
  function Itoa(n: int): (s: string)
    ensures n >= 0 ==> |s| >= 1 && AllDigits(s)
    ensures n > 0 ==> s[0] != '0'
    ensures n < 0 ==> |s| >= 2 && s[0] == '-' && AllDigits(s[1..]) && s[1] != '0'
  {
    if n < 0 then "-" + Digits(-n) else Digits(n)
  }

  // ---------------------------------------------------------------------------
  // Atoi
  // ---------------------------------------------------------------------------

  /** The digit loop of `strconv.ParseUint(s, 10, 64)`, with `n` the value read so far. */
  function ScanDigits(s: string, n: nat): (r: Parsed)
    ensures r.err == ErrSyntax ==> r.value == 0
    ensures r.err == ErrRange ==> r.value == MaxUint64
    ensures r.err == NoError ==> n <= r.value <= MaxUint64 || (s == [] && r.value == n)
  {
    if s == [] then Parsed(n, NoError)
    else if !IsDigit(s[0]) then Parsed(0, ErrSyntax)
    else if n * 10 + DigitValue(s[0]) > MaxUint64 then Parsed(MaxUint64, ErrRange)
    else ScanDigits(s[1..], n * 10 + DigitValue(s[0]))
  }

  /** `strconv.ParseUint(s, 10, 64)`. */
  function ParseUint64(s: string): (r: Parsed)
    ensures s == [] ==> r.err == ErrSyntax
    ensures r.value <= MaxUint64
    ensures r.err == ErrSyntax ==> r.value == 0
    ensures r.err == ErrRange ==> r.value == MaxUint64
  {
    if s == [] then Parsed(0, ErrSyntax) else ScanDigits(s, 0)
  }

  /** The digits after an optional leading sign. */
  function Unsigned(s: string): string {
    if s != [] && (s[0] == '+' || s[0] == '-') then s[1..] else s
  }

  /** `strconv.Atoi(s)`, equal on a 64-bit platform to `strconv.ParseInt(s, 10, 64)`. */
  function Atoi(s: string): (r: Parsed)
    ensures MinInt64 <= r.value <= MaxInt64
    ensures r.err == ErrSyntax ==> r.value == 0
  {
    if s == [] then Parsed(0, ErrSyntax)
    else
      var neg := s[0] == '-';
      var u := ParseUint64(Unsigned(s));
      if u.err == ErrSyntax then Parsed(0, ErrSyntax)
      else if !neg && u.value > MaxInt64 then Parsed(MaxInt64, ErrRange)
      else if neg && u.value > MaxInt64 + 1 then Parsed(MinInt64, ErrRange)
      else Parsed(if neg then -u.value else u.value, NoError)
  }

  // ---------------------------------------------------------------------------
  // Properties
  // ---------------------------------------------------------------------------

  lemma TimesTen(d: int, p: int)
    ensures d * (10 * p) == (d * p) * 10
  {
  }

  lemma {:induction false} DecimalValueAppend(s: string, c: char)
    requires AllDigits(s) && IsDigit(c)
    ensures AllDigits(s + [c])
    ensures DecimalValue(s + [c]) == DecimalValue(s) * 10 + DigitValue(c)
  {
    if s != [] {
      assert (s + [c])[1..] == s[1..] + [c];
      DecimalValueAppend(s[1..], c);
      var d, p := DigitValue(s[0]), Pow10(|s| - 1);
      assert (s + [c])[0] == s[0];
      assert Pow10(|s + [c]| - 1) == 10 * p;
      assert DecimalValue(s + [c]) == d * (10 * p) + DecimalValue(s[1..] + [c]);
      TimesTen(d, p);
      assert DecimalValue(s) == d * p + DecimalValue(s[1..]);
    } else {
      assert [c][1..] == [];
    }
  }

  /** The digits Itoa writes denote the number. */
  lemma {:induction false} DigitsValue(n: nat)
    ensures DecimalValue(Digits(n)) == n
  {
    if n < 10 {
      assert Digits(n)[1..] == [];
    } else {
      DigitsValue(n / 10);
      DecimalValueAppend(Digits(n / 10), DigitChar(n % 10));
    }
  }

  /**
   * What the digit loop computes on a string of digits: the value of the
   * digits read after `n`, or a range error when that value overflows.
   */
  lemma {:induction false} ScanDigitsValue(s: string, n: nat)
    requires AllDigits(s) && n <= MaxUint64
    ensures var total := n * Pow10(|s|) + DecimalValue(s);
      ScanDigits(s, n) == if total <= MaxUint64 then Parsed(total, NoError) else Parsed(MaxUint64, ErrRange)
  {
    if s != [] {
      var d := DigitValue(s[0]);
      var rest := s[1..];
      assert AllDigits(rest);
      var p := Pow10(|rest|);
      var n' := n * 10 + d;
      var total := n * Pow10(|s|) + DecimalValue(s);
      assert total == n * (10 * p) + d * p + DecimalValue(rest);
      ShiftDigit(n, d, p);
      assert total == n' * p + DecimalValue(rest);
      if n' <= MaxUint64 {
        assert ScanDigits(s, n) == ScanDigits(rest, n');
        ScanDigitsValue(rest, n');
        assert n' * Pow10(|rest|) + DecimalValue(rest) == total;
      } else {
        assert ScanDigits(s, n) == Parsed(MaxUint64, ErrRange);
        assert total > MaxUint64;
      }
    } else {
      assert n * Pow10(|s|) + DecimalValue(s) == n;
    }
  }

  /** Reading one more digit `d` in front of `p`-weighted digits. */
  lemma ShiftDigit(n: nat, d: nat, p: nat)
    requires p >= 1
    ensures n * (10 * p) + d * p == (n * 10 + d) * p
    ensures (n * 10 + d) * p >= n * 10 + d
  {
    MulMonotone(1, p, n * 10 + d);
  }

  lemma {:induction false} MulMonotone(a: nat, b: nat, c: nat)
    requires a <= b
    ensures a * c <= b * c
  {
    if c > 0 {
      MulMonotone(a, b, c - 1);
      assert a * c == a * (c - 1) + a;
      assert b * c == b * (c - 1) + b;
    }
  }

  /** Atoi reads back every 64-bit number that Itoa writes. */
  lemma AtoiItoa(n: int)
    requires MinInt64 <= n <= MaxInt64
    ensures Atoi(Itoa(n)) == Parsed(n, NoError)
  {
    var m: nat := if n < 0 then -n else n;
    var d := Digits(m);
    DigitsValue(m);
    ScanDigitsValue(d, 0);
    if n < 0 {
      assert Unsigned(Itoa(n)) == d;
    } else {
      assert Itoa(n)[0] == d[0] && IsDigit(d[0]);
      assert Unsigned(Itoa(n)) == d;
    }
  }

  /**
   * A number too large for 64 bits is not rejected: Atoi reports a range
   * error and returns the largest 64-bit value.
   */
  lemma AtoiClampsLarge(n: nat)
    requires n > MaxInt64
    ensures Atoi(Digits(n)) == Parsed(MaxInt64, ErrRange)
  {
    var d := Digits(n);
    DigitsValue(n);
    ScanDigitsValue(d, 0);
    assert IsDigit(d[0]);
    assert Unsigned(d) == d;
  }

  /**
   * A string with a non-digit among its first 20 characters after the
   * optional sign is a syntax error, however long it is: no 19 digits can
   * overflow before it.
   */
  lemma AtoiSyntaxError(s: string, k: nat)
    requires k < |Unsigned(s)| && k <= 19 && !IsDigit(Unsigned(s)[k])
    ensures Atoi(s) == Parsed(0, ErrSyntax)
  {
    var u := Unsigned(s);
    Pow10Monotone(k, 19);
    assert (0 + 1) * Pow10(k) == Pow10(k);
    ScanStopsAtNonDigit(u, 0, k);
    assert ParseUint64(u) == Parsed(0, ErrSyntax);
  }

  lemma {:induction false} Pow10Monotone(j: nat, k: nat)
    requires j <= k
    ensures Pow10(j) <= Pow10(k)
  {
    if j < k {
      Pow10Monotone(j, k - 1);
    }
  }

  lemma {:induction false} ScanStopsAtNonDigit(s: string, n: nat, k: nat)
    requires k < |s| && !IsDigit(s[k])
    requires (n + 1) * Pow10(k) <= Pow10(19)
    ensures ScanDigits(s, n) == Parsed(0, ErrSyntax)
  {
    Pow10Nineteen();
    if k > 0 && IsDigit(s[0]) {
      var d := DigitValue(s[0]);
      var p := Pow10(k - 1);
      assert Pow10(k) == 10 * p;
      NextBound(n, d, p);
      ScanStopsAtNonDigit(s[1..], n * 10 + d, k - 1);
    }
  }

  lemma Pow10Nineteen()
    ensures Pow10(19) == 10_000_000_000_000_000_000
  {
    assert Pow10(1) == 10;
    assert Pow10(2) == 100;
    assert Pow10(3) == 1000;
    assert Pow10(4) == 10000;
    assert Pow10(5) == 100000;
    assert Pow10(6) == 1000000;
    assert Pow10(7) == 10000000;
    assert Pow10(8) == 100000000;
    assert Pow10(9) == 1000000000;
    assert Pow10(10) == 10000000000;
    assert Pow10(11) == 100000000000;
    assert Pow10(12) == 1000000000000;
    assert Pow10(13) == 10000000000000;
    assert Pow10(14) == 100000000000000;
    assert Pow10(15) == 1000000000000000;
    assert Pow10(16) == 10000000000000000;
    assert Pow10(17) == 100000000000000000;
    assert Pow10(18) == 1000000000000000000;
    assert Pow10(19) == 10000000000000000000;
  }

  lemma NextBound(n: nat, d: nat, p: nat)
    requires d < 10 && p >= 1
    ensures (n * 10 + d + 1) * p <= (n + 1) * (10 * p)
    ensures n * 10 + d + 1 <= (n * 10 + d + 1) * p
  {
    MulMonotone(n * 10 + d + 1, 10 * (n + 1), p);
    assert (10 * (n + 1)) * p == (n + 1) * (10 * p);
    MulMonotone(1, p, n * 10 + d + 1);
  }
}
