/**
 * The number formats the tool reads and prints: decimal digit strings
 * (`int()` on a token, `str(n)`), lower-case hexadecimal (`format(v, 'x')`),
 * zero padding to a minimum width (`format(v, '0Wx')`) and powers of two.
 */
module Numerals {
  import opened Wrappers

  function Pow(b: nat, e: nat): (r: nat)
    ensures b >= 1 ==> r >= 1
  {
    if e == 0 then 1 else b * Pow(b, e - 1)
  }

  predicate IsDigit(c: char) {
    '0' <= c <= '9'
  }

  predicate IsHexDigit(c: char) {
    IsDigit(c) || 'a' <= c <= 'f'
  }

  predicate AllDigits(s: string) {
    forall k :: 0 <= k < |s| ==> IsDigit(s[k])
  }

  predicate AllHexDigits(s: string) {
    forall k :: 0 <= k < |s| ==> IsHexDigit(s[k])
  }

  /** The lower-case digit for `d`, as Python's `x` format writes it. */
  function DigitChar(d: nat): (c: char)
    requires d < 16
    ensures IsHexDigit(c)
    ensures IsDigit(c) <==> d < 10
  {
    if d < 10 then (48 + d) as char else (97 + d - 10) as char
  }

  function DigitValue(c: char): (d: nat)
    requires IsHexDigit(c)
    ensures d < 16
    ensures DigitChar(d) == c
  {
    if IsDigit(c) then c as int - 48 else c as int - 97 + 10
  }

  lemma DigitRoundTrip(d: nat)
    requires d < 16
    ensures DigitValue(DigitChar(d)) == d
  {
  }

  /** `str(n)`: the shortest decimal digit string of `n`. */
  function Decimal(n: nat): (s: string)
    ensures |s| >= 1 && AllDigits(s)
    ensures |s| > 1 ==> s[0] != '0'
  {
    if n < 10 then [DigitChar(n)] else Decimal(n / 10) + [DigitChar(n % 10)]
  }

  /** The value of a digit string read most significant digit first. */
  function DecimalValue(s: string): nat
    requires AllDigits(s)
  {
    if s == [] then 0 else DecimalValue(s[..|s| - 1]) * 10 + DigitValue(s[|s| - 1])
  }

  /**
   * `int(token)` on a token of the tool's input: defined exactly for
   * non-empty digit strings; anything else raises `ValueError` (None here).
   */
  function ParseNat(s: string): (r: Option<nat>)
    ensures r.Some? <==> s != [] && AllDigits(s)
  {
    if s != [] && AllDigits(s) then Some(DecimalValue(s)) else None
  }

  lemma {:induction false} DecimalValueOfDecimal(n: nat)
    ensures DecimalValue(Decimal(n)) == n
  {
    if n >= 10 {
      DecimalValueOfDecimal(n / 10);
      var s := Decimal(n);
      assert s[..|s| - 1] == Decimal(n / 10);
    }
  }

  /** Reading back what `str(n)` printed gives `n`. */
  lemma ParseDecimal(n: nat)
    ensures ParseNat(Decimal(n)) == Some(n)
  {
    DecimalValueOfDecimal(n);
  }

  /** `format(v, 'x')`: the shortest lower-case hexadecimal string of `v`. */
  function Hex(v: nat): (s: string)
    ensures |s| >= 1 && AllHexDigits(s)
    ensures |s| > 1 ==> s[0] != '0'
  {
    if v < 16 then [DigitChar(v)] else Hex(v / 16) + [DigitChar(v % 16)]
  }

  /** The value of a hexadecimal string read most significant digit first. */
  function HexValue(s: string): nat
    requires AllHexDigits(s)
  {
    if s == [] then 0 else HexValue(s[..|s| - 1]) * 16 + DigitValue(s[|s| - 1])
  }

  /** Reading back what `format(v, 'x')` printed gives `v`. */
  lemma {:induction false} HexRoundTrip(v: nat)
    ensures HexValue(Hex(v)) == v
  {
    if v >= 16 {
      HexRoundTrip(v / 16);
      var s := Hex(v);
      assert s[..|s| - 1] == Hex(v / 16);
    }
  }

  function Zeros(n: nat): (s: string)
    ensures |s| == n
    ensures forall k :: 0 <= k < n ==> s[k] == '0'
  {
    seq(n, _ => '0')
  }

  /**
   * Left-padding with '0' to at least `width` characters, as the `0W`
   * format prefix does; a longer string is kept whole.
   */
  function ZeroPad(s: string, width: int): (r: string)
    ensures |r| == if width > |s| then width else |s|
    ensures r[|r| - |s|..] == s
    ensures forall k :: 0 <= k < |r| - |s| ==> r[k] == '0'
  {
    if |s| < width then Zeros(width - |s|) + s else s
  }

  lemma ZerosPrefixDigits(n: nat, s: string)
    requires AllHexDigits(s)
    ensures AllHexDigits(Zeros(n) + s)
  {
    var z := Zeros(n) + s;
    forall k | 0 <= k < |z| ensures IsHexDigit(z[k]) {
      if k < n { assert z[k] == '0'; } else { assert z[k] == s[k - n]; }
    }
  }

  lemma {:induction false} LeadingZerosValue(n: nat, s: string)
    requires AllHexDigits(s)
    ensures AllHexDigits(Zeros(n) + s) && HexValue(Zeros(n) + s) == HexValue(s)
    decreases |s|, n
  {
    var z := Zeros(n) + s;
    ZerosPrefixDigits(n, s);
    if s == [] {
      if n > 0 {
        assert z[..|z| - 1] == Zeros(n - 1) + [];
        LeadingZerosValue(n - 1, []);
        assert DigitValue(z[|z| - 1]) == 0;
      }
    } else {
      assert z[..|z| - 1] == Zeros(n) + s[..|s| - 1];
      LeadingZerosValue(n, s[..|s| - 1]);
    }
  }

  /** Zero padding does not change the value a hexadecimal field denotes. */
  lemma ZeroPadValue(s: string, width: int)
    requires AllHexDigits(s)
    ensures AllHexDigits(ZeroPad(s, width)) && HexValue(ZeroPad(s, width)) == HexValue(s)
  {
    if |s| < width {
      LeadingZerosValue(width - |s|, s);
    }
  }

  lemma HexTimes16(x: nat)
    requires x >= 1
    ensures Hex(x * 16) == Hex(x) + "0"
  {
    assert (x * 16) / 16 == x && (x * 16) % 16 == 0;
  }

  lemma MulShift(d: nat, p: nat)
    requires p >= 1 && d >= 1
    ensures d * (16 * p) == (d * p) * 16 && d * p >= 1
  {
  }

  /** A one-digit value times 16^k is written as that digit and k zeros. */
  lemma {:induction false} HexDigitShifted(d: nat, k: nat)
    requires 1 <= d < 16
    ensures Hex(d * Pow(16, k)) == [DigitChar(d)] + Zeros(k)
  {
    if k > 0 {
      var p := Pow(16, k - 1);
      HexDigitShifted(d, k - 1);
      assert Pow(16, k) == 16 * p;
      ShiftOnce(d, p);
      ZerosAppend(k - 1);
      assert [DigitChar(d)] + Zeros(k - 1) + "0" == [DigitChar(d)] + (Zeros(k - 1) + "0");
    } else {
      assert [DigitChar(d)] + Zeros(0) == [DigitChar(d)];
    }
  }

  /** Multiplying by 16 appends a '0' to the hexadecimal form. */
  lemma ShiftOnce(d: nat, p: nat)
    requires p >= 1 && d >= 1
    ensures Hex(d * (16 * p)) == Hex(d * p) + "0"
  {
    MulShift(d, p);
    HexTimes16(d * p);
  }

  lemma ZerosAppend(n: nat)
    ensures Zeros(n) + "0" == Zeros(n + 1)
  {
  }

  lemma {:induction false} PowTwoSplit(n: nat)
    ensures Pow(2, n) == Pow(2, n % 4) * Pow(16, n / 4)
  {
    if n >= 4 {
      PowTwoSplit(n - 4);
      PowTwoFour(n);
      assert (n - 4) % 4 == n % 4 && (n - 4) / 4 == n / 4 - 1;
      assert Pow(16, n / 4) == 16 * Pow(16, n / 4 - 1);
      SixteenTimes(Pow(2, n % 4), Pow(16, n / 4 - 1));
    }
  }

  /** Four factors of two make one factor of sixteen. */
  lemma PowTwoFour(n: nat)
    requires n >= 4
    ensures Pow(2, n) == 16 * Pow(2, n - 4)
  {
    assert Pow(2, n) == 2 * Pow(2, n - 1);
    assert Pow(2, n - 1) == 2 * Pow(2, n - 2);
    assert Pow(2, n - 2) == 2 * Pow(2, n - 3);
    assert Pow(2, n - 3) == 2 * Pow(2, n - 4);
  }

  lemma SixteenTimes(a: int, b: int)
    ensures a * (16 * b) == 16 * (a * b)
  {
  }

  lemma SmallPowersOfTwo(r: nat)
    requires r < 4
    ensures Pow(2, r) in {1, 2, 4, 8}
  {
    if r == 3 {
      assert Pow(2, 3) == 2 * Pow(2, 2);
    }
  }

  /** The leading hexadecimal digit of 2^n: one of '1', '2', '4', '8'. */
  function Pow2Digit(n: nat): (c: char)
    ensures c in "1248"
  {
    SmallPowersOfTwo(n % 4);
    DigitChar(Pow(2, n % 4))
  }

  /**
   * The hexadecimal form of 2^n in closed form: the digit 2^(n mod 4)
   * followed by n / 4 zeros.
   */
  lemma HexPow2(n: nat)
    ensures Hex(Pow(2, n)) == [Pow2Digit(n)] + Zeros(n / 4)
    ensures |Hex(Pow(2, n))| == n / 4 + 1
  {
    SmallPowersOfTwo(n % 4);
    PowTwoSplit(n);
    HexDigitShifted(Pow(2, n % 4), n / 4);
  }
}
