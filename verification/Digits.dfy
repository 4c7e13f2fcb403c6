/** Numerals: the digit extraction of xvfprintf and the digit decoding of xatoi, side by side. */
module Digits {
  import opened CTypes

  function Pow(r: nat, n: nat): (p: nat)
    requires r >= 1
    ensures p >= 1
  {
    if n == 0 then 1 else r * Pow(r, n - 1)
  }

  lemma {:induction false} PowMonotone(r: nat, m: nat, n: nat)
    requires r >= 1 && m <= n
    ensures Pow(r, m) <= Pow(r, n)
  {
    if m < n {
      PowMonotone(r, m, n - 1);
      assert Pow(r, n - 1) <= r * Pow(r, n - 1);
    }
  }

  lemma MulAssociates(a: int, b: int, c: int)
    ensures a * (b * c) == (a * b) * c
  {
  }

  lemma {:induction false} PowSplit(r: nat, m: nat, n: nat)
    requires r >= 1
    ensures Pow(r, m + n) == Pow(r, m) * Pow(r, n)
  {
    if m > 0 {
      PowSplit(r, m - 1, n);
      MulAssociates(r, Pow(r, m - 1), Pow(r, n));
    }
  }

  /** The character xvfprintf stores for digit d; conversion 'x' selects lower case. */
  function DigitChar(d: nat, conv: cchar): cchar
  {
    ToChar((if d > 9 then d + (if conv == 'x' then 0x27 else 0x07) else d) + '0' as int)
  }

  // Division by the radix, and reduction modulo it or one of its powers.
  function Front(v: nat, r: nat): nat
    requires r >= 1
  {
    v / r
  }

  function Last(v: nat, r: nat): (d: nat)
    requires r >= 1
    ensures d < r
  {
    v % r
  }

  /** The numeral of v in radix r, most significant digit first, cut off after n digits. */
  function Numeral(v: nat, r: nat, conv: cchar, n: nat): (s: seq<cchar>)
    requires 2 <= r <= 16 && n >= 1
    ensures 1 <= |s| <= n
  {
    if Front(v, r) == 0 || n == 1 then [DigitChar(Last(v, r), conv)]
    else Numeral(Front(v, r), r, conv, n - 1) + [DigitChar(Last(v, r), conv)]
  }

  /** The unsigned char arithmetic xatoi applies to a character above ' '. */
  function CharDigit(c: cchar): byte {
    var c0 := c as int;
    var c1 := if c0 >= 'a' as int then c0 - 0x20 else c0;
    var c2 := (c1 - '0' as int) % 0x100;
    if c2 >= 17 then c2 - 7 else c2
  }

  predicate IsDigit(c: cchar, r: nat) { c > ' ' && CharDigit(c) < r }

  predicate AllDigits(s: seq<cchar>, r: nat) { forall i :: 0 <= i < |s| ==> IsDigit(s[i], r) }

  /** The value of a digit string, most significant digit first. */
  function Horner(s: seq<cchar>, r: nat): nat {
    if s == [] then 0 else Horner(s[..|s| - 1], r) * r + CharDigit(s[|s| - 1])
  }

  /** Which characters xatoi takes as a digit: besides 0-9, A-F and a-f also ':' to '?'. */
  lemma DigitsAccepted(c: cchar, r: nat)
    requires r in {2, 8, 10, 16}
    ensures IsDigit(c, r) <==>
              || '0' as int <= c as int < '0' as int + r
              || (r == 16 && ('A' <= c <= 'F' || 'a' <= c <= 'f'))
    ensures IsDigit(c, r) && c <= '9' ==> CharDigit(c) == c as int - '0' as int
    ensures IsDigit(c, r) && 'A' <= c <= 'F' ==> CharDigit(c) == c as int - 'A' as int + 10
    ensures IsDigit(c, r) && 'a' <= c <= 'f' ==> CharDigit(c) == c as int - 'a' as int + 10
    // The guard "c <= 9" of the digit decoder can never hold.
    ensures CharDigit(c) <= 9 ==> '0' <= c <= '9'
  {
  }

  lemma DigitRoundTrip(d: nat, r: nat, conv: cchar)
    requires d < r <= 16
    ensures IsDigit(DigitChar(d, conv), r) && CharDigit(DigitChar(d, conv)) == d
    ensures DigitChar(d, conv) == '0' <==> d == 0
    ensures DigitChar(d, conv) <= '9' <==> d <= 9
  {
    var n := (if d > 9 then d + (if conv == 'x' then 0x27 else 0x07) else d) + '0' as int;
    assert n < 0x100 && DigitChar(d, conv) as int == n;
  }

  /** Chopping n radix-r digits is reduction modulo r^n. */
  lemma ChopDigit(v: nat, r: nat, p: nat)
    requires r >= 1 && p >= 1
    ensures r * p >= 1 && Last(v, r * p) == Last(Front(v, r), p) * r + Last(v, r)
  {
    hide Front, Last;
    var u, d := Front(v, r), Last(v, r);
    FrontLast(v, r);
    FrontLast(u, p);
    ChopAlgebra(r, p, Front(u, p), Last(u, p), d);
    LastUnique(v, r * p, Front(u, p), Last(u, p) * r + d);
  }

  lemma FrontLast(v: nat, r: nat)
    requires r >= 1
    ensures v == r * Front(v, r) + Last(v, r)
  {
  }

  lemma LastUnique(n: nat, d: nat, q: nat, m: nat)
    requires d >= 1 && n == d * q + m && m < d
    ensures Front(n, d) == q && Last(n, d) == m
  {
    DivModUnique(n, d, q, m);
  }

  lemma ChopAlgebra(r: nat, p: nat, q: nat, m: nat, d: nat)
    requires r >= 1 && m < p && d < r
    ensures r * (p * q + m) + d == (r * p) * q + (m * r + d)
    ensures 0 <= m * r + d < r * p
  {
    DivMonotone(r, p, m + 1);
  }

  lemma PowOne(r: nat)
    requires r >= 1
    ensures Pow(r, 1) == r
  {
    assert Pow(r, 0) == 1;
  }

  lemma HornerAppend(s: seq<cchar>, c: cchar, r: nat)
    ensures Horner(s + [c], r) == Horner(s, r) * r + CharDigit(c)
  {
    assert (s + [c])[..|s|] == s;
  }

  /** Digit extraction is exact: the digits evaluate to v modulo r^n. */
  lemma {:induction false} NumeralValue(v: nat, r: nat, conv: cchar, n: nat)
    requires 2 <= r <= 16 && n >= 1
    ensures AllDigits(Numeral(v, r, conv, n), r)
    ensures Horner(Numeral(v, r, conv, n), r) == Last(v, Pow(r, n))
    decreases n
  {
    hide Front, Last, AllDigits, Horner;
    if Front(v, r) == 0 || n == 1 {
      NumeralValueLast(v, r, conv, n);
    } else {
      NumeralValue(Front(v, r), r, conv, n - 1);
      NumeralValueStep(v, r, conv, n);
    }
  }

  lemma NumeralValueLast(v: nat, r: nat, conv: cchar, n: nat)
    requires 2 <= r <= 16 && n >= 1
    requires Front(v, r) == 0 || n == 1
    ensures AllDigits([DigitChar(Last(v, r), conv)], r)
    ensures Horner([DigitChar(Last(v, r), conv)], r) == Last(v, Pow(r, n))
  {
    hide Front, Last;
    DigitRoundTrip(Last(v, r), r, conv);
    HornerSingle(DigitChar(Last(v, r), conv), r);
    if n == 1 {
      PowOne(r);
    } else {
      ChopDigit(v, r, Pow(r, n - 1));
      LastOfZero(Pow(r, n - 1));
    }
  }

  lemma LastOfZero(p: nat)
    requires p >= 1
    ensures Last(0, p) == 0
  {
    DivModUnique(0, p, 0, 0);
  }

  lemma NumeralValueStep(v: nat, r: nat, conv: cchar, n: nat)
    requires 2 <= r <= 16 && n >= 2 && Front(v, r) != 0
    requires AllDigits(Numeral(Front(v, r), r, conv, n - 1), r)
    requires Horner(Numeral(Front(v, r), r, conv, n - 1), r) == Last(Front(v, r), Pow(r, n - 1))
    ensures AllDigits(Numeral(v, r, conv, n), r)
    ensures Horner(Numeral(v, r, conv, n), r) == Last(v, Pow(r, n))
  {
    hide Front, Last, Horner, AllDigits, DigitChar;
    DigitRoundTrip(Last(v, r), r, conv);
    AppendDigit(Numeral(Front(v, r), r, conv, n - 1), DigitChar(Last(v, r), conv), r);
    ChopDigit(v, r, Pow(r, n - 1));
  }

  lemma AppendDigit(s: seq<cchar>, c: cchar, r: nat)
    requires AllDigits(s, r) && IsDigit(c, r)
    ensures AllDigits(s + [c], r)
    ensures Horner(s + [c], r) == Horner(s, r) * r + CharDigit(c)
  {
    HornerAppend(s, c, r);
  }

  lemma HornerSingle(c: cchar, r: nat)
    ensures Horner([c], r) == CharDigit(c)
  {
    assert [c][..0] == [];
  }

  /** No superfluous leading zero: a value that fits is written with its minimal length. */
  lemma {:induction false} NumeralMinimal(v: nat, r: nat, conv: cchar, n: nat)
    requires 2 <= r <= 16 && n >= 1 && v < Pow(r, n)
    ensures v > 0 ==> Numeral(v, r, conv, n)[0] != '0'
    ensures v == 0 ==> Numeral(v, r, conv, n) == ['0']
    ensures v > 0 ==> Pow(r, |Numeral(v, r, conv, n)| - 1) <= v
    ensures v < Pow(r, |Numeral(v, r, conv, n)|)
    decreases n
  {
    hide Front, Last, DigitChar;
    FrontBounds(v, r, n);
    if v < r {
      DigitRoundTrip(v, r, conv);
      PowOne(r);
    } else {
      NumeralMinimal(Front(v, r), r, conv, n - 1);
      NumeralMinimalStep(v, r, |Numeral(Front(v, r), r, conv, n - 1)|);
    }
  }

  /** What dropping the last digit does to the size of a value. */
  lemma FrontBounds(v: nat, r: nat, n: nat)
    requires r >= 2 && n >= 1 && v < Pow(r, n)
    ensures v < r ==> Front(v, r) == 0 && Last(v, r) == v
    ensures v >= r ==> n >= 2 && 1 <= Front(v, r) < Pow(r, n - 1)
  {
    if v < r {
      DivModUnique(v, r, 0, v);
    } else {
      if n == 1 { PowOne(r); }
      QuotientBound(v, r, Pow(r, n - 1));
      QuotientPositive(v, r);
    }
  }

  lemma QuotientBound(v: nat, r: nat, p: nat)
    requires r >= 1 && v < r * p
    ensures v / r < p
  {
    DivBounds(v, r);
    if v / r >= p { DivMonotone(r, v / r, p); }
  }

  lemma QuotientPositive(v: nat, r: nat)
    requires 1 <= r <= v
    ensures v / r >= 1
  {
    DivBounds(v, r);
  }

  lemma NumeralMinimalStep(v: nat, r: nat, k: nat)
    requires r >= 1 && k >= 1 && Pow(r, k - 1) <= Front(v, r) < Pow(r, k)
    ensures Pow(r, k) <= v < Pow(r, k + 1)
  {
    DivBounds(v, r);
    DivMonotone(r, v / r, Pow(r, k - 1));
    DivMonotone(r, Pow(r, k), v / r + 1);
  }

  lemma DivBounds(v: nat, r: nat)
    requires r >= 1
    ensures r * (v / r) <= v < r * (v / r + 1)
  {
    assert v == r * (v / r) + v % r;
  }

  lemma DivMonotone(r: nat, a: nat, b: nat)
    requires a >= b
    ensures r * a >= r * b
  {
  }

  /** Leading zeros do not change the value. */
  lemma {:induction false} LeadingZeros(k: nat, s: seq<cchar>, r: nat)
    requires r >= 1 && AllDigits(s, r)
    ensures AllDigits(Repeat('0', k) + s, r)
    ensures Horner(Repeat('0', k) + s, r) == Horner(s, r)
  {
    var t := Repeat('0', k) + s;
    if s != [] {
      LeadingZeros(k, s[..|s| - 1], r);
      assert t[..|t| - 1] == Repeat('0', k) + s[..|s| - 1];
    } else if k > 0 {
      LeadingZeros(k - 1, [], r);
      assert t[..|t| - 1] == Repeat('0', k - 1) + [];
    }
  }

  /** Limits of the 32-byte digit buffer: 64-bit values fit in radix 8, 10 and 16. */
  lemma BufferFits()
    ensures Pow(8, 32) >= TWO64 && Pow(10, 32) >= TWO64 && Pow(16, 32) >= TWO64
    ensures Pow(2, 32) == TWO32
    ensures Pow(10, 19) > TWO63
  {
    assert Pow(2, 8) == 256;
    PowSplit(2, 8, 8);
    PowSplit(2, 16, 16);
    assert Pow(8, 8) == 0x100_0000;
    PowSplit(8, 8, 8); PowSplit(8, 16, 16);
    assert Pow(16, 8) == 0x1_0000_0000;
    PowSplit(16, 8, 8); PowSplit(16, 16, 16);
    assert Pow(10, 3) == 1000;
    PowSplit(10, 3, 3); PowSplit(10, 6, 6); PowSplit(10, 6, 12); PowSplit(10, 18, 1);
    PowMonotone(10, 19, 20);
    assert Pow(10, 1) == 10;
    PowSplit(10, 19, 1);
    PowMonotone(10, 20, 32);
  }

  /**
   * Digit extraction into the 32-byte buffer loses nothing for 64-bit values in radix 8, 10
   * and 16 and for 32-bit values in radix 2.
   */
  lemma NumeralExact(v: nat, r: nat, conv: cchar)
    requires (r in {8, 10, 16} && v < TWO64) || (r == 2 && v < TWO32)
    ensures AllDigits(Numeral(v, r, conv, 32), r)
    ensures Horner(Numeral(v, r, conv, 32), r) == v
    ensures v == 0 ==> Numeral(v, r, conv, 32) == ['0']
    ensures v > 0 ==> Numeral(v, r, conv, 32)[0] != '0'
  {
    BufferFits();
    NumeralValue(v, r, conv, 32);
    NumeralMinimal(v, r, conv, 32);
    DivModUnique(v, Pow(r, 32), 0, v);
  }

  /** A decimal numeral of a magnitude up to 2^63 has at most 19 digits, so a sign always fits. */
  lemma DecimalLength(v: nat)
    requires v <= TWO63
    ensures |Numeral(v, 10, 'd', 32)| <= 19
  {
    BufferFits();
    NumeralMinimal(v, 10, 'd', 32);
    var k := |Numeral(v, 10, 'd', 32)|;
    if k >= 20 && v > 0 {
      PowMonotone(10, 19, k - 1);
    }
  }
}
