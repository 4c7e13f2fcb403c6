/** The sensor's fixed-point timing arithmetic in 32-bit registers. */
module Timing {
  import opened CTypes
  import opened Digits

  const TIMING_GUARD: u32 := 4528

  // ---- Timeout codes: LSByte * 2^MSByte + 1 ----

  /** What the sensor takes a timeout register to mean. */
  function DecodeTimeout(code: u16): nat {
    (code % 0x100) * Pow(2, code / 0x100) + 1
  }

  /** Halve until one byte is left, counting the halvings. */
  function Halve(ls: nat, ms: nat): (nat, nat) {
    if ls < 0x100 then (ls, ms) else Halve(ls / 2, ms + 1)
  }

  /** The code of a timeout in macro periods. */
  function EncodeTimeout(t: u32): u16 {
    if t == 0 then 0
    else
      var (ls, ms) := Halve(t - 1, 0);
      HalveFits(t - 1);
      ms * 0x100 + ls
  }

  /** (ls, ms) is x cut to eight significant bits. */
  ghost predicate CutTo8(x: nat, ls: nat, ms: nat) {
    ls * Pow(2, ms) <= x < (ls + 1) * Pow(2, ms) && ls < 0x100 && (ms > 0 ==> ls >= 0x80)
  }

  lemma {:induction false} HalveCuts(x: nat, ls: nat, ms: nat)
    requires ls * Pow(2, ms) <= x < (ls + 1) * Pow(2, ms) && (ms > 0 ==> ls >= 0x80)
    ensures CutTo8(x, Halve(ls, ms).0, Halve(ls, ms).1)
    decreases ls
  {
    if ls >= 0x100 {
      HalfStep(x, ls, Pow(2, ms));
      HalveCuts(x, ls / 2, ms + 1);
    }
  }

  lemma HalfStep(x: nat, ls: nat, p: nat)
    requires ls * p <= x < (ls + 1) * p
    ensures ls / 2 * (2 * p) <= x < (ls / 2 + 1) * (2 * p)
  {
    var h, b := ls / 2, ls % 2;
    assert ls * p == (2 * h + b) * p == h * (2 * p) + b * p;
    assert (ls + 1) * p == h * (2 * p) + (b + 1) * p;
    assert (h + 1) * (2 * p) == h * (2 * p) + 2 * p;
    assert b == 0 || b == 1;
  }

  lemma CutOf(x: nat)
    ensures CutTo8(x, Halve(x, 0).0, Halve(x, 0).1)
  {
    assert Pow(2, 0) == 1;
    HalveCuts(x, x, 0);
  }

  /** A 32-bit value is halved at most 24 times. */
  lemma HalveFits(x: u32)
    ensures Halve(x, 0).0 < 0x100 && Halve(x, 0).1 <= 24
  {
    CutOf(x);
    var (ls, ms) := Halve(x, 0);
    if ms > 24 {
      PowMonotone(2, 25, ms);
      PowValues();
      ProductBound(0x80, Pow(2, 25), ls, Pow(2, ms));
    }
  }

  lemma PowValues()
    ensures Pow(2, 25) == 0x200_0000 && Pow(2, 24) == 0x100_0000
  {
    assert Pow(2, 8) == 0x100;
    PowSplit(2, 8, 8);
    PowSplit(2, 16, 8);
    PowOne(2);
    PowSplit(2, 24, 1);
  }

  lemma ProductBound(a: nat, b: nat, c: nat, d: nat)
    requires a <= c && b <= d
    ensures a * b <= c * d
  {
    assert a * b <= c * b;
    assert c * b <= c * d;
  }

  /** The encoder's loop; the mask test on the upper 24 bits says that ls_byte exceeds a byte. */
  method Encode(timeout_mclks: u32) returns (code: u16)
    ensures code == EncodeTimeout(timeout_mclks)
  {
    var ls_byte: u32, ms_byte: u16 := 0, 0;
    if timeout_mclks > 0 {
      ls_byte := timeout_mclks - 1;
      HalveFits(ls_byte);
      while ls_byte / 0x100 > 0
        invariant Halve(ls_byte, ms_byte) == Halve(timeout_mclks - 1, 0)
        invariant ms_byte <= Halve(timeout_mclks - 1, 0).1
        decreases ls_byte
      {
        HalveCounts(ls_byte / 2, ms_byte + 1);
        ls_byte := ls_byte / 2;
        ms_byte := ms_byte + 1;
      }
      return ToU16(ms_byte * 0x100) + ls_byte % 0x100;
    } else {
      return 0;
    }
  }

  lemma {:induction false} HalveCounts(ls: nat, ms: nat)
    ensures Halve(ls, ms).1 >= ms
    decreases ls
  {
    if ls >= 0x100 { HalveCounts(ls / 2, ms + 1); }
  }

  /** The mask of the source in register arithmetic. */
  lemma MaskTest(x: bv32)
    ensures (x & 0xFFFF_FF00) > 0 <==> x / 0x100 > 0
  {
  }

  /** A code's bytes. */
  lemma CodeBytes(t: u32)
    requires t >= 1
    ensures var (ls, ms) := Halve(t - 1, 0);
            && EncodeTimeout(t) % 0x100 == ls && EncodeTimeout(t) / 0x100 == ms && ms <= 24
            && CutTo8(t - 1, ls, ms)
  {
    HalveFits(t - 1);
    CutOf(t - 1);
  }

  /**
   * The code is the best under-approximation: it decodes to at most t, no other code comes
   * closer from below, and what is cut off is less than one part in 128.
   */
  lemma EncodeBest(t: u32)
    requires t >= 1
    ensures var d := DecodeTimeout(EncodeTimeout(t));
            && d <= t
            && (forall other: u16 :: DecodeTimeout(other) <= t ==> DecodeTimeout(other) <= d)
            && 128 * (t - d) < t
    ensures EncodeTimeout(t) / 0x100 <= 24
    ensures EncodeTimeout(t) >= 0x100 ==> EncodeTimeout(t) % 0x100 >= 0x80
  {
    CodeBytes(t);
    var (ls, ms) := Halve(t - 1, 0);
    forall other: u16 | DecodeTimeout(other) <= t
      ensures DecodeTimeout(other) <= DecodeTimeout(EncodeTimeout(t))
    {
      CutIsBest(t - 1, ls, ms, other % 0x100, other / 0x100);
    }
    CutError(t - 1, ls, ms);
  }

  lemma CutError(x: nat, ls: nat, ms: nat)
    requires CutTo8(x, ls, ms)
    ensures 128 * (x - ls * Pow(2, ms)) < x + 1
  {
    var p := Pow(2, ms);
    assert (ls + 1) * p == ls * p + p;
    if ms > 0 { ProductBound(128, p, ls, p); }
  }

  /** No value with eight significant bits lies between the cut value and x. */
  lemma CutIsBest(x: nat, ls: nat, ms: nat, l: nat, m: nat)
    requires CutTo8(x, ls, ms) && l < 0x100 && l * Pow(2, m) <= x
    ensures l * Pow(2, m) <= ls * Pow(2, ms)
  {
    if m >= ms {
      PowSplit(2, m - ms, ms);
      CutFloor(x, ls, Pow(2, ms), l, Pow(2, m - ms));
    } else {
      PowMonotone(2, m, ms - 1);
      ProductBound(l, Pow(2, m), 0x100, Pow(2, ms - 1));
      ProductBound(0x80, Pow(2, ms), ls, Pow(2, ms));
    }
  }

  lemma CutFloor(x: nat, ls: nat, p: nat, l: nat, q: nat)
    requires x < (ls + 1) * p && l * (q * p) <= x
    ensures l * (q * p) <= ls * p
  {
    assert l * (q * p) == (l * q) * p;
    if l * q >= ls + 1 { ProductBound(ls + 1, p, l * q, p); }
    ProductBound(l * q, p, ls, p);
  }

  /** Longer timeouts never get a smaller code. */
  lemma EncodeMonotone(t: u32, u: u32)
    requires t <= u
    ensures EncodeTimeout(t) <= EncodeTimeout(u)
  {
    if t >= 1 {
      CodeBytes(t);
      CodeBytes(u);
      var (a, m) := Halve(t - 1, 0);
      var (b, n) := Halve(u - 1, 0);
      CutOrder(t - 1, a, m, u - 1, b, n);
    }
  }

  lemma CutOrder(x: nat, a: nat, m: nat, y: nat, b: nat, n: nat)
    requires CutTo8(x, a, m) && CutTo8(y, b, n) && x <= y
    ensures m < n || (m == n && a <= b)
  {
    if m > n {
      PowMonotone(2, n + 1, m);
      ProductBound(0x80, Pow(2, n + 1), a, Pow(2, m));
      ProductBound(b + 1, Pow(2, n), 0x100, Pow(2, n));
    } else if m == n && a > b {
      ProductBound(b + 1, Pow(2, n), a, Pow(2, n));
    }
  }

  /** Encoding is stable: a decoded code encodes to itself. */
  lemma EncodeStable(t: u32)
    ensures DecodeTimeout(EncodeTimeout(t)) <= Max(t, 1)
    ensures EncodeTimeout(DecodeTimeout(EncodeTimeout(t))) == EncodeTimeout(t)
  {
    if t >= 1 {
      CodeBytes(t);
      var (ls, ms) := Halve(t - 1, 0);
      HalveOfCut(t - 1, ls, ms);
    } else {
      assert Pow(2, 0) == 1;
    }
  }

  lemma HalveOfCut(x: nat, ls: nat, ms: nat)
    requires CutTo8(x, ls, ms)
    ensures ls * Pow(2, ms) <= x && Halve(ls * Pow(2, ms), 0) == (ls, ms)
  {
    var p := Pow(2, ms);
    var y := ls * p;
    assert (ls + 1) * p == y + p;
    CutOf(y);
    var (a, m) := Halve(y, 0);
    CutOrder(y, ls, ms, y, a, m);
    CutOrder(y, a, m, y, ls, ms);
  }

  // ---- Macro periods ----

  /** PLL period in 0.24 format from the oscillator frequency in 4.12 format. */
  function PllPeriod(fast_osc_frequency: u16): u32
    requires fast_osc_frequency != 0
  {
    Quotient(0x4000_0000, fast_osc_frequency)
  }

  function VcselPclks(vcsel_period: byte): byte { ((vcsel_period + 1) * 2) % 0x100 }

  /** Macro period in microseconds, 12.12 format, with every step in a 32-bit register. */
  function MacroPeriod(vcsel_period: byte, fast_osc_frequency: u16): u32
    requires fast_osc_frequency != 0
  {
    var macro: u32 := ToU32(2304 * PllPeriod(fast_osc_frequency));
    var shifted: u32 := macro / 64;
    var scaled: u32 := ToU32(shifted * VcselPclks(vcsel_period));
    scaled / 64
  }

  /** Timeout in macro periods, rounded, with every step in a 32-bit register. */
  function MicrosecondsToMclks(timeout_us: u32, macro_period_us: u32): u32
    requires macro_period_us != 0
  {
    var sum: u32 := ToU32(ToU32(timeout_us * 4096) + macro_period_us / 2);
    Quotient(sum, macro_period_us)
  }

  lemma QuotientBelow(n: nat, d: nat)
    requires d >= 1
    ensures n / d <= n
  {
    var q := n / d;
    DivBounds(n, d);
    TimesAtLeast(d, q);
  }

  lemma TimesAtLeast(d: nat, q: int)
    requires d >= 1 && d * q >= 0
    ensures q <= d * q
  {
    if q > 0 { ProductBound(1, q, d, q); }
  }

  // Unsigned 32-bit division.
  function Quotient(n: u32, d: u32): u32
    requires d != 0
  {
    QuotientBelow(n, d);
    n / d
  }

  // The periods that the distance modes select.
  predicate ModePeriod(vcsel_period: byte) { vcsel_period in {0x07, 0x05, 0x0B, 0x09, 0x0F, 0x0D} }

  lemma DivisorOrder(n: nat, f: nat, g: nat)
    requires 1 <= f <= g
    ensures n / g <= n / f
  {
    DivBounds(n, f);
    DivBounds(n, g);
    if n / g > n / f {
      DivMonotone(f, n / g, n / f + 1);
      ProductBound(f, n / g, g, n / g);
    }
  }

  /** The first product fits 32 bits exactly for oscillator frequencies from 576 on. */
  lemma PllProductFits(f: u16)
    requires f != 0
    ensures 2304 * PllPeriod(f) < TWO32 <==> f >= 576
  {
    if f >= 576 {
      DivisorOrder(0x4000_0000, 576, f);
    } else {
      DivisorOrder(0x4000_0000, f, 575);
    }
  }

  /** With a mode's period and such a frequency nothing wraps, and the period is positive. */
  lemma MacroPeriodExact(vcsel_period: byte, f: u16)
    requires ModePeriod(vcsel_period) && f >= 576
    ensures MacroPeriod(vcsel_period, f) == 2304 * PllPeriod(f) / 64 * (2 * (vcsel_period + 1)) / 64
    ensures 2304 * PllPeriod(f) / 64 * (2 * (vcsel_period + 1)) < TWO32
    ensures 110592 <= MacroPeriod(vcsel_period, f) <= 0x200_0000
  {
    hide PllPeriod;
    PllProductFits(f);
    ShiftedRange(f);
    var shifted, k := 2304 * PllPeriod(f) / 64, 2 * (vcsel_period + 1);
    assert VcselPclks(vcsel_period) == k && 12 <= k <= 32;
    ScaledRange(shifted, k);
    assert MacroPeriod(vcsel_period, f) == ToU32(ToU32(2304 * PllPeriod(f)) / 64 * k) / 64;
    NoWrap(2304 * PllPeriod(f));
    NoWrap(shifted * k);
  }

  lemma NoWrap(x: int)
    requires 0 <= x < TWO32
    ensures ToU32(x) == x
  {
  }

  /**
   * The nested divisions cost less than 20 units in the last place: the exact period in 12.12
   * format is 2304 * pclks * 2^18 / f for a PLL of 64 times the oscillator frequency.
   */
  lemma MacroPeriodAccurate(vcsel_period: byte, f: u16)
    requires ModePeriod(vcsel_period) && f >= 576
    ensures var exact := 2304 * (2 * (vcsel_period + 1)) * 0x4_0000;
            exact - 20 * f < MacroPeriod(vcsel_period, f) * f <= exact
  {
    hide PllPeriod, MacroPeriod;
    MacroPeriodExact(vcsel_period, f);
    PllBounds(f);
    Nested(PllPeriod(f), 2 * (vcsel_period + 1));
    TruncationError(f, PllPeriod(f), 2 * (vcsel_period + 1), MacroPeriod(vcsel_period, f));
  }

  lemma Nested(p: nat, k: nat)
    ensures var m := 2304 * p / 64 * k / 64; 64 * m <= 36 * p * k < 64 * m + 64
  {
    assert 2304 * p / 64 == 36 * p;
    var x := 36 * p * k;
    assert 64 * (x / 64) <= x < 64 * (x / 64) + 64;
  }

  lemma PllBounds(f: u16)
    requires f != 0
    ensures f * PllPeriod(f) <= 0x4000_0000 < f * (PllPeriod(f) + 1)
  {
    DivBounds(0x4000_0000, f);
  }

  lemma TruncationError(f: nat, p: nat, k: nat, m: nat)
    requires f * p <= 0x4000_0000 < f * (p + 1) && k <= 32 && f > 0
    requires 64 * m <= 36 * p * k < 64 * m + 64
    ensures 2304 * k * 0x4_0000 - 20 * f < m * f <= 2304 * k * 0x4_0000
  {
    var q := f * p;
    assert f * (p + 1) == q + f;
    assert 36 * p * k * f == 36 * (k * q) by { assert p * k * f == k * (f * p); }
    ProductBound(64 * m, f, 36 * p * k, f);
    ProductBound(36 * p * k, f, 64 * m + 63, f);
    assert 64 * m * f == 64 * (m * f) && (64 * m + 63) * f == 64 * (m * f) + 63 * f;
    ProductBound(k, q, k, 0x4000_0000);
    ProductBound(k, 0x4000_0000, k, q + f);
    assert k * (q + f) == k * q + k * f;
    ProductBound(k, f, 32, f);
  }

  lemma ShiftedRange(f: u16)
    requires f >= 576
    ensures 589824 <= 2304 * PllPeriod(f) / 64 < 0x400_0000
  {
    PllProductFits(f);
    DivisorOrder(0x4000_0000, f, 65536);
  }

  lemma ScaledRange(shifted: nat, k: nat)
    requires 589824 <= shifted < 0x400_0000 && 12 <= k <= 32
    ensures 110592 * 64 <= shifted * k <= 0x200_0000 * 64
  {
    ProductBound(shifted, k, 0x400_0000, 32);
    ProductBound(589824, 12, shifted, k);
  }

  /**
   * For every oscillator frequency and every period register the conversion's divisor is zero
   * exactly when the pixel clocks wrap to 0 or the frequency is one of these powers of two,
   * although many other products wrap as well.
   */
  lemma ZeroPeriodExactly(vcsel_period: byte, f: u16)
    requires f != 0
    ensures MacroPeriod(vcsel_period, f) == 0 <==>
              || (vcsel_period + 1) % 128 == 0 || f in {1, 2, 4, 8, 16, 32, 64}
              || (f == 128 && (vcsel_period + 1) % 128 == 64)
  {
    hide MacroPeriod;
    if f >= 576 { ZeroPeriodHigh(vcsel_period, f); } else { ZeroPeriodLow(vcsel_period, f); }
  }

  lemma ZeroPeriodHigh(vcsel_period: byte, f: u16)
    requires f >= 576
    ensures MacroPeriod(vcsel_period, f) == 0 <==> (vcsel_period + 1) % 128 == 0
  {
    hide PllPeriod, MacroPeriod;
    var p, c := PllPeriod(f), (vcsel_period + 1) % 128;
    PeriodOf(vcsel_period, f);
    if c == 0 {
      assert p * 0 == 0;
    } else {
      PllBounds(f);
      PllRange(f);
      NoSmallRest(f, p, c);
    }
  }

  lemma ZeroPeriodLow(vcsel_period: byte, f: u16)
    requires 0 < f < 576
    ensures MacroPeriod(vcsel_period, f) == 0 <==>
              || (vcsel_period + 1) % 128 == 0 || f in {1, 2, 4, 8, 16, 32, 64}
              || (f == 128 && (vcsel_period + 1) % 128 == 64)
  {
    hide MacroPeriod;
    var c := (vcsel_period + 1) % 128;
    if f in {1, 2, 4, 8, 16, 32, 64, 128, 256, 512} {
      PowerOfTwoPeriod(vcsel_period, f);
    } else if c == 0 {
      ZeroClocks(vcsel_period, f);
    } else if MacroPeriod(vcsel_period, f) == 0 {
      ZeroRest(vcsel_period, f);
      PowerBelow(f, PllPeriod(f));
    }
  }

  lemma ZeroClocks(vcsel_period: byte, f: u16)
    requires f != 0 && (vcsel_period + 1) % 128 == 0
    ensures MacroPeriod(vcsel_period, f) == 0
  {
    hide PllPeriod;
    assert VcselPclks(vcsel_period) == 0;
    assert ToU32(2304 * PllPeriod(f)) / 64 * 0 == 0;
  }

  lemma PowerOfTwoPeriod(vcsel_period: byte, f: u16)
    requires f in {1, 2, 4, 8, 16, 32, 64, 128, 256, 512}
    ensures MacroPeriod(vcsel_period, f) == 0 <==>
              (vcsel_period + 1) % 128 == 0 || f <= 64 || (f == 128 && (vcsel_period + 1) % 128 == 64)
  {
    hide PllPeriod, MacroPeriod;
    PowerOfTwoPll(f);
    if f <= 64 {
      PeriodFrom(vcsel_period, f, 0);
    } else {
      PeriodFrom(vcsel_period, f, if f == 128 then 0x200_0000 else if f == 256 then 0x100_0000 else 0x80_0000);
    }
  }

  lemma PowerOfTwoPll(f: u16)
    requires f in {1, 2, 4, 8, 16, 32, 64, 128, 256, 512}
    ensures ToU32(2304 * PllPeriod(f)) / 64 ==
              if f <= 64 then 0 else if f == 128 then 0x200_0000 else if f == 256 then 0x100_0000 else 0x80_0000
  {
    hide PllPeriod;
    if f <= 64 {
      var j: nat := if f == 1 then 64 else if f == 2 then 32 else if f == 4 then 16 else if f == 8 then 8
                    else if f == 16 then 4 else if f == 32 then 2 else 1;
      PllOf(f, 0x100_0000 * j);
      assert ToU32(2304 * (0x100_0000 * j)) == 0;
    } else {
      PllOf(f, if f == 128 then 0x80_0000 else if f == 256 then 0x40_0000 else 0x20_0000);
    }
  }

  lemma PllOf(f: u16, p: nat)
    requires f != 0 && f * p == 0x4000_0000
    ensures PllPeriod(f) == p
  {
    DivModUnique(0x4000_0000, f, p, 0);
  }

  /** A zero divisor with pixel clocks left needs a frequency that divides 2^30. */
  lemma ZeroRest(vcsel_period: byte, f: u16)
    requires 0 < f < 576 && (vcsel_period + 1) % 128 != 0 && MacroPeriod(vcsel_period, f) == 0
    ensures f * PllPeriod(f) == 0x4000_0000
  {
    hide PllPeriod;
    var p, c := PllPeriod(f), (vcsel_period + 1) % 128;
    PllBounds(f);
    var a, shifted := 2304 * p / TWO32, ToU32(2304 * p) / 64;
    assert VcselPclks(vcsel_period) == 2 * c;
    assert shifted == 36 * p - 0x400_0000 * a;
    var b, e := shifted * (2 * c) / TWO32, ToU32(shifted * (2 * c));
    assert e < 64;
    RestOfProducts(f, p, c, a, b, e);
  }

  lemma RestOfProducts(f: nat, p: nat, c: nat, a: int, b: int, e: nat)
    requires 0 < f < 576 && f * p <= 0x4000_0000 < f * (p + 1) && 1 <= c <= 127 && e < 64
    requires (36 * p - 0x400_0000 * a) * (2 * c) == TWO32 * b + e
    ensures f * p == 0x4000_0000
  {
    var g, k := 0x4000_0000 - f * p, a * c + 32 * b;
    assert f * (p + 1) == f * p + f;
    assert 72 * (p * c) == 0x800_0000 * k + e by { TimesTwice(p, a, c); }
    RestEquation(f, p, c, g, k, e);
    ProductBound(f, e, 576, 63);
    ProductBound(c, g, 127, 576);
    NoRest(576 * c - f * k, f * e, c * g);
    ProductBound(1, g, c, g);
  }

  lemma NoRest(q: int, fe: nat, cg: nat)
    requires 0x800_0000 * q == fe + 72 * cg && fe <= 576 * 63 && cg <= 127 * 576
    ensures cg == 0
  {
  }

  lemma TimesTwice(p: int, a: int, c: int)
    ensures (36 * p - 0x400_0000 * a) * (2 * c) == 72 * (p * c) - 0x800_0000 * (a * c)
  {
  }

  lemma RestEquation(f: int, p: int, c: int, g: int, k: int, e: int)
    requires f * p + g == 0x4000_0000 && 72 * (p * c) == 0x800_0000 * k + e
    ensures 0x800_0000 * (576 * c - f * k) == f * e + 72 * (c * g)
  {
    assert f * (0x800_0000 * k + e) == 0x800_0000 * (f * k) + f * e;
    assert f * (72 * (p * c)) == 72 * (c * (f * p)) by { assert f * (p * c) == c * (f * p); }
    assert c * (f * p) == 0x4000_0000 * c - c * g by { assert f * p == 0x4000_0000 - g; }
  }

  /** A power of two has no divisors but powers of two. */
  lemma PowerBelow(f: nat, p: nat)
    requires f * p == 0x4000_0000 && 0 < f < 576
    ensures f in {1, 2, 4, 8, 16, 32, 64, 128, 256, 512}
  {
    PowValues();
    PowSplit(2, 25, 5);
    assert Pow(2, 5) == 32 && Pow(2, 9) == 512 && Pow(2, 10) == 1024;
    var k := DivisorOfPower(f, p, 30);
    if k >= 10 { PowMonotone(2, 10, k); }
    assert k in {0, 1, 2, 3, 4, 5, 6, 7, 8, 9};
  }

  lemma OddProduct(h: nat, g: nat)
    ensures (2 * h + 1) * (2 * g + 1) == 2 * (2 * (h * g) + h + g) + 1
  {
  }

  lemma {:induction false} DivisorOfPower(f: nat, p: nat, n: nat) returns (k: nat)
    requires f * p == Pow(2, n)
    ensures f == Pow(2, k)
    decreases n, f
  {
    if n == 0 {
      assert f >= 1 && p >= 1;
      ProductBound(f, 1, f, p);
      k := 0;
    } else if f % 2 == 0 {
      var h := f / 2;
      assert 2 * (h * p) == 2 * Pow(2, n - 1);
      k := DivisorOfPower(h, p, n - 1);
      k := k + 1;
    } else {
      var g, h := p / 2, f / 2;
      if p % 2 == 1 { OddProduct(h, g); }
      assert f * (2 * g) == 2 * (f * g);
      k := DivisorOfPower(f, g, n - 1);
    }
  }

  lemma PeriodOf(vcsel_period: byte, f: u16)
    requires f >= 576
    ensures var c := (vcsel_period + 1) % 128; MacroPeriod(vcsel_period, f) == ToU32(72 * (PllPeriod(f) * c)) / 64
  {
    hide PllPeriod, MacroPeriod, VcselPclks;
    var p, c := PllPeriod(f), (vcsel_period + 1) % 128;
    PllProductFits(f);
    NoWrap(2304 * p);
    assert 36 * p * (2 * c) == 72 * (p * c);
    assert 2304 * p / 64 == 36 * p;
    PeriodFrom(vcsel_period, f, 36 * p);
  }

  /** The second half of the calculation; the pixel clocks are twice the period plus 1, modulo 256. */
  lemma PeriodFrom(vcsel_period: byte, f: u16, shifted: u32)
    requires f != 0 && ToU32(2304 * PllPeriod(f)) / 64 == shifted
    ensures MacroPeriod(vcsel_period, f) == ToU32(shifted * (2 * ((vcsel_period + 1) % 128))) / 64
  {
    hide PllPeriod, ToU32;
    assert VcselPclks(vcsel_period) == 2 * ((vcsel_period + 1) % 128);
  }

  lemma PllRange(f: u16)
    requires f >= 576
    ensures 0x4000 <= PllPeriod(f) <= 1864135
  {
    DivisorOrder(0x4000_0000, 576, f);
    DivisorOrder(0x4000_0000, f, 0x1_0000);
  }

  /** No multiple 72 * p * c lies less than 64 above a multiple of 2^32. */
  lemma NoSmallRest(f: nat, p: nat, c: nat)
    requires f * p <= 0x4000_0000 < f * (p + 1) && 0x4000 <= p <= 1864135 && 1 <= c <= 127
    ensures ToU32(72 * (p * c)) >= 64
  {
    var n, g := p * c, 0x4000_0000 - f * p;
    assert f * (p + 1) == f * p + f;
    ProductBound(p, c, 1864135, 127);
    ProductBound(p, 1, p, c);
    var j, e := 72 * n / TWO32, 72 * n % TWO32 / 8;
    assert 9 * n == j * 0x2000_0000 + e;
    if e <= 7 {
      assert 1 <= j <= 3;
      RestFactor(f, p, c, g, j, e);
      assert j * f <= 18 * c by { if j * f > 18 * c { NegativeFactor(p, 18 * c - j * f); } }
      assert f <= 2286 by { ProductBound(1, f, j, f); }
      assert p > 460000 by { if p <= 460000 { ProductBound(f, p + 1, 2286, 460001); } }
      assert j * g <= 3 * 2286 by { ProductBound(j, g, 3, 2286); }
      SmallMultiple(p, 18 * c - j * f);
    }
  }

  lemma RestFactor(f: nat, p: nat, c: nat, g: nat, j: nat, e: nat)
    requires f * p + g == 0x4000_0000 && 9 * (p * c) == j * 0x2000_0000 + e
    ensures p * (18 * c - j * f) == j * g + 2 * e
  {
    assert p * (18 * c - j * f) == 18 * (p * c) - j * (f * p);
    assert j * (f * p + g) == j * (f * p) + j * g;
  }

  lemma NegativeFactor(p: nat, d: int)
    requires p >= 1 && d < 0
    ensures p * d < 0
  {
  }

  lemma SmallMultiple(p: nat, d: int)
    requires 0 <= p * d < p
    ensures d == 0
  {
    if d < 0 { NegativeFactor(p, d); }
    if d > 0 { ProductBound(p, 1, p, d); }
  }

  // ---- The timing budget ----

  predicate Accepted(budget_us: u32) {
    TIMING_GUARD < budget_us && budget_us - TIMING_GUARD <= 1100000
  }

  function RangeTimeout(budget_us: u32): u32
    requires budget_us > TIMING_GUARD
  {
    (budget_us - TIMING_GUARD) / 2
  }

  /** The budgets accepted, and the time per range: half of what the guard leaves. */
  lemma AcceptedExactly(budget_us: u32)
    ensures Accepted(budget_us) <==> 4528 < budget_us <= 1104528
    ensures budget_us > 4528 ==> 2 * RangeTimeout(budget_us) + (budget_us - 4528) % 2 == budget_us - 4528
  {
  }

  /** Rounding to macro periods is exact to half a period when the sum fits its register. */
  lemma MclksRounded(timeout_us: u32, macro: u32)
    requires macro != 0 && timeout_us * 4096 + macro / 2 < TWO32
    ensures var m := MicrosecondsToMclks(timeout_us, macro);
            && m == Quotient(timeout_us * 4096 + macro / 2, macro)
            && m * macro <= timeout_us * 4096 + macro / 2 < (m + 1) * macro
            && timeout_us * 4096 - (macro + 1) / 2 <= m * macro <= timeout_us * 4096 + (macro + 1) / 2
  {
    hide MicrosecondsToMclks, Quotient;
    var t, half := timeout_us * 4096, macro / 2;
    MclksPlain(timeout_us, macro);
    QuotientIs(t + half, macro);
    RoundedBounds(t, macro, Quotient(t + half, macro));
  }

  lemma MclksPlain(timeout_us: u32, macro: u32)
    requires macro != 0 && timeout_us * 4096 + macro / 2 < TWO32
    ensures MicrosecondsToMclks(timeout_us, macro) == Quotient(timeout_us * 4096 + macro / 2, macro)
  {
    hide Quotient;
    NoWrap(timeout_us * 4096);
    NoWrap(timeout_us * 4096 + macro / 2);
  }

  lemma QuotientIs(n: u32, d: u32)
    requires d != 0
    ensures d * Quotient(n, d) <= n < d * (Quotient(n, d) + 1)
  {
    DivBounds(n, d);
  }

  lemma RoundedBounds(t: nat, c: nat, q: nat)
    requires c * q <= t + c / 2 < c * (q + 1)
    ensures t - (c + 1) / 2 <= q * c <= t + (c + 1) / 2
    ensures q * c <= t + c / 2 < (q + 1) * c
  {
    assert c * (q + 1) == c * q + c && c * q == q * c && (q + 1) * c == q * c + c;
  }

  /** The guard on the budget is what keeps the shift within 32 bits, whatever the macro period. */
  lemma AcceptedFits(budget_us: u32, macro: u32)
    requires Accepted(budget_us) && macro <= 0x3FF_FFFF
    ensures RangeTimeout(budget_us) * 4096 + macro / 2 < TWO32
  {
  }

  /**
   * The fixed timings: 1000 us of phase calibration come to at most 37 macro periods, so the
   * limit to one byte never applies, and the 1 us of the MM timings round to none.
   */
  lemma FixedTimings(macro: u32)
    requires 110592 <= macro <= 0x200_0000
    ensures 1000 * 4096 + macro / 2 < TWO32 && 1 * 4096 + macro / 2 < TWO32
    ensures var m := MicrosecondsToMclks(1000, macro);
            && m <= 37 && 4096000 - (macro + 1) / 2 <= m * macro <= 4096000 + (macro + 1) / 2
    ensures MicrosecondsToMclks(1, macro) == 0
  {
    hide MicrosecondsToMclks, Quotient;
    MclksRounded(1000, macro);
    MclksRounded(1, macro);
    AtMostTimes(MicrosecondsToMclks(1000, macro), macro, 37, 4096000 + (macro + 1) / 2);
    AtMostTimes(MicrosecondsToMclks(1, macro), macro, 0, 4096 + (macro + 1) / 2);
  }

  lemma AtMostTimes(m: nat, d: nat, n: nat, bound: nat)
    requires m * d <= bound < (n + 1) * d
    ensures m <= n
  {
    if m >= n + 1 { ProductBound(n + 1, d, m, d); }
  }

  /**
   * For every accepted budget, every oscillator frequency from 576 on and every mode's period:
   * no product, shift or sum wraps, no divisor is zero, and the range register is the best code
   * of the timeout rounded to macro periods.
   */
  lemma BudgetEndToEnd(budget_us: u32, vcsel_period: byte, f: u16)
    requires Accepted(budget_us) && ModePeriod(vcsel_period) && f >= 576
    ensures var macro := MacroPeriod(vcsel_period, f);
            && macro > 0 && 2304 * PllPeriod(f) < TWO32
            && 2304 * PllPeriod(f) / 64 * (2 * (vcsel_period + 1)) < TWO32
            && 1000 * 4096 + macro / 2 < TWO32 && 1 * 4096 + macro / 2 < TWO32
            && var t := (budget_us - 4528) / 2;
            && t * 4096 + macro / 2 < TWO32
            && var m := MicrosecondsToMclks(t, macro);
            && t * 4096 - (macro + 1) / 2 <= m * macro <= t * 4096 + (macro + 1) / 2
            && (m >= 1 ==> var d := DecodeTimeout(EncodeTimeout(m)); d <= m && 128 * (m - d) < m)
            && (m == 0 ==> DecodeTimeout(EncodeTimeout(m)) == 1)
    ensures var macro := MacroPeriod(vcsel_period, f);
            var phasecal := MicrosecondsToMclks(1000, macro);
            && phasecal <= 37 && 4096000 - (macro + 1) / 2 <= phasecal * macro <= 4096000 + (macro + 1) / 2
            && MicrosecondsToMclks(1, macro) == 0
  {
    hide DecodeTimeout, EncodeTimeout, MacroPeriod, MicrosecondsToMclks, PllPeriod;
    PllProductFits(f);
    MacroPeriodExact(vcsel_period, f);
    var macro := MacroPeriod(vcsel_period, f);
    FixedTimings(macro);
    AcceptedFits(budget_us, macro);
    MclksRounded(RangeTimeout(budget_us), macro);
    var m := MicrosecondsToMclks(RangeTimeout(budget_us), macro);
    if m >= 1 { EncodeBest(m); } else { CodeOfZero(); }
  }

  lemma CodeOfZero()
    ensures EncodeTimeout(0) == 0 && DecodeTimeout(0) == 1
  {
  }

  function RangeCode(budget_us: u32, vcsel_period: byte, f: u16): u16
    requires budget_us > TIMING_GUARD && f != 0 && MacroPeriod(vcsel_period, f) != 0
  {
    EncodeTimeout(MicrosecondsToMclks(RangeTimeout(budget_us), MacroPeriod(vcsel_period, f)))
  }

  lemma MacroPeriodBound(vcsel_period: byte, f: u16)
    requires f != 0
    ensures MacroPeriod(vcsel_period, f) <= 0x3FF_FFFF
  {
  }

  lemma MclksMonotone(t: u32, u: u32, macro: u32)
    requires t <= u && macro != 0 && u * 4096 + macro / 2 < TWO32
    ensures MicrosecondsToMclks(t, macro) <= MicrosecondsToMclks(u, macro)
  {
    hide MicrosecondsToMclks;
    MclksRounded(t, macro);
    MclksRounded(u, macro);
    DividendOrder(t * 4096 + macro / 2, u * 4096 + macro / 2, macro);
  }

  /**
   * A larger accepted budget never lowers the range timeout register, for every period register
   * and every frequency that leave a divisor.
   */
  lemma RangeCodeMonotone(a: u32, b: u32, vcsel_period: byte, f: u16)
    requires Accepted(a) && Accepted(b) && a <= b && f != 0 && MacroPeriod(vcsel_period, f) != 0
    ensures RangeCode(a, vcsel_period, f) <= RangeCode(b, vcsel_period, f)
  {
    hide EncodeTimeout, MacroPeriod, MicrosecondsToMclks;
    MacroPeriodBound(vcsel_period, f);
    var macro := MacroPeriod(vcsel_period, f);
    AcceptedFits(b, macro);
    MclksMonotone(RangeTimeout(a), RangeTimeout(b), macro);
    EncodeMonotone(MicrosecondsToMclks(RangeTimeout(a), macro), MicrosecondsToMclks(RangeTimeout(b), macro));
  }

  lemma DividendOrder(m: nat, n: nat, d: nat)
    requires d >= 1 && m <= n
    ensures m / d <= n / d
  {
    DivBounds(m, d);
    DivBounds(n, d);
  }
}
