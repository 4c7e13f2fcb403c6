/** Result processing: the SPAD selection control law and the range correction. */
module Dss {
  import opened CTypes
  import opened Digits
  import opened Timing

  const TARGET_RATE: u16 := 0x0A00
  const MID_POINT: u16 := 0x8000

  function ClippedRate(peak: u16, ambient: u16): u16 { Min(peak + ambient, 0xFFFF) }

  /** The rate per SPAD in 16.16 format; every step in a 32-bit register. */
  function RatePerSpad(spads: u16, peak: u16, ambient: u16): u32
    requires spads != 0
  {
    var total: u32 := peak + ambient;
    var clipped: u32 := if total > 0xFFFF then 0xFFFF else total;
    Quotient(ToU32(clipped * 0x1_0000), spads)
  }

  predicate Fallback(spads: u16, peak: u16, ambient: u16) {
    spads == 0 || RatePerSpad(spads, peak, ambient) == 0
  }

  /** The number of SPADs to ask for. */
  function RequiredSpads(spads: u16, peak: u16, ambient: u16): u16 {
    if Fallback(spads, peak, ambient) then MID_POINT
    else
      var required: u32 := Quotient(ToU32(TARGET_RATE * 0x1_0000), RatePerSpad(spads, peak, ambient));
      if required > 0xFFFF then 0xFFFF else required
  }

  lemma RateBounds(spads: u16, peak: u16, ambient: u16)
    requires spads != 0
    ensures var r := ClippedRate(peak, ambient); var t := RatePerSpad(spads, peak, ambient);
            && r * 0x1_0000 < TWO32
            && spads * t <= r * 0x1_0000 < spads * (t + 1)
  {
    var r: int := ClippedRate(peak, ambient);
    NoWrap(r * 0x1_0000);
    DivBounds(r * 0x1_0000, spads);
  }

  /** The fallback is taken exactly when there is nothing to divide by. */
  lemma FallbackExactly(spads: u16, peak: u16, ambient: u16)
    ensures Fallback(spads, peak, ambient) <==> spads == 0 || peak + ambient == 0
  {
    hide RatePerSpad;
    if spads != 0 {
      RateBounds(spads, peak, ambient);
      var r, t := ClippedRate(peak, ambient), RatePerSpad(spads, peak, ambient);
      if t == 0 { assert spads * (t + 1) == spads; }
      if r == 0 && t > 0 { ProductBound(1, 1, spads, t); }
    }
  }

  /**
   * The target is met from above with a bounded overshoot: v SPADs at the measured rate reach
   * the target rate (or the register is at its limit), and hardly more.
   */
  lemma TargetMet(spads: u16, peak: u16, ambient: u16)
    requires !Fallback(spads, peak, ambient)
    ensures var r, v := ClippedRate(peak, ambient), RequiredSpads(spads, peak, ambient);
            && r > 0
            && peak + ambient < TWO32 && r * 0x1_0000 < TWO32 && TARGET_RATE * 0x1_0000 < TWO32
            && v >= Min(0xFFFF, TARGET_RATE * spads / r)
            && v * (r * 0x1_0000 - spads) <= TARGET_RATE * 0x1_0000 * spads
  {
    hide RatePerSpad, Fallback, Quotient;
    FallbackExactly(spads, peak, ambient);
    RateBounds(spads, peak, ambient);
    var r, t := ClippedRate(peak, ambient), RatePerSpad(spads, peak, ambient);
    var q := Quotient(TARGET_RATE * 0x1_0000, t);
    assert t * q <= TARGET_RATE * 0x1_0000 < t * (q + 1) by {
      QuotientIs(TARGET_RATE * 0x1_0000, t);
    }
    var v := RequiredSpads(spads, peak, ambient);
    assert v == Min(q, 0xFFFF);
    EnoughSpads(spads, r, t, q);
    Overshoot(spads, r, t, q, v);
  }

  /**
   * The control law without its divisions: t is the clipped rate shifted by 16 bits for each
   * SPAD, rounded down, and the value the target rate shifted likewise over t, rounded down and
   * clipped; without SPADs or light it is the middle of the range.
   */
  lemma ControlExactly(spads: u16, peak: u16, ambient: u16)
    ensures var v := RequiredSpads(spads, peak, ambient);
            if spads == 0 || peak + ambient == 0 then v == 0x8000
            else exists t: nat ::
              && spads * t <= 0x1_0000 * Min(peak + ambient, 0xFFFF) < spads * (t + 1)
              && (if v < 0xFFFF then t * v <= 0x0A00_0000 < t * (v + 1) else v == 0xFFFF && t * v <= 0x0A00_0000)
  {
    hide RatePerSpad, Quotient;
    FallbackExactly(spads, peak, ambient);
    if spads != 0 && peak + ambient != 0 {
      RateBounds(spads, peak, ambient);
      var t := RatePerSpad(spads, peak, ambient);
      var q := Quotient(TARGET_RATE * 0x1_0000, t);
      QuotientIs(TARGET_RATE * 0x1_0000, t);
      var v := RequiredSpads(spads, peak, ambient);
      assert v == Min(q, 0xFFFF);
      ProductBound(t, v, t, q);
    }
  }

  lemma EnoughSpads(s: nat, r: nat, t: nat, q: nat)
    requires r > 0 && t > 0 && s * t <= r * 0x1_0000 && 0x0A00_0000 < t * (q + 1)
    ensures q >= 0x0A00 * s / r
  {
    var w := 0x0A00 * s / r;
    DivBounds(0x0A00 * s, r);
    if w >= q + 1 {
      // r*w*t <= 0xA00*s*t <= 0xA00*r*65536 < r*t*(q+1)
      assert r * w * t <= 0x0A00 * s * t by { ProductBound(r * w, t, 0x0A00 * s, t); }
      assert 0x0A00 * s * t == 0x0A00 * (s * t);
      ProductBound(t, q + 1, t, w);
      assert r * (t * w) == r * w * t;
      StrictProduct(r, 0x0A00_0000, t * w);
    }
  }

  lemma StrictProduct(r: nat, a: nat, b: nat)
    requires r > 0 && a < b
    ensures r * a < r * b
  {
  }

  lemma Overshoot(s: nat, r: nat, t: nat, q: nat, v: nat)
    requires r * 0x1_0000 < s * (t + 1) && t * q <= 0x0A00_0000 && v <= q
    ensures v * (r * 0x1_0000 - s) <= 0x0A00_0000 * s
  {
    var e := r * 0x1_0000 - s;
    assert e < s * t by { assert s * (t + 1) == s * t + s; }
    if e > 0 {
      ProductBound(v, e, q, s * t);
      assert q * (s * t) == (t * q) * s;
      ProductBound(t * q, s, 0x0A00_0000, s);
    } else {
      assert v * e <= 0 by { assert v * -e >= 0; }
    }
  }

  /** More light never asks for more SPADs, more SPADs in use never for fewer. */
  lemma ControlMonotone(s1: u16, p1: u16, a1: u16, s2: u16, p2: u16, a2: u16)
    requires !Fallback(s1, p1, a1) && !Fallback(s2, p2, a2)
    requires s1 <= s2 && p2 + a2 <= p1 + a1
    ensures RequiredSpads(s1, p1, a1) <= RequiredSpads(s2, p2, a2)
  {
    var r1: int, r2: int := ClippedRate(p1, a1), ClippedRate(p2, a2);
    NoWrap(r1 * 0x1_0000);
    NoWrap(r2 * 0x1_0000);
    DividendOrder(r2 * 0x1_0000, r1 * 0x1_0000, s2);
    DivisorOrder(r1 * 0x1_0000, s1, s2);
    DivisorOrder(0x0A00_0000, RatePerSpad(s2, p2, a2), RatePerSpad(s1, p1, a1));
  }

  // ---- Range correction ----

  /** The corrected range in millimetres: the raw range times 2011/2048, rounded. */
  function CorrectedRange(raw: u16): u16 {
    ToU16(Quotient(ToU32(ToU32(raw * 2011) + 0x400), 0x800))
  }

  /** Nothing is truncated, the rounding is to the nearest, and the order of ranges is kept. */
  lemma CorrectionExact(raw: u16, other: u16)
    ensures var mm := CorrectedRange(raw);
            && raw * 2011 - 0x400 < mm * 0x800 <= raw * 2011 + 0x400
            && mm <= raw
    ensures raw <= other ==> CorrectedRange(raw) <= CorrectedRange(other)
  {
    CorrectionPlain(raw);
    CorrectionPlain(other);
  }

  lemma CorrectionPlain(raw: u16)
    ensures CorrectedRange(raw) == (raw * 2011 + 0x400) / 0x800
  {
    NoWrap(raw * 2011);
    NoWrap(raw * 2011 + 0x400);
  }
}
