/** The format-directive grammar of xvfprintf. */
module Format {
  import opened CTypes
  import opened Digits

  datatype Flag = NoFlag | Zero | Minus
  datatype Width = Fixed(w: u32) | FromArg
  datatype Precision = Unlimited | Limit(p: i32) | LimitFromArg
  datatype Size = Int | Long | LongLong

  // Spec with conv == NUL is a directive cut off by the end of the format.
  datatype Directive =
    | Text(c: cchar)
    | Spec(flag: Flag, width: Width, prec: Precision, size: Size, conv: cchar)

  predicate IsDecimal(c: cchar) { '0' <= c <= '9' }

  /** The first position from q on that does not hold a decimal digit. */
  function DecimalEnd(s: CString, q: nat): (e: nat)
    requires q < |s|
    ensures q <= e < |s| && !IsDecimal(s[e])
    ensures forall i :: q <= i < e ==> IsDecimal(s[i])
    decreases |s| - q
  {
    if IsDecimal(s[q]) then DecimalEnd(s, q + 1) else q
  }

  function DecimalAt(s: CString, q: nat): nat
    requires q < |s|
  {
    Horner(s[q..DecimalEnd(s, q)], 10)
  }

  // Each scanner returns what it read and the position of the next unread character.
  function ScanFlag(s: CString, q: nat): (Flag, nat)
    requires q < |s|
  {
    if s[q] == '0' then (Zero, q + 1)
    else if s[q] == '-' then (Minus, q + 1)
    else (NoFlag, q)
  }

  function ScanWidth(s: CString, q: nat): (Width, nat)
    requires q < |s|
  {
    if s[q] == '*' then (FromArg, q + 1)
    else (Fixed(ToU32(DecimalAt(s, q))), DecimalEnd(s, q))
  }

  function ScanPrecision(s: CString, q: nat): (Precision, nat)
    requires q < |s|
  {
    if s[q] != '.' then (Unlimited, q)
    else if s[q + 1] == '*' then (LimitFromArg, q + 2)
    else (Limit(ToI32(DecimalAt(s, q + 1))), DecimalEnd(s, q + 1))
  }

  function ScanSize(s: CString, q: nat): (Size, nat)
    requires q < |s|
  {
    if s[q] != 'l' then (Int, q)
    else if s[q + 1] != 'l' then (Long, q + 1)
    else (LongLong, q + 2)
  }

  /** The directive whose first character after '%' is at q, and the position of its conversion. */
  function ScanSpec(s: CString, q: nat): (r: (Directive, nat))
    requires q < |s|
    ensures q <= r.1 < |s| && r.0.Spec? && r.0.conv == s[r.1]
  {
    var (flag, q1) := ScanFlag(s, q);
    var (width, q2) := ScanWidth(s, q1);
    var (prec, q3) := ScanPrecision(s, q2);
    var (size, q4) := ScanSize(s, q3);
    (Spec(flag, width, prec, size, s[q4]), q4)
  }

  /** The directives of the format from position q to its end. */
  function Directives(s: CString, q: nat): (ds: seq<Directive>)
    requires q < |s|
    decreases |s| - q
  {
    if s[q] == NUL then []
    else if s[q] != '%' then [Text(s[q])] + Directives(s, q + 1)
    else
      var (d, e) := ScanSpec(s, q + 1);
      if d.conv == NUL then [d] else [d] + Directives(s, e + 1)
  }

  // ---- Writing directives back as format text ----

  /** Directives that have a spelling of their own. */
  ghost predicate Spellable(d: Directive) {
    match d
    case Text(c) => c != '%' && c != NUL
    case Spec(flag, width, prec, size, conv) =>
      && conv != NUL && !IsDecimal(conv) && conv !in {'*', '.', '-', 'l'}
      && (prec.Limit? ==> prec.p >= 0)
  }

  function SpellNumber(n: nat): seq<cchar> {
    if n == 0 then [] else Numeral(n, 10, 'd', 32)
  }

  function SpellFlag(f: Flag): seq<cchar> {
    match f case NoFlag => [] case Zero => ['0'] case Minus => ['-']
  }

  function SpellWidth(w: Width): seq<cchar> {
    match w case FromArg => ['*'] case Fixed(n) => SpellNumber(n)
  }

  function SpellPrecision(p: Precision): seq<cchar> {
    match p
    case Unlimited => []
    case LimitFromArg => ['.', '*']
    case Limit(n) => ['.'] + SpellNumber(Max(n, 0))
  }

  function SpellSize(z: Size): seq<cchar> {
    match z case Int => [] case Long => ['l'] case LongLong => ['l', 'l']
  }

  function Spell(d: Directive): (t: seq<cchar>)
    ensures |t| >= 1
  {
    match d
    case Text(c) => [c]
    case Spec(flag, width, prec, size, conv) =>
      ['%'] + SpellFlag(flag) + SpellWidth(width) + SpellPrecision(prec) + SpellSize(size) + [conv]
  }

  function SpellAll(ds: seq<Directive>): seq<cchar> {
    if ds == [] then [] else Spell(ds[0]) + SpellAll(ds[1..])
  }

  /** s carries t from position q on. */
  ghost predicate At(s: seq<cchar>, q: nat, t: seq<cchar>) {
    q + |t| <= |s| && s[q..q + |t|] == t
  }

  lemma AtSplit(s: seq<cchar>, q: nat, t: seq<cchar>, u: seq<cchar>)
    requires At(s, q, t + u)
    ensures At(s, q, t) && At(s, q + |t|, u)
  {
    assert s[q..q + |t|] == (t + u)[..|t|];
    assert s[q + |t|..q + |t| + |u|] == (t + u)[|t|..];
  }

  lemma AtIndex(s: seq<cchar>, q: nat, t: seq<cchar>, i: nat)
    requires At(s, q, t) && i < |t|
    ensures q + i < |s| && s[q + i] == t[i]
  {
    assert s[q..q + |t|][i] == t[i];
  }

  lemma {:induction false} DecimalEndIs(s: CString, q: nat, e: nat)
    requires q <= e < |s| && !IsDecimal(s[e])
    requires forall i :: q <= i < e ==> IsDecimal(s[i])
    ensures DecimalEnd(s, q) == e
    decreases e - q
  {
    if q < e { DecimalEndIs(s, q + 1, e); }
  }

  lemma AllDecimal(t: seq<cchar>)
    requires AllDigits(t, 10)
    ensures forall i :: 0 <= i < |t| ==> IsDecimal(t[i])
  {
    forall i | 0 <= i < |t| ensures IsDecimal(t[i]) { DigitsAccepted(t[i], 10); }
  }

  lemma HornerOfNothing()
    ensures Horner([], 10) == 0
  {
  }

  // ---- What a directive's text means ----

  ghost predicate IsDecimals(t: seq<cchar>) { forall i :: 0 <= i < |t| ==> IsDecimal(t[i]) }

  // No character that could belong to the flag, width, precision or size in front of it.
  ghost predicate IsConversion(c: cchar) { !IsDecimal(c) && c !in {'*', '.', '-', 'l'} }

  lemma NumberReads(s: CString, q: nat, t: seq<cchar>)
    requires IsDecimals(t) && At(s, q, t) && q + |t| < |s| && !IsDecimal(s[q + |t|])
    ensures DecimalEnd(s, q) == q + |t| && DecimalAt(s, q) == Horner(t, 10)
    ensures if t == [] then !IsDecimal(s[q]) else s[q] == t[0]
  {
    hide Horner;
    forall i | q <= i < q + |t| ensures IsDecimal(s[i]) { AtIndex(s, q, t, i - q); }
    DecimalEndIs(s, q, q + |t|);
    if t != [] { AtIndex(s, q, t, 0); }
  }

  lemma SizeReads(s: CString, q: nat, z: seq<cchar>)
    requires z in {[], ['l'], ['l', 'l']} && At(s, q, z) && q + |z| < |s| && IsConversion(s[q + |z|])
    ensures ScanSize(s, q) == (if z == [] then Int else if z == ['l'] then Long else LongLong, q + |z|)
    ensures s[q] == 'l' || IsConversion(s[q])
  {
    hide At;
    if z != [] { AtIndex(s, q, z, 0); }
    if |z| == 2 { AtIndex(s, q, z, 1); }
  }

  lemma PrecisionReads(s: CString, q: nat, p: seq<cchar>)
    requires p == [] || p == ['.', '*'] || (p[0] == '.' && IsDecimals(p[1..]))
    requires At(s, q, p) && q + |p| < |s| && (s[q + |p|] == 'l' || IsConversion(s[q + |p|]))
    ensures ScanPrecision(s, q) ==
            (if p == [] then Unlimited else if p == ['.', '*'] then LimitFromArg else Limit(ToI32(Horner(p[1..], 10))),
             q + |p|)
    ensures s[q] in {'.', 'l'} || IsConversion(s[q])
  {
    hide At, IsDecimals, DecimalAt, DecimalEnd, Horner;
    if p != [] { AtIndex(s, q, p, 0); }
    if p == ['.', '*'] {
      AtIndex(s, q, p, 1);
    } else if p != [] {
      assert p == ['.'] + p[1..];
      AtSplit(s, q, ['.'], p[1..]);
      NumberReads(s, q + 1, p[1..]);
      StarNoDecimal(p[1..]);
    }
  }

  lemma StarNoDecimal(t: seq<cchar>)
    requires IsDecimals(t)
    ensures t != [] ==> t[0] !in {'*', '-'}
  {
  }

  lemma WidthReads(s: CString, q: nat, w: seq<cchar>)
    requires w == ['*'] || IsDecimals(w)
    requires At(s, q, w) && q + |w| < |s| && (s[q + |w|] in {'.', 'l'} || IsConversion(s[q + |w|]))
    ensures ScanWidth(s, q) == (if w == ['*'] then FromArg else Fixed(ToU32(Horner(w, 10))), q + |w|)
    ensures s[q] != '-' && (w == [] || w[0] != '0' ==> s[q] != '0')
  {
    hide At, IsDecimals, DecimalAt, DecimalEnd, Horner;
    if w == ['*'] {
      AtIndex(s, q, w, 0);
    } else {
      NumberReads(s, q, w);
      StarNoDecimal(w);
    }
  }

  lemma FlagReads(s: CString, q: nat, f: seq<cchar>)
    requires f in {[], ['0'], ['-']} && At(s, q, f) && q + |f| < |s| && (f == [] ==> s[q] !in {'0', '-'})
    ensures ScanFlag(s, q) == (if f == ['0'] then Zero else if f == ['-'] then Minus else NoFlag, q + |f|)
  {
    hide At;
    if f != [] { AtIndex(s, q, f, 0); }
  }

  /**
   * Reading a directive from its text: '%', a flag 0 or -, a width or star, a precision or star
   * behind a point, l or ll, and the conversion character, at which it stops. The numbers are
   * decimal, in 32-bit registers.
   */
  lemma SpecReads(s: CString, q: nat, f: seq<cchar>, w: seq<cchar>, p: seq<cchar>, z: seq<cchar>, c: cchar)
    requires At(s, q, ['%'] + f + w + p + z + [c]) && IsConversion(c)
    requires f in {[], ['0'], ['-']} && z in {[], ['l'], ['l', 'l']}
    requires (w == ['*'] || IsDecimals(w)) && (f == [] && w != [] ==> w[0] != '0')
    requires p == [] || p == ['.', '*'] || (p[0] == '.' && IsDecimals(p[1..]))
    ensures q + 1 < |s| && s[q] == '%'
    ensures var (d, e) := ScanSpec(s, q + 1);
            && d.Spec? && d.conv == c && e == q + 1 + |f| + |w| + |p| + |z|
            && d.flag == (if f == ['0'] then Zero else if f == ['-'] then Minus else NoFlag)
            && d.width == (if w == ['*'] then FromArg else Fixed(Horner(w, 10) % 0x1_0000_0000))
            && d.size == (if z == [] then Int else if z == ['l'] then Long else LongLong)
            && (p == [] ==> d.prec == Unlimited) && (p == ['.', '*'] ==> d.prec == LimitFromArg)
            && (p != [] && p != ['.', '*'] ==>
                  && d.prec.Limit? && -0x8000_0000 <= d.prec.p < 0x8000_0000
                  && d.prec.p % 0x1_0000_0000 == Horner(p[1..], 10) % 0x1_0000_0000)
  {
    hide At, IsDecimals, IsConversion, ScanFlag, ScanWidth, ScanPrecision, ScanSize, Horner, ToI32;
    var q2 := q + 1 + |f|;
    var q3 := q2 + |w|;
    var q4 := q3 + |p|;
    AtParts(s, q, f, w, p, z, c);
    SizeReads(s, q4, z);
    PrecisionReads(s, q3, p);
    WidthReads(s, q2, w);
    FlagReads(s, q + 1, f);
    if p != [] { SignedRest(Horner(p[1..], 10)); }
  }

  lemma SignedRest(n: int)
    ensures ToI32(n) % TWO32 == n % TWO32
  {
  }

  /** The digits of a number are decimal, the first one is not 0, and they evaluate to it. */
  lemma SpelledNumber(n: nat)
    requires n < TWO32
    ensures IsDecimals(SpellNumber(n)) && Horner(SpellNumber(n), 10) == n
    ensures SpellNumber(n) != [] ==> SpellNumber(n)[0] != '0'
  {
    hide Horner, Numeral;
    HornerOfNothing();
    if n > 0 {
      NumeralExact(n, 10, 'd');
      AllDecimal(SpellNumber(n));
    }
  }

  /** Reading a spelled directive gives that directive and stops at its conversion character. */
  lemma ScanSpelled(s: CString, q: nat, d: Directive)
    requires d.Spec? && Spellable(d) && At(s, q, Spell(d))
    ensures q + 1 < |s| && s[q] == '%'
    ensures ScanSpec(s, q + 1) == (d, q + |Spell(d)| - 1)
  {
    hide At, SpellNumber, IsDecimals, ScanSpec, Horner;
    var w, p := SpellWidth(d.width), SpellPrecision(d.prec);
    if d.width.Fixed? {
      SpelledNumber(d.width.w);
      StarNoDecimal(w);
    }
    if d.prec.Limit? {
      SpelledNumber(d.prec.p);
      StarNoDecimal(p[1..]);
    }
    SpecReads(s, q, SpellFlag(d.flag), w, p, SpellSize(d.size), d.conv);
  }

  lemma AtParts(s: seq<cchar>, q: nat, f: seq<cchar>, w: seq<cchar>, p: seq<cchar>, z: seq<cchar>, c: cchar)
    requires At(s, q, ['%'] + f + w + p + z + [c])
    ensures var q2 := q + 1 + |f|; var q3 := q2 + |w|; var q4 := q3 + |p|; var q5 := q4 + |z|;
            && At(s, q + 1, f) && At(s, q2, w) && At(s, q3, p) && At(s, q4, z)
            && q5 < |s| && s[q5] == c && s[q] == '%'
  {
    hide At;
    var h1 := ['%'] + f;
    var h2 := h1 + w;
    var h3 := h2 + p;
    var h4 := h3 + z;
    AtSplit(s, q, h4, [c]);
    AtSplit(s, q, h3, z);
    AtSplit(s, q, h2, p);
    AtSplit(s, q, h1, w);
    AtSplit(s, q, ['%'], f);
    AtIndex(s, q, ['%'], 0);
    AtIndex(s, q + |h4|, [c], 0);
  }

  /** Parsing inverts spelling: any list of spellable directives is recovered from its text. */
  lemma {:induction false} DirectivesOfSpelling(s: CString, q: nat, ds: seq<Directive>)
    requires forall i :: 0 <= i < |ds| ==> Spellable(ds[i])
    requires q < |s| && s[q..] == SpellAll(ds) + [NUL]
    ensures Directives(s, q) == ds
    decreases |ds|
  {
    hide Spell, Directives, At;
    if ds == [] {
      assert s[q..][0] == NUL;
      DirectivesEnd(s, q);
    } else {
      var t := Spell(ds[0]);
      TextSplit(s, q, t, SpellAll(ds[1..]));
      DirectivesOfSpelling(s, q + |t|, ds[1..]);
      DirectivesStep(s, q, ds[0]);
    }
  }

  lemma DirectivesEnd(s: CString, q: nat)
    requires q < |s| && s[q] == NUL
    ensures Directives(s, q) == []
  {
  }

  lemma DirectivesStep(s: CString, q: nat, d: Directive)
    requires Spellable(d) && At(s, q, Spell(d)) && q + |Spell(d)| < |s|
    ensures Directives(s, q) == [d] + Directives(s, q + |Spell(d)|)
  {
    hide Directives, ScanSpec, At;
    if d.Spec? {
      ScanSpelled(s, q, d);
      SpecStep(s, q, d, q + |Spell(d)| - 1);
    } else {
      TextStep(s, q, d.c);
    }
  }

  lemma TextStep(s: CString, q: nat, c: cchar)
    requires c != NUL && c != '%' && At(s, q, [c]) && q + 1 < |s|
    ensures Directives(s, q) == [Text(c)] + Directives(s, q + 1)
  {
    hide ScanSpec;
    assert s[q..q + 1][0] == c;
  }

  lemma SpecStep(s: CString, q: nat, d: Directive, e: nat)
    requires q + 1 < |s| && s[q] == '%' && ScanSpec(s, q + 1) == (d, e)
    requires d.Spec? && q < e && e + 1 < |s|
    ensures Directives(s, q) == [d] + Directives(s, e + 1)
  {
    hide ScanSpec;
  }

  lemma TextSplit(s: seq<cchar>, q: nat, t: seq<cchar>, u: seq<cchar>)
    requires q < |s| && s[q..] == t + u + [NUL] && t != []
    ensures At(s, q, t) && q + |t| < |s| && s[q + |t|..] == u + [NUL] && s[q] == t[0]
  {
    assert s[q..][..|t|] == s[q..q + |t|];
    assert (t + u + [NUL])[..|t|] == t;
    assert s[q..][|t|..] == s[q + |t|..];
    assert (t + u + [NUL])[|t|..] == u + [NUL];
    assert s[q..][0] == t[0];
  }

  lemma {:induction false} SpellAllPlain(ds: seq<Directive>)
    requires forall i :: 0 <= i < |ds| ==> Spellable(ds[i])
    ensures NUL !in SpellAll(ds)
  {
    if ds != [] {
      SpellAllPlain(ds[1..]);
      SpellPlain(ds[0]);
    }
  }

  lemma NumberPlain(n: nat)
    ensures NUL !in SpellNumber(n)
  {
    if n > 0 { NumeralValue(n, 10, 'd', 32); }
  }

  lemma SpellPlain(d: Directive)
    requires Spellable(d)
    ensures NUL !in Spell(d)
  {
    if d.Spec? {
      if d.width.Fixed? { NumberPlain(d.width.w); }
      if d.prec.Limit? { NumberPlain(d.prec.p); }
    }
  }

  /** The format string that spells ds. */
  function FormatOf(ds: seq<Directive>): (s: CString)
    requires forall i :: 0 <= i < |ds| ==> Spellable(ds[i])
    ensures Directives(s, 0) == ds
  {
    SpellAllPlain(ds);
    var s := SpellAll(ds) + [NUL];
    assert s[0..] == s;
    DirectivesOfSpelling(s, 0, ds);
    s
  }
}
