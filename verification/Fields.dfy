/** What one conversion of the formatter shows, in plain terms. */
module Fields {
  import opened CTypes
  import opened Digits
  import opened Format
  import opened Rendering

  /** t is body, padded by blanks behind it or by zeros or blanks in front of it. */
  ghost predicate Padded(t: seq<cchar>, body: seq<cchar>, n: nat, left: bool, zeros: bool) {
    && |t| == |body| + n
    && (left ==> t[..|body|] == body && forall i :: |body| <= i < |t| ==> t[i] == ' ')
    && (!left ==> t[n..] == body && forall i :: 0 <= i < n ==> t[i] == if zeros then '0' else ' ')
  }

  predicate IsLetter(c: cchar, conv: cchar) {
    || '0' <= c <= (if conv == 'b' then '1' else if conv == 'o' then '7' else '9')
    || (conv == 'x' && 'a' <= c <= 'f') || (conv == 'X' && 'A' <= c <= 'F')
  }

  /** The digits of n: lower case for x, upper case for X, no zero in front unless n is 0. */
  ghost predicate DigitsOf(s: seq<cchar>, conv: cchar, n: nat, exact: bool) {
    && 1 <= |s| <= 32
    && (forall c :: c in s ==> IsLetter(c, conv))
    && Horner(s, if conv == 'b' then 2 else if conv == 'o' then 8 else if conv in {'d', 'u'} then 10 else 16) == n
    && (exact && n > 0 ==> s[0] != '0') && (n == 0 && exact ==> s == ['0'])
  }

  /** The width a directive asks for: a star takes it from the argument at k, without its sign. */
  ghost predicate HasWidth(d: Directive, args: seq<Arg>, k: nat, w: int)
    requires d.Spec?
  {
    match d.width
    case Fixed(n) => w == n
    case FromArg =>
      k < |args| && args[k].Word? && w == if args[k].w >= 0x8000_0000 then 0x1_0000_0000 - args[k].w else args[k].w
  }

  /** Justified left by a minus sign in the format or by a negative argument for the width. */
  ghost predicate IsLeft(d: Directive, args: seq<Arg>, k: nat)
    requires d.Spec?
  {
    d.flag == Minus || (d.width.FromArg? && k < |args| && args[k].Word? && args[k].w >= 0x8000_0000)
  }

  /** Where the argument of the conversion itself is: behind those of the stars. */
  function Place(d: Directive, k: nat): nat
    requires d.Spec?
  {
    k + (if d.width.FromArg? then 1 else 0) + (if d.prec.LimitFromArg? then 1 else 0)
  }

  lemma {:induction false} NumeralLetters(v: nat, r: nat, conv: cchar, n: nat)
    requires conv in {'b', 'o', 'd', 'u', 'x', 'X'} && r == Radix(conv) && n >= 1
    ensures forall c :: c in Numeral(v, r, conv, n) ==> IsLetter(c, conv)
    decreases n
  {
    hide DigitChar, Front, Last, IsLetter;
    DigitLetter(Last(v, r), conv);
    if Front(v, r) != 0 && n > 1 { NumeralLetters(Front(v, r), r, conv, n - 1); }
  }

  lemma DigitLetter(d: nat, conv: cchar)
    requires conv in {'b', 'o', 'd', 'u', 'x', 'X'} && d < Radix(conv)
    ensures IsLetter(DigitChar(d, conv), conv)
  {
    var n := (if d > 9 then d + (if conv == 'x' then 0x27 else 0x07) else d) + '0' as int;
    assert n < 0x100 && DigitChar(d, conv) as int == n;
  }

  lemma WidthShown(d: Directive, args: seq<Arg>, k: nat)
    requires d.Spec? && Supplies(args, k, Takes(d))
    ensures HasWidth(d, args, k, WidthOf(d, args, k)) && LeftJustified(d, args, k) == IsLeft(d, args, k)
    ensures k + |Stars(d)| == Place(d, k)
  {
  }

  lemma FieldPadded(body: seq<cchar>, len: nat, w: nat, left: bool, zeros: bool)
    ensures Padded(Field(body, len, w, left, if zeros then '0' else ' '), body, Max(w - len, 0), left, zeros)
  {
  }

  /** Sign and magnitude of the argument of a numeric conversion, from its bits. */
  function SignOf(d: Directive, x: nat): seq<cchar>
    requires d.Spec?
  {
    if d.conv == 'd' && x >= (if d.size == LongLong then 0x8000_0000_0000_0000 else 0x8000_0000) then ['-'] else []
  }

  function MagnitudeOf(d: Directive, x: nat): int
    requires d.Spec?
  {
    if SignOf(d, x) != [] then (if d.size == LongLong then 0x1_0000_0000_0000_0000 else 0x1_0000_0000) - x
    else if d.conv == 'b' then x % 0x1_0000_0000
    else x
  }

  /**
   * Numbers: the argument is a word, with "ll" a double word. It is shown in two's complement
   * for d, unsigned otherwise, and modulo 2^32 for b, in the radix of the conversion, with a
   * minus sign if negative, padded to the width; the zero flag pads with zeros.
   */
  lemma NumberShown(d: Directive, args: seq<Arg>, k: nat)
    requires d.Spec? && d.conv in {'b', 'o', 'd', 'u', 'x', 'X'} && Supplies(args, k, Takes(d))
    ensures var j := Place(d, k);
            && j < |args| && (if d.size == LongLong then args[j].DWord? else args[j].Word?)
            && var x: nat := if d.size == LongLong then args[j].d else args[j].w;
            exists w: nat, digits ::
              && HasWidth(d, args, k, w)
              && DigitsOf(digits, d.conv, MagnitudeOf(d, x), d.conv != 'b' || x < 0x1_0000_0000)
              && var body := SignOf(d, x) + digits;
                 Padded(RenderOne(d, args, k), body, Max(w - |body|, 0), IsLeft(d, args, k), d.flag == Zero)
  {
    hide Supplies, RenderOne, NumberText, Field, Padded, HasWidth, IsLeft, Place, DigitsOf, LeftJustified, WidthOf;
    SuppliesLast(args, k, d);
    WidthShown(d, args, k);
    var j := Place(d, k);
    var x: nat := if d.size == LongLong then args[j].d else args[j].w;
    var v := NumberAt(d.size, d.conv, args, j);
    var text := NumberText(d.conv, v);
    NumberIs(d, args, j, x);
    RenderNumber(d, args, k, text);
    FieldPadded(text, |text|, WidthOf(d, args, k), LeftJustified(d, args, k), d.flag == Zero);
  }

  /** The text of the fetched number. */
  lemma NumberIs(d: Directive, args: seq<Arg>, j: nat, x: nat)
    requires d.Spec? && d.conv in {'b', 'o', 'd', 'u', 'x', 'X'}
    requires j < |args|
    requires if d.size == LongLong then args[j].DWord? && args[j].d == x else args[j].Word? && args[j].w == x
    ensures exists digits ::
              && DigitsOf(digits, d.conv, MagnitudeOf(d, x), d.conv != 'b' || x < 0x1_0000_0000)
              && NumberText(d.conv, NumberAt(d.size, d.conv, args, j)) == SignOf(d, x) + digits
  {
    hide Numeral, DigitsOf;
    var v := NumberAt(d.size, d.conv, args, j);
    var m := if v < 0 then -v else v;
    NumeralIs(d.conv, m);
    var digits := Numeral(m, Radix(d.conv), d.conv, 32);
    assert v < 0 <==> SignOf(d, x) != [];
    assert NumberText(d.conv, v) == SignOf(d, x) + digits;
  }

  lemma NumeralIs(conv: cchar, m: nat)
    requires conv in {'b', 'o', 'd', 'u', 'x', 'X'} && m < TWO64
    ensures DigitsOf(Numeral(m, Radix(conv), conv, 32), conv, if conv == 'b' then m % 0x1_0000_0000 else m,
                     conv != 'b' || m < 0x1_0000_0000)
  {
    hide Numeral, Horner;
    NumeralLetters(m, Radix(conv), conv, 32);
    if conv == 'b' {
      BinaryNumeral(m, conv);
      if m < TWO32 { NumeralExact(m, 2, conv); }
    } else {
      NumeralExact(m, Radix(conv), conv);
    }
  }

  lemma RenderNumber(d: Directive, args: seq<Arg>, k: nat, text: seq<cchar>)
    requires d.Spec? && IsNumeric(d.conv) && text == NumberText(d.conv, NumberAt(d.size, d.conv, args, k + |Stars(d)|))
    ensures RenderOne(d, args, k) ==
            Field(text, |text|, WidthOf(d, args, k), LeftJustified(d, args, k), if d.flag == Zero then '0' else ' ')
  {
  }

  /**
   * Strings: everything up to the precision, if there is one and it is not negative. The width
   * is reckoned from the whole string.
   */
  lemma StringShown(d: Directive, args: seq<Arg>, k: nat)
    requires d.Spec? && d.conv == 's' && Supplies(args, k, Takes(d))
    ensures var j := Place(d, k);
            && j < |args| && args[j].Str? && (d.prec.LimitFromArg? ==> args[j - 1].Word?)
            && var s := args[j].s[..|args[j].s| - 1];
            && var shown :=
              match d.prec
              case Unlimited => s
              case Limit(n) => if 0 <= n < |s| then s[..n] else s
              case LimitFromArg => if args[j - 1].w < Min(|s|, 0x8000_0000) then s[..args[j - 1].w] else s;
            exists w: nat ::
              && HasWidth(d, args, k, w)
              && Padded(RenderOne(d, args, k), shown, Max(w - |s|, 0), IsLeft(d, args, k), d.flag == Zero)
  {
    hide Supplies, Field, Padded, HasWidth, IsLeft, LeftJustified, WidthOf, RenderOne, ShownString, PrecisionOf;
    SuppliesLast(args, k, d);
    WidthShown(d, args, k);
    ShownIs(d, args, k);
    var j := Place(d, k);
    var shown := ShownString(args[j].s, PrecisionOf(d, args, k));
    RenderString(d, args, k, shown);
    FieldPadded(shown, |args[j].s| - 1, WidthOf(d, args, k), LeftJustified(d, args, k), d.flag == Zero);
  }

  lemma ShownIs(d: Directive, args: seq<Arg>, k: nat)
    requires d.Spec? && Place(d, k) < |args| && args[Place(d, k)].Str?
    requires d.prec.LimitFromArg? ==> args[Place(d, k) - 1].Word?
    ensures var j := Place(d, k);
            var s := args[j].s[..|args[j].s| - 1];
            ShownString(args[j].s, PrecisionOf(d, args, k)) ==
              match d.prec
              case Unlimited => s
              case Limit(n) => if 0 <= n < |s| then s[..n] else s
              case LimitFromArg => if args[j - 1].w < Min(|s|, 0x8000_0000) then s[..args[j - 1].w] else s
  {
  }

  lemma RenderString(d: Directive, args: seq<Arg>, k: nat, shown: seq<cchar>)
    requires d.Spec? && d.conv == 's' && shown == ShownString(StrAt(args, k + |Stars(d)|), PrecisionOf(d, args, k))
    ensures RenderOne(d, args, k) ==
            Field(shown, |StrAt(args, k + |Stars(d)|)| - 1, WidthOf(d, args, k), LeftJustified(d, args, k),
                  if d.flag == Zero then '0' else ' ')
  {
  }

  /** Characters show the low byte of their word; other conversions show themselves. */
  lemma CharacterShown(d: Directive, args: seq<Arg>, k: nat)
    requires Supplies(args, k, Takes(d))
    ensures d.Text? ==> RenderOne(d, args, k) == [d.c]
    ensures d.Spec? && d.conv == 'c' ==>
              && Place(d, k) < |args| && args[Place(d, k)].Word?
              && RenderOne(d, args, k) == [(args[Place(d, k)].w % 0x100) as char]
    ensures d.Spec? && d.conv !in {'b', 'o', 'd', 'u', 'x', 'X', 's', 'c', NUL} ==> RenderOne(d, args, k) == [d.conv]
    ensures d.Spec? && d.conv == NUL ==> RenderOne(d, args, k) == []
  {
    hide Supplies;
    if d.Spec? { SuppliesLast(args, k, d); }
  }

  /** Which arguments a directive takes: a word for every star, and the one for the conversion. */
  lemma ArgumentsTaken(d: Directive)
    ensures d.Text? ==> Takes(d) == []
    ensures d.Spec? ==>
              Takes(d) ==
              (if d.width.FromArg? then [AWord] else []) + (if d.prec.LimitFromArg? then [AWord] else [])
              + if d.conv in {'b', 'o', 'd', 'u', 'x', 'X'} then [if d.size == LongLong then ADWord else AWord]
                else if d.conv == 'c' then [AWord] else if d.conv == 's' then [AStr] else []
  {
  }
}
