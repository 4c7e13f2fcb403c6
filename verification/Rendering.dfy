/** What a format and its arguments mean: the text that xvfprintf has to produce. */
module Rendering {
  import opened CTypes
  import opened Digits
  import opened Format

  // One variadic argument: int, long and char travel as a word, long long as a double word.
  datatype Arg = Word(w: u32) | DWord(d: u64) | Str(s: CString)
  datatype Kind = AWord | ADWord | AStr

  function KindOf(a: Arg): Kind {
    match a case Word(_) => AWord case DWord(_) => ADWord case Str(_) => AStr
  }

  function Radix(conv: cchar): nat {
    match conv
    case 'b' => 2
    case 'o' => 8
    case 'd' => 10
    case 'u' => 10
    case 'x' => 16
    case 'X' => 16
    case _ => 0
  }

  predicate IsNumeric(conv: cchar) { Radix(conv) != 0 }

  function Stars(d: Directive): seq<Kind>
    requires d.Spec?
  {
    (if d.width.FromArg? then [AWord] else []) + (if d.prec.LimitFromArg? then [AWord] else [])
  }

  /** The argument types a directive fetches, in order. */
  function Takes(d: Directive): seq<Kind> {
    match d
    case Text(_) => []
    case Spec(_, _, _, size, conv) =>
      Stars(d) +
      if IsNumeric(conv) then [if size == LongLong then ADWord else AWord]
      else if conv == 'c' then [AWord]
      else if conv == 's' then [AStr]
      else []
  }

  function TakesAll(ds: seq<Directive>): seq<Kind> {
    if ds == [] then [] else Takes(ds[0]) + TakesAll(ds[1..])
  }

  /** The arguments from position k on have the given types, as C demands of the caller. */
  predicate Supplies(args: seq<Arg>, k: nat, kinds: seq<Kind>)
    decreases kinds
  {
    kinds == [] || (k < |args| && KindOf(args[k]) == kinds[0] && Supplies(args, k + 1, kinds[1..]))
  }

  lemma {:induction false} SuppliesSplit(args: seq<Arg>, k: nat, l: seq<Kind>, m: seq<Kind>)
    ensures Supplies(args, k, l + m) <==> Supplies(args, k, l) && Supplies(args, k + |l|, m)
    decreases |l|
  {
    if l == [] {
      assert l + m == m;
    } else {
      SuppliesSplit(args, k + 1, l[1..], m);
      assert (l + m)[1..] == l[1..] + m;
    }
  }

  lemma SuppliesLast(args: seq<Arg>, k: nat, d: Directive)
    requires d.Spec? && Supplies(args, k, Takes(d))
    ensures var j := k + |Stars(d)|;
            && (IsNumeric(d.conv) ==> j < |args| && if d.size == LongLong then args[j].DWord? else args[j].Word?)
            && (d.conv == 'c' ==> j < |args| && args[j].Word?)
            && (d.conv == 's' ==> j < |args| && args[j].Str?)
    ensures d.width.FromArg? ==> k < |args| && args[k].Word?
    ensures d.prec.LimitFromArg? ==> var j := if d.width.FromArg? then k + 1 else k; j < |args| && args[j].Word?
  {
    SuppliesSplit(args, k, Stars(d), Takes(d)[|Stars(d)|..]);
    assert Stars(d) + Takes(d)[|Stars(d)|..] == Takes(d);
  }

  // Fetching an argument; what C leaves undefined reads as 0 or the empty string here, and
  // the formatter is only ever called where Supplies rules that out.
  function WordAt(args: seq<Arg>, k: nat): u32 {
    if k < |args| && args[k].Word? then args[k].w else 0
  }

  function DWordAt(args: seq<Arg>, k: nat): u64 {
    if k < |args| && args[k].DWord? then args[k].d else 0
  }

  function StrAt(args: seq<Arg>, k: nat): CString {
    if k < |args| && args[k].Str? then args[k].s else [NUL]
  }

  // A width taken from a negative argument means left justification.
  function WidthOf(d: Directive, args: seq<Arg>, k: nat): u32
    requires d.Spec?
  {
    match d.width
    case Fixed(w) => w
    case FromArg => var n: int := ToI32(WordAt(args, k)); if n < 0 then -n else n
  }

  predicate LeftJustified(d: Directive, args: seq<Arg>, k: nat)
    requires d.Spec?
  {
    d.flag == Minus || (d.width.FromArg? && ToI32(WordAt(args, k)) < 0)
  }

  function PrecisionOf(d: Directive, args: seq<Arg>, k: nat): i32
    requires d.Spec?
  {
    match d.prec
    case Unlimited => -1
    case Limit(p) => p
    case LimitFromArg => ToI32(WordAt(args, if d.width.FromArg? then k + 1 else k))
  }

  function PadOf(d: Directive): cchar
    requires d.Spec?
  {
    if d.flag == Zero then '0' else ' '
  }

  /** body, counted as len characters, justified in a field of w. */
  function Field(body: seq<cchar>, len: nat, w: nat, left: bool, pad: cchar): seq<cchar> {
    if left then body + Repeat(' ', Max(w - len, 0)) else Repeat(pad, Max(w - len, 0)) + body
  }

  /** The integer shown: signed for 'd', unsigned otherwise. */
  function NumberAt(size: Size, conv: cchar, args: seq<Arg>, k: nat): int {
    if size == LongLong then
      if conv == 'd' then ToI64(DWordAt(args, k)) else DWordAt(args, k)
    else
      if conv == 'd' then ToI32(WordAt(args, k)) else WordAt(args, k)
  }

  function NumberText(conv: cchar, v: int): seq<cchar>
    requires IsNumeric(conv)
  {
    (if v < 0 then ['-'] else []) + Numeral(if v < 0 then -v else v, Radix(conv), conv, 32)
  }

  function ShownString(s: CString, prec: i32): seq<cchar> {
    if prec < 0 then s[..|s| - 1] else s[..Min(prec, |s| - 1)]
  }

  /** The text of one directive whose arguments start at position k. */
  function RenderOne(d: Directive, args: seq<Arg>, k: nat): seq<cchar> {
    match d
    case Text(c) => [c]
    case Spec(_, _, _, size, conv) =>
      var w, left, pad := WidthOf(d, args, k), LeftJustified(d, args, k), PadOf(d);
      var j := k + |Stars(d)|;
      if conv == NUL then []
      else if conv == 'c' then [ToChar(WordAt(args, j))]
      else if conv == 's' then
        Field(ShownString(StrAt(args, j), PrecisionOf(d, args, k)), |StrAt(args, j)| - 1, w, left, pad)
      else if IsNumeric(conv) then
        var text := NumberText(conv, NumberAt(size, conv, args, j));
        Field(text, |text|, w, left, pad)
      else [conv]
  }

  function Render(ds: seq<Directive>, args: seq<Arg>, k: nat): seq<cchar> {
    if ds == [] then []
    else RenderOne(ds[0], args, k) + Render(ds[1..], args, k + |Takes(ds[0])|)
  }

  /** Line ends: every '\n' goes out as "\r\n". */
  function ExpandChar(c: cchar): seq<cchar> {
    if c == '\n' then ['\r', '\n'] else [c]
  }

  function Expand(s: seq<cchar>): seq<cchar> {
    if s == [] then [] else ExpandChar(s[0]) + Expand(s[1..])
  }

  /** Undo Expand: drop one '\r' in front of every '\n'. */
  function Contract(s: seq<cchar>): seq<cchar> {
    if s == [] then []
    else if s[0] == '\r' && |s| > 1 && s[1] == '\n' then Contract(s[1..])
    else [s[0]] + Contract(s[1..])
  }

  // ---- Properties ----

  lemma {:induction false} ExpandConcat(s: seq<cchar>, t: seq<cchar>)
    ensures Expand(s + t) == Expand(s) + Expand(t)
  {
    if s == [] {
      assert s + t == t;
    } else {
      ExpandConcat(s[1..], t);
      assert (s + t)[0] == s[0] && (s + t)[1..] == s[1..] + t;
      Regroup(ExpandChar(s[0]), Expand(s[1..]), Expand(t));
    }
  }

  lemma {:induction false} ExpandPlain(s: seq<cchar>)
    requires '\n' !in s
    ensures Expand(s) == s
  {
    if s != [] {
      ExpandPlain(s[1..]);
      assert s == [s[0]] + s[1..];
    }
  }

  /** A line feed goes out behind a carriage return. */
  lemma ExpandLineFeed()
    ensures Expand(['\n']) == ['\r', '\n']
  {
    assert Expand(['\n']) == ['\r', '\n'] + [];
  }

  /** A format without a percent sign is put out as it is, up to its terminator. */
  lemma {:induction false} PlainFormat(s: CString, q: nat, args: seq<Arg>, k: nat)
    requires q < |s| && forall i :: q <= i < |s| ==> s[i] != '%'
    ensures Render(Directives(s, q), args, k) == s[q..|s| - 1]
    decreases |s| - q
  {
    hide Directives, Render, RenderOne, Takes;
    if q < |s| - 1 {
      TextStep(s, q, s[q]);
      PlainFormat(s, q + 1, args, k);
      RenderText(s[q], Directives(s, q + 1), args, k);
      assert s[q..|s| - 1] == [s[q]] + s[q + 1..|s| - 1];
    } else {
      DirectivesEnd(s, q);
      RenderNone(args, k);
    }
  }

  lemma RenderText(c: cchar, ds: seq<Directive>, args: seq<Arg>, k: nat)
    ensures Render([Text(c)] + ds, args, k) == [c] + Render(ds, args, k)
  {
    hide Render;
    RenderCons(Text(c), ds, args, k);
  }

  /** No character is lost: the original text can be recovered from the expanded one. */
  lemma {:induction false} ContractExpand(s: seq<cchar>)
    ensures Contract(Expand(s)) == s
  {
    hide Contract;
    if s != [] {
      var c, e := s[0], Expand(s[1..]);
      ContractExpand(s[1..]);
      assert s == [c] + s[1..];
      if c == '\n' {
        assert ['\r', '\n'] + e == ['\r'] + (['\n'] + e);
        ContractCons('\r', ['\n'] + e);
      } else if e != [] {
        assert e[0] != '\n';  // the expansion of the rest does not begin with a bare line feed
      }
      ContractCons(if c == '\n' then '\n' else c, e);
    } else {
      ContractCons('\r', []);
    }
  }

  lemma ContractCons(c: cchar, s: seq<cchar>)
    ensures Contract([c] + s) == if c == '\r' && s != [] && s[0] == '\n' then Contract(s) else [c] + Contract(s)
    ensures Contract([]) == []
  {
    assert ([c] + s)[1..] == s;
  }

  /** In the expanded text every '\n' stands right behind a '\r'. */
  lemma {:induction false} ExpandLineEnds(s: seq<cchar>, i: nat)
    requires i < |Expand(s)| && Expand(s)[i] == '\n'
    ensures i > 0 && Expand(s)[i - 1] == '\r'
  {
    var h := if s[0] == '\n' then 2 else 1;
    if i >= h { ExpandLineEnds(s[1..], i - h); }
  }

  lemma {:induction false} TakesConcat(ds: seq<Directive>, es: seq<Directive>)
    ensures TakesAll(ds + es) == TakesAll(ds) + TakesAll(es)
  {
    hide Takes;
    if ds == [] {
      assert ds + es == es;
    } else {
      TakesConcat(ds[1..], es);
      assert (ds + es)[0] == ds[0] && (ds + es)[1..] == ds[1..] + es;
      Regroup(Takes(ds[0]), TakesAll(ds[1..]), TakesAll(es));
    }
  }

  /**
   * Formats compose: the text of ds followed by es is the text of ds on its arguments followed
   * by the text of es on the arguments that are left, consumed in order.
   */
  lemma {:induction false} RenderConcat(ds: seq<Directive>, es: seq<Directive>, args: seq<Arg>, k: nat)
    ensures Render(ds + es, args, k) == Render(ds, args, k) + Render(es, args, k + |TakesAll(ds)|)
  {
    hide RenderOne, Takes, Render, TakesAll;
    if ds == [] {
      RenderNone(args, k);
      assert ds + es == es && [] + Render(es, args, k) == Render(es, args, k);
    } else {
      var d, rest := ds[0], ds[1..];
      var l := k + |Takes(d)|;
      assert ds == [d] + rest && ds + es == [d] + (rest + es);
      RenderCons(d, rest, args, k);
      RenderCons(d, rest + es, args, k);
      RenderConcat(rest, es, args, l);
      Regroup(RenderOne(d, args, k), Render(rest, args, l), Render(es, args, l + |TakesAll(rest)|));
    }
  }

  lemma RenderNone(args: seq<Arg>, k: nat)
    ensures Render([], args, k) == [] && TakesAll([]) == []
  {
  }

  lemma RenderCons(d: Directive, ds: seq<Directive>, args: seq<Arg>, k: nat)
    ensures Render([d] + ds, args, k) == RenderOne(d, args, k) + Render(ds, args, k + |Takes(d)|)
    ensures TakesAll([d] + ds) == Takes(d) + TakesAll(ds)
  {
    hide RenderOne, Takes;
    assert ([d] + ds)[1..] == ds;
  }

  /** A number is shown with the sign and the digits of its value. */
  lemma NumberTextShowsValue(conv: cchar, v: int)
    requires IsNumeric(conv)
    requires if conv == 'd' then -TWO63 <= v < TWO63 else 0 <= v < TWO64
    ensures var r, text := Radix(conv), NumberText(conv, v);
            var digits := if v < 0 then text[1..] else text;
            && (if v < 0 then 2 else 1) <= |text| <= 32
            && (v < 0 ==> text[0] == '-')
            && digits != [] && AllDigits(digits, r)
            && (v < 0 ==> v + Horner(digits, r) == 0)
            && (v >= 0 && r != 2 ==> v == Horner(digits, r))
            && (r == 2 ==> Horner(digits, 2) == v % TWO32)
            && (r != 2 && v != 0 ==> digits[0] != '0')
            && (v == 0 ==> digits == ['0'])
  {
    if v < 0 {
      DecimalLength(-v);
      NumeralExact(-v, 10, conv);
      assert NumberText(conv, v)[1..] == Numeral(-v, 10, conv, 32);
    } else {
      assert NumberText(conv, v) == Numeral(v, Radix(conv), conv, 32);
      if Radix(conv) == 2 {
        BinaryNumeral(v, conv);
      } else {
        NumeralExact(v, Radix(conv), conv);
      }
    }
  }

  lemma BinaryNumeral(v: nat, conv: cchar)
    ensures AllDigits(Numeral(v, 2, conv, 32), 2)
    ensures Horner(Numeral(v, 2, conv, 32), 2) == v % TWO32
    ensures v == 0 ==> Numeral(v, 2, conv, 32) == ['0']
  {
    BufferFits();
    NumeralValue(v, 2, conv, 32);
    if v == 0 { NumeralMinimal(0, 2, conv, 32); }
  }

  /** Numbers fill their field exactly: the width is a minimum and never truncates. */
  lemma NumericFieldLength(d: Directive, args: seq<Arg>, k: nat)
    requires d.Spec? && IsNumeric(d.conv)
    ensures |RenderOne(d, args, k)| ==
              Max(WidthOf(d, args, k), |NumberText(d.conv, NumberAt(d.size, d.conv, args, k + |Stars(d)|))|)
  {
  }

  /**
   * Strings are padded by their full length even when the precision cuts them, so the field
   * has the usual length exactly when nothing is cut or the shown part already fills it.
   */
  lemma StringFieldLength(d: Directive, args: seq<Arg>, k: nat)
    requires d.Spec? && d.conv == 's'
    ensures var s := StrAt(args, k + |Stars(d)|); var w := WidthOf(d, args, k);
            var shown := ShownString(s, PrecisionOf(d, args, k));
            |RenderOne(d, args, k)| == Max(w, |shown|) <==> |shown| == |s| - 1 || w <= |shown|
  {
  }

  /** Zero padding goes in front of the sign: "%06d" shows -12 as "000-12". */
  lemma ZeroPadBeforeSign()
    ensures RenderOne(Spec(Zero, Fixed(6), Unlimited, Int, 'd'), [Word(0xFFFF_FFF4)], 0)
            == ['0', '0', '0', '-', '1', '2']
  {
    assert Front(12, 10) == 1 && Last(12, 10) == 2 && Front(1, 10) == 0 && Last(1, 10) == 1;
    assert Numeral(12, 10, 'd', 32) == Numeral(1, 10, 'd', 31) + ['2'];
  }

  /** The string examples in the formatter's documentation, as RenderOne(flag, width, precision). */
  lemma DocumentedStrings()
    ensures var abc, long := ['a', 'b', 'c', NUL], ['a', 'b', 'c', 'd', 'e', 'f', 'g', NUL];
            && ShowString(NoFlag, 5, Unlimited, abc) == [' ', ' ', 'a', 'b', 'c']
            && ShowString(Minus, 5, Unlimited, abc) == ['a', 'b', 'c', ' ', ' ']
            && ShowString(Minus, 5, Unlimited, long) == long[..7]
            && ShowString(Minus, 5, Limit(5), long) == long[..5]
            && ShowString(Minus, 0, Limit(5), long) == long[..5]
            && ShowString(Minus, 5, Limit(5), abc) == ['a', 'b', 'c', ' ', ' ']
  {
  }

  function ShowString(flag: Flag, width: u32, prec: Precision, s: CString): seq<cchar> {
    RenderOne(Spec(flag, Fixed(width), prec, Int, 's'), [Str(s)], 0)
  }

  function ShowNumber(flag: Flag, width: u32, conv: cchar, v: u32): seq<cchar> {
    RenderOne(Spec(flag, Fixed(width), Unlimited, Int, conv), [Word(v)], 0)
  }

  /** Its number examples "%6d" of -200 and "%-6u" of 100 ... */
  lemma DocumentedDecimals()
    ensures ShowNumber(NoFlag, 6, 'd', 0xFFFF_FF38) == [' ', ' ', '-', '2', '0', '0']
    ensures ShowNumber(Minus, 6, 'u', 100) == ['1', '0', '0', ' ', ' ', ' ']
  {
    hide Numeral;
    HundredsNumeral(2, 'd');
    HundredsNumeral(1, 'u');
  }

  lemma HundredsNumeral(d: nat, conv: cchar)
    requires 1 <= d <= 9
    ensures Numeral(100 * d, 10, conv, 32) == [DigitChar(d, conv), '0', '0']
  {
    hide Front, Last;
    LastUnique(100 * d, 10, 10 * d, 0);
    LastUnique(10 * d, 10, d, 0);
    LastUnique(d, 10, 0, d);
    assert Numeral(10 * d, 10, conv, 31) == Numeral(d, 10, conv, 30) + ['0'];
  }

  /** ... and "%04x" of 0xA3. */
  lemma DocumentedHex()
    ensures ShowNumber(Zero, 4, 'x', 0xA3) == ['0', '0', 'a', '3']
  {
    LastUnique(0xA3, 16, 10, 3);
    LastUnique(10, 16, 0, 10);
    assert Numeral(0xA3, 16, 'x', 32) == Numeral(10, 16, 'x', 31) + ['3'];
  }
}
