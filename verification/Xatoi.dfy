/** The integer parser xatoi against a declarative reading of its token. */
module Xatoi {
  import opened CTypes
  import opened Digits
  import opened Format

  /** The first position from p on that is not a space. */
  function TokenStart(s: CString, p: nat): (b: nat)
    requires p < |s|
    ensures p <= b < |s| && s[b] != ' '
    ensures forall i :: p <= i < b ==> s[i] == ' '
    decreases |s| - p
  {
    if s[p] == ' ' then TokenStart(s, p + 1) else p
  }

  /** The first position from p on whose character is not above ' '. */
  function TokenEnd(s: CString, p: nat): (e: nat)
    requires p < |s|
    ensures p <= e < |s| && s[e] <= ' '
    ensures forall i :: p <= i < e ==> s[i] > ' '
    decreases |s| - p
  {
    if s[p] > ' ' then TokenEnd(s, p + 1) else p
  }

  /** The number an unsigned token denotes: decimal, 0x, 0b or octal behind a leading zero. */
  function Magnitude(t: seq<cchar>): Option<int> {
    if t == [] then None
    else if t == ['0'] then Some(0)
    else if t[0] != '0' then
      if AllDigits(t, 10) then Some(Horner(t, 10)) else None
    else if t[1] == 'x' then
      if AllDigits(t[2..], 16) then Some(Horner(t[2..], 16)) else None
    else if t[1] == 'b' then
      if AllDigits(t[2..], 2) then Some(Horner(t[2..], 2)) else None
    else
      if AllDigits(t[1..], 8) then Some(Horner(t[1..], 8)) else None
  }

  /** The 32-bit value a token denotes, with its sign applied. */
  function TokenValue(t: seq<cchar>): Option<i32> {
    if t != [] && t[0] == '-' then Signed(true, Magnitude(t[1..]))
    else Signed(false, Magnitude(t))
  }

  function Signed(negative: bool, m: Option<int>): Option<i32> {
    if m.None? then None else Some(ToI32(if negative then -m.value else m.value))
  }

  function Token(s: CString, p: nat): seq<cchar>
    requires p < |s|
  {
    var b := TokenStart(s, p);
    s[b..TokenEnd(s, b)]
  }

  /** Read the token at the cursor p0; the cursor never passes the terminator. */
  method Xatoi(s: CString, p0: nat) returns (ok: bool, res: i32, p: nat)
    requires p0 < |s|
    ensures ok <==> TokenValue(Token(s, p0)).Some?
    ensures ok ==> res == TokenValue(Token(s, p0)).value && p == TokenEnd(s, TokenStart(s, p0))
    ensures !ok ==> res == 0 && TokenStart(s, p0) <= p <= TokenEnd(s, TokenStart(s, p0))
  {
    hide Horner, CharDigit, Magnitude, AllDigits, ToI32;
    res, p := 0, p0;
    var c: byte := s[p] as int;
    while c == ' ' as int
      invariant p0 <= p < |s| && c == s[p] as int && TokenStart(s, p0) == TokenStart(s, p)
      decreases |s| - p
    {
      p := p + 1;
      c := s[p] as int;
    }
    ghost var b := p;
    ghost var e := TokenEnd(s, b);
    var negative := false;
    if c == '-' as int {
      negative := true;
      p := p + 1;
      c := s[p] as int;
    }
    ghost var u := p;
    assert b < u ==> s[b..e][1..] == s[u..e];
    assert TokenValue(Token(s, p0)) == Signed(negative, Magnitude(s[u..e]));
    var r: nat;
    ok, r, p := Prefix(s, p);
    if !ok || r == 0 { ZeroValue(); return; }
    ghost var d := p;
    var val: u32;
    ok, val, p := Digits32(s, p, r);
    if !ok { return; }
    SignWrap(Horner(s[d..e], r));
    if negative { val := ToU32(0 - val); }
    res := ToI32(val);
  }

  /** Radix selection: r is the radix of the digits at p, or 0 for a lone zero. */
  method Prefix(s: CString, p0: nat) returns (ok: bool, r: nat, p: nat)
    requires p0 < |s|
    ensures var e := TokenEnd(s, p0); var m := Magnitude(s[p0..e]);
            && p0 <= p <= e && TokenEnd(s, p) == e
            && (!ok ==> m == None)
            && (ok && r == 0 ==> m == Some(0) && p == e)
            && (ok && r != 0 ==> r in {2, 8, 10, 16})
            && (ok && r != 0 ==> m == if AllDigits(s[p..e], r) then Some(Horner(s[p..e], r)) else None)
  {
    hide Horner, CharDigit;
    r, p := 0, p0;
    var c: byte := s[p] as int;
    ghost var e := TokenEnd(s, p0);
    ghost var t := s[p0..e];
    ok := true;
    if c == '0' as int {
      p := p + 1;
      c := s[p] as int;
      assert s[p..e] == t[1..];
      if c == 'x' as int {
        r := 16;
        p := p + 1;
        c := s[p] as int;
        assert s[p..e] == t[2..];
      } else if c == 'b' as int {
        r := 2;
        p := p + 1;
        c := s[p] as int;
        assert s[p..e] == t[2..];
      } else {
        if c <= ' ' as int {
          assert t == ['0'];
          return;
        }
        if c < '0' as int || c > '9' as int {
          NotADigit(t[1..], 8);
          ok := false;
          return;
        }
        r := 8;
      }
    } else {
      if c < '0' as int || c > '9' as int {
        if t != [] { NotADigit(t, 10); }
        ok := false;
        return;
      }
      r := 10;
    }
  }

  lemma ZeroValue()
    ensures ToI32(0) == 0 && ToI32(-0) == 0
  {
  }

  /** Reducing to a register before the sign is applied does not matter. */
  lemma SignWrap(x: int)
    ensures ToI32(ToU32(x)) == ToI32(x)
    ensures ToI32(ToU32(0 - ToU32(x))) == ToI32(-x)
  {
    ModHorner(x, -1, 0, TWO32);
  }

  lemma NotADigit(t: seq<cchar>, r: nat)
    requires r in {8, 10} && t != [] && !IsDecimal(t[0])
    ensures !AllDigits(t, r)
  {
    DigitsAccepted(t[0], r);
  }

  /** The digit loop of xatoi: the value of the digits modulo 2^32, up to the end of the token. */
  method Digits32(s: CString, p0: nat, r: nat) returns (ok: bool, val: u32, p: nat)
    requires p0 < |s| && r in {2, 8, 10, 16}
    ensures var e := TokenEnd(s, p0);
            && ok == AllDigits(s[p0..e], r)
            && (ok ==> val == ToU32(Horner(s[p0..e], r)) && p == e)
            && p0 <= p <= e
  {
    hide Horner, ToU32, CharDigit;
    val, p := 0, p0;
    var c: byte := s[p] as int;
    ghost var e := TokenEnd(s, p0);
    assert s[p0..p] == [];
    HornerEmpty(r);
    while c > ' ' as int
      invariant p0 <= p <= e && c == s[p] as int && TokenEnd(s, p) == e
      invariant AllDigits(s[p0..p], r) && val == ToU32(Horner(s[p0..p], r))
      decreases |s| - p
    {
      c := DigitValue(s[p]);
      if c >= r {
        assert s[p0..e][p - p0] == s[p] && !IsDigit(s[p], r);
        ok := false;
        return;
      }
      assert s[p0..p + 1] == s[p0..p] + [s[p]];
      AppendDigit(s[p0..p], s[p], r);
      WordStep(Horner(s[p0..p], r), r, c);
      val := ToU32(val * r + c);
      p := p + 1;
      c := s[p] as int;
    }
    ok := true;
  }

  /** The value of a character as a digit. */
  method DigitValue(ch: cchar) returns (c: byte)
    ensures c == CharDigit(ch)
  {
    c := ch as int;
    if c >= 'a' as int { c := c - 0x20; }
    c := (c - '0' as int) % 0x100;
    if c >= 17 { c := c - 7; }  // 10 and up: the test for values up to 9 that follows here never fires
  }

  lemma WordStep(x: nat, r: nat, d: nat)
    ensures ToU32(ToU32(x) * r + d) == ToU32(x * r + d)
  {
    ModHorner(x, r, d, TWO32);
  }

  lemma HornerEmpty(r: nat)
    ensures Horner([], r) == 0 && ToU32(0) == 0
  {
  }

  // ---- What a token denotes ----

  /** A token's parts: a prefix of the radix, and the rest, which the prefix does not run into. */
  ghost predicate IsToken(negative: bool, prefix: seq<cchar>, digits: seq<cchar>) {
    && prefix in {[], ['0'], ['0', 'x'], ['0', 'b']}
    && (prefix == [] && digits != [] ==> digits[0] != '0' && (!negative ==> digits[0] != '-'))
    && (prefix == ['0'] && digits != [] ==> digits[0] !in {'x', 'b'})
  }

  function RadixOf(prefix: seq<cchar>): nat {
    if prefix == ['0', 'x'] then 16 else if prefix == ['0', 'b'] then 2 else if prefix == ['0'] then 8 else 10
  }

  /** Every text has such parts. */
  lemma TokenForms(t: seq<cchar>)
    ensures exists negative, prefix, digits ::
              IsToken(negative, prefix, digits) && t == (if negative then ['-'] else []) + prefix + digits
  {
    var negative := t != [] && t[0] == '-';
    var u := if negative then t[1..] else t;
    var prefix := if u == [] || u[0] != '0' then []
                  else if |u| >= 2 && u[1] in {'x', 'b'} then u[..2] else ['0'];
    assert |u| >= 2 ==> u[..2] == [u[0], u[1]];
    assert u == prefix + u[|prefix|..];
    assert IsToken(negative, prefix, u[|prefix|..]);
    assert t == (if negative then ['-'] else []) + prefix + u[|prefix|..];
  }

  /**
   * The sign, then 0x, 0b or 0 for radix 16, 2 or 8, else decimal with a digit at least: the
   * value in a signed 32-bit register. The characters from ':' to '?' count as digits of radix
   * 16, and so does nothing at all.
   */
  lemma TokenMeaning(negative: bool, prefix: seq<cchar>, digits: seq<cchar>)
    requires IsToken(negative, prefix, digits)
    ensures var r := RadixOf(prefix);
            var v := TokenValue((if negative then ['-'] else []) + prefix + digits);
            && (v.Some? <==>
                  && (prefix == [] ==> digits != [])
                  && forall i :: 0 <= i < |digits| ==>
                       || '0' as int <= digits[i] as int < '0' as int + r
                       || (r == 16 && ('A' <= digits[i] <= 'F' || 'a' <= digits[i] <= 'f')))
            && (v.Some? ==>
                  && -0x8000_0000 <= v.value < 0x8000_0000
                  && v.value % 0x1_0000_0000 ==
                     (if negative then 0 - Horner(digits, r) else Horner(digits, r)) % 0x1_0000_0000)
  {
    hide Horner, CharDigit, IsDigit, AllDigits, Magnitude, TokenValue, ToI32;
    var r := RadixOf(prefix);
    DigitsMeaning(digits, r);
    MagnitudeMeaning(prefix, digits, r);
    SignMeaning(negative, prefix, digits);
    SignedRest(if negative then 0 - Horner(digits, r) else Horner(digits, r));
  }

  lemma DigitsMeaning(digits: seq<cchar>, r: nat)
    requires r in {2, 8, 10, 16}
    ensures AllDigits(digits, r) <==>
              forall i :: 0 <= i < |digits| ==>
                || '0' as int <= digits[i] as int < '0' as int + r
                || (r == 16 && ('A' <= digits[i] <= 'F' || 'a' <= digits[i] <= 'f'))
  {
    hide CharDigit, IsDigit;
    forall i | 0 <= i < |digits|
      ensures IsDigit(digits[i], r) <==>
                || '0' as int <= digits[i] as int < '0' as int + r
                || (r == 16 && ('A' <= digits[i] <= 'F' || 'a' <= digits[i] <= 'f'))
    {
      DigitsAccepted(digits[i], r);
    }
  }

  lemma SignMeaning(negative: bool, prefix: seq<cchar>, digits: seq<cchar>)
    requires IsToken(negative, prefix, digits)
    ensures TokenValue((if negative then ['-'] else []) + prefix + digits) ==
            Signed(negative, Magnitude(prefix + digits))
  {
    hide Magnitude, Signed;
    var u := prefix + digits;
    var t := (if negative then ['-'] else []) + prefix + digits;
    assert if negative then t[0] == '-' && t[1..] == u else t == u;
  }

  lemma MagnitudeMeaning(prefix: seq<cchar>, digits: seq<cchar>, r: nat)
    requires prefix in {[], ['0'], ['0', 'x'], ['0', 'b']}
    requires r == RadixOf(prefix)
    requires prefix == [] && digits != [] ==> digits[0] != '0'
    requires prefix == ['0'] && digits != [] ==> digits[0] !in {'x', 'b'}
    ensures Magnitude(prefix + digits) ==
            if (prefix == [] && digits == []) || !AllDigits(digits, r) then None else Some(Horner(digits, r))
  {
    hide Horner, CharDigit, AllDigits;
    var t := prefix + digits;
    assert t[|prefix|..] == digits;
    if prefix == [] { assert t == digits; }
    if prefix == ['0'] && digits == [] {
      assert t == ['0'];
      HornerEmpty(8);
      NoDigits(8);
    }
  }

  lemma NoDigits(r: nat)
    ensures AllDigits([], r)
  {
  }

  // ---- Repeated calls ----

  /** The values that n successful calls in a row return, if all succeed, and the final cursor. */
  function ReadMany(s: CString, p: nat, n: nat): Option<(seq<i32>, nat)>
    requires p < |s|
    decreases n
  {
    if n == 0 then Some(([], p))
    else
      var v := TokenValue(Token(s, p));
      var rest := ReadMany(s, TokenEnd(s, TokenStart(s, p)), n - 1);
      if v.None? || rest.None? then None
      else Some(([v.value] + rest.value.0, rest.value.1))
  }
}
