/** Machine types of the ilp32 target and C strings. */
module CTypes {

  datatype Option<T> = None | Some(value: T)

  const TWO16: int := 0x1_0000
  const TWO32: int := 0x1_0000_0000
  const TWO63: int := 0x8000_0000_0000_0000
  const TWO64: int := 0x1_0000_0000_0000_0000

  type byte = x: int | 0 <= x < 0x100
  type u16 = x: int | 0 <= x < TWO16
  type u32 = x: int | 0 <= x < TWO32
  type u64 = x: int | 0 <= x < TWO64
  type i32 = x: int | -0x8000_0000 <= x < 0x8000_0000
  type i64 = x: int | -TWO63 <= x < TWO63

  // One C `char`; on this target plain char is unsigned.
  type cchar = c: char | c as int < 0x100 witness 'D'

  const NUL: cchar := '\0'

  // Conversions wrap around, as two's complement machine registers do.
  function ToU16(x: int): u16 { x % TWO16 }
  function ToU32(x: int): u32 { x % TWO32 }
  function ToU64(x: int): u64 { x % TWO64 }
  function ToI32(x: int): i32 { var m := x % TWO32; if m < 0x8000_0000 then m else m - TWO32 }
  function ToI64(x: int): i64 { var m := x % TWO64; if m < TWO63 then m else m - TWO64 }
  function ToChar(x: int): cchar { (x % 0x100) as char }

  // A C string together with its terminator: the only NUL is the last element, so an
  // index within the sequence is exactly a read that does not pass the terminator.
  ghost predicate IsCString(s: seq<cchar>) {
    && |s| > 0
    && s[|s| - 1] == NUL
    && forall i :: 0 <= i < |s| - 1 ==> s[i] != NUL
  }

  type CString = s: seq<cchar> | IsCString(s) witness [NUL]

  function Repeat(c: cchar, n: nat): (s: seq<cchar>)
    ensures |s| == n
    ensures forall i :: 0 <= i < n ==> s[i] == c
  {
    seq(n, i => c)
  }

  lemma Regroup<T>(a: seq<T>, b: seq<T>, c: seq<T>)
    ensures (a + b) + c == a + (b + c)
  {
  }

  function Max(a: int, b: int): int { if a < b then b else a }
  function Min(a: int, b: int): int { if a < b then a else b }

  /** Reducing before a multiply-add does not change the reduced result. */
  lemma ModHorner(x: int, r: int, d: int, m: int)
    requires m > 0
    ensures ((x % m) * r + d) % m == (x * r + d) % m
  {
    var q := x / m;
    assert x * r + d == (x % m) * r + d + m * (q * r) by {
      assert x == m * q + x % m;
      assert x * r == (m * q + x % m) * r == m * (q * r) + (x % m) * r;
    }
    ModShift((x % m) * r + d, q * r, m);
  }

  lemma ModShift(a: int, k: int, m: int)
    requires m > 0
    ensures (a + m * k) % m == a % m
  {
    var q, r := a / m, a % m;
    DivModUnique(a + m * k, m, q + k, r);
  }

  /** Quotient and remainder are determined by n == d*q + r and 0 <= r < d. */
  lemma DivModUnique(n: int, d: int, q: int, r: int)
    requires d > 0 && 0 <= r < d && n == d * q + r
    ensures n / d == q && n % d == r
  {
    MulGap(d, q, n / d, n % d - r);
  }

  /** A multiple of d strictly between -d and d is 0. */
  lemma MulGap(d: int, a: int, b: int, e: int)
    requires d > 0 && d * a - d * b == e && -d < e < d
    ensures a == b
  {
    if a > b {
      MulStep(d, a, b);
    } else if a < b {
      MulStep(d, b, a);
    }
  }

  lemma MulStep(d: int, a: int, b: int)
    requires d > 0 && a > b
    ensures d * a >= d * b + d
  {
    var k := a - b - 1;
    assert d * k >= 0;
    assert d * (b + (k + 1)) == d * b + (d * k + d);
  }
}
