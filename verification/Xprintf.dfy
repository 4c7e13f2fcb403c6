/** The formatted-output routines over an output device and a memory destination. */
module Xprintf {
  import opened CTypes
  import opened Digits
  import opened Format
  import opened Rendering

  // What the output routines can change: the bytes handed to the device so far, the memory
  // and the destination pointer into it (a negative pointer stands for the null pointer).
  datatype Sink = Sink(sent: seq<cchar>, mem: seq<cchar>, strptr: int)

  /** The sink after the bytes s went to the device, to memory, or nowhere. */
  ghost function Put(k: Sink, device: bool, s: seq<cchar>): Sink
    requires Fits(k, device, |s|)
  {
    if device then k.(sent := k.sent + s)
    else if k.strptr < 0 then k
    else k.(mem := k.mem[..k.strptr] + s + k.mem[k.strptr + |s|..], strptr := k.strptr + |s|)
  }

  /** C demands that the caller's buffer is large enough. */
  ghost predicate Fits(k: Sink, device: bool, n: nat) {
    device || k.strptr < 0 || k.strptr + n <= |k.mem|
  }

  lemma PutPut(k: Sink, device: bool, s: seq<cchar>, t: seq<cchar>)
    requires Fits(k, device, |s + t|)
    ensures Fits(Put(k, device, s), device, |t|)
    ensures Put(Put(k, device, s), device, t) == Put(k, device, s + t)
  {
    if device {
      assert (k.sent + s) + t == k.sent + (s + t);
    } else if k.strptr >= 0 {
      Splice(k.mem, k.strptr, s, t);
    }
  }

  lemma Splice(m: seq<cchar>, p: nat, s: seq<cchar>, t: seq<cchar>)
    requires p + |s| + |t| <= |m|
    ensures var n := m[..p] + s + m[p + |s|..];
            n[..p + |s|] + t + n[p + |s| + |t|..] == m[..p] + (s + t) + m[p + |s + t|..]
  {
    var n := m[..p] + s + m[p + |s|..];
    assert n[..p + |s|] == m[..p] + s;
    assert n[p + |s| + |t|..] == m[p + |s| + |t|..];
  }

  /** Where bytes go: behind those already sent, or over the memory at the destination pointer. */
  lemma PutMeans(k: Sink, device: bool, s: seq<cchar>)
    requires Fits(k, device, |s|)
    ensures var n := Put(k, device, s);
            && (device ==> n.sent == k.sent + s && n.mem == k.mem && n.strptr == k.strptr)
            && (!device ==> n.sent == k.sent)
            && (!device && k.strptr >= 0 ==>
                  && n.mem == k.mem[..k.strptr] + s + k.mem[k.strptr + |s|..] && n.strptr == k.strptr + |s|)
            && (!device && k.strptr < 0 ==> n == k)
  {
  }

  lemma PutNothing(k: Sink, device: bool)
    requires Fits(k, device, 0)
    ensures Put(k, device, []) == k
  {
    if !device && k.strptr >= 0 { assert k.mem[..k.strptr] + [] + k.mem[k.strptr..] == k.mem; }
  }

  class Console {
    var sent: seq<cchar>        // bytes written to the output device
    const mem: array<cchar>     // memory that strings can be printed into
    var strptr: int             // index into mem, negative for the null pointer

    constructor (m: array<cchar>)
      ensures sent == [] && mem == m && strptr == -1
    {
      sent := [];
      mem := m;
      strptr := -1;
    }

    ghost function State(): Sink
      reads this, mem
    {
      Sink(sent, mem[..], strptr)
    }

    /** Hand one byte to the device, to memory, or to nobody. */
    method Emit(device: bool, chr: cchar)
      requires Fits(State(), device, 1)
      modifies this, mem
      ensures State() == Put(old(State()), device, [chr])
      ensures device ==> sent == old(sent) + [chr] && mem[..] == old(mem[..]) && strptr == old(strptr)
      ensures !device && strptr >= 0 ==>
                && sent == old(sent) && strptr == old(strptr) + 1
                && mem[..] == old(mem[..])[old(strptr) := chr]
      ensures !device && strptr < 0 ==> sent == old(sent) && mem[..] == old(mem[..]) && strptr == old(strptr)
    {
      if device {
        sent := sent + [chr];
      } else if strptr >= 0 {
        mem[strptr] := chr;
        strptr := strptr + 1;
      }
    }

    /** Put a character; a line feed is preceded by a carriage return. */
    method Xfputc(device: bool, chr: cchar)
      requires Fits(State(), device, |ExpandChar(chr)|)
      modifies this, mem
      ensures State() == Put(old(State()), device, ExpandChar(chr))
      decreases chr == '\n'
    {
      hide Put;
      if chr == '\n' {
        PutPut(State(), device, ['\r'], ['\n']);
        assert ['\r'] + ['\n'] == ExpandChar(chr);
        Xfputc(device, '\r');
      }
      Emit(device, chr);
    }

    /** Put a null-terminated string. */
    method Xfputs(device: bool, str: CString)
      requires Fits(State(), device, |Expand(str[..|str| - 1])|)
      modifies this, mem
      ensures State() == Put(old(State()), device, Expand(str[..|str| - 1]))
    {
      hide Put, Expand;
      var p := 0;
      PutNothing(State(), device);
      ExpandNothing();
      assert str[..0] == [];
      while str[p] != NUL
        invariant 0 <= p < |str|
        invariant Fits(old(State()), device, |Expand(str[..p])|)
        invariant State() == Put(old(State()), device, Expand(str[..p]))
        decreases |str| - p
      {
        assert str[..|str| - 1] == str[..p] + [str[p]] + str[p + 1..|str| - 1];
        assert str[..p] + [str[p]] == str[..p + 1];
        PutNext(old(State()), device, str[..p], [str[p]], str[p + 1..|str| - 1]);
        ExpandSingle(str[p]);
        Xfputc(device, str[p]);
        p := p + 1;
      }
    }

    /** The padding loops: count from `from` up to `to`, one character each. */
    method Pad(device: bool, c: cchar, from: nat, to: nat)
      requires c != '\n' && Fits(State(), device, Max(to - from, 0))
      modifies this, mem
      ensures State() == Put(old(State()), device, Repeat(c, Max(to - from, 0)))
    {
      hide Put;
      var j := from;
      PutNothing(State(), device);
      assert Repeat(c, 0) == [];
      while j < to
        invariant from <= j <= Max(to, from)
        invariant State() == Put(old(State()), device, Repeat(c, j - from))
      {
        PutPut(old(State()), device, Repeat(c, j - from), [c]);
        assert Repeat(c, j - from) + [c] == Repeat(c, j + 1 - from);
        Xfputc(device, c);
        j := j + 1;
      }
    }

    /** Put the buffer's first i characters, last one first. */
    method PutReversed(device: bool, str: array<cchar>, i: nat)
      requires 1 <= i <= str.Length && str != mem && '\n' !in str[..i]
      requires Fits(State(), device, i)
      modifies this, mem
      ensures State() == Put(old(State()), device, Reverse(str[..i]))
    {
      hide Put, Reverse;
      var k, more := i, true;
      PutNothing(State(), device);
      while more
        invariant 0 <= k <= i && (more ==> k > 0) && (!more ==> k == 0)
        invariant str[..] == old(str[..])
        invariant State() == Put(old(State()), device, Reverse(str[k..i]))
        decreases k, more
      {
        k := k - 1;
        assert str[k..i] == [str[k]] + str[k + 1..i];
        ReverseCons(str[k], str[k + 1..i]);
        PutPut(old(State()), device, Reverse(str[k + 1..i]), [str[k]]);
        assert str[k] in str[..i];
        Xfputc(device, str[k]);
        more := k != 0;
      }
    }

    /** The numeral part of the formatter: fill the digit buffer backwards, pad, and put it out. */
    method PutNumber(device: bool, conv: cchar, r: nat, v: i64, left: bool, w: u32, pad: cchar)
      requires IsNumeric(conv) && r == Radix(conv) && pad != '\n'
      requires Fits(State(), device, |NumberField(conv, v, w, left, pad)|)
      modifies this, mem
      ensures State() == Put(old(State()), device, NumberField(conv, v, w, left, pad))
    {
      hide Put, Reverse, Numeral, Field, NumberText;
      var negative := false;
      var v1 := v;
      if conv == 'd' && v < 0 {
        v1 := ToI64(0 - v);
        negative := true;
      }
      var str, i := Digitize(ToU64(v1), r, conv);
      ghost var digits := str[..i];
      if negative {
        ghost var magnitude: int := v;
        DecimalLength(-magnitude);
        str[i] := '-';
        i := i + 1;
        assert str[..i] == digits + ['-'];
      }
      ghost var text := NumberText(conv, Shown(conv, v));
      TextInBuffer(conv, v, str[..i]);
      FieldParts(text, i, w, left, pad);
      PutThree(State(), device, Repeat(pad, if left then 0 else Max(w - i, 0)), text,
               Repeat(' ', if left then Max(w - i, 0) else 0));
      var j := i;
      if !left {
        Pad(device, pad, j, w);
        j := Max(j, w);
      } else {
        PutNothing(State(), device);
      }
      PutReversed(device, str, i);
      if j < w {
        Pad(device, ' ', j, w);
      } else {
        PutNothing(State(), device);
      }
    }

    /** The string conversion: the padding counts the whole string, the precision cuts it. */
    method PutString(device: bool, s: CString, prec: i32, left: bool, w: u32, pad: cchar)
      requires pad != '\n'
      requires Fits(State(), device, |Expand(Field(ShownString(s, prec), |s| - 1, w, left, pad))|)
      modifies this, mem
      ensures State() == Put(old(State()), device, Expand(Field(ShownString(s, prec), |s| - 1, w, left, pad)))
    {
      hide Put, Expand, Field;
      var j := |s| - 1;
      ghost var gap := Max(w - j, 0);
      ghost var shown := ShownString(s, prec);
      ExpandField(shown, j, w, left, pad);
      PutThree(State(), device, Repeat(pad, if left then 0 else gap), Expand(shown),
               Repeat(' ', if left then gap else 0));
      if !left {
        Pad(device, pad, j, w);
        j := Max(j, w);
      } else {
        PutNothing(State(), device);
      }
      PutShown(device, s, prec);
      if j < w {
        Pad(device, ' ', j, w);
      } else {
        PutNothing(State(), device);
      }
    }

    method PutShown(device: bool, s: CString, prec: i32)
      requires Fits(State(), device, |Expand(ShownString(s, prec))|)
      modifies this, mem
      ensures State() == Put(old(State()), device, Expand(ShownString(s, prec)))
    {
      hide Put;
      ghost var shown := ShownString(s, prec);
      var p, left: int := 0, prec;
      PutNothing(State(), device);
      while s[p] != NUL && left != 0
        invariant 0 <= p <= |shown| && left == prec - p
        invariant Fits(old(State()), device, |Expand(s[..p])|)
        invariant State() == Put(old(State()), device, Expand(s[..p]))
        decreases |s| - p
      {
        assert shown == s[..p] + [s[p]] + shown[p + 1..];
        assert s[..p] + [s[p]] == s[..p + 1];
        PutNext(old(State()), device, s[..p], [s[p]], shown[p + 1..]);
        ExpandSingle(s[p]);
        Xfputc(device, s[p]);
        p := p + 1;
        left := left - 1;
      }
      assert s[..p] == shown;
    }

    /** One conversion, after its directive has been read. */
    method Convert(device: bool, ghost d: Directive, conv: cchar, size: Size, prec: i32, left: bool, w: u32,
                   pad: cchar, args: seq<Arg>, ghost k: nat, arp: nat) returns (arp': nat)
      requires d.Spec? && d.conv == conv != NUL && d.size == size && arp == k + |Stars(d)|
      requires w == WidthOf(d, args, k) && left == LeftJustified(d, args, k)
      requires prec == PrecisionOf(d, args, k) && pad == PadOf(d)
      requires Supplies(args, k, Takes(d))
      requires Fits(State(), device, |Expand(RenderOne(d, args, k))|)
      modifies this, mem
      ensures State() == Put(old(State()), device, Expand(RenderOne(d, args, k)))
      ensures arp' == k + |Takes(d)|
    {
      hide Put, Field, NumberText, Expand, Supplies, ShownString, Stars, WidthOf, LeftJustified, PrecisionOf;
      SuppliesLast(args, k, d);
      arp' := arp + 1;
      var r: nat;
      match conv {
        case 'b' => r := 2;
        case 'o' => r := 8;
        case 'd' => r := 10;
        case 'u' => r := 10;
        case 'x' => r := 16;
        case 'X' => r := 16;
        case 'c' =>
          ExpandSingle(ToChar(args[arp].w));
          Xfputc(device, ToChar(args[arp].w));
          return;
        case 's' =>
          PutString(device, args[arp].s, prec, left, w, pad);
          return;
        case _ =>
          ExpandSingle(conv);
          Xfputc(device, conv);
          arp' := arp;
          return;
      }
      var v: i64;
      if size == LongLong {
        v := ToI64(args[arp].d);
      } else if conv == 'd' {
        v := ToI32(args[arp].w);
      } else {
        v := args[arp].w;
      }
      assert Shown(conv, v) == NumberAt(size, conv, args, arp);
      NumberFieldPlain(conv, v, w, left, pad);
      PutNumber(device, conv, r, v, left, w, pad);
    }

    /** The formatter: walk the format, fetch arguments in order, put everything out. */
    method Xvfprintf(device: bool, fmt: CString, args: seq<Arg>)
      requires Supplies(args, 0, TakesAll(Directives(fmt, 0)))
      requires Fits(State(), device, |Expand(Render(Directives(fmt, 0), args, 0))|)
      modifies this, mem
      ensures State() == Put(old(State()), device, Expand(Render(Directives(fmt, 0), args, 0)))
    {
      hide Put, Expand, Render, RenderOne, Takes, TakesAll, ScanSpec, Supplies, Directives;
      var p, arp := 0, 0;
      ghost var all, done := Render(Directives(fmt, 0), args, 0), [];
      PutNothing(State(), device);
      ExpandNothing();
      while true
        invariant p < |fmt| && all == done + Render(Directives(fmt, p), args, arp)
        invariant Supplies(args, arp, TakesAll(Directives(fmt, p)))
        invariant Fits(old(State()), device, |Expand(done)|)
        invariant State() == Put(old(State()), device, Expand(done))
        decreases |fmt| - p
      {
        var c := fmt[p];
        ghost var q, k := p, arp;
        if c == NUL {
          FormatEnd(fmt, p, args, arp);
          assert all == done + [];
          break;
        }
        p := p + 1;
        if c != '%' {
          FormatStep(fmt, q, args, k, Text(c), p);
          ghost var rest := Render(Directives(fmt, p), args, arp);
          assert all == done + [c] + rest;
          PutNext(old(State()), device, done, [c], rest);
          ExpandSingle(c);
          Xfputc(device, c);
          done := done + [c];
          continue;
        }
        ghost var d, e := ScanSpec(fmt, p).0, ScanSpec(fmt, p).1;
        FormatStep(fmt, q, args, k, d, e + 1);
        var pad, left, w, prec, size;
        pad, left, w, prec, size, c, p, arp := ReadDirective(fmt, p, args, arp);
        if c == NUL { assert all == done + []; break; }
        ghost var rest := Render(Directives(fmt, p), args, k + |Takes(d)|);
        assert all == done + RenderOne(d, args, k) + rest;
        PutNext(old(State()), device, done, RenderOne(d, args, k), rest);
        arp := Convert(device, d, c, size, prec, left, w, pad, args, k, arp);
        done := done + RenderOne(d, args, k);
      }
      assert all == done;
    }

    /** Print into memory: enable the memory destination, format, terminate, disable it. */
    method Xsprintf(buff: nat, fmt: CString, args: seq<Arg>)
      requires Supplies(args, 0, TakesAll(Directives(fmt, 0)))
      requires buff + |Expand(Render(Directives(fmt, 0), args, 0))| < mem.Length
      modifies this, mem
      ensures var text := Expand(Render(Directives(fmt, 0), args, 0));
              && mem[..] == old(mem[..buff]) + text + [NUL] + old(mem[buff + |text| + 1..])
              && strptr == -1 && sent == old(sent)
    {
      hide Expand, Render, Directives, Supplies, TakesAll;
      strptr := buff;
      label A:
      Xvfprintf(false, fmt, args);
      ghost var text := Expand(Render(Directives(fmt, 0), args, 0));
      assert mem[..] == old(mem[..buff]) + text + old(mem[buff + |text|..]);
      mem[strptr] := NUL;
      strptr := -1;
    }
  }

  lemma ExpandNothing()
    ensures Expand([]) == []
  {
  }

  lemma FormatEnd(fmt: CString, p: nat, args: seq<Arg>, k: nat)
    requires p < |fmt| && fmt[p] == NUL
    ensures Render(Directives(fmt, p), args, k) == []
  {
  }

  /** How the directive at the cursor contributes to the text and the argument demand. */
  lemma FormatStep(fmt: CString, p: nat, args: seq<Arg>, k: nat, d: Directive, next: nat)
    requires p < |fmt| && fmt[p] != NUL
    requires if fmt[p] == '%' then (d, next - 1) == ScanSpec(fmt, p + 1) else d == Text(fmt[p]) && next == p + 1
    requires Supplies(args, k, TakesAll(Directives(fmt, p)))
    ensures Supplies(args, k, Takes(d))
    ensures d.Text? ==> RenderOne(d, args, k) == [d.c] && Takes(d) == []
    ensures d.Text? || d.conv != NUL ==>
              && next < |fmt|
              && Render(Directives(fmt, p), args, k)
                 == RenderOne(d, args, k) + Render(Directives(fmt, next), args, k + |Takes(d)|)
              && Supplies(args, k + |Takes(d)|, TakesAll(Directives(fmt, next)))
    ensures d.Spec? && d.conv == NUL ==> Render(Directives(fmt, p), args, k) == []
  {
    hide ScanSpec, Supplies;
    if d.Spec? && d.conv == NUL {
      assert Directives(fmt, p) == [d];
      assert Render([d], args, k) == RenderOne(d, args, k) + [];
      TakesOne(d);
    } else {
      assert Directives(fmt, p) == [d] + Directives(fmt, next);
      RenderFirst(d, Directives(fmt, next), args, k);
    }
  }

  lemma TakesOne(d: Directive)
    ensures TakesAll([d]) == Takes(d)
  {
    assert TakesAll([d]) == Takes(d) + [];
  }

  lemma RenderFirst(d: Directive, ds: seq<Directive>, args: seq<Arg>, k: nat)
    requires Supplies(args, k, TakesAll([d] + ds))
    ensures Supplies(args, k, Takes(d)) && Supplies(args, k + |Takes(d)|, TakesAll(ds))
    ensures Render([d] + ds, args, k) == RenderOne(d, args, k) + Render(ds, args, k + |Takes(d)|)
  {
    hide Supplies, Takes, RenderOne;
    assert ([d] + ds)[1..] == ds;
    SuppliesSplit(args, k, Takes(d), TakesAll(ds));
  }

  /** The number a 64-bit variable stands for under a conversion. */
  function Shown(conv: cchar, v: i64): int {
    if conv == 'd' then v else ToU64(v)
  }

  ghost function NumberField(conv: cchar, v: i64, w: u32, left: bool, pad: cchar): seq<cchar>
    requires IsNumeric(conv)
  {
    var text := NumberText(conv, Shown(conv, v));
    Field(text, |text|, w, left, pad)
  }

  function Reverse(s: seq<cchar>): (t: seq<cchar>)
    ensures |t| == |s|
  {
    if s == [] then [] else [s[|s| - 1]] + Reverse(s[..|s| - 1])
  }

  lemma ReversePush(s: seq<cchar>, c: cchar)
    ensures Reverse(s + [c]) == [c] + Reverse(s)
  {
    assert (s + [c])[..|s|] == s;
  }

  lemma {:induction false} ReverseCons(c: cchar, s: seq<cchar>)
    ensures Reverse([c] + s) == Reverse(s) + [c]
  {
    if s == [] {
      assert [c] + s == [] + [c];
      ReversePush([], c);
    } else {
      var t, d := s[..|s| - 1], s[|s| - 1];
      calc {
        Reverse([c] + s);
        { assert [c] + s == ([c] + t) + [d]; ReversePush([c] + t, d); }
        [d] + Reverse([c] + t);
        { ReverseCons(c, t); }
        [d] + (Reverse(t) + [c]);
        ([d] + Reverse(t)) + [c];
      }
    }
  }

  lemma {:induction false} ReverseReverse(s: seq<cchar>)
    ensures Reverse(Reverse(s)) == s
  {
    if s != [] {
      ReverseReverse(s[..|s| - 1]);
      ReverseCons(s[|s| - 1], Reverse(s[..|s| - 1]));
    }
  }

  lemma {:induction false} ReverseMember(s: seq<cchar>, c: cchar)
    ensures c in Reverse(s) <==> c in s
  {
    if s != [] {
      ReverseMember(s[..|s| - 1], c);
      assert s == s[..|s| - 1] + [s[|s| - 1]];
    }
  }

  lemma TextInBuffer(conv: cchar, v: i64, buffer: seq<cchar>)
    requires IsNumeric(conv)
    requires var m := Shown(conv, v);
             buffer == Reverse(Numeral(if m < 0 then -m else m, Radix(conv), conv, 32)) + if m < 0 then ['-'] else []
    ensures Reverse(buffer) == NumberText(conv, Shown(conv, v))
    ensures |buffer| == |NumberText(conv, Shown(conv, v))| && '\n' !in buffer
  {
    hide Numeral, Reverse;
    var m := Shown(conv, v);
    var digits := Numeral(if m < 0 then -m else m, Radix(conv), conv, 32);
    ReverseReverse(digits);
    if m < 0 { ReversePush(Reverse(digits), '-'); } else { assert buffer == Reverse(digits); }
    NumeralValue(if m < 0 then -m else m, Radix(conv), conv, 32);
    ReverseMember(digits, '\n');
  }

  /** One round of the digit loop moves the last digit of v into the buffer. */
  lemma DigitStep(all: seq<cchar>, v: nat, r: nat, conv: cchar, n: nat, buffer: seq<cchar>)
    requires 2 <= r <= 16 && n >= 1
    requires all == Numeral(v, r, conv, n) + Reverse(buffer)
    ensures all == (if Front(v, r) != 0 && n > 1 then Numeral(Front(v, r), r, conv, n - 1) else [])
                   + Reverse(buffer + [DigitChar(Last(v, r), conv)])
  {
    hide Reverse, DigitChar, Front, Last;
    var c := DigitChar(Last(v, r), conv);
    ReversePush(buffer, c);
    var w := Reverse(buffer);
    if Front(v, r) != 0 && n > 1 {
      Regroup(Numeral(Front(v, r), r, conv, n - 1), [c], w);
    } else {
      Regroup([], [c], w);
      assert [] + [c] == [c];
    }
  }

  lemma DigitCharIs(d: nat, conv: cchar)
    ensures DigitChar(d, conv) ==
            ToChar((if d > 9 then d + if conv == 'x' then 0x27 else 0x07 else d) + '0' as int)
  {
  }

  /** The digit loop: str receives the numeral of v, least significant digit first. */
  method Digitize(v: u64, r: nat, conv: cchar) returns (str: array<cchar>, i: nat)
    requires 2 <= r <= 16
    ensures fresh(str) && str.Length == 32 && 1 <= i <= 32
    ensures str[..i] == Reverse(Numeral(v, r, conv, 32))
  {
    hide Numeral, Reverse, DigitChar, ToChar, Front, Last;
    str := new cchar[32];
    i := 0;
    var vs: nat, more := v, true;
    while more
      invariant 0 <= i <= 32 && (more ==> i < 32) && (!more ==> i > 0)
      invariant Numeral(v, r, conv, 32) ==
                (if more then Numeral(vs, r, conv, 32 - i) else []) + Reverse(str[..i])
      decreases 32 - i
    {
      ghost var before := str[..i];
      DigitStep(Numeral(v, r, conv, 32), vs, r, conv, 32 - i, before);
      var d := Last(vs, r);
      ghost var c := DigitChar(d, conv);
      DigitCharIs(d, conv);
      vs := Front(vs, r);
      if d > 9 { d := d + if conv == 'x' then 0x27 else 0x07; }
      str[i] := ToChar(d + '0' as int);
      i := i + 1;
      more := vs != 0 && i < 32;
      assert str[..i] == before + [c];
    }
    assert Numeral(v, r, conv, 32) == Reverse(str[..i]);
    ReverseReverse(str[..i]);
  }

  /** Append to a text that fits as a whole. */
  lemma PutNext(k: Sink, device: bool, done: seq<cchar>, one: seq<cchar>, rest: seq<cchar>)
    requires Fits(k, device, |Expand(done + one + rest)|)
    ensures Fits(k, device, |Expand(done + one)|)
    ensures Fits(k, device, |Expand(done)|)
    ensures Fits(Put(k, device, Expand(done)), device, |Expand(one)|)
    ensures Put(Put(k, device, Expand(done)), device, Expand(one)) == Put(k, device, Expand(done + one))
  {
    ExpandConcat(done + one, rest);
    ExpandConcat(done, one);
    PutPut(k, device, Expand(done), Expand(one));
  }

  lemma PutThree(k: Sink, device: bool, a: seq<cchar>, b: seq<cchar>, c: seq<cchar>)
    requires Fits(k, device, |a + b + c|)
    ensures Fits(k, device, |a|)
    ensures Fits(Put(k, device, a), device, |b|)
    ensures Fits(Put(Put(k, device, a), device, b), device, |c|)
    ensures Put(Put(Put(k, device, a), device, b), device, c) == Put(k, device, a + b + c)
  {
    hide Put;
    PutPut(k, device, a, b);
    PutPut(k, device, a + b, c);
  }

  lemma ExpandSingle(c: cchar)
    ensures Expand([c]) == ExpandChar(c)
  {
    assert Expand([c]) == ExpandChar(c) + [];
  }

  lemma FieldParts(body: seq<cchar>, len: nat, w: nat, left: bool, pad: cchar)
    ensures Field(body, len, w, left, pad) ==
            Repeat(pad, if left then 0 else Max(w - len, 0)) + body
            + Repeat(' ', if left then Max(w - len, 0) else 0)
  {
  }

  lemma ExpandField(body: seq<cchar>, len: nat, w: nat, left: bool, pad: cchar)
    requires pad != '\n'
    ensures Expand(Field(body, len, w, left, pad)) ==
            Repeat(pad, if left then 0 else Max(w - len, 0)) + Expand(body)
            + Repeat(' ', if left then Max(w - len, 0) else 0)
  {
    var a, c := Repeat(pad, if left then 0 else Max(w - len, 0)), Repeat(' ', if left then Max(w - len, 0) else 0);
    FieldParts(body, len, w, left, pad);
    ExpandConcat(a + body, c);
    ExpandConcat(a, body);
    ExpandPlain(a);
    ExpandPlain(c);
  }

  lemma NumberFieldPlain(conv: cchar, v: i64, w: u32, left: bool, pad: cchar)
    requires IsNumeric(conv) && pad != '\n'
    ensures Expand(NumberField(conv, v, w, left, pad)) == NumberField(conv, v, w, left, pad)
  {
    hide Numeral, Expand, AllDigits, Horner;
    var m := Shown(conv, v);
    NumeralPlain(if m < 0 then -m else m, Radix(conv), conv);
    ExpandPlain(NumberField(conv, v, w, left, pad));
  }

  lemma NumeralPlain(v: nat, r: nat, conv: cchar)
    requires 2 <= r <= 16
    ensures '\n' !in Numeral(v, r, conv, 32)
  {
    hide Numeral, Horner;
    NumeralValue(v, r, conv, 32);
  }

  /** Read one directive: flags, width, precision and size up to the conversion character. */
  method ReadDirective(fmt: CString, p0: nat, args: seq<Arg>, arp0: nat)
    returns (pad: cchar, left: bool, w: u32, prec: i32, size: Size, c: cchar, p: nat, arp: nat)
    requires p0 < |fmt| && Supplies(args, arp0, Takes(ScanSpec(fmt, p0).0))
    ensures var d := ScanSpec(fmt, p0).0;
            && c == d.conv && p == ScanSpec(fmt, p0).1 + 1 && arp == arp0 + |Stars(d)|
            && pad == PadOf(d) && size == d.size && left == LeftJustified(d, args, arp0)
            && w == WidthOf(d, args, arp0) && prec == PrecisionOf(d, args, arp0)
  {
    hide ScanFlag, ScanWidth, ScanPrecision, ScanSize, Takes;
    ghost var d := ScanSpec(fmt, p0).0;
    SuppliesLast(args, arp0, d);
    p, arp := p0, arp0;
    c := fmt[p]; p := p + 1;
    pad, left, c, p := ReadFlag(fmt, c, p);
    w, left, c, p, arp := ReadWidth(fmt, c, p, args, arp, left);
    prec, c, p, arp := ReadPrecision(fmt, c, p, args, arp);
    size, c, p := ReadSize(fmt, c, p);
  }

  // The parts of a directive. Each reader starts with the current character in c0, just
  // before the cursor p0, and ends with the first character it did not use in c.

  method ReadFlag(fmt: CString, c0: cchar, p0: nat) returns (pad: cchar, left: bool, c: cchar, p: nat)
    requires 0 < p0 <= |fmt| && c0 == fmt[p0 - 1]
    ensures var (flag, q) := ScanFlag(fmt, p0 - 1);
            && 0 < p == q + 1 <= |fmt| && c == fmt[p - 1]
            && pad == (if flag == Zero then '0' else ' ') && left == (flag == Minus)
  {
    pad, left, c, p := ' ', false, c0, p0;
    if c == '0' {
      pad := '0'; c := fmt[p]; p := p + 1;
    } else if c == '-' {
      left := true; c := fmt[p]; p := p + 1;
    }
  }

  method ReadWidth(fmt: CString, c0: cchar, p0: nat, args: seq<Arg>, arp0: nat, left0: bool)
    returns (w: u32, left: bool, c: cchar, p: nat, arp: nat)
    requires 0 < p0 <= |fmt| && c0 == fmt[p0 - 1]
    requires ScanWidth(fmt, p0 - 1).0.FromArg? ==> arp0 < |args| && args[arp0].Word?
    ensures var (width, q) := ScanWidth(fmt, p0 - 1); var n: int := ToI32(WordAt(args, arp0));
            && 0 < p == q + 1 <= |fmt| && c == fmt[p - 1]
            && (width.Fixed? ==> w == width.w && left == left0 && arp == arp0)
            && (width.FromArg? ==> w == (if n < 0 then -n else n) && left == (left0 || n < 0) && arp == arp0 + 1)
  {
    w, left, c, p, arp := 0, left0, c0, p0, arp0;
    if c == '*' {
      var n: int := ToI32(args[arp].w);
      arp := arp + 1;
      if n < 0 {
        n := ToI32(0 - n);
        left := true;
      }
      w := ToU32(n);
      c := fmt[p]; p := p + 1;
    } else {
      w, c, p := ReadUnsigned(fmt, c, p);
    }
  }

  method ReadPrecision(fmt: CString, c0: cchar, p0: nat, args: seq<Arg>, arp0: nat)
    returns (prec: i32, c: cchar, p: nat, arp: nat)
    requires 0 < p0 <= |fmt| && c0 == fmt[p0 - 1]
    requires ScanPrecision(fmt, p0 - 1).0.LimitFromArg? ==> arp0 < |args| && args[arp0].Word?
    ensures var (limit, q) := ScanPrecision(fmt, p0 - 1);
            && 0 < p == q + 1 <= |fmt| && c == fmt[p - 1]
            && (limit.Unlimited? ==> prec == -1 && arp == arp0)
            && (limit.Limit? ==> prec == limit.p && arp == arp0)
            && (limit.LimitFromArg? ==> prec == ToI32(WordAt(args, arp0)) && arp == arp0 + 1)
  {
    prec, c, p, arp := -1, c0, p0, arp0;
    if c == '.' {
      c := fmt[p]; p := p + 1;
      if c == '*' {
        prec := ToI32(args[arp].w);
        arp := arp + 1;
        c := fmt[p]; p := p + 1;
      } else {
        prec, c, p := ReadSigned(fmt, c, p);
      }
    }
  }

  method ReadSize(fmt: CString, c0: cchar, p0: nat) returns (size: Size, c: cchar, p: nat)
    requires 0 < p0 <= |fmt| && c0 == fmt[p0 - 1]
    ensures (size, p - 1) == ScanSize(fmt, p0 - 1) && 0 < p <= |fmt| && c == fmt[p - 1]
  {
    size, c, p := Int, c0, p0;
    if c == 'l' {
      size := Long; c := fmt[p]; p := p + 1;
      if c == 'l' {
        size := LongLong; c := fmt[p]; p := p + 1;
      }
    }
  }

  method ReadUnsigned(fmt: CString, c0: cchar, p0: nat) returns (w: u32, c: cchar, p: nat)
    requires 0 < p0 <= |fmt| && c0 == fmt[p0 - 1]
    ensures w == ToU32(DecimalAt(fmt, p0 - 1))
    ensures p == DecimalEnd(fmt, p0 - 1) + 1 && c == fmt[p - 1]
  {
    hide Horner;
    w, c, p := 0, c0, p0;
    assert fmt[p0 - 1..p - 1] == [];
    HornerNothing();
    while '0' <= c <= '9'
      invariant p0 <= p <= |fmt| && c == fmt[p - 1]
      invariant DecimalEnd(fmt, p0 - 1) == DecimalEnd(fmt, p - 1)
      invariant w == ToU32(Horner(fmt[p0 - 1..p - 1], 10))
      decreases |fmt| - p
    {
      DecimalStep(fmt[p0 - 1..p - 1], c);
      assert fmt[p0 - 1..p - 1] + [c] == fmt[p0 - 1..p];
      w := ToU32(w * 10 + c as int - '0' as int);
      c := fmt[p]; p := p + 1;
    }
  }

  method ReadSigned(fmt: CString, c0: cchar, p0: nat) returns (prec: i32, c: cchar, p: nat)
    requires 0 < p0 <= |fmt| && c0 == fmt[p0 - 1]
    ensures prec == ToI32(DecimalAt(fmt, p0 - 1))
    ensures p == DecimalEnd(fmt, p0 - 1) + 1 && c == fmt[p - 1]
  {
    hide Horner;
    prec, c, p := 0, c0, p0;
    assert fmt[p0 - 1..p - 1] == [];
    HornerNothing();
    while '0' <= c <= '9'
      invariant p0 <= p <= |fmt| && c == fmt[p - 1]
      invariant DecimalEnd(fmt, p0 - 1) == DecimalEnd(fmt, p - 1)
      invariant prec == ToI32(Horner(fmt[p0 - 1..p - 1], 10))
      decreases |fmt| - p
    {
      DecimalStep(fmt[p0 - 1..p - 1], c);
      assert fmt[p0 - 1..p - 1] + [c] == fmt[p0 - 1..p];
      prec := ToI32(prec * 10 + c as int - '0' as int);
      c := fmt[p]; p := p + 1;
    }
  }

  lemma HornerNothing()
    ensures Horner([], 10) == 0
  {
  }

  /** One more decimal digit, in registers of either signedness. */
  lemma DecimalStep(s: seq<cchar>, c: cchar)
    requires IsDecimal(c)
    ensures ToU32(Horner(s + [c], 10)) == ToU32(ToU32(Horner(s, 10)) * 10 + c as int - '0' as int)
    ensures ToI32(Horner(s + [c], 10)) == ToI32(ToI32(Horner(s, 10)) * 10 + c as int - '0' as int)
  {
    hide Horner;
    HornerAppend(s, c, 10);
    DigitsAccepted(c, 10);
    WrapStep(Horner(s, 10), c as int - '0' as int);
  }

  lemma WrapStep(x: int, d: int)
    ensures ToU32(x * 10 + d) == ToU32(ToU32(x) * 10 + d)
    ensures ToI32(x * 10 + d) == ToI32(ToI32(x) * 10 + d)
  {
    var i: int := ToI32(x);
    assert i % TWO32 == x % TWO32 by {
      if x % TWO32 >= 0x8000_0000 { ModShift(x % TWO32, -1, TWO32); }
    }
    ModHorner(x, 10, d, TWO32);
    ModHorner(i, 10, d, TWO32);
  }
}
