/** The line editor xgets as a bounded fold over the input stream. */
module Xgets {
  import opened CTypes
  import opened Rendering
  import opened Xprintf

  // What the input function returns: a character, or a negative number at the end of stream.
  type input = x: int | x < 0x100

  const BS := 0x08
  const CR := 0x0D

  /** The buffered line after one more character; cap is the room for characters. */
  function Edit(line: seq<cchar>, cap: nat, c: input): seq<cchar> {
    if c == BS && line != [] then line[..|line| - 1]
    else if c >= ' ' as int && |line| < cap then line + [c as char]
    else line
  }

  /** What the editor echoes for one character: the characters that it acts on. */
  function EchoOf(line: seq<cchar>, cap: nat, c: input): seq<cchar> {
    if (c == BS && line != []) || (c >= ' ' as int && |line| < cap) then [c as char] else []
  }

  // What the closing carriage return and line feed put out.
  const LINE_END: seq<cchar> := ['\r', '\r', '\n']

  predicate Ends(c: input) { c < 0 || c == CR }

  /** Edit the line with the stream up to its first terminator. */
  function Line(line: seq<cchar>, cap: nat, stream: seq<input>): seq<cchar>
    decreases |stream|
  {
    if stream == [] || Ends(stream[0]) then line
    else Line(Edit(line, cap, stream[0]), cap, stream[1..])
  }

  function Echo(line: seq<cchar>, cap: nat, stream: seq<input>): seq<cchar>
    decreases |stream|
  {
    if stream == [] || Ends(stream[0]) then []
    else EchoOf(line, cap, stream[0]) + Echo(Edit(line, cap, stream[0]), cap, stream[1..])
  }

  /** How many inputs one line takes, its terminator included; a dry stream reads as its end. */
  function Taken(stream: seq<input>): (n: nat)
    ensures n <= |stream|
  {
    if stream == [] then 0 else if Ends(stream[0]) then 1 else 1 + Taken(stream[1..])
  }

  predicate EndsWithReturn(stream: seq<input>) {
    Taken(stream) > 0 && stream[Taken(stream) - 1] == CR
  }

  /**
   * The console with an input stream. xfunc_input is null when connected is false, xfunc_output
   * when output is false; the echo then goes where the destination pointer leads, if anywhere.
   */
  class Terminal {
    const console: Console
    const output: bool
    var connected: bool
    var stream: seq<input>

    constructor (c: Console, out: bool, s: seq<input>)
      ensures console == c && output == out && connected && stream == s
    {
      console := c;
      output := out;
      connected := true;
      stream := s;
    }

    method Input() returns (c: input)
      modifies this
      ensures connected == old(connected)
      ensures old(stream) == [] ==> c == -1 && stream == []
      ensures old(stream) != [] ==> c == old(stream)[0] && stream == old(stream)[1..]
    {
      if stream == [] {
        c := -1;
      } else {
        c := stream[0];
        stream := stream[1..];
      }
    }

    /** Get a line from the input into buff, echoing to the output; an echo to memory must fit. */
    method Xgets(buff: array<cchar>, len: nat) returns (arrived: bool)
      requires 1 <= len <= buff.Length && buff != console.mem
      requires connected ==> Fits(console.State(), output, |Echo([], len - 1, stream) + LINE_END|)
      modifies this, console, console.mem, buff
      ensures !old(connected) ==> !arrived && buff[..] == old(buff[..]) && stream == old(stream)
                                  && console.State() == old(console.State())
      ensures old(connected) ==>
                var line := Line([], len - 1, old(stream));
                && |line| <= len - 1
                && buff[..|line|] == line && buff[|line|] == NUL && buff[len..] == old(buff[len..])
                && stream == old(stream)[Taken(old(stream))..]
                && arrived == EndsWithReturn(old(stream))
                && console.State() == Put(old(console.State()), output,
                                          Echo([], len - 1, old(stream)) + ['\r', '\r', '\n'])
    {
      hide Line, Echo, Put, Fits, Taken, Edit, EchoOf;
      if !connected { return false; }
      var i, c := 0, -1;
      ghost var start, sink := stream, console.State();
      ghost var echoed: seq<cchar> := [];
      FitsLess(sink, output, 0, |Echo([], len - 1, start) + LINE_END|);
      PutNothing(sink, output);
      EditBound(len - 1, start);
      while true
        invariant connected && 0 <= i <= len - 1
        invariant start[|start| - |stream|..] == stream && |stream| <= |start|
        invariant Line([], len - 1, start) == Line(buff[..i], len - 1, stream)
        invariant Echo([], len - 1, start) == echoed + Echo(buff[..i], len - 1, stream)
        invariant Taken(start) == |start| - |stream| + Taken(stream)
        invariant forall k :: 0 <= k < |start| - |stream| ==> !Ends(start[k])
        invariant Fits(sink, output, |echoed|) && console.State() == Put(sink, output, echoed)
        invariant buff[len..] == old(buff[len..])
        decreases |stream|
      {
        ghost var line, s := buff[..i], stream;
        LineStep(line, len - 1, s);
        c := Input();
        if Ends(c) {
          assert s != [] ==> start[|start| - |s|] == s[0];
          break;
        }
        ghost var one := EchoOf(line, len - 1, c);
        FitsLess(sink, output, |echoed + one|, |Echo([], len - 1, start) + LINE_END|);
        PutPut(sink, output, echoed, one);
        i := EditBuffer(buff, i, len, c);
        echoed := echoed + one;
      }
      assert echoed + [] == echoed;
      PutPut(sink, output, echoed, LINE_END);
      EchoLineEnd();
      buff[i] := NUL;
      arrived := c == CR;
    }

    /** Rub out or store one character, and echo what was done. */
    method EditBuffer(buff: array<cchar>, i: nat, len: nat, c: input) returns (j: nat)
      requires i < len <= buff.Length && buff != console.mem && !Ends(c)
      requires Fits(console.State(), output, |EchoOf(buff[..i], len - 1, c)|)
      modifies console, console.mem, buff
      ensures j < len && buff[..j] == Edit(old(buff[..i]), len - 1, c) && buff[len..] == old(buff[len..])
      ensures console.State() == Put(old(console.State()), output, EchoOf(old(buff[..i]), len - 1, c))
    {
      hide Put, Fits;
      j := i;
      FitsLess(console.State(), output, 0, |EchoOf(buff[..i], len - 1, c)|);
      if c == BS && j > 0 {
        j := j - 1;
        console.Xfputc(output, c as char);
        return;
      }
      PutNothing(console.State(), output);
      if c >= ' ' as int && j < len - 1 {
        buff[j] := c as char;
        j := j + 1;
        console.Xfputc(output, c as char);
      }
    }

    /** The closing carriage return and line feed; the line feed is expanded once more. */
    method EchoLineEnd()
      requires Fits(console.State(), output, |LINE_END|)
      modifies console, console.mem
      ensures console.State() == Put(old(console.State()), output, ['\r', '\r', '\n'])
    {
      hide Put, Fits;
      assert LINE_END == ['\r'] + ['\r', '\n'];
      FitsLess(console.State(), output, 1, |LINE_END|);
      PutPut(console.State(), output, ['\r'], ['\r', '\n']);
      console.Xfputc(output, '\r');
      console.Xfputc(output, '\n');
    }
  }

  lemma FitsLess(k: Sink, device: bool, m: nat, n: nat)
    requires Fits(k, device, n) && m <= n
    ensures Fits(k, device, m)
  {
  }

  lemma LineStep(line: seq<cchar>, cap: nat, stream: seq<input>)
    ensures (stream == [] || Ends(stream[0])) ==>
              && Line(line, cap, stream) == line && Echo(line, cap, stream) == []
              && Taken(stream) == if stream == [] then 0 else 1
    ensures stream != [] && !Ends(stream[0]) ==>
              && Taken(stream) == 1 + Taken(stream[1..])
              && Line(line, cap, stream) == Line(Edit(line, cap, stream[0]), cap, stream[1..])
              && Echo(line, cap, stream)
                 == EchoOf(line, cap, stream[0]) + Echo(Edit(line, cap, stream[0]), cap, stream[1..])
  {
  }

  lemma EditBound(cap: nat, stream: seq<input>)
    ensures |Line([], cap, stream)| <= cap
  {
    LineBound([], cap, stream);
  }

  /** The line never outgrows its buffer and holds visible characters only. */
  lemma {:induction false} LineBound(line: seq<cchar>, cap: nat, stream: seq<input>)
    requires |line| <= cap && forall i :: 0 <= i < |line| ==> line[i] >= ' '
    ensures |Line(line, cap, stream)| <= cap
    ensures forall i :: 0 <= i < |Line(line, cap, stream)| ==> Line(line, cap, stream)[i] >= ' '
    decreases |stream|
  {
    if stream != [] && !Ends(stream[0]) {
      LineBound(Edit(line, cap, stream[0]), cap, stream[1..]);
    }
  }

  function AsInput(s: seq<cchar>): seq<input> {
    seq(|s|, i requires 0 <= i < |s| => s[i] as int)
  }

  /** The echo shows the line: typing the echoed characters gives the same line again. */
  lemma {:induction false} EchoReplays(line: seq<cchar>, cap: nat, stream: seq<input>)
    ensures Line(line, cap, AsInput(Echo(line, cap, stream))) == Line(line, cap, stream)
    ensures Echo(line, cap, AsInput(Echo(line, cap, stream))) == Echo(line, cap, stream)
    decreases |stream|
  {
    if stream != [] && !Ends(stream[0]) {
      var c := stream[0];
      var next := Edit(line, cap, c);
      var e := Echo(next, cap, stream[1..]);
      EchoReplays(next, cap, stream[1..]);
      if EchoOf(line, cap, c) == [] {
        assert [] + e == e;
      } else {
        var t := AsInput([c as char] + e);
        assert t[1..] == AsInput(e);
        LineStep(line, cap, t);
      }
    }
  }

  /** Without backspaces the line is what was typed, cut at the buffer's size. */
  lemma {:induction false} PlainTyping(line: seq<cchar>, cap: nat, text: seq<cchar>)
    requires |line| <= cap && forall i :: 0 <= i < |text| ==> text[i] >= ' '
    ensures Line(line, cap, AsInput(text)) == (line + text)[..Min(cap, |line + text|)]
    decreases |text|
  {
    if text != [] {
      assert AsInput(text)[1..] == AsInput(text[1..]);
      PlainTyping(Edit(line, cap, text[0] as int), cap, text[1..]);
      assert text == [text[0]] + text[1..];
    }
  }

  /**
   * A backspace undoes the character before it exactly when that character was stored: into a
   * full line the character is dropped, and the backspace then takes an older one.
   */
  lemma RubOut(line: seq<cchar>, cap: nat, c: cchar)
    requires |line| <= cap && c >= ' '
    ensures Edit(Edit(line, cap, c as int), cap, BS) == line <==> |line| < cap || line == []
  {
    if |line| < cap { assert (line + [c])[..|line|] == line; }
  }

  /**
   * What one key does: 8 rubs out the last character, from 32 on a character is stored while
   * there is room, and either is echoed when it acts; nothing else acts.
   */
  lemma KeyExactly(line: seq<cchar>, cap: nat, c: input)
    requires c >= 0 && c != 13
    ensures var rubs, stores := c == 8 && line != [], c >= 32 && |line| < cap;
            && Line(line, cap, [c]) ==
               (if rubs then line[..|line| - 1] else if stores then line + [c as char] else line)
            && Echo(line, cap, [c]) == (if rubs || stores then [c as char] else [])
  {
    assert [c][1..] == [];
    assert EchoOf(line, cap, c) + [] == EchoOf(line, cap, c);
  }

  /** Keys act one after the other. */
  lemma {:induction false} KeysInTurn(line: seq<cchar>, cap: nat, xs: seq<input>, ys: seq<input>)
    requires forall i :: 0 <= i < |xs| ==> xs[i] >= 0 && xs[i] != 13
    ensures Line(line, cap, xs + ys) == Line(Line(line, cap, xs), cap, ys)
    ensures Echo(line, cap, xs + ys) == Echo(line, cap, xs) + Echo(Line(line, cap, xs), cap, ys)
    decreases |xs|
  {
    hide Edit, EchoOf;
    if xs == [] {
      assert xs + ys == ys && [] + Echo(line, cap, ys) == Echo(line, cap, ys);
    } else {
      var next, e := Edit(line, cap, xs[0]), EchoOf(line, cap, xs[0]);
      KeysInTurn(next, cap, xs[1..], ys);
      assert (xs + ys)[1..] == xs[1..] + ys && (xs + ys)[0] == xs[0];
      Regroup(e, Echo(next, cap, xs[1..]), Echo(Line(next, cap, xs[1..]), cap, ys));
    }
  }

  /** The line ends at the first return or end of stream, and has arrived if that is a return. */
  lemma {:induction false} ReturnExactly(line: seq<cchar>, cap: nat, xs: seq<input>, c: input, ys: seq<input>)
    requires (forall i :: 0 <= i < |xs| ==> xs[i] >= 0 && xs[i] != 13) && (c < 0 || c == 13)
    ensures var stream := xs + [c] + ys;
            && Line(line, cap, stream) == Line(line, cap, xs) && Echo(line, cap, stream) == Echo(line, cap, xs)
            && stream[Taken(stream)..] == ys && (EndsWithReturn(stream) <==> c == 13)
    ensures Taken(xs) == |xs| && !EndsWithReturn(xs)
  {
    var rest := [c] + ys;
    assert xs + [c] + ys == xs + rest;
    KeysInTurn(line, cap, xs, rest);
    assert Echo(line, cap, xs) + [] == Echo(line, cap, xs);
    TakenThrough(xs, rest);
    TakenThrough(xs, []);
    assert xs + [] == xs;
  }

  lemma {:induction false} TakenThrough(xs: seq<input>, ys: seq<input>)
    requires forall i :: 0 <= i < |xs| ==> xs[i] >= 0 && xs[i] != 13
    ensures Taken(xs + ys) == |xs| + Taken(ys)
  {
    if xs == [] {
      assert xs + ys == ys;
    } else {
      TakenThrough(xs[1..], ys);
      assert (xs + ys)[1..] == xs[1..] + ys && (xs + ys)[0] == xs[0];
    }
  }
}
