/** Register accesses as command words, and what they mean for the slave. */
module Registers {
  import opened CTypes
  import opened I2c
  import opened I2cProtocol

  function High(v: u16): byte { v / 0x100 }
  function Low(v: u16): byte { v % 0x100 }

  /** The bytes of a value, most significant first. */
  function BigEndian16(v: u16): seq<byte> { [High(v), Low(v)] }

  function BigEndian32(v: u32): seq<byte> {
    [v / 0x100_0000, v / 0x1_0000 % 0x100, v / 0x100 % 0x100, v % 0x100]
  }

  function Value16(b: seq<byte>): u16
    requires |b| == 2
  {
    var high: int := b[0];
    high * 0x100 + b[1]
  }

  function Value32(b: seq<byte>): u32
    requires |b| == 4
  {
    var b3: int, b2: int, b1: int := b[0], b[1], b[2];
    b3 * 0x100_0000 + b2 * 0x1_0000 + b1 * 0x100 + b[3]
  }

  /** The slave's auto-increment store: byte i goes to address reg + i. */
  function Store(regs: RegFile, reg: u16, bytes: seq<byte>): RegFile
    decreases |bytes|
  {
    if bytes == [] then regs else Store(regs[reg := bytes[0]], ToU16(reg + 1), bytes[1..])
  }

  function Fetch(regs: RegFile, reg: u16, n: nat): (b: seq<byte>)
    ensures |b| == n
    decreases n
  {
    if n == 0 then [] else [regs[reg]] + Fetch(regs, ToU16(reg + 1), n - 1)
  }

  // ---- The driver calls of an access ----

  function SendAll(bytes: seq<byte>): seq<Op> {
    if bytes == [] then [] else [Send(bytes[0], |bytes| == 1)] + SendAll(bytes[1..])
  }

  function ReceiveAll(n: nat): seq<Op> {
    if n == 0 then [] else [Receive(n == 1)] + ReceiveAll(n - 1)
  }

  function WriteOps(reg: u16, bytes: seq<byte>): seq<Op> {
    [Start(false)] + SendAll([High(reg), Low(reg)] + bytes)
  }

  function ReadOps(reg: u16, n: nat): seq<Op> {
    WriteOps(reg, []) + ([Start(true)] + ReceiveAll(n))
  }

  lemma {:induction false} CommandsConcat(ops: seq<Op>, ps: seq<Op>)
    ensures Commands(ops + ps) == Commands(ops) + Commands(ps)
  {
    if ops == [] {
      assert ops + ps == ps;
    } else {
      var h, u, v := [Command(ops[0])], Commands(ops[1..]), Commands(ps);
      CommandsConcat(ops[1..], ps);
      assert (ops + ps)[1..] == ops[1..] + ps;
      assert h + (u + v) == (h + u) + v;
    }
  }

  // ---- One command at a time ----

  lemma ExecAddress(s: Slave, read: bool)
    ensures Exec(s, Command(Start(read))) == (s.(mode := if read then Reading else IndexHigh), [])
  {
    WordFields(true, false, HARDWARE_ADDRESS * 2 + if read then 1 else 0);
  }

  lemma ExecSend(s: Slave, data: byte, stop: bool)
    ensures var (t, b) := Exec(s, Command(Send(data, stop)));
            && (s.mode == IndexHigh ==> t == After(s.(mode := IndexLow(data)), stop))
            && (s.mode.IndexLow? ==> t == After(s.(mode := Writing, ptr := s.mode.high * 0x100 + data), stop))
            && (s.mode == Writing ==> t == After(s.(regs := s.regs[s.ptr := data], ptr := ToU16(s.ptr + 1)), stop))
            && (s.mode != Reading ==> b == [])
  {
    WordFields(false, stop, data);
  }

  lemma ExecReceive(s: Slave, stop: bool)
    requires s.mode == Reading
    ensures Exec(s, Command(Receive(stop))) == (After(s.(ptr := ToU16(s.ptr + 1)), stop), [s.regs[s.ptr]])
  {
    WordFields(false, stop, 0);
  }

  lemma RunCons(s: Slave, op: Op, ops: seq<Op>)
    ensures var (t, b) := Exec(s, Command(op)); var (u, c) := Run(t, Commands(ops));
            Run(s, Commands([op] + ops)) == (u, b + c)
  {
    hide Exec;
    assert ([op] + ops)[1..] == ops;
    assert Commands([op] + ops) == [Command(op)] + Commands(ops);
    assert Commands([op] + ops)[1..] == Commands(ops);
  }

  // ---- Whole accesses ----

  lemma SendStep(s: Slave, b: byte, rest: seq<byte>)
    requires s.mode != Reading
    ensures Run(s, Commands(SendAll([b] + rest))) ==
            Run(Exec(s, Command(Send(b, rest == []))).0, Commands(SendAll(rest)))
  {
    hide Exec;
    ExecSend(s, b, rest == []);
    assert ([b] + rest)[1..] == rest;
    RunCons(s, Send(b, rest == []), SendAll(rest));
    var c := Run(Exec(s, Command(Send(b, rest == []))).0, Commands(SendAll(rest))).1;
    assert [] + c == c;
  }

  lemma {:induction false} SendMeaning(s: Slave, bytes: seq<byte>)
    requires s.mode == Writing && bytes != []
    ensures Run(s, Commands(SendAll(bytes))) ==
            (Slave(Store(s.regs, s.ptr, bytes), ToU16(s.ptr + |bytes|), Idle), [])
    decreases |bytes|
  {
    hide Exec;
    var b, rest := bytes[0], bytes[1..];
    assert bytes == [b] + rest;
    SendStep(s, b, rest);
    ExecSend(s, b, rest == []);
    if rest != [] {
      SendMeaning(Exec(s, Command(Send(b, false))).0, rest);
    }
  }

  lemma {:induction false} ReceiveMeaning(s: Slave, n: nat)
    requires s.mode == Reading && n > 0
    ensures Run(s, Commands(ReceiveAll(n))) == (Slave(s.regs, ToU16(s.ptr + n), Idle), Fetch(s.regs, s.ptr, n))
    decreases n
  {
    hide Exec, Run, Commands, Fetch;
    var t := Exec(s, Command(Receive(n == 1))).0;
    ExecReceive(s, n == 1);
    RunCons(s, Receive(n == 1), ReceiveAll(n - 1));
    FetchCons(s.regs, s.ptr, n);
    if n > 1 {
      ReceiveMeaning(t, n - 1);
      WrapSum(s.ptr, n);
    } else {
      RunNone(t);
      FetchNone(s.regs, t.ptr);
    }
  }

  lemma RunNone(s: Slave)
    ensures Run(s, Commands([])) == (s, [])
  {
  }

  lemma FetchNone(regs: RegFile, reg: u16)
    ensures Fetch(regs, reg, 0) == []
  {
  }

  lemma FetchCons(regs: RegFile, reg: u16, n: nat)
    requires n > 0
    ensures Fetch(regs, reg, n) == [regs[reg]] + Fetch(regs, ToU16(reg + 1), n - 1)
  {
  }

  lemma WrapSum(reg: u16, n: int)
    ensures ToU16(ToU16(reg + 1) + (n - 1)) == ToU16(reg + n)
  {
  }

  /** The slave after addressing it and sending the index bytes. */
  lemma IndexMeaning(s: Slave, reg: u16, bytes: seq<byte>)
    ensures var (t, b) := Run(Slave(s.regs, reg, if bytes == [] then Idle else Writing), Commands(SendAll(bytes)));
            Run(s, Commands(WriteOps(reg, bytes))) == (t, b)
  {
    hide Exec, SendAll, Run;
    var tail := [Low(reg)] + bytes;
    assert [High(reg), Low(reg)] + bytes == [High(reg)] + tail;
    ExecAddress(s, false);
    RunCons(s, Start(false), SendAll([High(reg)] + tail));
    var s1 := s.(mode := IndexHigh);
    SendStep(s1, High(reg), tail);
    ExecSend(s1, High(reg), false);
    var s2 := s.(mode := IndexLow(High(reg)));
    SendStep(s2, Low(reg), bytes);
    ExecSend(s2, Low(reg), bytes == []);
    var c := Run(s1, Commands(SendAll([High(reg)] + tail))).1;
    assert [] + c == c;
  }

  /** A register write stores the bytes big-endian at reg and on, and ends the transaction. */
  lemma WriteMeaning(s: Slave, reg: u16, bytes: seq<byte>)
    requires bytes != []
    ensures Run(s, Commands(WriteOps(reg, bytes))) ==
            (Slave(Store(s.regs, reg, bytes), ToU16(reg + |bytes|), Idle), [])
  {
    IndexMeaning(s, reg, bytes);
    SendMeaning(Slave(s.regs, reg, Writing), bytes);
  }

  /** A register read changes no register and returns the bytes at reg and on. */
  lemma ReadMeaning(s: Slave, reg: u16, n: nat)
    requires n > 0
    ensures Run(s, Commands(ReadOps(reg, n))) == (Slave(s.regs, ToU16(reg + n), Idle), Fetch(s.regs, reg, n))
  {
    hide Exec;
    var t := Slave(s.regs, reg, Idle);
    IndexMeaning(s, reg, []);
    CommandsConcat(WriteOps(reg, []), [Start(true)] + ReceiveAll(n));
    RunConcat(s, Commands(WriteOps(reg, [])), Commands([Start(true)] + ReceiveAll(n)));
    ExecAddress(t, true);
    RunCons(t, Start(true), ReceiveAll(n));
    ReceiveMeaning(t.(mode := Reading), n);
    assert SendAll([]) == [] && Run(t, []) == (t, []);
    var c := Fetch(s.regs, reg, n);
    assert [] + ([] + c) == c;
  }

  // ---- The words of an access, spelled out ----

  /** Start, index high, index low. */
  function IndexWords(reg: u16, stop: bool): seq<word> {
    [Command(Start(false)), Command(Send(High(reg), false)), Command(Send(Low(reg), stop))]
  }

  /** n received bytes that are not the last. */
  function Burst(n: nat): (ws: seq<word>)
    ensures |ws| == n
  {
    seq(n, _ => Command(Receive(false)))
  }

  lemma SendWords(b: byte, rest: seq<byte>)
    ensures Commands(SendAll([b] + rest)) == [Command(Send(b, rest == []))] + Commands(SendAll(rest))
  {
    assert ([b] + rest)[1..] == rest;
  }

  lemma WriteWords(reg: u16, bytes: seq<byte>)
    ensures Commands(WriteOps(reg, bytes)) == IndexWords(reg, bytes == []) + Commands(SendAll(bytes))
  {
    SendWords(Low(reg), bytes);
    SendWords(High(reg), [Low(reg)] + bytes);
    assert [High(reg), Low(reg)] + bytes == [High(reg)] + ([Low(reg)] + bytes);
  }

  lemma {:induction false} ReceiveWords(n: nat)
    requires n > 0
    ensures Commands(ReceiveAll(n)) == Burst(n - 1) + [Command(Receive(true))]
  {
    if n > 1 {
      ReceiveWords(n - 1);
      assert Burst(n - 1) == [Command(Receive(false))] + Burst(n - 2);
    } else {
      assert Commands(ReceiveAll(1)) == [Command(Receive(true))];
    }
  }

  lemma ReadWords(reg: u16, n: nat)
    requires n > 0
    ensures Commands(ReadOps(reg, n)) ==
            IndexWords(reg, true) + [Command(Start(true))] + Burst(n - 1) + [Command(Receive(true))]
  {
    WriteWords(reg, []);
    ReceiveWords(n);
    CommandsConcat(WriteOps(reg, []), [Start(true)] + ReceiveAll(n));
    CommandsConcat([Start(true)], ReceiveAll(n));
  }

  // ---- The wire format ----

  /** Transactions one after the other: STA on the first word only, STO on the last only. */
  predicate WellFramed(ws: seq<word>, open: bool)
    decreases |ws|
  {
    if ws == [] then !open
    else Sta(ws[0]) == !open && WellFramed(ws[1..], !Sto(ws[0]))
  }

  lemma {:induction false} SendFramed(bytes: seq<byte>)
    requires bytes != []
    ensures WellFramed(Commands(SendAll(bytes)), true)
    decreases |bytes|
  {
    WordFields(false, |bytes| == 1, bytes[0]);
    assert Commands(SendAll(bytes))[1..] == Commands(SendAll(bytes[1..]));
    if |bytes| > 1 { SendFramed(bytes[1..]); }
  }

  lemma {:induction false} ReceiveFramed(n: nat)
    requires n > 0
    ensures WellFramed(Commands(ReceiveAll(n)), true)
    decreases n
  {
    WordFields(false, n == 1, 0);
    assert Commands(ReceiveAll(n))[1..] == Commands(ReceiveAll(n - 1));
    if n > 1 { ReceiveFramed(n - 1); }
  }

  lemma {:induction false} FramedConcat(ws: seq<word>, xs: seq<word>, open: bool)
    requires WellFramed(ws, open) && WellFramed(xs, false)
    ensures WellFramed(ws + xs, open)
    decreases |ws|
  {
    if ws == [] {
      assert ws + xs == xs;
    } else {
      FramedConcat(ws[1..], xs, !Sto(ws[0]));
      assert (ws + xs)[1..] == ws[1..] + xs;
    }
  }

  lemma StartFramed(read: bool, ops: seq<Op>)
    requires WellFramed(Commands(ops), true)
    ensures WellFramed(Commands([Start(read)] + ops), false)
  {
    WordFields(true, false, HARDWARE_ADDRESS * 2 + if read then 1 else 0);
    assert ([Start(read)] + ops)[1..] == ops;
    assert Commands([Start(read)] + ops)[1..] == Commands(ops);
  }

  /** Accesses are legal for the protocol and well framed on the wire. */
  lemma AccessFramed(reg: u16, bytes: seq<byte>, n: nat)
    requires n > 0
    ensures WellFramed(Commands(WriteOps(reg, bytes)), false)
    ensures WellFramed(Commands(ReadOps(reg, n)), false)
  {
    SendFramed([High(reg), Low(reg)] + bytes);
    StartFramed(false, SendAll([High(reg), Low(reg)] + bytes));
    SendFramed([High(reg), Low(reg)] + []);
    StartFramed(false, SendAll([High(reg), Low(reg)] + []));
    ReceiveFramed(n);
    StartFramed(true, ReceiveAll(n));
    CommandsConcat(WriteOps(reg, []), [Start(true)] + ReceiveAll(n));
    FramedConcat(Commands(WriteOps(reg, [])), Commands([Start(true)] + ReceiveAll(n)), false);
  }

  lemma {:induction false} SendLegal(bytes: seq<byte>, rest: seq<Op>)
    requires bytes != [] && Legal(rest, Idle)
    ensures Legal(SendAll(bytes) + rest, Writing)
    decreases |bytes|
  {
    hide Legal;
    var stop, tail := |bytes| == 1, SendAll(bytes[1..]) + rest;
    assert SendAll(bytes) + rest == [Send(bytes[0], stop)] + tail;
    if stop {
      assert tail == rest;
    } else {
      SendLegal(bytes[1..], rest);
    }
    LegalSend(bytes[0], stop, tail);
  }

  lemma LegalSend(b: byte, stop: bool, ops: seq<Op>)
    requires Legal(ops, if stop then Idle else Writing)
    ensures Legal([Send(b, stop)] + ops, Writing)
  {
    assert ([Send(b, stop)] + ops)[1..] == ops;
  }

  lemma {:induction false} ReceiveLegal(n: nat, rest: seq<Op>)
    requires n > 0 && Legal(rest, Idle)
    ensures Legal(ReceiveAll(n) + rest, Reading)
    decreases n
  {
    if n > 1 { ReceiveLegal(n - 1, rest); }
    assert (ReceiveAll(n) + rest)[1..] == ReceiveAll(n - 1) + rest;
  }

  lemma WriteLegal(reg: u16, bytes: seq<byte>, rest: seq<Op>, mode: Mode)
    requires Legal(rest, Idle)
    ensures Legal(WriteOps(reg, bytes) + rest, mode)
  {
    var all := [High(reg), Low(reg)] + bytes;
    var ops := WriteOps(reg, bytes) + rest;
    assert all[1..] == [Low(reg)] + bytes && all[1..][1..] == bytes;
    assert ops[1..] == SendAll(all) + rest;
    assert ops[1..][1..] == SendAll(all[1..]) + rest;
    assert ops[1..][1..][1..] == SendAll(bytes) + rest;
    if bytes != [] { SendLegal(bytes, rest); } else { assert SendAll(bytes) + rest == rest; }
  }

  /** Any sequence of accesses can be made up of these: each is legal whatever follows. */
  lemma ReadLegal(reg: u16, n: nat, rest: seq<Op>, mode: Mode)
    requires n > 0 && Legal(rest, Idle)
    ensures Legal(ReadOps(reg, n) + rest, mode)
  {
    var second := [Start(true)] + ReceiveAll(n) + rest;
    ReceiveLegal(n, rest);
    assert second[1..] == ReceiveAll(n) + rest;
    assert Legal(second, Idle);
    WriteLegal(reg, [], second, mode);
    assert ReadOps(reg, n) + rest == WriteOps(reg, []) + second;
  }

  // ---- Round trips ----

  /** A store puts byte k at reg + k and touches no other address. */
  lemma {:induction false} StoreAt(regs: RegFile, reg: u16, bytes: seq<byte>, a: u16)
    requires |bytes| <= TWO16
    ensures var k := ToU16(a - reg);
            Store(regs, reg, bytes)[a] == if k < |bytes| then bytes[k] else regs[a]
    decreases |bytes|
  {
    if bytes != [] {
      var next := ToU16(reg + 1);
      assert ToU16(a - next) == if a == reg then TWO16 - 1 else ToU16(a - reg) - 1;
      StoreAt(regs[reg := bytes[0]], next, bytes[1..], a);
    }
  }

  lemma StoreTwo(regs: RegFile, reg: u16, b1: byte, b0: byte)
    ensures Store(regs, reg, [b1, b0]) == regs[reg := b1][ToU16(reg + 1) := b0]
  {
    var b: seq<byte> := [b1, b0];
    assert b[1..] == [b0];
    assert Store(regs, reg, b) == Store(regs[reg := b1], ToU16(reg + 1), [b0]);
    assert [b0][1..] == [];
  }

  lemma StoreFour(regs: RegFile, reg: u16, b: seq<byte>)
    requires |b| == 4
    ensures Store(regs, reg, b) ==
            regs[reg := b[0]][ToU16(reg + 1) := b[1]][ToU16(reg + 2) := b[2]][ToU16(reg + 3) := b[3]]
  {
    var next: int := ToU16(reg + 1);
    var third: int := ToU16(reg + 2);
    assert ToU16(next + 1) == third && ToU16(third + 1) == ToU16(reg + 3);
    assert b[1..][1..] == [b[2], b[3]];
    assert Store(regs, reg, b) == Store(regs[reg := b[0]], next, b[1..]);
    assert Store(regs[reg := b[0]], next, b[1..]) == Store(regs[reg := b[0]][next := b[1]], third, b[1..][1..]);
    StoreTwo(regs[reg := b[0]][next := b[1]], third, b[2], b[3]);
  }

  lemma {:induction false} FetchAt(regs: RegFile, reg: u16, n: nat, i: nat)
    requires i < n
    ensures Fetch(regs, reg, n)[i] == regs[ToU16(reg + i)]
    decreases n
  {
    hide ToU16, Fetch;
    FetchCons(regs, reg, n);
    if i > 0 {
      WrapSum(reg, i);
      FetchAt(regs, ToU16(reg + 1), n - 1, i - 1);
    } else {
      WrapNone(reg);
    }
  }

  lemma WrapNone(reg: u16)
    ensures ToU16(reg + 0) == reg
  {
  }

  /** What was written is read back. */
  lemma FetchStore(regs: RegFile, reg: u16, bytes: seq<byte>)
    requires |bytes| <= TWO16
    ensures Fetch(Store(regs, reg, bytes), reg, |bytes|) == bytes
  {
    hide Fetch, Store;
    var f := Fetch(Store(regs, reg, bytes), reg, |bytes|);
    forall i | 0 <= i < |bytes| ensures f[i] == bytes[i] {
      FetchAt(Store(regs, reg, bytes), reg, |bytes|, i);
      assert ToU16(ToU16(reg + i) - reg) == i;
      StoreAt(regs, reg, bytes, ToU16(reg + i));
    }
  }

  lemma ValueRoundTrip(v: u16, w: u32)
    ensures Value16(BigEndian16(v)) == v && Value32(BigEndian32(w)) == w
  {
    ByteSplit(w);
  }

  lemma ByteSplit(w: int)
    ensures w == w / 0x100_0000 * 0x100_0000 + w / 0x1_0000 % 0x100 * 0x1_0000 + w / 0x100 % 0x100 * 0x100 + w % 0x100
  {
    var a, b := w / 0x100, w / 0x1_0000;
    assert a / 0x100 == b && b / 0x100 == w / 0x100_0000;
    assert w == a * 0x100 + w % 0x100 && a == b * 0x100 + a % 0x100;
    assert b == b / 0x100 * 0x100 + b % 0x100;
  }

  /** Where the bytes of a stored value go, most significant first, past the last register to 0. */
  lemma StoredBytes(regs: RegFile, reg: u16, v: u16, w: u32)
    ensures Store(regs, reg, BigEndian16(v)) == regs[reg := v / 0x100][(reg + 1) % 0x1_0000 := v % 0x100]
    ensures Store(regs, reg, BigEndian32(w)) ==
            regs[reg := w / 0x100_0000][(reg + 1) % 0x1_0000 := w / 0x1_0000 % 0x100]
                [(reg + 2) % 0x1_0000 := w / 0x100 % 0x100][(reg + 3) % 0x1_0000 := w % 0x100]
  {
    hide Store;
    StoreTwo(regs, reg, High(v), Low(v));
    StoreFour(regs, reg, BigEndian32(w));
  }

  /** Which bytes make up a fetched value. */
  lemma FetchedValues(regs: RegFile, reg: u16)
    ensures var v := Value16(Fetch(regs, reg, 2));
            v / 0x100 == regs[reg] && v % 0x100 == regs[(reg + 1) % 0x1_0000]
    ensures var w := Value32(Fetch(regs, reg, 4));
            && w / 0x100_0000 == regs[reg] && w / 0x1_0000 % 0x100 == regs[(reg + 1) % 0x1_0000]
            && w / 0x100 % 0x100 == regs[(reg + 2) % 0x1_0000] && w % 0x100 == regs[(reg + 3) % 0x1_0000]
  {
    hide Fetch, Value16, Value32;
    FetchAt(regs, reg, 2, 0);
    FetchAt(regs, reg, 2, 1);
    FetchAt(regs, reg, 4, 0);
    FetchAt(regs, reg, 4, 1);
    FetchAt(regs, reg, 4, 2);
    FetchAt(regs, reg, 4, 3);
    ValueBytes(Fetch(regs, reg, 2), Fetch(regs, reg, 4));
  }

  lemma ValueBytes(b: seq<byte>, c: seq<byte>)
    requires |b| == 2 && |c| == 4
    ensures Value16(b) / 0x100 == b[0] && Value16(b) % 0x100 == b[1]
    ensures var w := Value32(c);
            w / 0x100_0000 == c[0] && w / 0x1_0000 % 0x100 == c[1] && w / 0x100 % 0x100 == c[2] && w % 0x100 == c[3]
  {
    var c0: int, c1: int, c2: int := c[0], c[1], c[2];
    var w := Value32(c);
    assert w == 0x100 * (0x100 * (0x100 * c0 + c1) + c2) + c[3];
    assert w / 0x100 == 0x100 * (0x100 * c0 + c1) + c2;
    assert w / 0x1_0000 == w / 0x100 / 0x100 == 0x100 * c0 + c1;
    assert w / 0x100_0000 == w / 0x1_0000 / 0x100;
  }

  // ---- The words on the wire, in numbers ----

  /** The last byte of a write carries the stop bit. */
  function Stopped(bytes: seq<byte>): seq<word>
    requires bytes != []
  {
    seq(|bytes|, i requires 0 <= i < |bytes| => if i == |bytes| - 1 then bytes[i] as int + 0x100 else bytes[i])
  }

  lemma {:induction false} SentWords(bytes: seq<byte>)
    requires bytes != []
    ensures Commands(SendAll(bytes)) == Stopped(bytes)
    decreases |bytes|
  {
    hide Commands, SendAll;
    var b, rest := bytes[0], bytes[1..];
    assert bytes == [b] + rest;
    SendWords(b, rest);
    if rest == [] {
      EmptyWords();
    } else {
      SentWords(rest);
      assert Stopped(bytes) == [b] + Stopped(rest);
    }
  }

  lemma EmptyWords()
    ensures Commands(SendAll([])) == []
  {
  }

  /** A write: 0x252 addresses the sensor, then its register and the bytes, the last with the stop bit. */
  lemma WriteOnWire(reg: u16, bytes: seq<byte>)
    requires bytes != []
    ensures Commands(WriteOps(reg, bytes)) == [0x252, reg / 0x100, reg % 0x100] + Stopped(bytes)
  {
    hide Commands, WriteOps, SendAll;
    WriteWords(reg, bytes);
    SentWords(bytes);
  }

  /** A read: the register, stopped, then 0x253 and a word for every byte, the last with the stop bit. */
  lemma ReadOnWire(reg: u16, n: nat)
    requires n > 0
    ensures Commands(ReadOps(reg, n)) ==
            [0x252, reg / 0x100, 0x100 + reg % 0x100, 0x253] + seq(n - 1, _ => 0) + [0x100]
  {
    hide Commands, ReadOps;
    ReadWords(reg, n);
  }

  /**
   * Register round trip over the wire: after the command words of a write, those of the
   * matching read return the bytes written, and all other registers are as before.
   */
  lemma WireRoundTrip(s: Slave, reg: u16, bytes: seq<byte>)
    requires 0 < |bytes| <= TWO16
    ensures var (t, b) := Run(s, Commands(WriteOps(reg, bytes)));
            && b == [] && t.mode == Idle
            && Run(t, Commands(ReadOps(reg, |bytes|))).1 == bytes
            && Run(t, Commands(ReadOps(reg, |bytes|))).0.regs == t.regs
            && forall a: u16 :: ToU16(a - reg) >= |bytes| ==> t.regs[a] == s.regs[a]
  {
    hide Run, Commands;
    WriteMeaning(s, reg, bytes);
    var t := Run(s, Commands(WriteOps(reg, bytes))).0;
    ReadMeaning(t, reg, |bytes|);
    FetchStore(s.regs, reg, bytes);
    forall a: u16 | ToU16(a - reg) >= |bytes| ensures t.regs[a] == s.regs[a] {
      StoreAt(s.regs, reg, bytes, a);
    }
  }

  /** A long read returns what reads of one and of two registers return. */
  lemma BurstIsSingles(regs: RegFile, reg: u16, n: nat, i: nat)
    requires i < n
    ensures [Fetch(regs, reg, n)[i]] == Fetch(regs, ToU16(reg + i), 1)
    ensures i + 1 < n ==> Fetch(regs, reg, n)[i..i + 2] == Fetch(regs, ToU16(reg + i), 2)
  {
    hide Fetch;
    var a: int := ToU16(reg + i);
    FetchAt(regs, reg, n, i);
    FetchAt(regs, a, 1, 0);
    if i + 1 < n {
      FetchAt(regs, reg, n, i + 1);
      FetchAt(regs, a, 2, 0);
      FetchAt(regs, a, 2, 1);
      assert ToU16(a + 1) == ToU16(reg + (i + 1));
    }
  }
}
