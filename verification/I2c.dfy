/**
 * The command words of the I2C core, a register slave that gives them meaning, and the driver
 * routines, which poll the core while it works the command FIFO off at its own pace.
 */
module I2c {
  import opened CTypes

  const FIFO_DEPTH: nat := 4
  const HARDWARE_ADDRESS: nat := 0x52 / 2

  // A command word: bit 9 STA, bit 8 STO, bits 7 to 0 the address byte or the data.
  type word = x: int | 0 <= x < 0x400

  function Word(sta: bool, sto: bool, data: byte): word {
    (if sta then 0x200 else 0) + (if sto then 0x100 else 0) + data
  }

  predicate Sta(w: word) { w / 0x200 % 2 == 1 }
  predicate Sto(w: word) { w / 0x100 % 2 == 1 }
  function DataOf(w: word): byte { w % 0x100 }

  lemma WordFields(sta: bool, sto: bool, data: byte)
    ensures var w := Word(sta, sto, data); Sta(w) == sta && Sto(w) == sto && DataOf(w) == data
  {
  }

  // ---- The slave ----

  type RegFile = s: seq<byte> | |s| == TWO16 witness seq(TWO16, _ => 0)

  // Where the slave is within a transaction.
  datatype Mode = Idle | Ignoring | IndexHigh | IndexLow(high: byte) | Writing | Reading

  datatype Slave = Slave(regs: RegFile, ptr: u16, mode: Mode)

  function After(s: Slave, sto: bool): Slave { if sto then s.(mode := Idle) else s }

  /** One command: the slave afterwards and the byte that comes back, if any. */
  function Exec(s: Slave, w: word): (Slave, seq<byte>) {
    var data := DataOf(w);
    var next := ToU16(s.ptr + 1);
    if Sta(w) then
      var mode := if data / 2 != HARDWARE_ADDRESS then Ignoring else if data % 2 == 1 then Reading else IndexHigh;
      (After(s.(mode := mode), Sto(w)), [])
    else
      match s.mode
      case Idle => (s, [])
      case Ignoring => (After(s, Sto(w)), [])
      case IndexHigh => (After(s.(mode := IndexLow(data)), Sto(w)), [])
      case IndexLow(high) => (After(s.(mode := Writing, ptr := high * 0x100 + data), Sto(w)), [])
      case Writing => (After(s.(regs := s.regs[s.ptr := data], ptr := next), Sto(w)), [])
      case Reading => (After(s.(ptr := next), Sto(w)), [s.regs[s.ptr]])
  }

  /** A whole command sequence, one command after the other. */
  function Run(s: Slave, ws: seq<word>): (Slave, seq<byte>)
    decreases |ws|
  {
    if ws == [] then (s, [])
    else
      var (t, b) := Exec(s, ws[0]);
      var (u, c) := Run(t, ws[1..]);
      (u, b + c)
  }

  lemma {:induction false} RunConcat(s: Slave, ws: seq<word>, xs: seq<word>)
    ensures var (t, b) := Run(s, ws); var (u, c) := Run(t, xs);
            Run(s, ws + xs) == (u, b + c)
    decreases |ws|
  {
    hide Exec;
    var (t, b) := Run(s, ws);
    var (u, c) := Run(t, xs);
    if ws == [] {
      assert ws + xs == xs && [] + c == c;
    } else {
      var (t0, b0) := Exec(s, ws[0]);
      var rest := Run(t0, ws[1..]).1;
      RunConcat(t0, ws[1..], xs);
      assert (ws + xs)[1..] == ws[1..] + xs;
      assert b0 + (rest + c) == (b0 + rest) + c;
    }
  }

  lemma RunOne(s: Slave, w: word)
    ensures Run(s, [w]) == Exec(s, w)
  {
    hide Exec;
    assert Exec(s, w).1 + [] == Exec(s, w).1;
  }

  // ---- The core and the driver routines ----

  class I2cCore {
    var fifo: seq<word>      // commands not yet worked off
    var rx: seq<byte>        // received bytes not yet fetched
    var slave: Slave
    ghost var log: seq<word> // all commands ever written

    constructor (s: Slave)
      ensures fifo == [] && rx == [] && slave == s && log == []
    {
      fifo, rx, slave, log := [], [], s, [];
    }

    /** The slave once the pending commands are worked off. */
    ghost function Settled(): Slave
      reads this
    {
      Run(slave, fifo).0
    }

    /** The bytes received or still to be received from the pending commands. */
    ghost function Owed(): seq<byte>
      reads this
    {
      rx + Run(slave, fifo).1
    }

    /** What holds between driver calls: the FIFO keeps its depth and no byte is outstanding. */
    ghost predicate Quiet()
      reads this
    {
      |fifo| <= FIFO_DEPTH && Owed() == []
    }

    /** The core works off some commands, at least one if it must and can. */
    method Progress(must: bool)
      modifies `fifo, `rx, `slave
      ensures Settled() == old(Settled()) && Owed() == old(Owed())
      ensures old(rx) <= rx
      ensures |fifo| <= old(|fifo|) && (must && old(fifo) != [] ==> |fifo| < old(|fifo|))
      ensures fifo == [] ==> rx == old(Owed())
    {
      hide Exec;
      var n: int :| n >= 0;  // the pace of the core is not known
      if must { n := n + 1; }
      while n > 0 && fifo != []
        invariant Settled() == old(Settled()) && Owed() == old(Owed()) && old(rx) <= rx
        invariant |fifo| <= old(|fifo|) && (must && old(fifo) != [] ==> n > 0 || |fifo| < old(|fifo|))
        decreases n
      {
        ghost var before, rest := Owed(), Run(Exec(slave, fifo[0]).0, fifo[1..]);
        var (s, b) := Exec(slave, fifo[0]);
        assert rx + (b + rest.1) == (rx + b) + rest.1;
        slave, rx, fifo := s, rx + b, fifo[1..];
        n := n - 1;
      }
      assert fifo == [] ==> Owed() == rx + [];
    }

    /** Read the ISR register: bit 0 TX_READY (the FIFO has room), bit 1 RX_READY. Time passes. */
    method GetIsr() returns (isr: u32)
      modifies `fifo, `rx, `slave
      ensures Settled() == old(Settled()) && Owed() == old(Owed()) && |fifo| <= old(|fifo|)
      ensures isr % 2 == 1 ==> |fifo| < FIFO_DEPTH
      ensures isr % 2 == 0 ==> old(|fifo|) >= FIFO_DEPTH && |fifo| < old(|fifo|)
      ensures isr / 2 % 2 == 1 ==> rx != []
      ensures isr / 2 % 2 == 0 && old(Owed()) != [] ==> |fifo| < old(|fifo|)
    {
      isr := (if |fifo| < FIFO_DEPTH then 1 else 0) + (if rx != [] then 2 else 0);
      assert fifo == [] ==> Owed() == rx + [];
      Progress(true);
    }

    /** Write a command word; the caller has seen TX_READY. */
    method PutCommand(w: word)
      requires |fifo| < FIFO_DEPTH
      modifies `fifo, `log
      ensures Settled() == Exec(old(Settled()), w).0
      ensures Owed() == old(Owed()) + Exec(old(Settled()), w).1
      ensures |fifo| <= FIFO_DEPTH && log == old(log) + [w]
    {
      hide Exec, Run;
      RunConcat(slave, fifo, [w]);
      RunOne(Settled(), w);
      fifo := fifo + [w];
      log := log + [w];
      assert rx + (old(Run(slave, fifo).1) + Exec(old(Settled()), w).1)
          == (rx + old(Run(slave, fifo).1)) + Exec(old(Settled()), w).1;
    }

    /** Poll the interrupt status until TX_READY is set. */
    method AwaitRoom()
      requires |fifo| <= FIFO_DEPTH
      modifies `fifo, `rx, `slave
      ensures Settled() == old(Settled()) && Owed() == old(Owed()) && |fifo| < FIFO_DEPTH
    {
      var isr := GetIsr();
      while isr % 2 == 0
        invariant Settled() == old(Settled()) && Owed() == old(Owed())
        invariant |fifo| <= FIFO_DEPTH && (isr % 2 == 1 ==> |fifo| < FIFO_DEPTH)
        decreases |fifo|, isr % 2 == 0
      {
        isr := GetIsr();
      }
    }

    /** Poll the interrupt status until RX_READY is set. */
    method AwaitByte()
      requires |fifo| <= FIFO_DEPTH && |Owed()| == 1
      modifies `fifo, `rx, `slave
      ensures Settled() == old(Settled()) && Owed() == old(Owed()) && |fifo| <= FIFO_DEPTH
      ensures rx == old(Owed())
    {
      var isr := GetIsr();
      while isr / 2 % 2 == 0
        invariant Settled() == old(Settled()) && Owed() == old(Owed()) && |fifo| <= FIFO_DEPTH
        invariant isr / 2 % 2 == 1 ==> rx != []
        decreases |fifo|, isr / 2 % 2 == 0
      {
        isr := GetIsr();
      }
      assert |rx| + |Run(slave, fifo).1| == 1;
      assert Owed() == rx + [];
    }

    /** The bus has come to rest: all commands are worked off. */
    method Rest()
      requires Quiet()
      modifies `fifo, `rx, `slave
      ensures Settled() == old(Settled()) && Quiet() && fifo == [] && slave == Settled()
    {
      while fifo != []
        invariant Settled() == old(Settled()) && Owed() == old(Owed()) && |fifo| <= FIFO_DEPTH
        decreases |fifo|
      {
        Progress(true);
      }
    }

    method StartTransmit(slave_address: byte, is_read: byte)
      requires Quiet() && slave_address < 0x80
      modifies this
      ensures Quiet()
      ensures var w := Word(true, false, slave_address * 2 + if is_read == 1 then 1 else 0);
              Settled() == Exec(old(Settled()), w).0 && log == old(log) + [w]
      ensures var a := 2 * slave_address as int; log == old(log) + [if is_read == 1 then a + 0x201 else a + 0x200]
    {
      AwaitRoom();
      if is_read == 1 {
        PutCommand(Word(true, false, slave_address * 2 + 1));
      } else {
        PutCommand(Word(true, false, slave_address * 2));
      }
    }

    method Write(data: byte, send_stop_bit: bool)
      requires Quiet() && Settled().mode != Reading
      modifies this
      ensures Quiet()
      ensures var w := Word(false, send_stop_bit, data);
              Settled() == Exec(old(Settled()), w).0 && log == old(log) + [w]
      ensures log == old(log) + [if send_stop_bit then data as int + 0x100 else data]
    {
      AwaitRoom();
      if send_stop_bit {
        PutCommand(Word(false, true, data));
        Progress(false);  // poll the status register; the pause has no length of its own here
      } else {
        PutCommand(Word(false, false, data));
      }
    }

    method Read(send_stop_bit: bool) returns (recv_data: byte)
      requires Quiet() && Settled().mode == Reading
      modifies this
      ensures Quiet()
      ensures var w := Word(false, send_stop_bit, 0);
              Exec(old(Settled()), w) == (Settled(), [recv_data]) && log == old(log) + [w]
      ensures log == old(log) + [if send_stop_bit then 0x100 else 0]
    {
      AwaitRoom();
      if send_stop_bit {
        PutCommand(Word(false, true, 0));
        AwaitByte();
        recv_data := rx[0];
        rx := rx[1..];
        Progress(false);
      } else {
        PutCommand(Word(false, false, 0));
        AwaitByte();
        recv_data := rx[0];
        rx := rx[1..];
      }
    }
  }
}
