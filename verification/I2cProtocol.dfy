/**
 * The driver and the core as two processes: every interleaving of their steps is safe, cannot
 * get stuck, is finite, and ends in the state the commands produce one after the other.
 */
module I2cProtocol {
  import opened CTypes
  import opened I2c

  // What the driver is asked to do: i2c_start_transmit, i2c_write and i2c_read calls.
  datatype Op = Start(read: bool) | Send(data: byte, stop: bool) | Receive(stop: bool)

  function Command(op: Op): word {
    match op
    case Start(read) => Word(true, false, HARDWARE_ADDRESS * 2 + if read then 1 else 0)
    case Send(data, stop) => Word(false, stop, data)
    case Receive(stop) => Word(false, stop, 0)
  }

  function Commands(ops: seq<Op>): seq<word> {
    if ops == [] then [] else [Command(ops[0])] + Commands(ops[1..])
  }

  // Where the driver is within the call at the head of its list.
  datatype Phase =
    | Poll      // waiting for TX_READY
    | Issue     // TX_READY was seen, the command is not written yet
    | Collect   // waiting for RX_READY and the byte
    | Settle    // the stop command is out, waiting for the status register

  datatype System = System(todo: seq<Op>, phase: Phase, fifo: seq<word>, rx: seq<byte>, slave: Slave, got: seq<byte>)

  function Done(op: Op): Phase {
    if (op.Send? || op.Receive?) && op.stop then Settle else Poll
  }

  ghost predicate DriverStep(m: System, n: System) {
    match m.phase
    case Poll => m.todo != [] && |m.fifo| < FIFO_DEPTH && n == m.(phase := Issue)
    case Issue =>
      m.todo != [] &&
      var op := m.todo[0];
      var p := m.(fifo := m.fifo + [Command(op)]);
      n == if op.Receive? then p.(phase := Collect) else p.(todo := m.todo[1..], phase := Done(op))
    case Collect =>
      m.todo != [] && m.rx != [] &&
      n == m.(got := m.got + [m.rx[0]], rx := m.rx[1..], todo := m.todo[1..], phase := Done(m.todo[0]))
    case Settle => n == m.(phase := Poll)
  }

  ghost predicate CoreStep(m: System, n: System) {
    m.fifo != [] &&
    var (s, b) := Exec(m.slave, m.fifo[0]);
    n == m.(fifo := m.fifo[1..], slave := s, rx := m.rx + b)
  }

  ghost predicate Next(m: System, n: System) { DriverStep(m, n) || CoreStep(m, n) }

  function Initial(s: Slave, ops: seq<Op>): System { System(ops, Poll, [], [], s, []) }

  /** Calls in an order the register accessors use: bytes go only in the addressed direction. */
  predicate Legal(ops: seq<Op>, mode: Mode)
    decreases |ops|
  {
    ops == [] ||
    match ops[0]
    case Start(read) => Legal(ops[1..], if read then Reading else IndexHigh)
    case Send(_, stop) =>
      mode in {IndexHigh, Writing, IndexLow(0)} &&
      Legal(ops[1..], if stop then Idle else if mode == IndexHigh then IndexLow(0) else Writing)
    case Receive(stop) => mode == Reading && Legal(ops[1..], if stop then Idle else Reading)
  }

  // The mode without the index byte it remembers.
  function Shape(mode: Mode): Mode { if mode.IndexLow? then IndexLow(0) else mode }

  /** The calls whose commands are not in the FIFO yet. */
  function Unissued(m: System): seq<Op> {
    if m.phase == Collect && m.todo != [] then m.todo[1..] else m.todo
  }

  /**
   * The invariant: working off the FIFO and then the calls still to come, from here, leads
   * where the sequential execution of all calls leads, and delivers the same bytes.
   */
  ghost predicate Inv(m: System, final: (Slave, seq<byte>)) {
    var (s, b) := Run(m.slave, m.fifo);
    var (t, c) := Run(s, Commands(Unissued(m)));
    && |m.fifo| <= FIFO_DEPTH && (m.phase == Issue ==> |m.fifo| < FIFO_DEPTH && m.todo != [])
    && |m.rx| + |b| == (if m.phase == Collect then 1 else 0)
    && (m.phase == Collect ==> m.todo != [] && m.todo[0].Receive?)
    && Legal(Unissued(m), Shape(s.mode))
    && t == final.0 && m.got + (m.rx + b) + c == final.1
  }

  lemma InitialInv(s: Slave, ops: seq<Op>)
    requires Legal(ops, Shape(s.mode))
    ensures Inv(Initial(s, ops), Run(s, Commands(ops)))
  {
    var c := Run(s, Commands(ops)).1;
    assert [] + ([] + []) + c == c;
  }

  lemma CoreKeeps(m: System, n: System, final: (Slave, seq<byte>))
    requires Inv(m, final) && CoreStep(m, n)
    ensures Inv(n, final)
  {
    hide Exec, Legal;
    var (s, b) := Exec(m.slave, m.fifo[0]);
    var rest := Run(s, m.fifo[1..]).1;
    assert m.rx + (b + rest) == (m.rx + b) + rest;
  }

  /** Issuing a call moves its command from the calls to the FIFO. */
  lemma IssueKeeps(m: System, n: System, final: (Slave, seq<byte>))
    requires Inv(m, final) && m.phase == Issue && DriverStep(m, n)
    ensures Inv(n, final)
  {
    hide Exec;
    var op := m.todo[0];
    var (s, b) := Run(m.slave, m.fifo);
    var (s1, b1) := Exec(s, Command(op));
    var c := Run(s1, Commands(m.todo[1..])).1;
    RunConcat(m.slave, m.fifo, [Command(op)]);
    RunOne(s, Command(op));
    CommandEffect(s, op, m.todo);
    assert Commands(m.todo)[1..] == Commands(m.todo[1..]);
    assert m.got + (m.rx + b) + (b1 + c) == m.got + (m.rx + (b + b1)) + c;
  }

  /** A legal call answers with a byte exactly when it is a receive, and leaves a legal rest. */
  lemma CommandEffect(s: Slave, op: Op, ops: seq<Op>)
    requires ops != [] && ops[0] == op && Legal(ops, Shape(s.mode))
    ensures var (t, b) := Exec(s, Command(op));
            |b| == (if op.Receive? then 1 else 0) && Legal(ops[1..], Shape(t.mode))
  {
    match op
    case Start(read) => WordFields(true, false, HARDWARE_ADDRESS * 2 + if read then 1 else 0);
    case Send(data, stop) => WordFields(false, stop, data);
    case Receive(stop) => WordFields(false, stop, 0);
  }

  lemma CollectKeeps(m: System, n: System, final: (Slave, seq<byte>))
    requires Inv(m, final) && m.phase == Collect && DriverStep(m, n)
    ensures Inv(n, final)
  {
    hide Exec, Legal;
    var b := Run(m.slave, m.fifo).1;
    assert b == [] && m.rx == [m.rx[0]];
    assert m.got + (m.rx + b) == (m.got + [m.rx[0]]) + ([] + b);
  }

  /** Every step of either side keeps the invariant. */
  lemma NextKeeps(m: System, n: System, final: (Slave, seq<byte>))
    requires Inv(m, final) && Next(m, n)
    ensures Inv(n, final)
  {
    hide Exec, Legal, Run;
    if CoreStep(m, n) {
      CoreKeeps(m, n, final);
    } else if m.phase == Issue {
      IssueKeeps(m, n, final);
    } else if m.phase == Collect {
      CollectKeeps(m, n, final);
    }
  }

  ghost predicate IsRun(ms: seq<System>) {
    forall i :: 0 <= i < |ms| - 1 ==> Next(ms[i], ms[i + 1])
  }

  lemma {:induction false} RunInv(ms: seq<System>, s: Slave, ops: seq<Op>, i: nat)
    requires IsRun(ms) && i < |ms| && ms[0] == Initial(s, ops) && Legal(ops, Shape(s.mode))
    ensures Inv(ms[i], Run(s, Commands(ops)))
  {
    hide Inv, Legal, Run, Next;
    if i == 0 {
      InitialInv(s, ops);
    } else {
      RunInv(ms, s, ops, i - 1);
      NextKeeps(ms[i - 1], ms[i], Run(s, Commands(ops)));
    }
  }

  /**
   * Safety of all interleavings: the FIFO never exceeds its depth, at most one received byte
   * is outstanding, the bytes so far are a prefix of the sequential ones in their order, and
   * when everything is done slave and bytes are those of the sequential execution.
   */
  lemma EveryInterleaving(ms: seq<System>, s: Slave, ops: seq<Op>, i: nat)
    requires IsRun(ms) && i < |ms| && ms[0] == Initial(s, ops) && Legal(ops, Shape(s.mode))
    ensures var m := ms[i]; var (t, bytes) := Run(s, Commands(ops));
            && |m.fifo| <= 4
            && |m.rx| + |Run(m.slave, m.fifo).1| <= 1
            && m.got <= bytes
            && (m.todo == [] && m.fifo == [] ==> m.slave == t && m.got == bytes && m.rx == [])
  {
    hide Inv, Legal, Run, IsRun;
    RunInv(ms, s, ops, i);
    InvMeaning(ms[i], Run(s, Commands(ops)));
  }

  lemma InvMeaning(m: System, final: (Slave, seq<byte>))
    requires Inv(m, final)
    ensures |m.fifo| <= FIFO_DEPTH && |m.rx| + |Run(m.slave, m.fifo).1| <= 1 && m.got <= final.1
    ensures m.todo == [] && m.fifo == [] ==> m.slave == final.0 && m.got == final.1 && m.rx == []
  {
    hide Exec, Legal;
    var (s, b) := Run(m.slave, m.fifo);
    var c := Run(s, Commands(Unissued(m))).1;
    assert m.got + (m.rx + b) + c == m.got + ((m.rx + b) + c);
    if m.todo == [] && m.fifo == [] {
      assert m.got + (m.rx + b) + c == m.got;
    }
  }

  /** Nothing gets stuck: until all is done, one side can move. */
  lemma NoDeadlock(m: System, final: (Slave, seq<byte>))
    requires Inv(m, final) && !(m.todo == [] && m.fifo == [])
    ensures exists n :: Next(m, n)
  {
    hide Legal;
    if m.fifo != [] {
      var (s, b) := Exec(m.slave, m.fifo[0]);
      var n := m.(fifo := m.fifo[1..], slave := s, rx := m.rx + b);
      assert CoreStep(m, n) && Next(m, n);
    } else {
      assert Run(m.slave, m.fifo).1 == [];
      var op := m.todo[0];
      var p := m.(fifo := m.fifo + [Command(op)]);
      var n :=
        match m.phase
        case Poll => m.(phase := Issue)
        case Issue => if op.Receive? then p.(phase := Collect) else p.(todo := m.todo[1..], phase := Done(op))
        case Collect => m.(got := m.got + [m.rx[0]], rx := m.rx[1..], todo := m.todo[1..], phase := Done(op))
        case Settle => m.(phase := Poll);
      assert DriverStep(m, n) && Next(m, n);
    }
  }

  function Rank(m: System): nat {
    10 * |m.todo| + |m.fifo| +
    match m.phase case Settle => 7 case Poll => 6 case Issue => 5 case Collect => 3
  }

  lemma StepsDescend(m: System, n: System)
    requires Next(m, n)
    ensures Rank(n) < Rank(m)
  {
    hide Exec;
  }

  /**
   * At most ten steps a call and six more get anything done, whatever the pace of the two
   * sides; a poll that finds nothing changes nothing and is no step.
   */
  lemma {:induction false} RunsAreShort(ms: seq<System>, s: Slave, ops: seq<Op>, i: nat)
    requires IsRun(ms) && i < |ms| && ms[0] == Initial(s, ops)
    ensures i + Rank(ms[i]) <= 10 * |ops| + 6
  {
    hide Rank, Next;
    if i == 0 {
      assert Rank(Initial(s, ops)) == 10 * |ops| + 6 by { RankOfInitial(s, ops); }
    } else {
      RunsAreShort(ms, s, ops, i - 1);
      StepsDescend(ms[i - 1], ms[i]);
    }
  }

  lemma RankOfInitial(s: Slave, ops: seq<Op>)
    ensures Rank(Initial(s, ops)) == 10 * |ops| + 6
  {
  }
}
