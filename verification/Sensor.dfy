/** The VL53L1X driver: register accessors, burst read, timing budget, SPAD control, reading. */
module Sensor {
  import opened CTypes
  import opened Digits
  import opened I2c
  import opened I2cProtocol
  import opened Registers
  import opened Timing
  import opened Dss
  import opened Polling

  const VHV_CONFIG_TIMEOUT_MACROP_LOOP_BOUND: u16 := 0x0008
  const VHV_CONFIG_INIT: u16 := 0x000B
  const CAL_CONFIG_VCSEL_START: u16 := 0x0047
  const PHASECAL_CONFIG_TIMEOUT_MACROP: u16 := 0x004B
  const PHASECAL_CONFIG_OVERRIDE: u16 := 0x004D
  const DSS_CONFIG_MANUAL_EFFECTIVE_SPADS_SELECT: u16 := 0x0054
  const MM_CONFIG_TIMEOUT_MACROP_A: u16 := 0x005A
  const MM_CONFIG_TIMEOUT_MACROP_B: u16 := 0x005C
  const RANGE_CONFIG_TIMEOUT_MACROP_A: u16 := 0x005E
  const RANGE_CONFIG_VCSEL_PERIOD_A: u16 := 0x0060
  const RANGE_CONFIG_TIMEOUT_MACROP_B: u16 := 0x0061
  const RANGE_CONFIG_VCSEL_PERIOD_B: u16 := 0x0063
  const SYSTEM_INTERRUPT_CLEAR: u16 := 0x0086
  const RESULT_RANGE_STATUS: u16 := 0x0089
  const RESULT_STREAM_COUNT: u16 := 0x008B
  const RESULT_DSS_ACTUAL_EFFECTIVE_SPADS_SD0: u16 := 0x008C
  const RESULT_AMBIENT_COUNT_RATE_MCPS_SD0: u16 := 0x0090
  const RESULT_FINAL_RANGE_MM_SD0: u16 := 0x0096
  const RESULT_PEAK_SIGNAL_RATE_MCPS_SD0: u16 := 0x0098
  const PHASECAL_RESULT_VCSEL_START: u16 := 0x00D8

  datatype ResultBuffer = ResultBuffer(range_status: byte, stream_count: byte, effective_spads: u16,
                                       ambient_rate: u16, final_range_mm: u16, peak_rate: u16)

  function Reg16(regs: RegFile, reg: u16): u16 { Value16(Fetch(regs, reg, 2)) }
  function Reg32(regs: RegFile, reg: u16): u32 { Value32(Fetch(regs, reg, 4)) }

  /** What simple register reads of the result block give. */
  function ResultsOf(regs: RegFile): ResultBuffer {
    ResultBuffer(regs[RESULT_RANGE_STATUS], regs[RESULT_STREAM_COUNT],
                 Reg16(regs, RESULT_DSS_ACTUAL_EFFECTIVE_SPADS_SD0), Reg16(regs, RESULT_AMBIENT_COUNT_RATE_MCPS_SD0),
                 Reg16(regs, RESULT_FINAL_RANGE_MM_SD0), Reg16(regs, RESULT_PEAK_SIGNAL_RATE_MCPS_SD0))
  }

  class Vl53l1x {
    const core: I2cCore
    var fast_osc_frequency: u16
    var results: ResultBuffer
    var range_mm: u16
    var calibrated: bool
    var did_timeout: bool
    var saved_vhv_init: byte
    var saved_vhv_timeout: byte
    var timeout_start_ms: u16
    var io_timeout: u16
    ghost var calibrations: nat  // how often manual calibration was set up

    constructor (c: I2cCore, f: u16)
      ensures core == c && fast_osc_frequency == f
      ensures !calibrated && !did_timeout && io_timeout == 1000 && calibrations == 0
    {
      core := c;
      fast_osc_frequency := f;
      results := ResultBuffer(0, 0, 0, 0, 0, 0);
      range_mm, timeout_start_ms, io_timeout := 0, 0, 1000;
      saved_vhv_init, saved_vhv_timeout := 0, 0;
      calibrated, did_timeout, calibrations := false, false, 0;
    }

    ghost predicate Ready()
      reads this, core
    {
      core.Quiet() && core.Settled().mode == Idle
    }

    ghost function Regs(): RegFile
      reads this, core
    {
      core.Settled().regs
    }

    // ---- Transactions ----

    /** Address the sensor for writing and send the register index. */
    method SendIndex(reg: u16, stop: bool)
      requires core.Quiet()
      modifies core
      ensures core.Quiet()
      ensures core.Settled() == Slave(old(Regs()), reg, if stop then Idle else Writing)
      ensures core.log == old(core.log) + IndexWords(reg, stop)
    {
      hide Exec, Run;
      ExecAddress(core.Settled(), false);
      core.StartTransmit(HARDWARE_ADDRESS, 0);
      ExecSend(core.Settled(), High(reg), false);
      core.Write(High(reg), false);
      ExecSend(core.Settled(), Low(reg), stop);
      core.Write(Low(reg), stop);
    }

    method WriteReg(reg: u16, value: byte)
      requires Ready()
      modifies core
      ensures Ready() && Regs() == Store(old(Regs()), reg, [value])
      ensures core.log == old(core.log) + Commands(WriteOps(reg, [value]))
    {
      hide Exec, Run, IndexWords;
      SendIndex(reg, false);
      ExecSend(core.Settled(), value, true);
      core.Write(value, true);
      WriteWords(reg, [value]);
      SendWords(value, []);
    }

    method WriteReg16Bit(reg: u16, value: u16)
      requires Ready()
      modifies core
      ensures Ready() && Regs() == Store(old(Regs()), reg, BigEndian16(value))
      ensures core.log == old(core.log) + Commands(WriteOps(reg, BigEndian16(value)))
    {
      hide Exec, Run, IndexWords, Store, Commands, WriteOps, SendAll;
      StoreTwo(Regs(), reg, High(value), Low(value));
      SendIndex(reg, false);
      ExecSend(core.Settled(), High(value), false);
      core.Write(High(value), false);
      ExecSend(core.Settled(), Low(value), true);
      core.Write(Low(value), true);
      WriteWords(reg, BigEndian16(value));
      SendWords(High(value), [Low(value)]);
      SendWords(Low(value), []);
      EmptyWords();
      assert [Low(value)] + [] == [Low(value)];
      assert [High(value)] + [Low(value)] == BigEndian16(value) && BigEndian16(value)[1..] == [Low(value)];
    }

    method WriteReg32Bit(reg: u16, value: u32)
      requires Ready()
      modifies core
      ensures Ready() && Regs() == Store(old(Regs()), reg, BigEndian32(value))
      ensures core.log == old(core.log) + Commands(WriteOps(reg, BigEndian32(value)))
    {
      hide Exec, Run, IndexWords, Store, Commands, WriteOps, SendAll;
      ghost var b := BigEndian32(value);
      ghost var next: int := ToU16(reg + 1);
      ghost var third: int := ToU16(reg + 2);
      assert ToU16(next + 1) == third && ToU16(third + 1) == ToU16(reg + 3);
      StoreFour(Regs(), reg, b);
      SendIndex(reg, false);
      ExecSend(core.Settled(), b[0], false);
      core.Write(value / 0x100_0000, false);
      ExecSend(core.Settled(), b[1], false);
      core.Write(value / 0x1_0000 % 0x100, false);
      ExecSend(core.Settled(), b[2], false);
      core.Write(value / 0x100 % 0x100, false);
      ExecSend(core.Settled(), b[3], true);
      core.Write(value % 0x100, true);
      FourWords(reg, b);
    }

    /** n bytes of a read at reg have come in, none of them with a stop. */
    ghost predicate InBurst(regs: RegFile, reg: u16, n: nat, base: seq<word>)
      reads this, core
    {
      && core.Quiet() && core.Settled() == Slave(regs, ToU16(reg + n), Reading)
      && core.log == base + IndexWords(reg, true) + [Command(Start(true))] + Burst(n)
    }

    /** Send the index and address the sensor for reading. */
    method RequestFrom(reg: u16)
      requires core.Quiet()
      modifies core
      ensures InBurst(old(Regs()), reg, 0, old(core.log))
    {
      hide Exec, Run, IndexWords;
      SendIndex(reg, true);
      ExecAddress(core.Settled(), true);
      core.StartTransmit(HARDWARE_ADDRESS, 1);
    }

    method ReadNext(ghost regs: RegFile, ghost reg: u16, ghost n: nat, ghost base: seq<word>) returns (b: byte)
      requires InBurst(regs, reg, n, base)
      modifies core
      ensures InBurst(regs, reg, n + 1, base) && b == regs[ToU16(reg + n)]
    {
      hide Exec, Run, IndexWords;
      ExecReceive(core.Settled(), false);
      b := core.Read(false);
      assert ToU16(ToU16(reg + n) + 1) == ToU16(reg + (n + 1));
      assert Burst(n) + [Command(Receive(false))] == Burst(n + 1);
    }

    method ReadLast(ghost regs: RegFile, ghost reg: u16, ghost n: nat, ghost base: seq<word>) returns (b: byte)
      requires InBurst(regs, reg, n, base)
      modifies core
      ensures Ready() && core.Settled() == Slave(regs, ToU16(reg + (n + 1)), Idle) && b == regs[ToU16(reg + n)]
      ensures core.log == base + Commands(ReadOps(reg, n + 1))
    {
      hide Exec, Run, IndexWords;
      ExecReceive(core.Settled(), true);
      b := core.Read(true);
      assert ToU16(ToU16(reg + n) + 1) == ToU16(reg + (n + 1));
      ReadWords(reg, n + 1);
    }

    method ReadReg(reg: u16) returns (value: byte)
      requires Ready()
      modifies core
      ensures Ready() && Regs() == old(Regs()) && value == Regs()[reg]
      ensures core.log == old(core.log) + Commands(ReadOps(reg, 1))
    {
      hide InBurst, Commands, ReadOps, Run, Exec;
      ghost var regs, base := Regs(), core.log;
      RequestFrom(reg);
      value := ReadLast(regs, reg, 0, base);
    }

    method ReadReg16Bit(reg: u16) returns (value: u16)
      requires Ready()
      modifies core
      ensures Ready() && Regs() == old(Regs()) && value == Reg16(Regs(), reg)
      ensures core.log == old(core.log) + Commands(ReadOps(reg, 2))
    {
      hide InBurst, Commands, ReadOps, Fetch, Run, Exec;
      ghost var regs, base := Regs(), core.log;
      RequestFrom(reg);
      var high := ReadNext(regs, reg, 0, base);
      var low := ReadLast(regs, reg, 1, base);
      Fetch16(regs, reg, 0, 2);
      value := Join(high, low);
    }

    method ReadReg32Bit(reg: u16) returns (value: u32)
      requires Ready()
      modifies core
      ensures Ready() && Regs() == old(Regs()) && value == Reg32(Regs(), reg)
      ensures core.log == old(core.log) + Commands(ReadOps(reg, 4))
    {
      hide InBurst, Commands, ReadOps, Fetch, Run, Exec;
      ghost var regs, base := Regs(), core.log;
      RequestFrom(reg);
      var b3 := ReadNext(regs, reg, 0, base);
      var b2 := ReadNext(regs, reg, 1, base);
      var b1 := ReadNext(regs, reg, 2, base);
      var b0 := ReadLast(regs, reg, 3, base);
      FetchAt(regs, reg, 4, 0);
      FetchAt(regs, reg, 4, 1);
      FetchAt(regs, reg, 4, 2);
      FetchAt(regs, reg, 4, 3);
      value := Value32([b3, b2, b1, b0]);
      assert Fetch(regs, reg, 4) == [b3, b2, b1, b0];
    }

    /** Two bytes of a burst, the high one first. */
    method ReadPair(ghost regs: RegFile, ghost reg: u16, ghost n: nat, ghost base: seq<word>) returns (v: u16)
      requires InBurst(regs, reg, n, base)
      modifies core
      ensures InBurst(regs, reg, n + 2, base) && v == Join(regs[ToU16(reg + n)], regs[ToU16(reg + (n + 1))])
    {
      hide InBurst, Join, ToU16;
      var high := ReadNext(regs, reg, n, base);
      var low := ReadNext(regs, reg, n + 1, base);
      assert n + 1 + 1 == n + 2;
      v := Join(high, low);
    }

    /** Status, stream count, SPAD count and ambient rate: bytes 0 to 8 of the result burst. */
    method ReadHead(ghost regs: RegFile, ghost r: u16, ghost base: seq<word>)
      returns (status: byte, count: byte, spads: u16, ambient: u16)
      requires InBurst(regs, r, 0, base)
      modifies core
      ensures InBurst(regs, r, 9, base)
      ensures status == regs[ToU16(r + 0)] && count == regs[ToU16(r + 2)]
      ensures spads == Join(regs[ToU16(r + 3)], regs[ToU16(r + 4)])
      ensures ambient == Join(regs[ToU16(r + 7)], regs[ToU16(r + 8)])
    {
      hide InBurst, Join, ToU16;
      status := ReadNext(regs, r, 0, base);
      var unused := ReadNext(regs, r, 1, base);  // report status
      count := ReadNext(regs, r, 2, base);
      spads := ReadPair(regs, r, 3, base);
      var skipped := ReadPair(regs, r, 5, base);  // peak signal rate
      ambient := ReadPair(regs, r, 7, base);
    }

    /** Range and corrected peak rate: bytes 9 to 16 of the result burst. */
    method ReadTail(ghost regs: RegFile, ghost r: u16, ghost base: seq<word>) returns (range: u16, peak: u16)
      requires InBurst(regs, r, 9, base)
      modifies core
      ensures Ready() && core.Settled() == Slave(regs, ToU16(r + 17), Idle)
      ensures core.log == base + Commands(ReadOps(r, 17))
      ensures range == Join(regs[ToU16(r + 13)], regs[ToU16(r + 14)])
      ensures peak == Join(regs[ToU16(r + 15)], regs[ToU16(r + 16)])
    {
      hide InBurst, Commands, ReadOps, Join, ToU16;
      var skipped := ReadPair(regs, r, 9, base);  // sigma
      skipped := ReadPair(regs, r, 11, base);  // phase
      range := ReadPair(regs, r, 13, base);
      var high := ReadNext(regs, r, 15, base);
      var low := ReadLast(regs, r, 16, base);
      peak := Join(high, low);
    }

    /** The 17-byte burst over the result registers. */
    method ReadResults()
      requires Ready()
      modifies this`results, core
      ensures Ready() && Regs() == old(Regs()) && core.Settled().ptr == RESULT_RANGE_STATUS + 17
      ensures results == ResultsOf(Regs())
      ensures core.log == old(core.log) + Commands(ReadOps(RESULT_RANGE_STATUS, 17))
    {
      hide InBurst, Commands, ReadOps, Fetch, Run, Exec, ResultsOf, Join;
      ghost var regs, base := Regs(), core.log;
      RequestFrom(RESULT_RANGE_STATUS);
      var status, count, spads, ambient := ReadHead(regs, RESULT_RANGE_STATUS, base);
      var range, peak := ReadTail(regs, RESULT_RANGE_STATUS, base);
      results := ResultBuffer(status, count, spads, ambient, range, peak);
      BurstResults(regs);
    }

    // ---- Timing budget ----

    /**
     * Set the timing budget. A budget outside the guard changes nothing. The source divides by
     * the oscillator frequency and by both macro periods without a check: where one of them is
     * 0 the call ends in that division, with the writes made before it.
     */
    method SetMeasurementTimingBudget(budget_us: u32) returns (end: BudgetEnd)
      requires Ready()
      modifies core
      ensures Ready() && end == BudgetEndOf(old(Regs()), budget_us, fast_osc_frequency)
      ensures end == Refused ==> core.log == old(core.log) && core.Settled() == old(core.Settled())
      ensures Regs() == BudgetEffect(old(Regs()), budget_us, fast_osc_frequency)
    {
      hide Fetch, Store, MacroPeriod, EncodeTimeout, MicrosecondsToMclks, Commands, WriteOps, ReadOps, TimingARegs;
      hide TimingBRegs;
      if budget_us <= TIMING_GUARD { return Refused; }
      var range_config_timeout_us: u32 := budget_us - TIMING_GUARD;
      if range_config_timeout_us > 1100000 { return Refused; }
      range_config_timeout_us := range_config_timeout_us / 2;

      ghost var r0 := Regs();
      var period := ReadReg(RANGE_CONFIG_VCSEL_PERIOD_A);
      if fast_osc_frequency == 0 { return DividesByZero; }
      var macro := MacroPeriod(period, fast_osc_frequency);
      if macro == 0 { return DividesByZero; }
      SetTimingA(budget_us, range_config_timeout_us, macro);
      TimingAAt(r0, budget_us, macro, RANGE_CONFIG_VCSEL_PERIOD_B);
      period := ReadReg(RANGE_CONFIG_VCSEL_PERIOD_B);
      macro := MacroPeriod(period, fast_osc_frequency);
      if macro == 0 { return DividesByZero; }
      SetTimingB(budget_us, range_config_timeout_us, macro);
      end := Done;
    }

    method SetTimingA(ghost budget_us: u32, timeout_us: u32, macro: u32)
      requires Ready() && budget_us > TIMING_GUARD && timeout_us == RangeTimeout(budget_us) && macro != 0
      modifies core
      ensures Ready() && Regs() == TimingARegs(old(Regs()), budget_us, macro)
    {
      hide Store, EncodeTimeout, MicrosecondsToMclks, Commands, WriteOps;
      var phasecal := MicrosecondsToMclks(1000, macro);
      if phasecal > 0xFF { phasecal := 0xFF; }
      WriteReg(PHASECAL_CONFIG_TIMEOUT_MACROP, phasecal);
      var code := Encode(MicrosecondsToMclks(1, macro));
      WriteReg16Bit(MM_CONFIG_TIMEOUT_MACROP_A, code);
      code := Encode(MicrosecondsToMclks(timeout_us, macro));
      WriteReg16Bit(RANGE_CONFIG_TIMEOUT_MACROP_A, code);
    }

    method SetTimingB(ghost budget_us: u32, timeout_us: u32, macro: u32)
      requires Ready() && budget_us > TIMING_GUARD && timeout_us == RangeTimeout(budget_us) && macro != 0
      modifies core
      ensures Ready() && Regs() == TimingBRegs(old(Regs()), budget_us, macro)
    {
      hide Store, EncodeTimeout, MicrosecondsToMclks, Commands, WriteOps;
      var code := Encode(MicrosecondsToMclks(1, macro));
      WriteReg16Bit(MM_CONFIG_TIMEOUT_MACROP_B, code);
      code := Encode(MicrosecondsToMclks(timeout_us, macro));
      WriteReg16Bit(RANGE_CONFIG_TIMEOUT_MACROP_B, code);
    }

    // ---- Reading measurements ----

    /** Dynamic SPAD selection: exactly one register write. */
    method UpdateDSS()
      requires Ready()
      modifies core
      ensures Ready()
      ensures var v := RequiredSpads(results.effective_spads, results.peak_rate, results.ambient_rate);
              && Regs() == Store(old(Regs()), 0x54, BigEndian16(v))
              && core.log == old(core.log) + Commands(WriteOps(0x54, BigEndian16(v)))
    {
      hide Store, Commands, WriteOps;
      var spadCount := results.effective_spads;
      if spadCount != 0 {
        var totalRatePerSpad: u32 := results.peak_rate + results.ambient_rate;
        if totalRatePerSpad > 0xFFFF { totalRatePerSpad := 0xFFFF; }
        totalRatePerSpad := ToU32(totalRatePerSpad * 0x1_0000);
        totalRatePerSpad := Quotient(totalRatePerSpad, spadCount);
        if totalRatePerSpad != 0 {
          var requiredSpads := Quotient(ToU32(TARGET_RATE * 0x1_0000), totalRatePerSpad);
          if requiredSpads > 0xFFFF { requiredSpads := 0xFFFF; }
          WriteReg16Bit(DSS_CONFIG_MANUAL_EFFECTIVE_SPADS_SELECT, requiredSpads);
          return;
        }
      }
      WriteReg16Bit(DSS_CONFIG_MANUAL_EFFECTIVE_SPADS_SELECT, MID_POINT);
    }

    /** Keep the calibration of the first measurement from now on. */
    method SetupManualCalibration()
      requires Ready()
      modifies core, `saved_vhv_init, `saved_vhv_timeout, `calibrations
      ensures Ready() && Regs() == CalibratedRegs(old(Regs()))
      ensures saved_vhv_init == old(Regs())[0x0B] && saved_vhv_timeout == old(Regs())[0x08]
      ensures calibrations == old(calibrations) + 1
      ensures core.log == old(core.log) + CalibrationWords(old(Regs()))
    {
      hide Store, Commands, WriteOps, ReadOps, CalibrationWords;
      ghost var regs, base := Regs(), core.log;
      CalibrationLog(base, regs);
      saved_vhv_init := ReadReg(VHV_CONFIG_INIT);
      saved_vhv_timeout := ReadReg(VHV_CONFIG_TIMEOUT_MACROP_LOOP_BOUND);
      WriteReg(VHV_CONFIG_INIT, saved_vhv_init % 0x80);
      WriteReg(VHV_CONFIG_TIMEOUT_MACROP_LOOP_BOUND, saved_vhv_timeout % 4 + 12);
      WriteReg(PHASECAL_CONFIG_OVERRIDE, 0x01);
      VcselStartKept(regs);
      var start := ReadReg(PHASECAL_RESULT_VCSEL_START);
      WriteReg(CAL_CONFIG_VCSEL_START, start);
      calibrations := calibrations + 1;
    }

    /** The sensor publishes new register contents while the bus is at rest. */
    method SensorUpdates(regs: RegFile)
      requires Ready()
      modifies core
      ensures Ready() && Regs() == regs
    {
      core.Rest();
      core.slave := core.slave.(regs := regs);
    }

    /** A look at the status register finds new data (the interrupt line is active low). */
    method DataReady() returns (ready: bool)
      requires Ready()
      modifies core
      ensures Ready() && Regs() == old(Regs()) && ready == IsReady(Regs()) == (Regs()[0x31] % 2 == 0)
    {
      var status := ReadReg(GPIO_TIO_HV_STATUS);
      ready := status % 2 == 0;
    }

    method TimeoutOccurred() returns (occurred: bool)
      modifies `did_timeout
      ensures occurred == old(did_timeout) && !did_timeout
    {
      occurred := did_timeout;
      did_timeout := false;
    }

    /** A look at the status register after the sensor has published regs. */
    method Look(regs: RegFile) returns (ready: bool)
      requires Ready()
      modifies core
      ensures Ready() && Regs() == regs && ready == IsReady(regs)
    {
      hide IsReady;
      SensorUpdates(regs);
      ready := DataReady();
    }

    /**
     * The blocking wait. start is the clock at its beginning; the samples are what the sensor
     * publishes and what the clock shows during its passes.
     */
    method AwaitData(start: nat, samples: seq<Sample>) returns (outcome: Outcome)
      requires Ready()
      modifies core, `timeout_start_ms, `did_timeout
      ensures Ready() && timeout_start_ms == ToU16(start)
      ensures outcome == Wait(samples, ToU16(start), io_timeout, 0)
      ensures did_timeout == (old(did_timeout) || outcome.GaveUp?)
      ensures Regs() == Seen(Call(old(Regs()), true, samples, start), io_timeout)
    {
      timeout_start_ms := ToU16(start);
      var k := 0;
      while k < |samples|
        invariant 0 <= k <= |samples| && Ready()
        invariant timeout_start_ms == ToU16(start) && did_timeout == old(did_timeout)
        invariant Wait(samples, ToU16(start), io_timeout, 0) == Wait(samples, ToU16(start), io_timeout, k)
        invariant Regs() == if k == 0 then old(Regs()) else samples[k - 1].regs
      {
        var ready := Look(samples[k].regs);
        if ready { return Outcome.Ready(k); }
        if io_timeout > 0 && ToU16(samples[k].now - timeout_start_ms) > io_timeout {
          did_timeout := true;
          return GaveUp(k);
        }
        k := k + 1;
      }
      outcome := Waiting;
    }

    /** What follows the wait: results, calibration in the first round, control, range, clear. */
    method Process() returns (range: u16)
      requires Ready()
      modifies core, `results, `range_mm, `calibrated, `saved_vhv_init, `saved_vhv_timeout, `calibrations
      ensures Ready() && results == ResultsOf(old(Regs()))
      ensures range == range_mm == CorrectedRange(results.final_range_mm)
      ensures calibrated && calibrations == old(calibrations) + if old(calibrated) then 0 else 1
      ensures old(calibrated) ==>
                saved_vhv_init == old(saved_vhv_init) && saved_vhv_timeout == old(saved_vhv_timeout)
      ensures !old(calibrated) ==>
                saved_vhv_init == old(Regs())[0x0B] && saved_vhv_timeout == old(Regs())[0x08]
      ensures Regs() == ProcessedRegs(old(Regs()), old(calibrated))
      ensures core.log == old(core.log) + ProcessWords(old(Regs()), old(calibrated))
    {
      hide Store, ResultsOf, Commands, WriteOps, ReadOps, CorrectedRange, RequiredSpads, CalibratedRegs;
      hide CalibrationWords;
      ghost var regs, base := Regs(), core.log;
      ReadResults();
      if !calibrated {
        SetupManualCalibration();
        calibrated := true;
      }
      UpdateDSS();
      range_mm := CorrectedRange(results.final_range_mm);
      ClearWords();
      WriteReg(SYSTEM_INTERRUPT_CLEAR, 0x01);
      range := range_mm;
      assert core.log == base + ProcessWords(regs, old(calibrated));
    }

    /**
     * Read a measurement. The results are those the sensor has published by the ready poll, or
     * by the call when it does not wait. A measurement that is processed has its interrupt
     * cleared, and nothing goes out behind that. done is false while the wait outlasts the samples.
     */
    method Read(blocking: bool, start: nat, samples: seq<Sample>) returns (done: bool, range: u16)
      requires Ready()
      modifies core, `results, `range_mm, `calibrated, `saved_vhv_init, `saved_vhv_timeout, `calibrations
      modifies `timeout_start_ms, `did_timeout
      ensures Ready()
      ensures var c := Call(old(Regs()), blocking, samples, start); var seen := Seen(c, io_timeout);
              && done == Returns(c, io_timeout)
              && did_timeout == (old(did_timeout) || (done && !Completes(c, io_timeout)))
              && calibrated == (old(calibrated) || Completes(c, io_timeout))
              && calibrations == old(calibrations) + (if calibrated && !old(calibrated) then 1 else 0)
              && (Completes(c, io_timeout) ==>
                    && results == ResultsOf(seen) && range == CorrectedRange(results.final_range_mm)
                    && Regs() == ProcessedRegs(seen, old(calibrated)) && Regs()[0x86] == 1
                    && EndsWith(core.log, ProcessWords(seen, old(calibrated)))
                    && EndsWith(core.log, [0x252, 0x000, 0x086, 0x101]))
              && (!Completes(c, io_timeout) ==> range == 0 && results == old(results) && Regs() == seen)
    {
      hide Wait, CorrectedRange, ProcessedRegs, ResultsOf, ProcessWords;
      done, range := true, 0;
      if blocking {
        var outcome := AwaitData(start, samples);
        if !outcome.Ready? {
          return outcome.GaveUp?, 0;
        }
      }
      ProcessedAt(Regs(), calibrated, 0x86);
      ClearLast(Regs(), calibrated, core.log);
      range := Process();
    }

    /** One read of a run: the sensor publishes, then the driver reads. */
    method ReadCall(c: Call) returns (done: bool)
      requires Ready()
      modifies core, this
      ensures Ready() && io_timeout == old(io_timeout) && done == Returns(c, io_timeout)
      ensures calibrated == (old(calibrated) || Completes(c, io_timeout))
      ensures calibrations == old(calibrations) + if calibrated && !old(calibrated) then 1 else 0
    {
      hide Completes, Returns, Seen, ProcessedRegs, ResultsOf, CorrectedRange;
      SensorUpdates(c.before);
      var range;
      done, range := Read(c.blocking, c.t0, c.samples);
      assert c == Call(c.before, c.blocking, c.samples, c.t0);
    }

    /**
     * A run of reads, up to the first one that does not come back; n of them have begun. Manual
     * calibration is set up exactly in the first read that completes, if the sensor was not
     * calibrated before: counts lists how often it was set up before each read.
     */
    method ReadRun(calls: seq<Call>) returns (n: nat, ghost counts: seq<nat>)
      requires Ready()
      modifies core, this
      ensures Ready() && io_timeout == old(io_timeout) && n <= |calls|
      ensures forall i :: 0 <= i < n - 1 ==> Returns(calls[i], io_timeout)
      ensures n < |calls| ==> n > 0 && !Returns(calls[n - 1], io_timeout)
      ensures calibrated == CalibratedAfter(calls[..n], io_timeout, old(calibrated))
      ensures Counted(counts, calls, n, io_timeout, old(calibrated))
      ensures counts[0] == old(calibrations) && counts[n] == calibrations
      ensures calibrations == old(calibrations) + if calibrated && !old(calibrated) then 1 else 0
    {
      hide Completes, Returns, CalibratedAfter, Calibrates;
      FlagStart(calls, io_timeout, calibrated);
      n, counts := 0, [calibrations];
      var going := true;
      while n < |calls| && going
        invariant Ready() && io_timeout == old(io_timeout) && n <= |calls|
        invariant forall i :: 0 <= i < n - 1 ==> Returns(calls[i], io_timeout)
        invariant n > 0 ==> going == Returns(calls[n - 1], io_timeout)
        invariant n == 0 ==> going
        invariant calibrated == CalibratedAfter(calls[..n], io_timeout, old(calibrated))
        invariant Counted(counts, calls, n, io_timeout, old(calibrated))
        invariant counts[0] == old(calibrations) && counts[n] == calibrations
        invariant calibrations == old(calibrations) + if calibrated && !old(calibrated) then 1 else 0
      {
        going := ReadCall(calls[n]);
        RunStep(calls, n, io_timeout, old(calibrated));
        CountStep(counts, calls, n, io_timeout, old(calibrated), calibrations);
        counts := counts + [calibrations];
        n := n + 1;
      }
    }
  }

  lemma FourWords(reg: u16, b: seq<byte>)
    requires |b| == 4
    ensures Commands(WriteOps(reg, b)) ==
            IndexWords(reg, false) + [Command(Send(b[0], false)), Command(Send(b[1], false)),
                                      Command(Send(b[2], false)), Command(Send(b[3], true))]
  {
    hide WriteOps, SendAll, Commands, IndexWords;
    WriteWords(reg, b);
    SendWords(b[0], b[1..]);
    SendWords(b[1], b[2..]);
    SendWords(b[2], b[3..]);
    SendWords(b[3], []);
    EmptyWords();
    assert [b[0]] + b[1..] == b && [b[1]] + b[2..] == b[1..] && [b[2]] + b[3..] == b[2..] && b[3..] == [b[3]] + [];
  }

  // ---- Register effects ----

  function TimingARegs(regs: RegFile, budget_us: u32, macro: u32): RegFile
    requires budget_us > TIMING_GUARD && macro != 0
  {
    var r1 := Store(regs, PHASECAL_CONFIG_TIMEOUT_MACROP, [Min(MicrosecondsToMclks(1000, macro), 0xFF)]);
    var r2 := Store(r1, MM_CONFIG_TIMEOUT_MACROP_A, BigEndian16(EncodeTimeout(MicrosecondsToMclks(1, macro))));
    Store(r2, RANGE_CONFIG_TIMEOUT_MACROP_A,
          BigEndian16(EncodeTimeout(MicrosecondsToMclks(RangeTimeout(budget_us), macro))))
  }

  function TimingBRegs(regs: RegFile, budget_us: u32, macro: u32): RegFile
    requires budget_us > TIMING_GUARD && macro != 0
  {
    var r1 := Store(regs, MM_CONFIG_TIMEOUT_MACROP_B, BigEndian16(EncodeTimeout(MicrosecondsToMclks(1, macro))));
    Store(r1, RANGE_CONFIG_TIMEOUT_MACROP_B,
          BigEndian16(EncodeTimeout(MicrosecondsToMclks(RangeTimeout(budget_us), macro))))
  }

  /** The registers after an accepted budget: timing A and B, each from its own VCSEL period. */
  function BudgetRegs(regs: RegFile, budget_us: u32, f: u16): RegFile
    requires budget_us > TIMING_GUARD && f != 0
    requires MacroPeriod(regs[RANGE_CONFIG_VCSEL_PERIOD_A], f) != 0
    requires MacroPeriod(regs[RANGE_CONFIG_VCSEL_PERIOD_B], f) != 0
  {
    TimingBRegs(TimingARegs(regs, budget_us, MacroPeriod(regs[RANGE_CONFIG_VCSEL_PERIOD_A], f)), budget_us,
                MacroPeriod(regs[RANGE_CONFIG_VCSEL_PERIOD_B], f))
  }

  // How setting a budget ends; DividesByZero is undefined in C.
  datatype BudgetEnd = Refused | DividesByZero | Done

  predicate ZeroPeriod(period: byte, f: u16) { f == 0 || MacroPeriod(period, f) == 0 }

  function BudgetEndOf(regs: RegFile, budget_us: u32, f: u16): BudgetEnd {
    if !Accepted(budget_us) then Refused
    else if ZeroPeriod(regs[RANGE_CONFIG_VCSEL_PERIOD_A], f) || ZeroPeriod(regs[RANGE_CONFIG_VCSEL_PERIOD_B], f)
    then DividesByZero
    else Done
  }

  /** The registers when the call ends, after all writes or at the failing division. */
  function BudgetEffect(regs: RegFile, budget_us: u32, f: u16): RegFile {
    if !Accepted(budget_us) || ZeroPeriod(regs[RANGE_CONFIG_VCSEL_PERIOD_A], f) then regs
    else if ZeroPeriod(regs[RANGE_CONFIG_VCSEL_PERIOD_B], f)
    then TimingARegs(regs, budget_us, MacroPeriod(regs[RANGE_CONFIG_VCSEL_PERIOD_A], f))
    else BudgetRegs(regs, budget_us, f)
  }

  function CalibratedRegs(regs: RegFile): RegFile {
    var r1 := Store(regs, VHV_CONFIG_INIT, [regs[VHV_CONFIG_INIT] % 0x80]);
    var r2 := Store(r1, VHV_CONFIG_TIMEOUT_MACROP_LOOP_BOUND, [regs[VHV_CONFIG_TIMEOUT_MACROP_LOOP_BOUND] % 4 + 12]);
    var r3 := Store(r2, PHASECAL_CONFIG_OVERRIDE, [0x01]);
    Store(r3, CAL_CONFIG_VCSEL_START, [r3[PHASECAL_RESULT_VCSEL_START]])
  }

  function ProcessedRegs(regs: RegFile, calibrated: bool): RegFile {
    var r := ResultsOf(regs);
    var r1 := if calibrated then regs else CalibratedRegs(regs);
    var r2 := Store(r1, DSS_CONFIG_MANUAL_EFFECTIVE_SPADS_SELECT,
                    BigEndian16(RequiredSpads(r.effective_spads, r.peak_rate, r.ambient_rate)));
    Store(r2, SYSTEM_INTERRUPT_CLEAR, [0x01])
  }

  /** (high << 8) | low */
  function Join(high: byte, low: byte): u16 { Value16([high, low]) }

  /**
   * Address a after an accepted budget with a period for timing A: one of the writes, or as
   * before. The writes of timing B are made if there is a period for it as well.
   */
  lemma BudgetAt(regs: RegFile, budget_us: u32, f: u16, a: u16)
    requires Accepted(budget_us) && f != 0 && MacroPeriod(regs[0x60], f) != 0
    ensures var macroA, macroB := MacroPeriod(regs[0x60], f), MacroPeriod(regs[0x63], f);
            BudgetEffect(regs, budget_us, f)[a] ==
            (if a == 0x4B then Min(MicrosecondsToMclks(1000, macroA), 0xFF)
             else if a == 0x5A then High(EncodeTimeout(MicrosecondsToMclks(1, macroA)))
             else if a == 0x5B then Low(EncodeTimeout(MicrosecondsToMclks(1, macroA)))
             else if a == 0x5E then High(RangeCode(budget_us, regs[0x60], f))
             else if a == 0x5F then Low(RangeCode(budget_us, regs[0x60], f))
             else if macroB == 0 then regs[a]
             else if a == 0x5C then High(EncodeTimeout(MicrosecondsToMclks(1, macroB)))
             else if a == 0x5D then Low(EncodeTimeout(MicrosecondsToMclks(1, macroB)))
             else if a == 0x61 then High(RangeCode(budget_us, regs[0x63], f))
             else if a == 0x62 then Low(RangeCode(budget_us, regs[0x63], f))
             else regs[a])
  {
    hide Store, EncodeTimeout, MicrosecondsToMclks, MacroPeriod, TimingARegs, TimingBRegs, BigEndian16;
    var macroA, macroB := MacroPeriod(regs[0x60], f), MacroPeriod(regs[0x63], f);
    var r := TimingARegs(regs, budget_us, macroA);
    TimingAAt(regs, budget_us, macroA, a);
    if macroB != 0 { TimingBAt(r, budget_us, macroB, a); }
  }

  lemma TimingAAt(regs: RegFile, budget_us: u32, macro: u32, a: u16)
    requires budget_us > TIMING_GUARD && macro != 0
    ensures TimingARegs(regs, budget_us, macro)[a] ==
            (if a == 0x4B then Min(MicrosecondsToMclks(1000, macro), 0xFF)
             else if a == 0x5A then High(EncodeTimeout(MicrosecondsToMclks(1, macro)))
             else if a == 0x5B then Low(EncodeTimeout(MicrosecondsToMclks(1, macro)))
             else if a == 0x5E then High(EncodeTimeout(MicrosecondsToMclks(RangeTimeout(budget_us), macro)))
             else if a == 0x5F then Low(EncodeTimeout(MicrosecondsToMclks(RangeTimeout(budget_us), macro)))
             else regs[a])
  {
    hide Store, EncodeTimeout, MicrosecondsToMclks;
    var w1 := [Min(MicrosecondsToMclks(1000, macro), 0xFF)];
    var w2 := BigEndian16(EncodeTimeout(MicrosecondsToMclks(1, macro)));
    var w3 := BigEndian16(EncodeTimeout(MicrosecondsToMclks(RangeTimeout(budget_us), macro)));
    var r1 := Store(regs, PHASECAL_CONFIG_TIMEOUT_MACROP, w1);
    var r2 := Store(r1, MM_CONFIG_TIMEOUT_MACROP_A, w2);
    StoreAt(regs, PHASECAL_CONFIG_TIMEOUT_MACROP, w1, a);
    StoreAt(r1, MM_CONFIG_TIMEOUT_MACROP_A, w2, a);
    StoreAt(r2, RANGE_CONFIG_TIMEOUT_MACROP_A, w3, a);
  }

  lemma TimingBAt(regs: RegFile, budget_us: u32, macro: u32, a: u16)
    requires budget_us > TIMING_GUARD && macro != 0
    ensures TimingBRegs(regs, budget_us, macro)[a] ==
            (if a == 0x5C then High(EncodeTimeout(MicrosecondsToMclks(1, macro)))
             else if a == 0x5D then Low(EncodeTimeout(MicrosecondsToMclks(1, macro)))
             else if a == 0x61 then High(EncodeTimeout(MicrosecondsToMclks(RangeTimeout(budget_us), macro)))
             else if a == 0x62 then Low(EncodeTimeout(MicrosecondsToMclks(RangeTimeout(budget_us), macro)))
             else regs[a])
  {
    hide Store, EncodeTimeout, MicrosecondsToMclks;
    var w1 := BigEndian16(EncodeTimeout(MicrosecondsToMclks(1, macro)));
    var w2 := BigEndian16(EncodeTimeout(MicrosecondsToMclks(RangeTimeout(budget_us), macro)));
    StoreAt(regs, MM_CONFIG_TIMEOUT_MACROP_B, w1, a);
    StoreAt(Store(regs, MM_CONFIG_TIMEOUT_MACROP_B, w1), RANGE_CONFIG_TIMEOUT_MACROP_B, w2, a);
  }

  /**
   * What an accepted budget leaves on the sensor, for every mode's periods and every
   * oscillator frequency from 576 on: both range registers hold the code of half the time
   * behind the guard, in their own macro periods, both MM registers the code 0, the phase
   * calibration register 1000 us in macro periods, never cut to a byte; nothing else has changed.
   */
  lemma BudgetOnTheSensor(regs: RegFile, budget_us: u32, f: u16)
    requires 4528 < budget_us <= 1104528 && f >= 576
    requires regs[0x60] in {5, 7, 9, 11, 13, 15} && regs[0x63] in {5, 7, 9, 11, 13, 15}
    ensures BudgetEndOf(regs, budget_us, f) == Done
    ensures var r := BudgetEffect(regs, budget_us, f);
            && RangeRegisterMeans(r[0x5E], r[0x5F], (budget_us - 4528) / 2, regs[0x60], f)
            && RangeRegisterMeans(r[0x61], r[0x62], (budget_us - 4528) / 2, regs[0x63], f)
            && r[0x5A] == 0 && r[0x5B] == 0 && r[0x5C] == 0 && r[0x5D] == 0
            && PhasecalMeans(r[0x4B], regs[0x60], f)
            && forall a: u16 :: a != 0x4B && !(0x5A <= a <= 0x5F) && !(0x61 <= a <= 0x62) ==> r[a] == regs[a]
  {
    hide BudgetEffect, EncodeTimeout, MicrosecondsToMclks, MacroPeriod, RangeRegisterMeans, PhasecalMeans, RangeCode;
    AcceptedExactly(budget_us);
    RangeRegister(budget_us, regs[0x60], f);
    RangeRegister(budget_us, regs[0x63], f);
    var r := BudgetEffect(regs, budget_us, f);
    CodeOfZero();
    BudgetAt(regs, budget_us, f, 0x4B);
    BudgetAt(regs, budget_us, f, 0x5A);
    BudgetAt(regs, budget_us, f, 0x5B);
    BudgetAt(regs, budget_us, f, 0x5C);
    BudgetAt(regs, budget_us, f, 0x5D);
    BudgetAt(regs, budget_us, f, 0x5E);
    BudgetAt(regs, budget_us, f, 0x5F);
    BudgetAt(regs, budget_us, f, 0x61);
    BudgetAt(regs, budget_us, f, 0x62);
    forall a: u16 | a != 0x4B && !(0x5A <= a <= 0x5F) && !(0x61 <= a <= 0x62) ensures r[a] == regs[a] {
      BudgetAt(regs, budget_us, f, a);
    }
  }

  /** The macro period in 12.12 format: 2304 VCSEL periods, with each division rounded down. */
  ghost predicate IsMacroPeriod(macro: nat, period: byte, f: u16) {
    exists pll: nat ::
      && pll * f <= 0x4000_0000 < (pll + 1) * f
      && macro == 2304 * pll / 64 * (2 * (period + 1)) / 64 && macro > 0
      && 2304 * (2 * (period + 1)) * 0x4_0000 - 20 * f < macro * f <= 2304 * (2 * (period + 1)) * 0x4_0000
  }

  /** m is the time in macro periods, rounded to the nearest. */
  ghost predicate IsRounded(m: nat, t_us: nat, macro: nat) {
    m * macro <= t_us * 4096 + macro / 2 < (m + 1) * macro
  }

  /** The register holds 1000 us in macro periods, rounded. */
  ghost predicate PhasecalMeans(m: byte, period: byte, f: u16) {
    m <= 37 && exists macro: nat :: IsMacroPeriod(macro, period, f) && IsRounded(m, 1000, macro)
  }

  /**
   * The bytes of the register stand for lsb * 2^msb + 1, the greatest such value with eight
   * significant bits that is at most m, the time t_us in macro periods, rounded; 0 stands for
   * m == 0. Less than one part in 128 of m is cut off.
   */
  ghost predicate RangeRegisterMeans(msb: byte, lsb: byte, t_us: nat, period: byte, f: u16) {
    exists macro: nat, m: nat ::
      && IsMacroPeriod(macro, period, f) && IsRounded(m, t_us, macro)
      && (m == 0 ==> msb == 0 && lsb == 0)
      && (m > 0 ==>
            && lsb * Pow(2, msb) + 1 <= m < (lsb + 1) * Pow(2, msb) + 1 && (msb > 0 ==> lsb >= 0x80)
            && 128 * (m - (lsb * Pow(2, msb) + 1)) < m)
  }

  /** The two range registers and the phase calibration of a mode's period. */
  lemma RangeRegister(budget_us: u32, period: byte, f: u16)
    requires 4528 < budget_us <= 1104528 && ModePeriod(period) && f >= 576
    ensures var macro := MacroPeriod(period, f);
            && macro != 0
            && MicrosecondsToMclks(1, macro) == 0 && MicrosecondsToMclks(1000, macro) < 0x100
            && PhasecalMeans(MicrosecondsToMclks(1000, macro), period, f)
            && var code := RangeCode(budget_us, period, f);
            RangeRegisterMeans(High(code), Low(code), (budget_us - 4528) / 2, period, f)
  {
    hide EncodeTimeout, DecodeTimeout, MicrosecondsToMclks, MacroPeriod, CutTo8, Halve, IsMacroPeriod;
    AcceptedExactly(budget_us);
    BudgetEndToEnd(budget_us, period, f);
    var macro := MacroPeriod(period, f);
    MacroPeriodMeans(period, f);
    MclksRounded(1000, macro);
    MclksRounded((budget_us - 4528) / 2, macro);
    var m := MicrosecondsToMclks((budget_us - 4528) / 2, macro);
    assert RangeCode(budget_us, period, f) == EncodeTimeout(m);
    assert IsRounded(m, (budget_us - 4528) / 2, macro) && IsRounded(MicrosecondsToMclks(1000, macro), 1000, macro);
    if m > 0 { CodeMeans(m); } else { CodeOfZero(); }
  }

  lemma MacroPeriodMeans(period: byte, f: u16)
    requires ModePeriod(period) && f >= 576
    ensures IsMacroPeriod(MacroPeriod(period, f), period, f)
  {
    hide MacroPeriod, PllPeriod;
    MacroPeriodExact(period, f);
    MacroPeriodAccurate(period, f);
    PllBounds(f);
    assert PllPeriod(f) * f == f * PllPeriod(f) && (PllPeriod(f) + 1) * f == f * (PllPeriod(f) + 1);
  }

  lemma CodeMeans(m: u32)
    requires m > 0
    ensures var msb, lsb := High(EncodeTimeout(m)), Low(EncodeTimeout(m));
            && lsb * Pow(2, msb) + 1 <= m < (lsb + 1) * Pow(2, msb) + 1 && (msb > 0 ==> lsb >= 0x80)
            && 128 * (m - (lsb * Pow(2, msb) + 1)) < m
  {
    hide EncodeTimeout, Halve;
    CodeBytes(m);
    EncodeBest(m);
  }

  /**
   * For every budget, oscillator frequency and all register contents: how the call ends. Only a
   * budget in bounds does anything, and then the call ends in a division by zero exactly for
   * these frequencies and period registers.
   */
  lemma BudgetDivides(regs: RegFile, budget_us: u32, f: u16)
    ensures var end, periods := BudgetEndOf(regs, budget_us, f), {regs[0x60], regs[0x63]};
            && (end == Refused <==> budget_us <= 4528 || 1104528 < budget_us)
            && (end == Refused || f == 0 || MacroPeriod(regs[0x60], f) == 0 ==>
                  BudgetEffect(regs, budget_us, f) == regs)
            && (end == DividesByZero <==>
                  && 4528 < budget_us <= 1104528
                  && (|| f in {0, 1, 2, 4, 8, 16, 32, 64} || 0x7F in periods || 0xFF in periods
                      || (f == 128 && (0x3F in periods || 0xBF in periods))))
  {
    hide MacroPeriod;
    AcceptedExactly(budget_us);
    if f != 0 {
      ZeroPeriodExactly(regs[0x60], f);
      ZeroPeriodExactly(regs[0x63], f);
    }
  }

  /** Of two budgets that complete on a sensor the larger never leaves a smaller range timeout. */
  lemma BudgetMonotone(regs: RegFile, a: u32, b: u32, f: u16)
    requires a <= b && BudgetEndOf(regs, a, f) == Done && BudgetEndOf(regs, b, f) == Done
    ensures var r, s := BudgetEffect(regs, a, f), BudgetEffect(regs, b, f);
            && (r[0x5E] < s[0x5E] || (r[0x5E] == s[0x5E] && r[0x5F] <= s[0x5F]))
            && (r[0x61] < s[0x61] || (r[0x61] == s[0x61] && r[0x62] <= s[0x62]))
  {
    hide BudgetRegs, RangeCode, MacroPeriod, BudgetEffect;
    RangeCodeMonotone(a, b, regs[0x60], f);
    RangeCodeMonotone(a, b, regs[0x63], f);
    RangeBytes(regs, a, f);
    RangeBytes(regs, b, f);
  }

  lemma RangeBytes(regs: RegFile, budget_us: u32, f: u16)
    requires BudgetEndOf(regs, budget_us, f) == Done
    ensures var r := BudgetEffect(regs, budget_us, f);
            && [r[0x5E], r[0x5F]] == BigEndian16(RangeCode(budget_us, regs[0x60], f))
            && [r[0x61], r[0x62]] == BigEndian16(RangeCode(budget_us, regs[0x63], f))
  {
    hide BudgetEffect, RangeCode, MacroPeriod, MicrosecondsToMclks, EncodeTimeout, High, Low;
    BudgetAt(regs, budget_us, f, 0x5E);
    BudgetAt(regs, budget_us, f, 0x5F);
    BudgetAt(regs, budget_us, f, 0x61);
    BudgetAt(regs, budget_us, f, 0x62);
  }

  /** Setting manual calibration up a second time would change no register any more. */
  lemma CalibrationSettles(regs: RegFile)
    ensures CalibratedRegs(CalibratedRegs(regs)) == CalibratedRegs(regs)
  {
    hide CalibratedRegs;
    var once, twice := CalibratedRegs(regs), CalibratedRegs(CalibratedRegs(regs));
    CalibratedAt(regs, PHASECAL_RESULT_VCSEL_START);
    CalibratedAt(regs, VHV_CONFIG_INIT);
    CalibratedAt(regs, VHV_CONFIG_TIMEOUT_MACROP_LOOP_BOUND);
    forall a: int | 0 <= a < TWO16 ensures twice[a] == once[a] {
      CalibratedAt(regs, a);
      CalibratedAt(once, a);
    }
  }

  lemma CalibratedAt(regs: RegFile, a: u16)
    ensures CalibratedRegs(regs)[a] ==
            (if a == 0x0B then regs[0x0B] % 0x80
             else if a == 0x08 then regs[0x08] % 4 + 12
             else if a == 0x4D then 1
             else if a == 0x47 then regs[0xD8]
             else regs[a])
  {
    hide Store;
    var w1, w2 := [regs[VHV_CONFIG_INIT] % 0x80], [regs[VHV_CONFIG_TIMEOUT_MACROP_LOOP_BOUND] % 4 + 12];
    var r1 := Store(regs, VHV_CONFIG_INIT, w1);
    var r2 := Store(r1, VHV_CONFIG_TIMEOUT_MACROP_LOOP_BOUND, w2);
    var r3 := Store(r2, PHASECAL_CONFIG_OVERRIDE, [0x01]);
    VcselStartKept(regs);
    StoreAt(regs, VHV_CONFIG_INIT, w1, a);
    StoreAt(r1, VHV_CONFIG_TIMEOUT_MACROP_LOOP_BOUND, w2, a);
    StoreAt(r2, PHASECAL_CONFIG_OVERRIDE, [0x01], a);
    StoreAt(r3, CAL_CONFIG_VCSEL_START, [r3[PHASECAL_RESULT_VCSEL_START]], a);
  }

  /**
   * Address a after a processed measurement: the interrupt is cleared, the control law's value
   * set, and in the first round the calibration kept; every other register is as before.
   */
  lemma ProcessedAt(regs: RegFile, calibrated: bool, a: u16)
    ensures var r := ResultsOf(regs);
            var v := RequiredSpads(r.effective_spads, r.peak_rate, r.ambient_rate);
            ProcessedRegs(regs, calibrated)[a] ==
            (if a == 0x86 then 1
             else if a == 0x54 then v / 0x100
             else if a == 0x55 then v % 0x100
             else if calibrated then regs[a]
             else if a == 0x0B then regs[0x0B] % 0x80
             else if a == 0x08 then regs[0x08] % 4 + 12
             else if a == 0x4D then 1
             else if a == 0x47 then regs[0xD8]
             else regs[a])
  {
    hide Store, ResultsOf, RequiredSpads, CalibratedRegs;
    var r := ResultsOf(regs);
    var w := BigEndian16(RequiredSpads(r.effective_spads, r.peak_rate, r.ambient_rate));
    var r1 := if calibrated then regs else CalibratedRegs(regs);
    CalibratedAt(regs, a);
    StoreAt(r1, DSS_CONFIG_MANUAL_EFFECTIVE_SPADS_SELECT, w, a);
    StoreAt(Store(r1, DSS_CONFIG_MANUAL_EFFECTIVE_SPADS_SELECT, w), SYSTEM_INTERRUPT_CLEAR, [0x01], a);
  }

  /** Where the results are: each field's register, or its two, the high byte first. */
  lemma ResultsAt(regs: RegFile)
    ensures var r := ResultsOf(regs);
            && r.range_status == regs[0x89] && r.stream_count == regs[0x8B]
            && r.effective_spads / 0x100 == regs[0x8C] && r.effective_spads % 0x100 == regs[0x8D]
            && r.ambient_rate / 0x100 == regs[0x90] && r.ambient_rate % 0x100 == regs[0x91]
            && r.final_range_mm / 0x100 == regs[0x96] && r.final_range_mm % 0x100 == regs[0x97]
            && r.peak_rate / 0x100 == regs[0x98] && r.peak_rate % 0x100 == regs[0x99]
  {
    hide Reg16;
    Reg16At(regs, 0x8C);
    Reg16At(regs, 0x90);
    Reg16At(regs, 0x96);
    Reg16At(regs, 0x98);
  }

  lemma Reg16At(regs: RegFile, reg: u16)
    requires reg < 0xFFFF
    ensures Reg16(regs, reg) / 0x100 == regs[reg] && Reg16(regs, reg) % 0x100 == regs[reg + 1]
  {
    hide Fetch, Value16, Value32;
    FetchedValues(regs, reg);
  }

  /** The words that process a measurement. */
  function ProcessWords(regs: RegFile, calibrated: bool): seq<word> {
    var r := ResultsOf(regs);
    Commands(ReadOps(0x89, 17)) + (if calibrated then [] else CalibrationWords(regs))
    + Commands(WriteOps(0x54, BigEndian16(RequiredSpads(r.effective_spads, r.peak_rate, r.ambient_rate))))
    + [0x252, 0x000, 0x086, 0x101]
  }

  function CalibrationWords(regs: RegFile): seq<word> {
    Commands(ReadOps(0x0B, 1)) + Commands(ReadOps(0x08, 1))
    + Commands(WriteOps(0x0B, [regs[0x0B] % 0x80])) + Commands(WriteOps(0x08, [regs[0x08] % 4 + 12]))
    + Commands(WriteOps(0x4D, [1])) + Commands(ReadOps(0xD8, 1)) + Commands(WriteOps(0x47, [regs[0xD8]]))
  }

  lemma CalibrationLog(base: seq<word>, regs: RegFile)
    ensures base + Commands(ReadOps(0x0B, 1)) + Commands(ReadOps(0x08, 1))
            + Commands(WriteOps(0x0B, [regs[0x0B] % 0x80])) + Commands(WriteOps(0x08, [regs[0x08] % 4 + 12]))
            + Commands(WriteOps(0x4D, [1])) + Commands(ReadOps(0xD8, 1)) + Commands(WriteOps(0x47, [regs[0xD8]]))
            == base + CalibrationWords(regs)
  {
    hide Commands, ReadOps, WriteOps;
  }

  lemma VcselStartKept(regs: RegFile)
    ensures var w1, w2 := [regs[VHV_CONFIG_INIT] % 0x80], [regs[VHV_CONFIG_TIMEOUT_MACROP_LOOP_BOUND] % 4 + 12];
            var r1 := Store(regs, VHV_CONFIG_INIT, w1);
            var r2 := Store(r1, VHV_CONFIG_TIMEOUT_MACROP_LOOP_BOUND, w2);
            var p := PHASECAL_RESULT_VCSEL_START;
            Store(r2, PHASECAL_CONFIG_OVERRIDE, [0x01])[p] == regs[p]
  {
    hide Store;
    var w1, w2 := [regs[VHV_CONFIG_INIT] % 0x80], [regs[VHV_CONFIG_TIMEOUT_MACROP_LOOP_BOUND] % 4 + 12];
    var r1 := Store(regs, VHV_CONFIG_INIT, w1);
    var r2 := Store(r1, VHV_CONFIG_TIMEOUT_MACROP_LOOP_BOUND, w2);
    var p := PHASECAL_RESULT_VCSEL_START;
    StoreAt(regs, VHV_CONFIG_INIT, w1, p);
    StoreAt(r1, VHV_CONFIG_TIMEOUT_MACROP_LOOP_BOUND, w2, p);
    StoreAt(r2, PHASECAL_CONFIG_OVERRIDE, [0x01], p);
  }

  lemma ClearWords()
    ensures Commands(WriteOps(SYSTEM_INTERRUPT_CLEAR, [0x01])) == [0x252, 0x000, 0x086, 0x101]
  {
    hide Commands, WriteOps;
    WriteOnWire(0x86, [1]);
  }

  ghost predicate EndsWith(log: seq<word>, words: seq<word>) {
    |words| <= |log| && log[|log| - |words|..] == words
  }

  lemma ClearLast(regs: RegFile, calibrated: bool, base: seq<word>)
    ensures EndsWith(base + ProcessWords(regs, calibrated), ProcessWords(regs, calibrated))
    ensures EndsWith(base + ProcessWords(regs, calibrated), [0x252, 0x000, 0x086, 0x101])
  {
    hide Commands, ReadOps, WriteOps, CalibrationWords, ResultsOf, RequiredSpads;
  }

  /** The burst's bytes are the result registers. */
  lemma BurstResults(regs: RegFile)
    ensures var r := RESULT_RANGE_STATUS;
            ResultsOf(regs) ==
            ResultBuffer(regs[ToU16(r + 0)], regs[ToU16(r + 2)], Join(regs[ToU16(r + 3)], regs[ToU16(r + 4)]),
                         Join(regs[ToU16(r + 7)], regs[ToU16(r + 8)]), Join(regs[ToU16(r + 13)], regs[ToU16(r + 14)]),
                         Join(regs[ToU16(r + 15)], regs[ToU16(r + 16)]))
  {
    Fetch16(regs, RESULT_RANGE_STATUS, 3, 17);
    Fetch16(regs, RESULT_RANGE_STATUS, 7, 17);
    Fetch16(regs, RESULT_RANGE_STATUS, 13, 17);
    Fetch16(regs, RESULT_RANGE_STATUS, 15, 17);
  }

  /** A 16-bit register is its two bytes, read alone or within a longer read. */
  lemma Fetch16(regs: RegFile, reg: u16, i: nat, n: nat)
    requires i + 1 < n
    ensures Reg16(regs, ToU16(reg + i)) == Join(regs[ToU16(reg + i)], regs[ToU16(reg + (i + 1))])
  {
    hide Fetch;
    var a: int := ToU16(reg + i);
    FetchAt(regs, a, 2, 0);
    FetchAt(regs, a, 2, 1);
    assert ToU16(a + 1) == ToU16(reg + (i + 1));
    assert Fetch(regs, a, 2) == [regs[a], regs[ToU16(a + 1)]];
  }
}
