/** The blocking wait for a measurement, whose 16-bit clock arithmetic wraps around. */
module Polling {
  import opened CTypes
  import opened I2c

  const GPIO_TIO_HV_STATUS: u16 := 0x0031

  // One pass of the waiting loop: the registers the sensor has published by then, and the clock
  // that the expiry check reads.
  datatype Sample = Sample(regs: RegFile, now: nat)

  datatype Outcome = Ready(at: nat) | GaveUp(at: nat) | Waiting

  /** New data: the interrupt line is active low. */
  predicate IsReady(regs: RegFile) { regs[GPIO_TIO_HV_STATUS] % 2 == 0 }

  /** The expiry check; both times are cut to 16 bits, a timeout of 0 never expires. */
  predicate Expired(now: nat, start_ms: u16, io_timeout: u16) {
    io_timeout > 0 && ToU16(now - start_ms) > io_timeout
  }

  /** What the loop does on the samples from k on; Waiting when none of them ends it. */
  function Wait(samples: seq<Sample>, start_ms: u16, io_timeout: u16, k: nat): (r: Outcome)
    requires k <= |samples|
    ensures r.Ready? || r.GaveUp? ==> k <= r.at < |samples|
    decreases |samples| - k
  {
    if k == |samples| then Waiting
    else if IsReady(samples[k].regs) then Ready(k)
    else if Expired(samples[k].now, start_ms, io_timeout) then GaveUp(k)
    else Wait(samples, start_ms, io_timeout, k + 1)
  }

  /** The clock does not run backwards and no two looks at it are further apart than gap. */
  ghost predicate Paced(samples: seq<Sample>, t0: nat, gap: int) {
    forall i :: 0 <= i < |samples| ==> 0 <= samples[i].now - Previous(samples, t0, i) <= gap
  }

  function Previous(samples: seq<Sample>, t0: nat, i: nat): nat
    requires i < |samples|
  {
    if i == 0 then t0 else samples[i - 1].now
  }

  predicate Late(samples: seq<Sample>, t0: nat, io_timeout: u16, k: nat)
    requires k < |samples|
  {
    samples[k].now - t0 > io_timeout
  }

  /** Poll k is the first one that counts: no earlier one was ready or late. */
  ghost predicate Undecided(samples: seq<Sample>, t0: nat, io_timeout: u16, k: nat)
    requires k <= |samples|
  {
    forall j :: 0 <= j < k ==> !IsReady(samples[j].regs) && !Late(samples, t0, io_timeout, j)
  }

  lemma ElapsedWraps(now: nat, t0: nat)
    ensures ToU16(now - ToU16(t0)) == ToU16(now - t0)
  {
  }

  lemma {:induction false} PollFrom(samples: seq<Sample>, t0: nat, io_timeout: u16, k: nat)
    requires io_timeout > 0 && k <= |samples| && Paced(samples, t0, TWO16 - io_timeout - 1)
    requires Undecided(samples, t0, io_timeout, k)
    requires k > 0 ==> samples[k - 1].now >= t0
    ensures var r := Wait(samples, ToU16(t0), io_timeout, k);
            && (r.Ready? ==> Undecided(samples, t0, io_timeout, r.at) && IsReady(samples[r.at].regs))
            && (r.GaveUp? ==> Undecided(samples, t0, io_timeout, r.at) && !IsReady(samples[r.at].regs)
                              && Late(samples, t0, io_timeout, r.at))
            && (r.Waiting? ==> Undecided(samples, t0, io_timeout, |samples|))
    decreases |samples| - k
  {
    hide Expired, Paced;
    if k < |samples| {
      ExpiredExactly(samples, t0, io_timeout, k);
      if !IsReady(samples[k].regs) && !Late(samples, t0, io_timeout, k) {
        PollFrom(samples, t0, io_timeout, k + 1);
      }
    }
  }

  /** At the next poll the 16-bit difference tells the truth. */
  lemma ExpiredExactly(samples: seq<Sample>, t0: nat, io_timeout: u16, k: nat)
    requires io_timeout > 0 && k < |samples| && Paced(samples, t0, TWO16 - io_timeout - 1)
    requires Undecided(samples, t0, io_timeout, k)
    requires k > 0 ==> samples[k - 1].now >= t0
    ensures samples[k].now >= t0
    ensures Expired(samples[k].now, ToU16(t0), io_timeout) <==> Late(samples, t0, io_timeout, k)
  {
    hide ToU16;
    var now := samples[k].now;
    assert 0 <= now - Previous(samples, t0, k) <= TWO16 - io_timeout - 1;
    assert k > 0 ==> !Late(samples, t0, io_timeout, k - 1);
    ElapsedWraps(now, t0);
    ElapsedShort(now - t0);
  }

  lemma ElapsedShort(x: int)
    ensures 0 <= x < TWO16 ==> ToU16(x) == x
  {
  }

  /**
   * Polling survives the wrap of its 16-bit clock: if looks at the clock are less than
   * 65536 - io_timeout apart, the loop gives up exactly at the first poll that is not ready
   * and truly late, and reports data exactly at the first ready poll before that.
   */
  lemma TimeoutExact(samples: seq<Sample>, t0: nat, io_timeout: u16, k: nat)
    requires io_timeout > 0 && Paced(samples, t0, TWO16 - io_timeout - 1) && k < |samples|
    ensures var r := Wait(samples, ToU16(t0), io_timeout, 0);
            && (r == GaveUp(k) <==> Undecided(samples, t0, io_timeout, k) && !IsReady(samples[k].regs)
                                    && Late(samples, t0, io_timeout, k))
            && (r == Ready(k) <==> Undecided(samples, t0, io_timeout, k) && IsReady(samples[k].regs))
  {
    PollFrom(samples, t0, io_timeout, 0);
  }

  /** The wait as it is meant: with the true time that has passed. */
  function TrueWait(samples: seq<Sample>, t0: nat, io_timeout: u16, k: nat): (r: Outcome)
    requires k <= |samples|
    ensures r.Ready? || r.GaveUp? ==> k <= r.at < |samples|
    decreases |samples| - k
  {
    if k == |samples| then Waiting
    else if IsReady(samples[k].regs) then Ready(k)
    else if io_timeout > 0 && Late(samples, t0, io_timeout, k) then GaveUp(k)
    else TrueWait(samples, t0, io_timeout, k + 1)
  }

  /**
   * The bound is sharp for every timeout: among looks at the clock no further apart than
   * 65536 - io_timeout there are some with which the loop misses the timeout.
   */
  lemma GapBoundSharp(regs: RegFile, t0: nat, io_timeout: u16)
    requires io_timeout > 0 && !IsReady(regs)
    ensures var samples := Missed(regs, t0, io_timeout);
            && Paced(samples, t0, TWO16 - io_timeout)
            && TrueWait(samples, t0, io_timeout, 0) == GaveUp(io_timeout + 1)
            && Wait(samples, ToU16(t0), io_timeout, 0) == Waiting
  {
    MissedFrom(regs, t0, io_timeout, 0);
  }

  /** A look every millisecond until the timeout is about to expire, and then one a full turn after t0. */
  function Missed(regs: RegFile, t0: nat, io_timeout: u16): seq<Sample> {
    seq(io_timeout + 1, (i: nat) => Sample(regs, t0 + i)) + [Sample(regs, t0 + TWO16)]
  }

  lemma {:induction false} MissedFrom(regs: RegFile, t0: nat, io_timeout: u16, k: nat)
    requires io_timeout > 0 && !IsReady(regs) && k <= io_timeout + 2
    ensures var samples := Missed(regs, t0, io_timeout);
            && (k <= io_timeout + 1 ==> TrueWait(samples, t0, io_timeout, k) == GaveUp(io_timeout + 1))
            && Wait(samples, ToU16(t0), io_timeout, k) == Waiting
    decreases io_timeout + 2 - k
  {
    hide Expired, IsReady;
    if k < io_timeout + 2 {
      MissedFrom(regs, t0, io_timeout, k + 1);
      ExpiryExactly(Missed(regs, t0, io_timeout), t0, io_timeout, k);
    }
  }

  /**
   * For any clock that does not run backwards, however far apart the looks at it are: the loop
   * does what is meant exactly when, at the poll where it should give up, the time passed is
   * above the timeout modulo 65536 as well.
   */
  lemma {:induction false} WaitExactly(samples: seq<Sample>, t0: nat, io_timeout: u16, k: nat)
    requires k <= |samples| && forall i :: k <= i < |samples| ==> samples[i].now >= t0
    ensures var r := TrueWait(samples, t0, io_timeout, k);
            Wait(samples, ToU16(t0), io_timeout, k) == r
            <==> (r.GaveUp? ==> (samples[r.at].now - t0) % TWO16 > io_timeout)
    decreases |samples| - k
  {
    hide Late, Expired;
    if k < |samples| && !IsReady(samples[k].regs) {
      ExpiryExactly(samples, t0, io_timeout, k);
      if !(io_timeout > 0 && Late(samples, t0, io_timeout, k)) {
        WaitExactly(samples, t0, io_timeout, k + 1);
      }
    }
  }

  /**
   * Which pace the 16-bit clock needs: the loop does what is meant on all polls whose looks at
   * the clock are at most gap apart exactly when gap is below 65536 - io_timeout.
   */
  lemma PaceExactly(t0: nat, io_timeout: u16, gap: nat)
    requires io_timeout > 0
    ensures gap < TWO16 - io_timeout <==>
              forall samples | Paced(samples, t0, gap) ::
                Wait(samples, ToU16(t0), io_timeout, 0) == TrueWait(samples, t0, io_timeout, 0)
  {
    hide Wait, TrueWait, Paced;
    if gap < TWO16 - io_timeout {
      forall samples | Paced(samples, t0, gap)
        ensures Wait(samples, ToU16(t0), io_timeout, 0) == TrueWait(samples, t0, io_timeout, 0)
      {
        PacedWait(samples, t0, io_timeout, gap);
      }
    } else {
      var regs: RegFile := seq(TWO16, i => 1);
      GapBoundSharp(regs, t0, io_timeout);
      PacedWider(Missed(regs, t0, io_timeout), t0, TWO16 - io_timeout, gap);
    }
  }

  lemma PacedWider(samples: seq<Sample>, t0: nat, gap: int, wider: int)
    requires Paced(samples, t0, gap) && gap <= wider
    ensures Paced(samples, t0, wider)
  {
  }

  lemma PacedWait(samples: seq<Sample>, t0: nat, io_timeout: u16, gap: nat)
    requires io_timeout > 0 && gap < TWO16 - io_timeout && Paced(samples, t0, gap)
    ensures Wait(samples, ToU16(t0), io_timeout, 0) == TrueWait(samples, t0, io_timeout, 0)
  {
    hide Wait, TrueWait, Paced;
    forall i | 0 <= i < |samples| ensures samples[i].now >= t0 { NotBefore(samples, t0, gap, i); }
    WaitExactly(samples, t0, io_timeout, 0);
    var r := TrueWait(samples, t0, io_timeout, 0);
    if r.GaveUp? {
      FirstLate(samples, t0, io_timeout, 0);
      LateByGap(samples, t0, io_timeout, gap, r.at);
    }
  }

  lemma {:induction false} NotBefore(samples: seq<Sample>, t0: nat, gap: nat, i: nat)
    requires i < |samples| && Paced(samples, t0, gap)
    ensures samples[i].now >= t0
  {
    if i > 0 { NotBefore(samples, t0, gap, i - 1); }
  }

  lemma {:induction false} FirstLate(samples: seq<Sample>, t0: nat, io_timeout: u16, k: nat)
    requires io_timeout > 0 && k <= |samples| && TrueWait(samples, t0, io_timeout, k).GaveUp?
    ensures var at := TrueWait(samples, t0, io_timeout, k).at;
            k <= at < |samples| && Late(samples, t0, io_timeout, at)
            && (at > k ==> !Late(samples, t0, io_timeout, at - 1))
    decreases |samples| - k
  {
    hide Late;
    if !IsReady(samples[k].regs) && !Late(samples, t0, io_timeout, k) {
      FirstLate(samples, t0, io_timeout, k + 1);
    }
  }

  lemma LateByGap(samples: seq<Sample>, t0: nat, io_timeout: u16, gap: nat, k: nat)
    requires gap < TWO16 - io_timeout && Paced(samples, t0, gap) && k < |samples| && samples[k].now >= t0
    requires Late(samples, t0, io_timeout, k) && (k > 0 ==> !Late(samples, t0, io_timeout, k - 1))
    ensures (samples[k].now - t0) % TWO16 > io_timeout
  {
    assert samples[k].now - Previous(samples, t0, k) <= gap;
    ElapsedShort(samples[k].now - t0);
  }

  lemma ExpiryExactly(samples: seq<Sample>, t0: nat, io_timeout: u16, k: nat)
    requires k < |samples| && samples[k].now >= t0
    ensures Expired(samples[k].now, ToU16(t0), io_timeout) <==>
              && io_timeout > 0 && Late(samples, t0, io_timeout, k)
              && (samples[k].now - t0) % TWO16 > io_timeout
  {
    ElapsedWraps(samples[k].now, t0);
    ModAtMost(samples[k].now - t0);
  }

  lemma ModAtMost(x: nat)
    ensures x % TWO16 <= x
  {
  }

  /** Without a timeout the loop never gives up. */
  lemma {:induction false} NoTimeout(samples: seq<Sample>, start_ms: u16, k: nat)
    requires k <= |samples|
    ensures !Wait(samples, start_ms, 0, k).GaveUp?
    decreases |samples| - k
  {
    if k < |samples| { NoTimeout(samples, start_ms, k + 1); }
  }

  // ---- Runs of reads ----

  // One call of the driver's read: the registers the sensor has published when it begins, and
  // for a blocking call the clock at that time and the passes of the wait.
  datatype Call = Call(before: RegFile, blocking: bool, samples: seq<Sample>, t0: nat)

  /** The registers the sensor has published when the call is past its wait, or at the last look. */
  function Seen(c: Call, io_timeout: u16): RegFile {
    if !c.blocking || c.samples == [] then c.before
    else
      var r := Wait(c.samples, ToU16(c.t0), io_timeout, 0);
      c.samples[if r.Waiting? then |c.samples| - 1 else r.at].regs
  }

  /**
   * How a call ends, its k passes before having found no data in time: a ready status (bit 0 of
   * register 0x31 clear) at pass k completes it with the registers published by then; otherwise
   * it gives up there if more than io_timeout milliseconds have passed. A call that does not
   * wait completes with the registers it finds. The looks at the clock are close enough.
   */
  lemma CallExactly(c: Call, io_timeout: u16, k: nat)
    requires io_timeout > 0 && k < |c.samples|
    requires forall i :: 0 <= i < |c.samples| ==>
               0 <= c.samples[i].now - (if i == 0 then c.t0 else c.samples[i - 1].now) < 0x1_0000 - io_timeout
    requires forall i :: 0 <= i < k ==>
               c.samples[i].regs[0x31] % 2 == 1 && c.samples[i].now - c.t0 <= io_timeout
    ensures !c.blocking ==> Completes(c, io_timeout) && Returns(c, io_timeout) && Seen(c, io_timeout) == c.before
    ensures c.blocking && c.samples[k].regs[0x31] % 2 == 0 ==>
              Completes(c, io_timeout) && Returns(c, io_timeout) && Seen(c, io_timeout) == c.samples[k].regs
    ensures c.blocking && c.samples[k].regs[0x31] % 2 == 1 && c.samples[k].now - c.t0 > io_timeout ==>
              !Completes(c, io_timeout) && Returns(c, io_timeout) && Seen(c, io_timeout) == c.samples[k].regs
    ensures (c.blocking && k + 1 == |c.samples| && c.samples[k].regs[0x31] % 2 == 1
             && c.samples[k].now - c.t0 <= io_timeout) ==> !Completes(c, io_timeout) && !Returns(c, io_timeout)
  {
    hide Wait;
    WaitOutcome(c.samples, c.t0, io_timeout, k);
  }

  lemma WaitOutcome(samples: seq<Sample>, t0: nat, io_timeout: u16, k: nat)
    requires io_timeout > 0 && k < |samples|
    requires forall i :: 0 <= i < |samples| ==>
               0 <= samples[i].now - (if i == 0 then t0 else samples[i - 1].now) < 0x1_0000 - io_timeout
    requires forall i :: 0 <= i < k ==> samples[i].regs[0x31] % 2 == 1 && samples[i].now - t0 <= io_timeout
    ensures var w := Wait(samples, ToU16(t0), io_timeout, 0);
            && (samples[k].regs[0x31] % 2 == 0 ==> w == Ready(k))
            && (samples[k].regs[0x31] % 2 == 1 && samples[k].now - t0 > io_timeout ==> w == GaveUp(k))
            && (samples[k].regs[0x31] % 2 == 1 && samples[k].now - t0 <= io_timeout && k + 1 == |samples| ==>
                  w == Waiting)
  {
    hide Wait, Expired, Paced, Undecided;
    InPace(samples, t0, io_timeout);
    NotDecided(samples, t0, io_timeout, k);
    TimeoutExact(samples, t0, io_timeout, k);
    if k + 1 == |samples| && samples[k].regs[0x31] % 2 == 1 && samples[k].now - t0 <= io_timeout {
      NotDecided(samples, t0, io_timeout, k + 1);
      StillWaiting(samples, t0, io_timeout);
    }
  }

  lemma InPace(samples: seq<Sample>, t0: nat, io_timeout: u16)
    requires forall i :: 0 <= i < |samples| ==>
               0 <= samples[i].now - (if i == 0 then t0 else samples[i - 1].now) < 0x1_0000 - io_timeout
    ensures Paced(samples, t0, TWO16 - io_timeout - 1)
  {
    forall i | 0 <= i < |samples|
      ensures 0 <= samples[i].now - Previous(samples, t0, i) <= TWO16 - io_timeout - 1
    {
      assert Previous(samples, t0, i) == if i == 0 then t0 else samples[i - 1].now;
    }
  }

  lemma NotDecided(samples: seq<Sample>, t0: nat, io_timeout: u16, k: nat)
    requires k <= |samples|
    requires forall i :: 0 <= i < k ==> samples[i].regs[0x31] % 2 == 1 && samples[i].now - t0 <= io_timeout
    ensures Undecided(samples, t0, io_timeout, k)
  {
  }

  lemma StillWaiting(samples: seq<Sample>, t0: nat, io_timeout: u16)
    requires io_timeout > 0 && Paced(samples, t0, TWO16 - io_timeout - 1)
    requires Undecided(samples, t0, io_timeout, |samples|)
    ensures Wait(samples, ToU16(t0), io_timeout, 0) == Waiting
  {
    hide Wait, Expired, Paced;
    PollFrom(samples, t0, io_timeout, 0);
  }

  /** The call comes back. */
  predicate Returns(c: Call, io_timeout: u16) {
    !c.blocking || !Wait(c.samples, ToU16(c.t0), io_timeout, 0).Waiting?
  }

  /** The call gets past the wait and processes a measurement. */
  predicate Completes(c: Call, io_timeout: u16) {
    !c.blocking || Wait(c.samples, ToU16(c.t0), io_timeout, 0).Ready?
  }

  /** The calibrated flag after a run of calls. */
  function CalibratedAfter(calls: seq<Call>, io_timeout: u16, calibrated: bool): bool {
    if calls == [] then calibrated
    else CalibratedAfter(calls[1..], io_timeout, calibrated || Completes(calls[0], io_timeout))
  }

  /** Call i finds the flag clear behind its wait, so it sets up manual calibration. */
  predicate Calibrates(calls: seq<Call>, io_timeout: u16, i: nat)
    requires i < |calls|
  {
    Completes(calls[i], io_timeout) && !CalibratedAfter(calls[..i], io_timeout, false)
  }

  lemma {:induction false} FlagHistory(calls: seq<Call>, io_timeout: u16, calibrated: bool)
    ensures CalibratedAfter(calls, io_timeout, calibrated) <==>
              calibrated || exists j :: 0 <= j < |calls| && Completes(calls[j], io_timeout)
    decreases |calls|
  {
    hide Completes;
    if calls != [] {
      FlagHistory(calls[1..], io_timeout, calibrated || Completes(calls[0], io_timeout));
      assert forall j :: 0 <= j < |calls| - 1 ==> calls[1..][j] == calls[j + 1];
      if j :| 0 <= j < |calls| && Completes(calls[j], io_timeout) {
        if j > 0 { assert calls[1..][j - 1] == calls[j]; }
      }
    }
  }

  /** One more call. */
  lemma {:induction false} FlagStep(calls: seq<Call>, c: Call, io_timeout: u16, calibrated: bool)
    ensures CalibratedAfter(calls + [c], io_timeout, calibrated)
            == (CalibratedAfter(calls, io_timeout, calibrated) || Completes(c, io_timeout))
    decreases |calls|
  {
    hide Completes;
    if calls == [] {
      assert calls + [c] == [c] && [c][1..] == [];
    } else {
      FlagStep(calls[1..], c, io_timeout, calibrated || Completes(calls[0], io_timeout));
      assert (calls + [c])[0] == calls[0] && (calls + [c])[1..] == calls[1..] + [c];
    }
  }

  /** A flag that was set stays set; otherwise the run decides. */
  lemma FlagFrom(calls: seq<Call>, io_timeout: u16, calibrated: bool)
    ensures CalibratedAfter(calls, io_timeout, calibrated)
            == (calibrated || CalibratedAfter(calls, io_timeout, false))
  {
    FlagHistory(calls, io_timeout, calibrated);
    FlagHistory(calls, io_timeout, false);
  }

  /** counts[i] is how often calibration was set up before call i: once more at a call that does. */
  ghost predicate Counted(counts: seq<nat>, calls: seq<Call>, n: nat, io_timeout: u16, calibrated: bool)
    requires n <= |calls|
  {
    && |counts| == n + 1
    && forall i :: 0 <= i < n ==>
         counts[i + 1] == counts[i] + if !calibrated && Calibrates(calls, io_timeout, i) then 1 else 0
  }

  lemma CountStep(counts: seq<nat>, calls: seq<Call>, n: nat, io_timeout: u16, calibrated: bool, next: nat)
    requires n < |calls| && Counted(counts, calls, n, io_timeout, calibrated)
    requires next == counts[n] + if !calibrated && Calibrates(calls, io_timeout, n) then 1 else 0
    ensures Counted(counts + [next], calls, n + 1, io_timeout, calibrated)
  {
    hide Calibrates;
  }

  lemma FlagStart(calls: seq<Call>, io_timeout: u16, calibrated: bool)
    ensures CalibratedAfter(calls[..0], io_timeout, calibrated) == calibrated
  {
  }

  /** Call n of a run: what it does to the flag, and when it calibrates. */
  lemma RunStep(calls: seq<Call>, n: nat, io_timeout: u16, calibrated: bool)
    requires n < |calls|
    ensures var before := CalibratedAfter(calls[..n], io_timeout, calibrated);
            && CalibratedAfter(calls[..n + 1], io_timeout, calibrated)
               == (before || Completes(calls[n], io_timeout))
            && (!calibrated && Calibrates(calls, io_timeout, n) <==> Completes(calls[n], io_timeout) && !before)
            && (calibrated ==> before)
  {
    hide Completes, CalibratedAfter;
    assert calls[..n + 1] == calls[..n] + [calls[n]];
    FlagStep(calls[..n], calls[n], io_timeout, calibrated);
    FlagFrom(calls[..n], io_timeout, calibrated);
  }

  /** Calibration happens in the first read that completes ... */
  lemma CalibratesFirst(calls: seq<Call>, io_timeout: u16, i: nat)
    requires i < |calls|
    ensures Calibrates(calls, io_timeout, i) <==>
              Completes(calls[i], io_timeout) && forall j :: 0 <= j < i ==> !Completes(calls[j], io_timeout)
  {
    hide Completes;
    FlagHistory(calls[..i], io_timeout, false);
    assert forall j :: 0 <= j < i ==> calls[..i][j] == calls[j];
  }

  /** ... and so exactly once in any run with a read that completes, and else never. */
  lemma CalibratesOnce(calls: seq<Call>, io_timeout: u16)
    ensures (exists i :: 0 <= i < |calls| && Calibrates(calls, io_timeout, i)) <==>
              exists i :: 0 <= i < |calls| && Completes(calls[i], io_timeout)
    ensures forall i, j | 0 <= i < |calls| && 0 <= j < |calls| ::
              Calibrates(calls, io_timeout, i) && Calibrates(calls, io_timeout, j) ==> i == j
  {
    hide Completes, Calibrates;
    forall i | 0 <= i < |calls|
      ensures Calibrates(calls, io_timeout, i) <==>
                Completes(calls[i], io_timeout) && forall j :: 0 <= j < i ==> !Completes(calls[j], io_timeout)
    {
      CalibratesFirst(calls, io_timeout, i);
    }
    if i :| 0 <= i < |calls| && Completes(calls[i], io_timeout) {
      FirstCompletes(calls, io_timeout, i);
    }
  }

  lemma FirstCompletes(calls: seq<Call>, io_timeout: u16, i: nat)
    requires i < |calls| && Completes(calls[i], io_timeout)
    ensures exists k :: 0 <= k <= i && Completes(calls[k], io_timeout)
                        && forall j :: 0 <= j < k ==> !Completes(calls[j], io_timeout)
  {
    hide Completes;
    if j :| 0 <= j < i && Completes(calls[j], io_timeout) {
      FirstCompletes(calls, io_timeout, j);
    }
  }
}
