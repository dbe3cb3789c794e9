/**
 * What counts as busy, and when updates count at all: the percentage and the period the threshold
 * stands for in any run, and the suspension after an alarm.
 */
module AlarmPercentage {
  import opened LoadAlarm

  // ---------------------------------------------------------------- the threshold as a percentage

  /** The threshold is the percentage of the period, in microseconds, exactly below this product. */
  lemma PercentageIff(period: nat, percent: nat)
    ensures BusyThreshold(period, percent) == period * percent / 100 * 1024 <==> period * percent < 0x1900_0000
  {
    var product := period * percent;
    if product < 0x1900_0000 { SmallProduct(product); } else { LargeProduct(product); }
  }

  lemma SmallProduct(product: nat)
    requires product < 0x1900_0000
    ensures product % UINT32 / 100 * 1024 % UINT32 == product / 100 * 1024
  {
    assert product % UINT32 == product && product / 100 < 0x40_0000;
  }

  lemma LargeProduct(product: nat)
    requires product >= 0x1900_0000
    ensures product / 100 * 1024 >= UINT32
  {
    assert product / 100 >= 0x40_0000;
  }

  /** A busy time of at least the threshold: in whole units of 1024 microseconds it reaches the percentage. */
  lemma ReachesIff(period: nat, percent: nat, busy: nat)
    requires period * percent < 0x1900_0000
    ensures BusyThreshold(period, percent) != 0 <==> period * percent >= 100
    ensures busy >= BusyThreshold(period, percent) <==> 100 * (busy / 1024 + 1) > period * percent
  {
    PercentageIff(period, percent);
    var product, units := period * percent, busy / 1024;
    hide BusyThreshold;
    assert busy >= product / 100 * 1024 <==> units >= product / 100;
    assert units >= product / 100 <==> 100 * (units + 1) > product;
  }

  // ---------------------------------------------------------------- the period in force

  /** The system time of the last update that counted. */
  function LastUp(s: Ctl, clock: Clock, ops: seq<Op>): nat
    requires clock.hz > 0
  {
    if ops == [] then s.upTimeLast
    else
      var before, op := ops[..|ops| - 1], ops[|ops| - 1];
      if op.Update? && Run(s, clock, before).enable && !Run(s, clock, before).suspended then op.upTime
      else LastUp(s, clock, before)
  }

  /** The milliseconds an update measures since the last one, if there was one and time went on. */
  function Measured(s: Ctl, clock: Clock, ops: seq<Op>): (period: nat)
    requires clock.hz > 0 && ops != [] && ops[|ops| - 1].Update?
  {
    (ops[|ops| - 1].upTime - LastUp(s, clock, ops[..|ops| - 1])) % UINT32 * 1000 % UINT32 / clock.hz
  }

  /** The last operation is an update that measures a period. */
  predicate Measures(s: Ctl, clock: Clock, ops: seq<Op>)
    requires clock.hz > 0
  {
    ops != [] &&
    var before, op := ops[..|ops| - 1], ops[|ops| - 1];
    && op.Update? && Run(s, clock, before).enable && !Run(s, clock, before).suspended
    && op.upTime > LastUp(s, clock, before) > 0
  }

  /** The period measured last; a new percentage makes it the beacon period. */
  function LastPeriod(s: Ctl, clock: Clock, ops: seq<Op>): nat
    requires clock.hz > 0
  {
    if ops == [] then s.periodLast
    else if Measures(s, clock, ops) then Measured(s, clock, ops)
    else if ops[|ops| - 1].SetTimeThreshold? then clock.beaconPeriod
    else LastPeriod(s, clock, ops[..|ops| - 1])
  }

  /**
   * The period that the threshold stands for: the one measured last when it differed from the one before,
   * or the beacon period since a reset. A reset does not forget the period measured last.
   */
  function InForce(s: Ctl, clock: Clock, ops: seq<Op>): nat
    requires clock.hz > 0
  {
    if ops == [] then 0
    else
      var before, op := ops[..|ops| - 1], ops[|ops| - 1];
      if op.SetTimeThreshold? || op.AlarmReset? then clock.beaconPeriod
      else if Measures(s, clock, ops) && Measured(s, clock, ops) != LastPeriod(s, clock, before) then
        Measured(s, clock, ops)
      else InForce(s, clock, before)
  }

  /** The percentage and the number of busy updates set last. */
  function LastSet(s: Ctl, ops: seq<Op>): (nat, nat) {
    if ops == [] then (s.timeThreshold, s.numThreshold)
    else
      var (percent, number) := LastSet(s, ops[..|ops| - 1]);
      match ops[|ops| - 1]
      case SetTimeThreshold(p) => (p % 0x100, number)
      case SetNumThreshold(n) => (percent, n % 0x100)
      case _ => (percent, number)
  }

  ghost predicate Timing(s: Ctl, clock: Clock, ops: seq<Op>, t: Ctl)
    requires clock.hz > 0
  {
    && t.upTimeLast == LastUp(s, clock, ops) && t.periodLast == LastPeriod(s, clock, ops)
    && (t.timeThreshold, t.numThreshold) == LastSet(s, ops)
    && t.busyThreshold == BusyThreshold(InForce(s, clock, ops), t.timeThreshold)
  }

  /** What a step does to the fields that time and percentage go into. */
  lemma StepTiming(t: Ctl, clock: Clock, op: Op)
    requires clock.hz > 0
    ensures var u := Step(t, clock, op);
            var v := if op.Update? && t.enable && !t.suspended then Timed(t, clock, op.upTime) else t;
            && u.upTimeLast == v.upTimeLast
            && u.periodLast == (if op.SetTimeThreshold? then clock.beaconPeriod else v.periodLast)
            && u.timeThreshold == (if op.SetTimeThreshold? then op.percent % 0x100 else t.timeThreshold)
            && u.numThreshold == (if op.SetNumThreshold? then op.count % 0x100 else t.numThreshold)
            && u.busyThreshold == (if op.SetTimeThreshold? || op.AlarmReset?
                                   then BusyThreshold(clock.beaconPeriod, u.timeThreshold) else v.busyThreshold)
  {
    hide BusyThreshold, Elapsed, Over, Count;
  }

  lemma MeasuredIs(s: Ctl, clock: Clock, ops: seq<Op>)
    requires clock.hz > 0 && Measures(s, clock, ops)
    ensures Measured(s, clock, ops) == Elapsed(clock, ops[|ops| - 1].upTime, LastUp(s, clock, ops[..|ops| - 1]))
  {
    hide Run, LastUp;
  }

  lemma LastRun(s: Ctl, clock: Clock, ops: seq<Op>)
    requires clock.hz > 0 && ops != []
    ensures Run(s, clock, ops) == Step(Run(s, clock, ops[..|ops| - 1]), clock, ops[|ops| - 1])
  {
  }

  /** In any run the threshold stands for the percentage set last, of the period in force. */
  lemma {:induction false} ThresholdIs(s: Ctl, clock: Clock, ops: seq<Op>)
    requires clock.hz > 0 && s.busyThreshold == 0
    ensures Timing(s, clock, ops, Run(s, clock, ops))
  {
    if ops == [] {
      assert BusyThreshold(0, s.timeThreshold) == 0;
    } else {
      hide Run, Step, BusyThreshold, Elapsed, Measured;
      var before, op := ops[..|ops| - 1], ops[|ops| - 1];
      ThresholdIs(s, clock, before);
      StepTiming(Run(s, clock, before), clock, op);
      LastRun(s, clock, ops);
      if Measures(s, clock, ops) { MeasuredIs(s, clock, ops); }
    }
  }

  /**
   * Which updates of a run count as busy, exactly: those whose busy time, of the primary channel or on a wide
   * channel of the secondary, reaches the percentage set last of the period in force, in whole time units.
   */
  lemma CountsAsBusyIff(s: Ctl, clock: Clock, ops: seq<Op>, op: Op)
    requires clock.hz > 0 && s.busyThreshold == 0 && op.Update?
    requires var t := Run(s, clock, ops); t.enable && !t.suspended && t.timeThreshold > 0
    requires InForce(s, clock, ops + [op]) * LastSet(s, ops).0 < 0x1900_0000
    ensures var product := InForce(s, clock, ops + [op]) * LastSet(s, ops).0;
            var t := Run(s, clock, ops);
            Over(Timed(t, clock, op.upTime), op.primary, op.secondary) <==>
            && product >= 100
            && (100 * (op.primary / 1024 + 1) > product || (t.wide && 100 * (op.secondary / 1024 + 1) > product))
  {
    var t := Run(s, clock, ops);
    TimedThreshold(s, clock, ops, op);
    hide Run, InForce, BusyThreshold, Timed, LastSet, Over;
    OverIff(Timed(t, clock, op.upTime), InForce(s, clock, ops + [op]), op.primary, op.secondary);
  }

  lemma TimedThreshold(s: Ctl, clock: Clock, ops: seq<Op>, op: Op)
    requires clock.hz > 0 && s.busyThreshold == 0 && op.Update?
    requires var t := Run(s, clock, ops); t.enable && !t.suspended
    ensures var t := Run(s, clock, ops);
            var v := Timed(t, clock, op.upTime);
            && v.busyThreshold == BusyThreshold(InForce(s, clock, ops + [op]), v.timeThreshold)
            && v.timeThreshold == LastSet(s, ops).0 && v.wide == t.wide
  {
    hide Run, BusyThreshold, LastSet, Elapsed, Measured;
    var all := ops + [op];
    assert all[..|ops|] == ops;
    ThresholdIs(s, clock, ops);
    if Measures(s, clock, all) { MeasuredIs(s, clock, all); }
  }

  lemma OverIff(v: Ctl, period: nat, primary: nat, secondary: nat)
    requires v.busyThreshold == BusyThreshold(period, v.timeThreshold) && v.timeThreshold > 0
    requires period * v.timeThreshold < 0x1900_0000
    ensures var product := period * v.timeThreshold;
            Over(v, primary, secondary) <==>
            && product >= 100
            && (100 * (primary / 1024 + 1) > product || (v.wide && 100 * (secondary / 1024 + 1) > product))
  {
    ReachesIff(period, v.timeThreshold, primary);
    ReachesIff(period, v.timeThreshold, secondary);
    hide BusyThreshold;
  }

  // ---------------------------------------------------------------- suspension

  /** Whether an alarm was raised in a run. */
  predicate AnyAlarm(s: Ctl, clock: Clock, ops: seq<Op>)
    requires clock.hz > 0
  {
    ops != [] &&
    var before := ops[..|ops| - 1];
    AnyAlarm(s, clock, before) || Raises(Run(s, clock, before), clock, ops[|ops| - 1])
  }

  /**
   * Whether an alarm suspended the counting: the last alarm since a channel switch or a reset was not the
   * first on a wide channel, which only narrows it.
   */
  predicate Suspends(s: Ctl, clock: Clock, ops: seq<Op>)
    requires clock.hz > 0
  {
    if ops == [] then s.suspended
    else
      var before, op := ops[..|ops| - 1], ops[|ops| - 1];
      if Raises(Run(s, clock, before), clock, op) then !s.wide || AnyAlarm(s, clock, before)
      else !(op.Resume? || op.AlarmReset? || op.SetTimeThreshold?) && Suspends(s, clock, before)
  }

  /** Whether the narrowing was reported and not yet taken, cleared or switched off. */
  predicate Reports(s: Ctl, clock: Clock, ops: seq<Op>)
    requires clock.hz > 0
  {
    if ops == [] then s.raised
    else
      var before, op := ops[..|ops| - 1], ops[|ops| - 1];
      if Raises(Run(s, clock, before), clock, op) && s.wide && !AnyAlarm(s, clock, before) then true
      else
        match op
        case Update(_, _, _) =>
          !(Run(s, clock, before).timeThreshold == 0 && s.enable && !Suspends(s, clock, before)) &&
          Reports(s, clock, before)
        case Resume => Reports(s, clock, before)
        case SetNumThreshold(_) => Reports(s, clock, before)
        case _ => false
  }

  lemma StepSuspends(t: Ctl, clock: Clock, op: Op)
    requires clock.hz > 0
    ensures var u, alarm := Step(t, clock, op), Raises(t, clock, op);
            && u.enable == t.enable && u.wide == (t.wide && !alarm)
            && u.suspended == (if alarm then !t.wide
                               else t.suspended && !(op.Resume? || op.AlarmReset? || op.SetTimeThreshold?))
            && u.raised == if alarm && t.wide then true
                           else if op.Update? then t.raised && !(t.enable && !t.suspended && t.timeThreshold == 0)
                           else t.raised && (op.Resume? || op.SetNumThreshold?)
  {
    hide BusyThreshold, Elapsed, Over, Count;
  }

  /** In any run the first alarm on a wide channel narrows it; every other one suspends until switch or reset. */
  lemma {:induction false} SuspensionIs(s: Ctl, clock: Clock, ops: seq<Op>)
    requires clock.hz > 0
    ensures var t := Run(s, clock, ops);
            && t.enable == s.enable && t.wide == (s.wide && !AnyAlarm(s, clock, ops))
            && t.suspended == Suspends(s, clock, ops) && t.raised == Reports(s, clock, ops)
  {
    if ops != [] {
      var before := ops[..|ops| - 1];
      SuspensionIs(s, clock, before);
      StepSuspends(Run(s, clock, before), clock, ops[|ops| - 1]);
      hide Step, Raises;
    }
  }

  /** While it is suspended, or switched off, no update raises an alarm. */
  lemma SilentWhileSuspended(s: Ctl, clock: Clock, ops: seq<Op>, op: Op)
    requires clock.hz > 0 && Raises(Run(s, clock, ops), clock, op)
    ensures op.Update? && s.enable && !Suspends(s, clock, ops)
  {
    SuspensionIs(s, clock, ops);
    hide Suspends, Run;
  }
}
