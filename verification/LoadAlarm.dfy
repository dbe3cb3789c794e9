/**
 * The channel-load alarm: raised after enough consecutive busy beacon periods, then held off for
 * a while. Class PhyCtrl holds the driver's fields; everything is proved about the functions it
 * is tied to.
 */
module LoadAlarm {
  const UINT32 := 0x1_0000_0000
  const QBSS_LOAD_ALARM_DURATION := 100
  const BUSY_NUM_THRESHOLD := 10

  datatype Ctl = Ctl(enable: bool, suspended: bool, wide: bool, timeThreshold: nat, numThreshold: nat,
                     num: nat, duration: nat, busyThreshold: nat, upTimeLast: nat, periodLast: nat,
                     alarmNumber: nat, raised: bool)

  /** Beacon period and clock rate, fixed while the access point runs. */
  datatype Clock = Clock(beaconPeriod: nat, hz: nat)

  /** Busy time in microseconds that counts as over the percentage threshold. */
  function BusyThreshold(period: nat, percent: nat): nat {
    period * percent % UINT32 / 100 * 1024 % UINT32
  }

  function Elapsed(clock: Clock, now: nat, last: nat): nat
    requires now > last && clock.hz > 0
  {
    (now - last) % UINT32 * 1000 % UINT32 / clock.hz
  }

  /** The time bookkeeping at the start of an update. */
  function Timed(s: Ctl, clock: Clock, upTime: nat): Ctl
    requires clock.hz > 0
  {
    if upTime > 0 && s.upTimeLast > 0 && upTime > s.upTimeLast then
      var period := Elapsed(clock, upTime, s.upTimeLast);
      s.(upTimeLast := upTime, periodLast := period,
         busyThreshold := if period != s.periodLast then BusyThreshold(period, s.timeThreshold) else s.busyThreshold)
    else s.(upTimeLast := upTime)
  }

  predicate Over(s: Ctl, primary: nat, secondary: nat) {
    s.timeThreshold > 0 && s.busyThreshold != 0 &&
    (primary >= s.busyThreshold || (s.wide && secondary >= s.busyThreshold))
  }

  datatype Counted = Counted(num: nat, duration: nat, alarm: bool)

  function Succ8(n: nat): nat {
    if n + 1 == 0x100 then 0 else n + 1
  }

  /** The two one-byte counters after an update of the enabled alarm. */
  function Count(num: nat, duration: nat, threshold: nat, over: bool): Counted {
    var num' := if !over then 0 else if duration == 0 then Succ8(num) else num;
    var alarm := over && duration == 0 && num' >= threshold;
    var duration' := if alarm then duration + 1 else duration;
    if duration' == 0 then Counted(num', 0, alarm)
    else if duration' + 1 >= QBSS_LOAD_ALARM_DURATION then Counted(0, 0, alarm)
    else Counted(num', duration' + 1, alarm)
  }

  /** QBSS_LoadAlarm: suspended until a channel switch, unless narrowing the channel was enough. */
  function Alarmed(s: Ctl): Ctl {
    var number := (s.alarmNumber + 1) % UINT32;
    if s.wide then s.(alarmNumber := number, wide := false, raised := true, suspended := false)
    else s.(alarmNumber := number, suspended := true)
  }

  datatype Op =
    | Update(upTime: nat, primary: nat, secondary: nat)
    | Resume
    | StatusClear
    | AlarmReset
    | SetTimeThreshold(percent: nat)
    | SetNumThreshold(count: nat)
    | TakeAlarm                      // QBSS_LoadIsAlarmIssued

  /** Whether an update gets past the first test. */
  predicate Effective(s: Ctl) {
    s.enable && !s.suspended
  }

  /** What an update counts. */
  function CountedBy(s: Ctl, clock: Clock, op: Op): Counted
    requires op.Update? && clock.hz > 0
  {
    var t := Timed(s, clock, op.upTime);
    Count(s.num, s.duration, s.numThreshold, Over(t, op.primary, op.secondary))
  }

  /** Whether an operation raises an alarm. */
  predicate Raises(s: Ctl, clock: Clock, op: Op)
    requires clock.hz > 0
  {
    op.Update? && Effective(s) && s.timeThreshold > 0 && CountedBy(s, clock, op).alarm
  }

  function ResetAlarm(s: Ctl, clock: Clock): Ctl {
    s.(raised := false, duration := 0, alarmNumber := 0, suspended := false,
       busyThreshold := BusyThreshold(clock.beaconPeriod, s.timeThreshold))
  }

  function Step(s: Ctl, clock: Clock, op: Op): Ctl
    requires clock.hz > 0
  {
    match op
    case Update(upTime, _, _) =>
      if !Effective(s) then s
      else
        var t := Timed(s, clock, upTime);
        if s.timeThreshold == 0 then t.(num := 0, duration := 0, raised := false)
        else
          var c := CountedBy(s, clock, op);
          var u := t.(num := c.num, duration := c.duration);
          if c.alarm then Alarmed(u) else u
    case Resume => s.(suspended := false)
    case StatusClear => s.(raised := false, num := 0)
    case AlarmReset => ResetAlarm(s, clock)
    case SetTimeThreshold(percent) =>
      ResetAlarm(s.(timeThreshold := percent % 0x100), clock).(periodLast := clock.beaconPeriod)
    case SetNumThreshold(count) => s.(numThreshold := count % 0x100)
    case TakeAlarm => s.(raised := false)
  }

  // ---------------------------------------------------------------- the driver's fields

  class PhyCtrl {
    const clock: Clock
    var enable: bool
    var suspended: bool
    var wide: bool                 // both 40 MHz indications are set
    var timeThreshold: nat
    var numThreshold: nat
    var num: nat
    var duration: nat
    var busyThreshold: nat
    var upTimeLast: nat
    var periodLast: nat
    var alarmNumber: nat
    var raised: bool

    ghost function State(): Ctl
      reads this
    {
      Ctl(enable, suspended, wide, timeThreshold, numThreshold, num, duration, busyThreshold, upTimeLast, periodLast,
          alarmNumber, raised)
    }

    /** Zeroed memory and QBSS_LoadInit. */
    constructor (clock: Clock, enable: bool, wide: bool)
      ensures this.clock == clock && State() == Initial(enable, wide)
    {
      this.clock := clock;
      this.enable, this.wide := enable, wide;
      suspended, timeThreshold, numThreshold, num, duration := false, 0, BUSY_NUM_THRESHOLD, 0, 0;
      busyThreshold, upTimeLast, periodLast, alarmNumber, raised := 0, 0, 0, 0, false;
    }

    method BusyTimeThresholdReset(timePeriod: nat)
      modifies this`busyThreshold
      ensures busyThreshold == BusyThreshold(timePeriod, timeThreshold)
    {
      busyThreshold := timePeriod;
      busyThreshold := busyThreshold * timeThreshold % UINT32;
      busyThreshold := busyThreshold / 100;
      busyThreshold := busyThreshold * 1024 % UINT32;
    }

    method Reset()
      modifies this
      ensures State() == ResetAlarm(old(State()), clock)
    {
      raised, duration, alarmNumber, suspended := false, 0, 0, false;
      BusyTimeThresholdReset(clock.beaconPeriod);
    }

    /** Set_QloadAlarmTimeThreshold_Proc. */
    method SetTime(percent: nat)
      requires clock.hz > 0
      modifies this
      ensures State() == Step(old(State()), clock, SetTimeThreshold(percent))
    {
      timeThreshold := percent % 0x100;
      Reset();
      periodLast := clock.beaconPeriod;
    }

    /** QBSS_LoadAlarm. */
    method Alarm()
      modifies this
      ensures State() == Alarmed(old(State()))
    {
      suspended := true;
      alarmNumber := (alarmNumber + 1) % UINT32;
      if wide {
        wide := false;
        raised := true;
        suspended := false;
      }
    }

    method UpdateTime(upTime: nat)
      requires clock.hz > 0
      modifies this
      ensures State() == Timed(old(State()), clock, upTime)
    {
      if upTime > 0 && upTimeLast > 0 && upTime > upTimeLast {
        var timePeriod := (upTime - upTimeLast) % UINT32;
        timePeriod := timePeriod * 1000 % UINT32 / clock.hz;
        if timePeriod != periodLast {
          BusyTimeThresholdReset(timePeriod);
        }
        periodLast := timePeriod;
      }
      upTimeLast := upTime;
    }

    /** The counting part of QBSS_LoadUpdate. */
    method CountBusy(over: bool) returns (alarm: bool)
      modifies this
      ensures var c := Count(old(num), old(duration), numThreshold, over);
              alarm == c.alarm && State() == old(State()).(num := c.num, duration := c.duration)
    {
      alarm := false;
      if over {
        if duration == 0 {
          num := Succ8(num);
          if num >= numThreshold {
            alarm := true;
            duration := duration + 1;
          }
        }
      } else {
        num := 0;
      }
      if duration > 0 {
        duration := duration + 1;
        if duration >= QBSS_LOAD_ALARM_DURATION {
          duration := 0;
          num := 0;
        }
      }
    }

    /** QBSS_LoadUpdate with the two hardware busy counters. */
    method LoadUpdate(upTime: nat, primary: nat, secondary: nat) returns (alarm: bool)
      requires clock.hz > 0
      modifies this
      ensures var op := Update(upTime, primary, secondary);
              State() == Step(old(State()), clock, op) && alarm == Raises(old(State()), clock, op)
    {
      alarm := false;
      if !enable || suspended {
        return;
      }
      UpdateTime(upTime);
      var over := false;
      if wide && timeThreshold > 0 && busyThreshold != 0 && secondary >= busyThreshold {
        over := true;
      }
      if timeThreshold > 0 && busyThreshold != 0 && primary >= busyThreshold {
        over := true;
      }
      if timeThreshold > 0 {
        alarm := CountBusy(over);
        if alarm {
          Alarm();
        }
      } else {
        num, duration, raised := 0, 0, false;
      }
    }
  }

  function Initial(enable: bool, wide: bool): Ctl {
    Ctl(enable, false, wide, 0, BUSY_NUM_THRESHOLD, 0, 0, 0, 0, 0, 0, false)
  }

  function Needed(threshold: nat): nat {
    if threshold > 1 then threshold else 1
  }

  // ---------------------------------------------------------------- any run

  function Run(s: Ctl, clock: Clock, ops: seq<Op>): Ctl
    requires clock.hz > 0
  {
    if ops == [] then s else Step(Run(s, clock, ops[..|ops| - 1]), clock, ops[|ops| - 1])
  }

  /** The busy updates since the last one that was not, or that found the alarm switched off. */
  function Streak(s: Ctl, clock: Clock, ops: seq<Op>): nat
    requires clock.hz > 0
  {
    if ops == [] then 0
    else
      var before, op := ops[..|ops| - 1], ops[|ops| - 1];
      var t := Run(s, clock, before);
      if !op.Update? || !Effective(t) then Streak(s, clock, before)
      else if t.timeThreshold > 0 && Over(Timed(t, clock, op.upTime), op.primary, op.secondary) then
        Streak(s, clock, before) + 1
      else 0
  }

  lemma {:induction false} NumWithinStreak(s: Ctl, clock: Clock, ops: seq<Op>)
    requires clock.hz > 0 && s.num == 0
    ensures Run(s, clock, ops).num <= Streak(s, clock, ops)
  {
    if ops != [] {
      NumWithinStreak(s, clock, ops[..|ops| - 1]);
    }
  }

  /** Under any operations at all, an alarm ends a streak of at least the threshold's length. */
  lemma AlarmEndsStreak(s: Ctl, clock: Clock, ops: seq<Op>, op: Op)
    requires clock.hz > 0 && s.num == 0 && Raises(Run(s, clock, ops), clock, op)
    ensures Streak(s, clock, ops + [op]) >= Needed(Run(s, clock, ops).numThreshold)
  {
    NumWithinStreak(s, clock, ops);
    assert (ops + [op])[..|ops|] == ops;
  }

  // ---------------------------------------------------------------- the distance between alarms

  /** Updates the alarm is held off for after the one that raised it. */
  const HELD_OFF: nat := QBSS_LOAD_ALARM_DURATION - 2

  /** Operations that neither reset the alarm nor change a threshold. */
  predicate Steady(op: Op) {
    op.Update? || op.Resume? || op.StatusClear? || op.TakeAlarm?
  }

  datatype Distance = Never | Ago(updates: nat)

  /** How many effective updates ago the last alarm was raised. */
  function SinceAlarm(s: Ctl, clock: Clock, ops: seq<Op>): Distance
    requires clock.hz > 0
  {
    if ops == [] then Never
    else
      var before, op := ops[..|ops| - 1], ops[|ops| - 1];
      var t := Run(s, clock, before);
      if Raises(t, clock, op) then Ago(0)
      else if !op.Update? || !Effective(t) then SinceAlarm(s, clock, before)
      else
        match SinceAlarm(s, clock, before)
        case Never => Never
        case Ago(n) => Ago(n + 1)
  }

  predicate HeldOff(t: Ctl, since: Distance) {
    match since
    case Never => t.duration == 0
    case Ago(n) => if n < HELD_OFF then t.duration == n + 2 else t.duration == 0 && t.num <= n - HELD_OFF
  }

  lemma CountKeepsHeldOff(num: nat, duration: nat, threshold: nat, over: bool, n: nat)
    requires if n < HELD_OFF then duration == n + 2 else duration == 0 && num <= n - HELD_OFF
    ensures var c := Count(num, duration, threshold, over);
            && (c.alarm ==> n + 1 >= HELD_OFF + Needed(threshold) && c.duration == 2)
            && (!c.alarm ==>
                  if n + 1 < HELD_OFF then c.duration == n + 3 else c.duration == 0 && c.num <= n + 1 - HELD_OFF)
  {
  }

  /** What an operation does to the counters and thresholds. */
  lemma StepCounts(s: Ctl, clock: Clock, op: Op)
    requires clock.hz > 0 && Steady(op) && s.timeThreshold > 0
    ensures var t := Step(s, clock, op);
            && t.timeThreshold == s.timeThreshold && t.numThreshold == s.numThreshold
            && t.duration == (if op.Update? && Effective(s) then CountedBy(s, clock, op).duration else s.duration)
            && t.num == if op.Update? && Effective(s) then CountedBy(s, clock, op).num
                        else if op.StatusClear? then 0 else s.num
  {
  }

  lemma FirstCountHoldsOff(num: nat, threshold: nat, over: bool)
    ensures var c := Count(num, 0, threshold, over); c.duration == if c.alarm then 2 else 0
  {
  }

  lemma {:induction false} SteadyRunHoldsOff(s: Ctl, clock: Clock, ops: seq<Op>)
    requires clock.hz > 0 && s.timeThreshold > 0 && s.duration == 0
    requires forall op :: op in ops ==> Steady(op)
    ensures var t := Run(s, clock, ops);
            && t.timeThreshold == s.timeThreshold && t.numThreshold == s.numThreshold
            && HeldOff(t, SinceAlarm(s, clock, ops))
  {
    if ops != [] {
      var before, op := ops[..|ops| - 1], ops[|ops| - 1];
      SteadyRunHoldsOff(s, clock, before);
      var t := Run(s, clock, before);
      StepCounts(t, clock, op);
      if op.Update? && Effective(t) {
        var over := Over(Timed(t, clock, op.upTime), op.primary, op.secondary);
        FirstCountHoldsOff(t.num, t.numThreshold, over);
        if SinceAlarm(s, clock, before).Ago? {
          CountKeepsHeldOff(t.num, t.duration, t.numThreshold, over, SinceAlarm(s, clock, before).updates);
        }
      }
      hide Step, Count, Timed, Over;
    }
  }

  /** With constant thresholds and no reset, alarms keep their distance, across suspend and resume. */
  lemma AlarmsKeepDistance(s: Ctl, clock: Clock, ops: seq<Op>, op: Op)
    requires clock.hz > 0 && s.timeThreshold > 0 && s.duration == 0
    requires forall op :: op in ops ==> Steady(op)
    requires Raises(Run(s, clock, ops), clock, op) && SinceAlarm(s, clock, ops).Ago?
    ensures SinceAlarm(s, clock, ops).updates + 1 >= HELD_OFF + Needed(s.numThreshold)
  {
    SteadyRunHoldsOff(s, clock, ops);
    var t := Run(s, clock, ops);
    var over := Over(Timed(t, clock, op.upTime), op.primary, op.secondary);
    CountKeepsHeldOff(t.num, t.duration, t.numThreshold, over, SinceAlarm(s, clock, ops).updates);
  }

  // ---------------------------------------------------------------- exactly when

  /** The counters after a history of updates, each over the threshold or not. */
  function Fold(h: seq<bool>, threshold: nat): Counted {
    if h == [] then Counted(0, 0, false)
    else
      var p := Fold(h[..|h| - 1], threshold);
      Count(p.num, p.duration, threshold, h[|h| - 1])
  }

  predicate AlarmAt(h: seq<bool>, threshold: nat, i: nat)
    requires i < |h|
  {
    Fold(h[..i + 1], threshold).alarm
  }

  /** The last updates are all over the threshold, as many as needed, and no alarm is too recent. */
  ghost predicate Due(h: seq<bool>, threshold: nat)
    requires h != []
  {
    var m := Needed(threshold);
    && m <= |h| && (forall k :: |h| - m <= k < |h| ==> h[k])
    && (forall j :: 0 <= j < |h| - 1 && j > |h| - 1 - HELD_OFF - m ==> !AlarmAt(h, threshold, j))
  }

  function Tail(h: seq<bool>): nat {
    if h == [] || !h[|h| - 1] then 0 else Tail(h[..|h| - 1]) + 1
  }

  lemma {:induction false} TailMeans(h: seq<bool>, m: nat)
    ensures Tail(h) >= m <==> m <= |h| && forall k :: |h| - m <= k < |h| ==> h[k]
  {
    if h != [] && h[|h| - 1] && m > 0 {
      var init := h[..|h| - 1];
      TailMeans(init, m - 1);
      assert forall k :: 0 <= k < |init| ==> init[k] == h[k];
    }
  }

  function LastAlarm(h: seq<bool>, threshold: nat): Distance {
    if h == [] then Never
    else if Fold(h, threshold).alarm then Ago(0)
    else
      match LastAlarm(h[..|h| - 1], threshold)
      case Never => Never
      case Ago(n) => Ago(n + 1)
  }

  lemma {:induction false} LastAlarmMeans(h: seq<bool>, threshold: nat, w: nat)
    ensures (LastAlarm(h, threshold).Ago? && LastAlarm(h, threshold).updates < w) <==>
            exists j :: 0 <= j < |h| && j >= |h| - w && AlarmAt(h, threshold, j)
  {
    if h != [] {
      var n := |h| - 1;
      var init := h[..n];
      assert h[..n + 1] == h;
      assert AlarmAt(h, threshold, n) == Fold(h, threshold).alarm;
      forall j | 0 <= j < n ensures AlarmAt(h, threshold, j) == AlarmAt(init, threshold, j) {
        assert init[..j + 1] == h[..j + 1];
      }
      if w > 0 { LastAlarmMeans(init, threshold, w - 1); }
    }
  }

  function Min(a: nat, b: nat): nat {
    if a < b then a else b
  }

  /** The counters in terms of the history. */
  lemma {:induction false} CountersMean(h: seq<bool>, threshold: nat)
    requires threshold < 0x100
    ensures var c := Fold(h, threshold);
            match LastAlarm(h, threshold)
            case Never => c.duration == 0 && c.num == Tail(h) < Needed(threshold)
            case Ago(n) =>
              if n < HELD_OFF then c.duration == n + 2
              else c.duration == 0 && c.num == Min(Tail(h), n - HELD_OFF) < Needed(threshold)
  {
    if h != [] {
      CountersMean(h[..|h| - 1], threshold);
    }
  }

  /** An alarm is raised exactly when it is due. */
  lemma AlarmIff(h: seq<bool>, threshold: nat)
    requires threshold < 0x100 && h != []
    ensures Fold(h, threshold).alarm <==> Due(h, threshold)
  {
    var init, m := h[..|h| - 1], Needed(threshold);
    CountersMean(init, threshold);
    TailMeans(h, m);
    LastAlarmMeans(init, threshold, HELD_OFF + m - 1);
    forall j | 0 <= j < |init| ensures AlarmAt(h, threshold, j) == AlarmAt(init, threshold, j) {
      assert init[..j + 1] == h[..j + 1];
    }
  }
}
