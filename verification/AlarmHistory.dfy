/**
 * When the channel-load alarm is raised in any run at all, resets, cleared counts, a switched-off
 * percentage and changed thresholds included: the run is reduced to a history of marks.
 */
module AlarmHistory {
  import opened LoadAlarm

  datatype Mark =
    | Tick(over: bool, threshold: nat)  // an effective update, with the threshold then in force
    | Reset                             // the alarm was reset, or its percentage changed
    | Clear                             // the load status was cleared
    | Off                               // an effective update while the percentage is zero

  /** The two counters after a history. */
  function Counters(h: seq<Mark>): Counted {
    if h == [] then Counted(0, 0, false)
    else
      var p := Counters(h[..|h| - 1]);
      match h[|h| - 1]
      case Tick(over, threshold) => Count(p.num, p.duration, threshold, over)
      case Reset => Counted(p.num, 0, false)
      case Clear => Counted(0, p.duration, false)
      case Off => Counted(0, 0, false)
  }

  predicate RaisedAt(h: seq<Mark>, i: nat)
    requires i < |h|
  {
    Counters(h[..i + 1]).alarm
  }

  predicate Cancels(m: Mark) {
    m.Reset? || m.Off?
  }

  function Ticks(h: seq<Mark>, lo: nat, hi: nat): (n: nat)
    requires lo <= hi <= |h|
    ensures n <= hi - lo
    decreases hi
  {
    if lo == hi then 0 else Ticks(h, lo, hi - 1) + if h[hi - 1].Tick? then 1 else 0
  }

  /** The last alarm before `k` that no mark cancelled is `n` ticks back. */
  ghost predicate AlarmBack(h: seq<Mark>, k: nat, j: nat, n: nat)
    requires k <= |h|
  {
    j < k && RaisedAt(h, j) && Ticks(h, j + 1, k) == n && forall i :: j < i < k ==> !Cancels(h[i]) && !RaisedAt(h, i)
  }

  /** Updates at `k` are held off: an alarm that was not cancelled is fewer than 98 ticks back. */
  ghost predicate Held(h: seq<Mark>, k: nat)
    requires k <= |h|
  {
    exists j: nat, n: nat :: AlarmBack(h, k, j, n) && n < HELD_OFF
  }

  /** Mark `k` starts the busy count anew: a quiet update, a cleared count, a switch-off, or the end of a hold-off. */
  ghost predicate Breaks(h: seq<Mark>, k: nat)
    requires k < |h|
  {
    || h[k].Clear? || h[k].Off? || (h[k].Tick? && !h[k].over)
    || (h[k].Tick? && exists j: nat, n: nat :: AlarmBack(h, k, j, n) && n == HELD_OFF - 1)
  }

  /** Busy updates that were counted: since the last break, and not held off. */
  ghost function Busy(h: seq<Mark>, k: nat): (n: nat)
    requires k <= |h|
    ensures n <= k
  {
    if k == 0 || Breaks(h, k - 1) then 0
    else Busy(h, k - 1) + if h[k - 1].Tick? && !Held(h, k - 1) then 1 else 0
  }

  /** What one byte keeps of a count. */
  function Low8(n: nat): nat {
    n % 0x100
  }

  /** The last mark is a busy update that is not held off, and enough of them, modulo 256, were counted. */
  ghost predicate Due(h: seq<Mark>)
    requires h != []
  {
    var last := |h| - 1;
    h[last].Tick? && h[last].over && !Held(h, last) && Low8(Busy(h, last) + 1) >= h[last].threshold
  }

  // ---------------------------------------------------------------- in terms of the last alarm

  /** Ticks since the last alarm that no mark cancelled. */
  function Since(h: seq<Mark>): Distance {
    if h == [] then Never
    else if Counters(h).alarm then Ago(0)
    else if Cancels(h[|h| - 1]) then Never
    else
      match Since(h[..|h| - 1])
      case Never => Never
      case Ago(n) => Ago(n + if h[|h| - 1].Tick? then 1 else 0)
  }

  lemma BackStep(h: seq<Mark>, k: nat, j: nat, n: nat)
    requires 0 < k <= |h| && j < k
    ensures AlarmBack(h, k, j, n) <==>
            if j == k - 1 then RaisedAt(h, j) && n == 0
            else
              && !Cancels(h[k - 1]) && !RaisedAt(h, k - 1)
              && n >= (if h[k - 1].Tick? then 1 else 0)
              && AlarmBack(h, k - 1, j, n - if h[k - 1].Tick? then 1 else 0)
  {
    hide RaisedAt, Cancels;
  }

  lemma {:induction false} SinceMeans(h: seq<Mark>, k: nat)
    requires k <= |h|
    ensures Since(h[..k]).Never? ==> forall j: nat, n: nat :: !AlarmBack(h, k, j, n)
    ensures Since(h[..k]).Ago? ==>
              (exists j: nat :: AlarmBack(h, k, j, Since(h[..k]).updates)) &&
              forall j: nat, n: nat :: AlarmBack(h, k, j, n) ==> n == Since(h[..k]).updates
  {
    if k > 0 {
      SinceMeans(h, k - 1);
      assert h[..k][..k - 1] == h[..k - 1] && h[..k][k - 1] == h[k - 1];
      forall j: nat, n: nat | j < k
        ensures AlarmBack(h, k, j, n) <==>
                if j == k - 1 then RaisedAt(h, j) && n == 0
                else
                  && !Cancels(h[k - 1]) && !RaisedAt(h, k - 1)
                  && n >= (if h[k - 1].Tick? then 1 else 0)
                  && AlarmBack(h, k - 1, j, n - if h[k - 1].Tick? then 1 else 0)
      {
        BackStep(h, k, j, n);
      }
      hide AlarmBack, Counters;
      if RaisedAt(h, k - 1) {
        assert AlarmBack(h, k, k - 1, 0);
      } else if Since(h[..k]).Ago? {
        var j: nat :| AlarmBack(h, k - 1, j, Since(h[..k - 1]).updates);
        assert j < k - 1 by { BackIsBefore(h, k - 1, j, Since(h[..k - 1]).updates); }
        assert AlarmBack(h, k, j, Since(h[..k]).updates);
      }
      forall j: nat, n: nat | AlarmBack(h, k, j, n) ensures j < k { BackIsBefore(h, k, j, n); }
    }
  }

  lemma BackIsBefore(h: seq<Mark>, k: nat, j: nat, n: nat)
    requires k <= |h| && AlarmBack(h, k, j, n)
    ensures j < k
  {
  }

  /** The history notions in terms of the ticks since the last alarm. */
  lemma HeldMeans(h: seq<Mark>, k: nat)
    requires k <= |h|
    ensures Held(h, k) <==> Since(h[..k]).Ago? && Since(h[..k]).updates < HELD_OFF
    ensures k < |h| ==>
              (Breaks(h, k) <==>
               h[k].Clear? || h[k].Off? ||
               (h[k].Tick? && (!h[k].over || Since(h[..k]) == Ago(HELD_OFF - 1))))
  {
    SinceMeans(h, k);
    hide AlarmBack, Since;
  }

  // ---------------------------------------------------------------- the counters

  /** The counters in terms of the history, one mark further. */
  lemma CountersStep(h: seq<Mark>, k: nat)
    requires k < |h|
    requires var c := Counters(h[..k]);
             c.num == Low8(Busy(h, k)) &&
             c.duration == match Since(h[..k])
                           case Never => 0
                           case Ago(n) => if n < HELD_OFF then n + 2 else 0
    ensures var c := Counters(h[..k + 1]);
            c.num == Low8(Busy(h, k + 1)) &&
            c.duration == match Since(h[..k + 1])
                          case Never => 0
                          case Ago(n) => if n < HELD_OFF then n + 2 else 0
    ensures RaisedAt(h, k) <==>
            h[k].Tick? && h[k].over && !Held(h, k) && Low8(Busy(h, k) + 1) >= h[k].threshold
  {
    HeldMeans(h, k);
    assert h[..k + 1][..k] == h[..k] && h[..k + 1][k] == h[k];
    SuccIsMod(Busy(h, k));
    hide Held, Breaks, Low8, Succ8;
  }

  lemma SuccIsMod(n: nat)
    ensures Succ8(Low8(n)) == Low8(n + 1) <= n + 1 && Low8(0) == 0
  {
  }

  lemma {:induction false} CountersMean(h: seq<Mark>, k: nat)
    requires k <= |h|
    ensures var c := Counters(h[..k]);
            c.num == Low8(Busy(h, k)) &&
            c.duration == match Since(h[..k])
                          case Never => 0
                          case Ago(n) => if n < HELD_OFF then n + 2 else 0
  {
    if k > 0 {
      CountersMean(h, k - 1);
      CountersStep(h, k - 1);
    }
  }

  /** For every history of marks: an alarm is raised exactly when it is due. */
  lemma AlarmIffDue(h: seq<Mark>)
    requires h != []
    ensures Counters(h).alarm <==> Due(h)
  {
    hide Counters, Busy, Held, Since, Low8;
    CountersMean(h, |h| - 1);
    CountersStep(h, |h| - 1);
    assert h[..|h| - 1 + 1] == h;
  }

  // ---------------------------------------------------------------- histories of updates only

  function Plain(over: seq<bool>, threshold: nat): (h: seq<Mark>)
    ensures |h| == |over|
  {
    if over == [] then [] else Plain(over[..|over| - 1], threshold) + [Tick(over[|over| - 1], threshold)]
  }

  lemma {:induction false} PlainFolds(over: seq<bool>, threshold: nat)
    ensures Counters(Plain(over, threshold)) == Fold(over, threshold)
  {
    if over != [] {
      var init := over[..|over| - 1];
      PlainFolds(init, threshold);
      assert Plain(over, threshold)[..|init|] == Plain(init, threshold);
      hide Count;
    }
  }

  /**
   * With a constant threshold and updates alone, an alarm is due exactly when the last max(1, threshold)
   * updates were busy and none was raised in the 97 + max(1, threshold) before.
   */
  lemma PlainDueIff(over: seq<bool>, threshold: nat)
    requires over != [] && threshold < 0x100
    ensures Due(Plain(over, threshold)) <==> LoadAlarm.Due(over, threshold)
  {
    PlainFolds(over, threshold);
    AlarmIffDue(Plain(over, threshold));
    AlarmIff(over, threshold);
    hide Due, LoadAlarm.Due, Fold, Counters;
  }

  // ---------------------------------------------------------------- what resets change

  /** Right after an alarm, a reset lets the next busy update raise another, unless the count wraps. */
  lemma ResetReopensIff(h: seq<Mark>, threshold: nat)
    requires h != [] && Counters(h).alarm && h[|h| - 1] == Tick(true, threshold)
    ensures Counters(h + [Reset, Tick(true, threshold)]).alarm <==>
            threshold == 0 || Low8(Busy(h, |h|)) != 0xFF
  {
    var n := |h|;
    var g := h + [Reset, Tick(true, threshold)];
    assert g[..n] == h && g[..n + 1][..n] == h && g[..n + 1] == h + [Reset] && g[..n + 2] == g;
    assert g[..n + 2][..n + 1] == g[..n + 1];
    CountersMean(h, n);
    assert h[..n] == h;
  }

  lemma {:induction false} BusyWithinTicks(h: seq<Mark>, k: nat)
    requires k <= |h|
    ensures Since(h[..k]).Ago? && Since(h[..k]).updates >= HELD_OFF ==>
              Busy(h, k) <= Since(h[..k]).updates - HELD_OFF
  {
    if k > 0 {
      BusyWithinTicks(h, k - 1);
      HeldMeans(h, k - 1);
      assert h[..k][..k - 1] == h[..k - 1] && h[..k][k - 1] == h[k - 1];
      CountersMean(h, k - 1);
      CountersStep(h, k - 1);
      hide Held, Breaks, Counters;
    }
  }

  /** Two alarms with no reset or switch-off between them keep their distance, whatever else happens. */
  lemma AlarmsKeepDistance(h: seq<Mark>, j: nat, n: nat)
    requires h != [] && Counters(h).alarm && AlarmBack(h, |h| - 1, j, n)
    ensures n + 1 >= HELD_OFF + Needed(h[|h| - 1].threshold)
  {
    var last := |h| - 1;
    AlarmIffDue(h);
    SinceMeans(h, last);
    HeldMeans(h, last);
    BusyWithinTicks(h, last);
    SuccIsMod(Busy(h, last));
    hide Low8, Busy, Since, Counters, Held, AlarmBack;
  }

  // ---------------------------------------------------------------- runs

  /** The marks an operation leaves in the history. */
  function MarksOf(t: Ctl, clock: Clock, op: Op): seq<Mark>
    requires clock.hz > 0
  {
    match op
    case Update(upTime, primary, secondary) =>
      if !Effective(t) then []
      else if t.timeThreshold == 0 then [Off]
      else [Tick(Over(Timed(t, clock, upTime), primary, secondary), t.numThreshold)]
    case StatusClear => [Clear]
    case AlarmReset => [Reset]
    case SetTimeThreshold(_) => [Reset]
    case _ => []
  }

  function History(s: Ctl, clock: Clock, ops: seq<Op>): seq<Mark>
    requires clock.hz > 0
  {
    if ops == [] then []
    else
      var before := ops[..|ops| - 1];
      History(s, clock, before) + MarksOf(Run(s, clock, before), clock, ops[|ops| - 1])
  }

  /** What an operation does to the two counters. */
  lemma OpCounts(t: Ctl, clock: Clock, op: Op)
    requires clock.hz > 0
    ensures var u := Step(t, clock, op);
            match op
            case Update(_, _, _) =>
              if !Effective(t) then u.num == t.num && u.duration == t.duration
              else if t.timeThreshold == 0 then u.num == u.duration == 0 && !Raises(t, clock, op)
              else
                var c := CountedBy(t, clock, op);
                u.num == c.num && u.duration == c.duration && Raises(t, clock, op) == c.alarm
            case StatusClear => u.num == 0 && u.duration == t.duration
            case AlarmReset => u.num == t.num && u.duration == 0
            case SetTimeThreshold(_) => u.num == t.num && u.duration == 0
            case _ => u.num == t.num && u.duration == t.duration
  {
    hide BusyThreshold, Elapsed, Over, Count, Timed;
  }

  lemma MarksCount(t: Ctl, clock: Clock, op: Op, h: seq<Mark>)
    requires clock.hz > 0 && t.num == Counters(h).num && t.duration == Counters(h).duration
    ensures var u, c := Step(t, clock, op), Counters(h + MarksOf(t, clock, op));
            u.num == c.num && u.duration == c.duration
    ensures op.Update? && Effective(t) ==> (Raises(t, clock, op) <==> Counters(h + MarksOf(t, clock, op)).alarm)
  {
    OpCounts(t, clock, op);
    var marks := MarksOf(t, clock, op);
    hide Step, Count, Over, Timed, Raises;
    if marks == [] {
      assert h + marks == h;
    } else {
      assert marks == [marks[0]] && (h + marks)[..|h|] == h;
    }
  }

  lemma {:induction false} RunCounts(s: Ctl, clock: Clock, ops: seq<Op>)
    requires clock.hz > 0 && s.num == s.duration == 0
    ensures var t, c := Run(s, clock, ops), Counters(History(s, clock, ops)); t.num == c.num && t.duration == c.duration
  {
    if ops != [] {
      var before := ops[..|ops| - 1];
      RunCounts(s, clock, before);
      MarksCount(Run(s, clock, before), clock, ops[|ops| - 1], History(s, clock, before));
      hide Step, Counters, MarksOf, Raises;
    }
  }

  /** In any run at all, an effective update raises an alarm exactly when the history makes one due. */
  lemma RaisesIffDue(s: Ctl, clock: Clock, ops: seq<Op>, op: Op)
    requires clock.hz > 0 && s.num == s.duration == 0 && op.Update? && Effective(Run(s, clock, ops))
    ensures var h := History(s, clock, ops + [op]);
            h != [] && (Raises(Run(s, clock, ops), clock, op) <==> Due(h))
  {
    RunCounts(s, clock, ops);
    MarksCount(Run(s, clock, ops), clock, op, History(s, clock, ops));
    assert (ops + [op])[..|ops|] == ops;
    AlarmIffDue(History(s, clock, ops + [op]));
    hide Due, Counters, Run;
  }
}
