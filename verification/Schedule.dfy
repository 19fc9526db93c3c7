/** The advance of a repeating reminder past a late confirmation. */
module Schedule {
  import opened GoTime
  import opened Wrappers

  const MAX_SCHEDULE_ADVANCE_STEPS: nat := 4320

  /** What a delay built by "@every" satisfies: a positive whole number of seconds. */
  predicate EveryDelay(delay: int) {
    NANOS_PER_SECOND <= delay <= MAX_DURATION && delay % NANOS_PER_SECOND == 0
  }

  /** ConstantDelaySchedule.Next: one period on, dropping the sub-second part. */
  function DelayNext(t: int, delay: int): int {
    t + delay - SubSecond(t)
  }

  /** The simple form: step the schedule from t until it passes now. */
  function StepPast(t: int, now: int, delay: int): int
    requires EveryDelay(delay)
    decreases now - t
  {
    var next := DelayNext(t, delay);
    if next > now then next else StepPast(next, now, delay)
  }

  /** The fast form: one jump in wrapping 64-bit arithmetic, refused unless it lands after now. */
  function AdvanceByDelay(anchor: int, now: int, delay: int): Option<int>
    requires EveryDelay(delay)
  {
    var first := anchor + Wrap64(delay - SubSecond(anchor));
    if first > now then Some(first)
    else
      var next := first + Wrap64(Wrap64(Sub(now, first) / delay + 1) * delay);
      if next > now then Some(next) else None
  }

  /** The jump from first past now, in exact arithmetic. */
  function ExactJump(first: int, now: int, delay: int): int
    requires delay > 0
  {
    ((now - first) / delay + 1) * delay
  }

  lemma QuotientUnique(x: int, d: int, q: int)
    requires d > 0 && q * d <= x < q * d + d
    ensures x / d == q
  {
    var p := x / d;
    assert p * d <= x < p * d + d;
    if p < q {
      ProductMonotone(p + 1, q, d);
    } else if p > q {
      ProductMonotone(q + 1, p, d);
    }
  }

  lemma QuotientStep(x: int, d: int)
    requires d > 0
    ensures (x + d) / d == x / d + 1
  {
    var p := x / d;
    assert p * d <= x < p * d + d;
    assert (p + 1) * d == p * d + d;
    QuotientUnique(x + d, d, p + 1);
  }

  lemma JumpBounds(first: int, now: int, delay: int)
    requires delay > 0 && first <= now
    ensures now - first < ExactJump(first, now, delay) <= now - first + delay
  {
    var d := now - first;
    assert (d / delay) * delay <= d < (d / delay) * delay + delay;
  }

  lemma {:induction false} SteppingIsTheJump(t: int, now: int, delay: int)
    requires EveryDelay(delay) && SubSecond(t) == 0 && t <= now
    ensures StepPast(t, now, delay) == t + ExactJump(t, now, delay)
    decreases now - t
  {
    var next := t + delay;
    NextIsWhole(t, delay);
    if next > now {
      QuotientUnique(now - t, delay, 0);
    } else {
      SteppingIsTheJump(next, now, delay);
      QuotientStep(now - next, delay);
    }
  }

  lemma NextIsWhole(t: int, delay: int)
    requires delay % NANOS_PER_SECOND == 0
    ensures SubSecond(DelayNext(t, delay)) == 0
  {
  }

  lemma WrapOnce(x: int)
    requires 0 <= x < 0x1_0000_0000_0000_0000
    ensures Wrap64(x) == if x <= MAX_DURATION then x else x - 0x1_0000_0000_0000_0000
  {
  }

  lemma QuotientBound(x: int, d: int)
    requires 0 <= x && d > 0
    ensures 0 <= x / d <= x && x / d * d <= x
  {
    if x / d > x {
      ProductMonotone(1, d, x / d);
    }
  }

  /** A wrapped or saturated jump never looks like a future instant. */
  lemma WrappedJump(first: int, now: int, delay: int)
    requires EveryDelay(delay) && first <= now
    ensures
      var jump := Wrap64(Wrap64(Sub(now, first) / delay + 1) * delay);
      if ExactJump(first, now, delay) <= MAX_DURATION
      then jump == ExactJump(first, now, delay)
      else jump <= now - first
  {
    var d := Sub(now, first);
    var q := d / delay;
    JumpBounds(first, now, delay);
    QuotientBound(d, delay);
    ProductMonotone(NANOS_PER_SECOND, delay, q);
    WrapOnce(q + 1);
    assert (q + 1) * delay == q * delay + delay;
    WrapOnce((q + 1) * delay);
  }

  /** The jump succeeds exactly when exact arithmetic stays within a duration, and then it is
      the first instant after now that stepping the schedule from the anchor reaches. */
  lemma AdvanceByDelayIsStepping(anchor: int, now: int, delay: int)
    requires EveryDelay(delay)
    ensures
      var first := DelayNext(anchor, delay);
      var jumped := AdvanceByDelay(anchor, now, delay);
      && (jumped.Some? <==> first > now || ExactJump(first, now, delay) <= MAX_DURATION)
      && (jumped.Some? ==> jumped.value == StepPast(anchor, now, delay) > now)
  {
    var first := DelayNext(anchor, delay);
    assert Wrap64(delay - SubSecond(anchor)) == delay - SubSecond(anchor);
    if first <= now {
      NextIsWhole(anchor, delay);
      WrappedJump(first, now, delay);
      JumpBounds(first, now, delay);
      SteppingIsTheJump(first, now, delay);
    }
  }

  // ------------------------------------------------------------------ phase over a run

  /** The anchors left by a run of late confirmations, the i-th one arriving at nows[i];
      none as soon as one jump is refused. */
  function AnchorAfter(anchor: int, nows: seq<int>, delay: int): Option<int>
    requires EveryDelay(delay)
  {
    if nows == [] then Some(anchor)
    else
      var earlier := AnchorAfter(anchor, nows[..|nows| - 1], delay);
      if earlier.None? then None else AdvanceByDelay(earlier.value, nows[|nows| - 1], delay)
  }

  ghost predicate InPhase(t: int, anchor: int, delay: int)
    requires delay > 0
  {
    SubSecond(t) == 0 && (t - (anchor - SubSecond(anchor))) % delay == 0
  }

  lemma PhaseStep(x: int, d: int)
    requires d > 0 && x % d == 0
    ensures (x + d) % d == 0
  {
    QuotientStep(x, d);
    assert x == x / d * d;
    assert (x / d + 1) * d == x + d;
  }

  lemma NextInPhase(t: int, anchor: int, delay: int)
    requires EveryDelay(delay)
    requires t == anchor || InPhase(t, anchor, delay)
    ensures InPhase(DelayNext(t, delay), anchor, delay)
  {
    if t == anchor {
      PhaseStep(0, delay);
    } else {
      PhaseStep(t - (anchor - SubSecond(anchor)), delay);
    }
    NextIsWhole(t, delay);
  }

  lemma {:induction false} SteppingKeepsPhase(t: int, now: int, anchor: int, delay: int)
    requires EveryDelay(delay)
    requires t == anchor || InPhase(t, anchor, delay)
    ensures InPhase(StepPast(t, now, delay), anchor, delay)
    decreases now - t
  {
    NextInPhase(t, anchor, delay);
    if DelayNext(t, delay) <= now {
      SteppingKeepsPhase(DelayNext(t, delay), now, anchor, delay);
    }
  }

  /** However late and however many the confirmations, a repeat never drifts off the grid of
      its original anchor, and each reschedule is after its own confirmation. */
  lemma {:induction false} RepeatKeepsPhase(anchor: int, nows: seq<int>, delay: int)
    requires EveryDelay(delay) && nows != []
    ensures
      var t := AnchorAfter(anchor, nows, delay);
      t.Some? ==> InPhase(t.value, anchor, delay) && t.value > nows[|nows| - 1]
  {
    var earlier := AnchorAfter(anchor, nows[..|nows| - 1], delay);
    if earlier.Some? {
      if |nows| > 1 {
        RepeatKeepsPhase(anchor, nows[..|nows| - 1], delay);
      }
      AdvanceByDelayIsStepping(earlier.value, nows[|nows| - 1], delay);
      SteppingKeepsPhase(earlier.value, nows[|nows| - 1], anchor, delay);
    }
  }

  /** An instant a repeat anchored here can stand at: the anchor itself, or one in phase with it. */
  ghost predicate OnGrid(t: int, anchor: int, delay: int)
    requires delay > 0
  {
    t == anchor || InPhase(t, anchor, delay)
  }

  lemma MultiplesApart(x: int, y: int, d: int)
    requires d > 0 && x % d == 0 && y % d == 0 && x < y
    ensures x + d <= y
  {
    assert x == x / d * d && y == y / d * d;
    if x / d >= y / d {
      ProductMonotone(y / d, x / d, d);
    }
    ProductMonotone(x / d + 1, y / d, d);
  }

  lemma NextIsLeast(t: int, g: int, anchor: int, delay: int)
    requires EveryDelay(delay) && OnGrid(t, anchor, delay) && OnGrid(g, anchor, delay) && t < g
    requires anchor <= t
    ensures DelayNext(t, delay) <= g
  {
    var base := anchor - SubSecond(anchor);
    if t == anchor {
      MultiplesApart(0, g - base, delay);
    } else {
      MultiplesApart(t - base, g - base, delay);
    }
  }

  lemma {:induction false} SteppingIsLeast(t: int, now: int, g: int, anchor: int, delay: int)
    requires EveryDelay(delay) && OnGrid(t, anchor, delay) && OnGrid(g, anchor, delay)
    requires anchor <= t < g && now < g
    ensures StepPast(t, now, delay) <= g
    decreases now - t
  {
    NextIsLeast(t, g, anchor, delay);
    if DelayNext(t, delay) <= now {
      NextInPhase(t, anchor, delay);
      SteppingIsLeast(DelayNext(t, delay), now, g, anchor, delay);
    }
  }

  lemma {:induction false} SteppingAdvances(t: int, now: int, delay: int)
    requires EveryDelay(delay)
    ensures StepPast(t, now, delay) > t
    decreases now - t
  {
    if DelayNext(t, delay) <= now {
      SteppingAdvances(DelayNext(t, delay), now, delay);
    }
  }

  /** A jump from one instant of a grid lands after another exactly when it starts there or later, or is made then
      or later. */
  lemma JumpPassesExactly(t: int, now: int, g: int, anchor: int, delay: int)
    requires EveryDelay(delay) && anchor <= t && OnGrid(t, anchor, delay) && OnGrid(g, anchor, delay)
    requires AdvanceByDelay(t, now, delay).Some?
    ensures AdvanceByDelay(t, now, delay).value > g <==> t >= g || now >= g
    ensures AdvanceByDelay(t, now, delay).value > t && OnGrid(AdvanceByDelay(t, now, delay).value, anchor, delay)
  {
    AdvanceByDelayIsStepping(t, now, delay);
    SteppingAdvances(t, now, delay);
    SteppingKeepsPhase(t, now, anchor, delay);
    if t < g && now < g {
      SteppingIsLeast(t, now, g, anchor, delay);
    }
  }

  function WholeSecond(t: int): int {
    t - SubSecond(t)
  }

  function Later(t: int, now: int): int {
    if t > now then t else now
  }

  /** How many whole periods after the one instant the other is. */
  function Periods(t: int, u: int, delay: int): int
    requires delay > 0
  {
    (u - WholeSecond(t)) / delay
  }

  /** A jump lands on the first multiple of the period, from the whole second it starts in, after its start and now. */
  lemma JumpInClosedForm(t: int, now: int, delay: int)
    requires EveryDelay(delay) && AdvanceByDelay(t, now, delay).Some?
    ensures AdvanceByDelay(t, now, delay).value == WholeSecond(t) + (Periods(t, Later(t, now), delay) + 1) * delay
  {
    AdvanceByDelayIsStepping(t, now, delay);
    hide AdvanceByDelay;
    var first := DelayNext(t, delay);
    if first > now {
      QuotientUnique(Later(t, now) - WholeSecond(t), delay, 0);
    } else {
      NextIsWhole(t, delay);
      SteppingIsTheJump(first, now, delay);
      OnePeriodOn(t, now, delay);
    }
  }

  lemma OnePeriodOn(t: int, now: int, delay: int)
    requires EveryDelay(delay) && DelayNext(t, delay) <= now
    ensures DelayNext(t, delay) + ExactJump(DelayNext(t, delay), now, delay)
      == WholeSecond(t) + (Periods(t, Later(t, now), delay) + 1) * delay
  {
    var first := DelayNext(t, delay);
    var q := (now - first) / delay;
    QuotientStep(now - first, delay);
    assert (now - first) + delay == now - WholeSecond(t) && Later(t, now) == now;
    OneMoreTimes(q + 1, delay);
  }

  lemma OneMoreTimes(q: int, d: int)
    ensures (q + 1) * d == q * d + d
  {
  }

  lemma QuotientBelow(x: int, d: int, p: int)
    requires d > 0
    ensures x < p * d <==> x / d < p
  {
    var q := x / d;
    assert q * d <= x < q * d + d;
    if q < p {
      ProductMonotone(q + 1, p, d);
    } else {
      ProductMonotone(p, q, d);
    }
  }

  /** A jump lands after any given instant exactly when no whole period separates that from the later of its start
      and now. */
  lemma JumpLandsAfterExactly(t: int, now: int, g: int, delay: int)
    requires EveryDelay(delay) && AdvanceByDelay(t, now, delay).Some?
    ensures AdvanceByDelay(t, now, delay).value > g <==> Periods(t, g, delay) <= Periods(t, Later(t, now), delay)
  {
    JumpInClosedForm(t, now, delay);
    QuotientBelow(g - WholeSecond(t), delay, Periods(t, Later(t, now), delay) + 1);
  }

  lemma SumOfMultiples(x: int, y: int, d: int)
    requires d > 0 && x % d == 0
    ensures (x + y) % d == 0 <==> y % d == 0
  {
    var p, q := x / d, y / d;
    assert x == p * d && y == q * d + y % d && 0 <= y % d < d;
    assert x + y == (p + q) * d + y % d;
    QuotientUnique(x + y, d, p + q);
  }

  /** A jump lands in phase with any instant and period exactly when the instant it lands on, in closed form, is whole
      periods from that. */
  lemma JumpFallsInPhaseExactly(t: int, now: int, delay: int, anchor: int, period: int)
    requires EveryDelay(delay) && AdvanceByDelay(t, now, delay).Some? && period > 0
    ensures InPhase(AdvanceByDelay(t, now, delay).value, anchor, period) <==>
      (WholeSecond(t) + (Periods(t, Later(t, now), delay) + 1) * delay - WholeSecond(anchor)) % period == 0
  {
    AdvanceByDelayIsStepping(t, now, delay);
    SteppingKeepsPhase(t, now, t, delay);
    JumpInClosedForm(t, now, delay);
  }

  /** A jump from one instant lands in phase with another exactly when their whole seconds are a number of periods
      apart. */
  lemma JumpKeepsPhaseExactly(t: int, now: int, anchor: int, delay: int)
    requires EveryDelay(delay) && AdvanceByDelay(t, now, delay).Some?
    ensures InPhase(AdvanceByDelay(t, now, delay).value, anchor, delay) <==>
      (WholeSecond(t) - WholeSecond(anchor)) % delay == 0
  {
    var next := AdvanceByDelay(t, now, delay).value;
    AdvanceByDelayIsStepping(t, now, delay);
    SteppingKeepsPhase(t, now, t, delay);
    SumOfMultiples(next - WholeSecond(t), WholeSecond(t) - WholeSecond(anchor), delay);
  }

  // ------------------------------------------------------------------ the calendar walk

  /** A schedule is a fixed period, or a calendar known only through its Next. */
  datatype Schedule = Every(delay: int) | Calendar(next: int -> Option<int>)

  datatype Outcome = Fires(at: int, phaseLost: bool) | NeverFires

  /** n is what Next(t) must be: the least fire time after t, or none. */
  ghost predicate LeastFireAfter(fires: int -> bool, t: int, n: Option<int>) {
    match n
    case None => forall u | u > t :: !fires(u)
    case Some(f) => f > t && fires(f) && forall u | t < u < f :: !fires(u)
  }

  ghost predicate CalendarOf(fires: int -> bool, next: int -> Option<int>) {
    forall t :: LeastFireAfter(fires, t, next(t))
  }

  ghost function FiresWithin(fires: int -> bool, after: int, upTo: int): set<int> {
    set u | after < u <= upTo && fires(u)
  }

  /** The direct answer: look up now, and report a lost phase once too many fires were missed. */
  ghost function DirectLookup(fires: int -> bool, next: int -> Option<int>, anchor: int, now: int): Outcome {
    match next(if anchor > now then anchor else now)
    case None => NeverFires
    case Some(n) => Fires(n, |FiresWithin(fires, anchor, now)| >= MAX_SCHEDULE_ADVANCE_STEPS)
  }

  ghost predicate WellFormed(schedule: Schedule, fires: int -> bool) {
    match schedule
    case Every(delay) => EveryDelay(delay)
    case Calendar(next) => CalendarOf(fires, next)
  }

  /** What an advance must return, without the walk and without the jump. */
  ghost function Advanced(schedule: Schedule, fires: int -> bool, anchor: int, now: int): Outcome
    requires WellFormed(schedule, fires)
  {
    match schedule
    case Every(delay) =>
      if DelayNext(anchor, delay) > now || ExactJump(DelayNext(anchor, delay), now, delay) <= MAX_DURATION
      then Fires(StepPast(anchor, now, delay), false)
      else Fires(DelayNext(now, delay), true)
    case Calendar(next) => DirectLookup(fires, next, anchor, now)
  }

  lemma NoFireBetween(fires: int -> bool, anchor: int, t: int, u: int)
    requires anchor <= t <= u && forall v | t < v <= u :: !fires(v)
    ensures FiresWithin(fires, anchor, u) == FiresWithin(fires, anchor, t)
  {
  }

  lemma OneMoreFire(fires: int -> bool, anchor: int, t: int, f: int)
    requires anchor <= t && LeastFireAfter(fires, t, Some(f))
    ensures FiresWithin(fires, anchor, f) == FiresWithin(fires, anchor, t) + {f}
    ensures |FiresWithin(fires, anchor, f)| == |FiresWithin(fires, anchor, t)| + 1
  {
    assert f !in FiresWithin(fires, anchor, t);
  }

  lemma FewerFires(fires: int -> bool, anchor: int, t: int, u: int)
    requires t <= u
    ensures |FiresWithin(fires, anchor, t)| <= |FiresWithin(fires, anchor, u)|
  {
    var a, b := FiresWithin(fires, anchor, t), FiresWithin(fires, anchor, u);
    assert b == a + (b - a);
  }

  /** The first fire after now seen from t is the first one seen from now. */
  lemma LookupAgrees(fires: int -> bool, next: int -> Option<int>, t: int, now: int)
    requires CalendarOf(fires, next) && t <= now
    requires next(t).None? || next(t).value > now
    ensures next(now) == next(t)
  {
    assert LeastFireAfter(fires, t, next(t)) && LeastFireAfter(fires, now, next(now));
  }

  method AdvanceFromNow(schedule: Schedule, ghost fires: int -> bool, now: int) returns (r: Outcome)
    requires WellFormed(schedule, fires)
    ensures schedule.Every? ==> r == Fires(DelayNext(now, schedule.delay), true)
    ensures schedule.Calendar? ==>
      r == if schedule.next(now).None? then NeverFires else Fires(schedule.next(now).value, true)
    ensures match r
      case NeverFires => schedule.Calendar? && forall u | u > now :: !fires(u)
      case Fires(at, phaseLost) =>
        && phaseLost && at > now
        && (schedule.Calendar? ==> fires(at) && forall u | now < u < at :: !fires(u))
        && (schedule.Every? ==> SubSecond(at) == 0 && at <= now + schedule.delay)
  {
    var next := match schedule
      case Every(delay) => Some(DelayNext(now, delay))
      case Calendar(n) => n(now);
    assert schedule.Calendar? ==> LeastFireAfter(fires, now, next);
    if next.None? {
      return NeverFires;
    }
    return Fires(next.value, true);
  }

  /** Of the instants whole delays after the whole second of the anchor, the least one after both anchor and now; or
      one delay after the whole second of now, with the phase lost, where that is out of reach of 64 bits. */
  predicate LeastRepeat(anchor: int, now: int, delay: int, r: Outcome)
    requires delay > 0 && r.Fires?
  {
    var second := anchor - anchor % 1_000_000_000;
    var lost := second + delay <= now && ((now - (second + delay)) / delay + 1) * delay > 0x7FFF_FFFF_FFFF_FFFF;
    && r.phaseLost == lost
    && if lost then r.at == now - now % 1_000_000_000 + delay
       else r.at > anchor && r.at > now && (r.at - second) % delay == 0 && (r.at - delay <= anchor || r.at - delay <= now)
  }

  lemma EveryIsLeast(anchor: int, now: int, delay: int, fires: int -> bool)
    requires EveryDelay(delay)
    ensures LeastRepeat(anchor, now, delay, Advanced(Every(delay), fires, anchor, now))
  {
    AdvanceByDelayIsStepping(anchor, now, delay);
    SteppingKeepsPhase(anchor, now, anchor, delay);
    SteppingAdvances(anchor, now, delay);
    NoneSkipped(anchor, now, delay);
  }

  lemma {:induction false} NoneSkipped(t: int, now: int, delay: int)
    requires EveryDelay(delay)
    ensures StepPast(t, now, delay) - delay <= (if t > now then t else now)
    decreases now - t
  {
    if DelayNext(t, delay) <= now {
      NoneSkipped(DelayNext(t, delay), now, delay);
    }
  }

  lemma LookupIsLeast(fires: int -> bool, next: int -> Option<int>, anchor: int, now: int)
    requires CalendarOf(fires, next)
    ensures match DirectLookup(fires, next, anchor, now)
      case NeverFires => forall u | u > anchor && u > now :: !fires(u)
      case Fires(at, phaseLost) =>
        && fires(at) && at > anchor && at > now && (forall u | anchor < u < at && u > now :: !fires(u))
        && (phaseLost <==> |set u | anchor < u <= now && fires(u)| >= 4320)
  {
    var from := if anchor > now then anchor else now;
    assert LeastFireAfter(fires, from, next(from));
    assert FiresWithin(fires, anchor, now) == set u | anchor < u <= now && fires(u);
  }

  /** The bounded walk and the jump give the direct answer, and it is always after now. */
  method AdvanceSchedule(schedule: Schedule, ghost fires: int -> bool, anchor: int, now: int) returns (r: Outcome)
    requires WellFormed(schedule, fires)
    ensures r == Advanced(schedule, fires, anchor, now)
    ensures r.Fires? ==> r.at > now
    ensures schedule.Calendar? ==>
      match r
      case NeverFires => forall u | u > anchor && u > now :: !fires(u)
      case Fires(at, phaseLost) =>
        && fires(at) && at > anchor && (forall u | anchor < u < at && u > now :: !fires(u))
        && (phaseLost <==> |set u | anchor < u <= now && fires(u)| >= 4320)
    ensures schedule.Every? ==>
      && r.Fires?
      && LeastRepeat(anchor, now, schedule.delay, r)
  {
    if schedule.Calendar? {
      LookupIsLeast(fires, schedule.next, anchor, now);
    }
    if schedule.Every? {
      EveryIsLeast(anchor, now, schedule.delay, fires);
      AdvanceByDelayIsStepping(anchor, now, schedule.delay);
      var jumped := AdvanceByDelay(anchor, now, schedule.delay);
      if jumped.Some? {
        return Fires(jumped.value, false);
      }
      r := AdvanceFromNow(schedule, fires, now);
      return;
    }

    var next := anchor;
    assert FiresWithin(fires, anchor, anchor) == {};
    for steps := 0 to MAX_SCHEDULE_ADVANCE_STEPS
      invariant anchor <= next && (next == anchor || next <= now)
      invariant |FiresWithin(fires, anchor, next)| == steps
    {
      var after := schedule.next(next);
      assert LeastFireAfter(fires, next, after);
      if after.None? || after.value > now {
        if next <= now {
          LookupAgrees(fires, schedule.next, next, now);
          NoFireBetween(fires, anchor, next, now);
        } else {
          assert FiresWithin(fires, anchor, now) == {};
        }
        return if after.None? then NeverFires else Fires(after.value, false);
      }
      OneMoreFire(fires, anchor, next, after.value);
      next := after.value;
    }
    FewerFires(fires, anchor, next, now);
    assert LeastFireAfter(fires, now, schedule.next(now));
    r := AdvanceFromNow(schedule, fires, now);
  }
}
