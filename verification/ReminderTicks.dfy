/** What a tick leaves behind, and why an unanswered reminder does not go on forever. */
module ReminderTicks {
  import opened Wrappers
  import opened Reminders
  import opened ReminderRuns

  /** The two statements of an error-free tick, with one shared now, and whatever other handlers and other ticks
      do between them. */
  function TickAround(s: State, now: int, between: seq<Event>): State {
    Step(RunFrom(Step(s, Reclaim(now)), between), Claim(now))
  }

  function Tick(s: State, now: int): State {
    TickAround(s, now, [])
  }

  /** A claim older than the grace. */
  predicate Overdue(r: Reminder, now: int) {
    r.status == Sent && !(r.claimedAt.Some? && r.claimedAt.value > now - STALE_CLAIM_GRACE)
  }

  predicate NoneOverdue(rows: map<Id, Reminder>, now: int) {
    forall id | id in rows && !rows[id].deleted :: !Overdue(rows[id], now)
  }

  predicate ClaimsLately(es: seq<Event>, now: int) {
    forall e | e in es && e.Claim? :: e.now > now - STALE_CLAIM_GRACE
  }

  lemma StepKeepsNoneOverdue(s: State, e: Event, now: int)
    requires NoneOverdue(s.rows, now) && (e.Claim? ==> e.now > now - STALE_CLAIM_GRACE)
    ensures NoneOverdue(Step(s, e).rows, now)
  {
  }

  lemma {:induction false} RunKeepsNoneOverdue(s: State, es: seq<Event>, now: int)
    requires NoneOverdue(s.rows, now) && ClaimsLately(es, now)
    ensures NoneOverdue(RunFrom(s, es).rows, now)
  {
    if es != [] {
      assert forall e | e in Prefix(es) :: e in es;
      RunKeepsNoneOverdue(s, Prefix(es), now);
      assert Last(es) in es;
      StepKeepsNoneOverdue(RunFrom(s, Prefix(es)), Last(es), now);
    }
  }

  /** After a tick nothing is due, and nothing is SENT on a claim older than the grace, even if other ticks overlap
      it, as long as none of them claims with a time that old. */
  lemma TickLeavesNothingDue(s: State, now: int, between: seq<Event>)
    requires RowsOk(s.rows) && ClaimsLately(between, now)
    ensures forall id | id in TickAround(s, now, between).rows && !TickAround(s, now, between).rows[id].deleted ::
      var r := TickAround(s, now, between).rows[id];
      && !(r.status == Pending && r.datetime <= now)
      && (r.status == Sent ==> r.claimedAt.Some? && r.claimedAt.value > now - STALE_CLAIM_GRACE)
  {
    var reclaimed := Step(s, Reclaim(now));
    RunKeepsNoneOverdue(reclaimed, between, now);
    StepKeepsNoneOverdue(RunFrom(reclaimed, between), Claim(now), now);
  }

  /** Events up to time now that change the row by tick statements at most: no confirmation is
      accepted for it, nobody edits or deletes it. */
  predicate Unanswered(s: State, es: seq<Event>, id: Id, now: int) {
    es == [] ||
    var before, e := RunFrom(s, Prefix(es)), Last(es);
    && Unanswered(s, Prefix(es), id, now)
    && (if e.Reclaim? || e.Claim? then e.now <= now
        else id in before.rows && id in Step(before, e).rows && Step(before, e).rows[id] == before.rows[id])
  }

  /** Either still the claim it was, or further on. */
  predicate Progressed(r: Reminder, r0: Reminder, now: int) {
    && r.datetime == r0.datetime && r.deleted == r0.deleted
    && (r0.status == Failed ==> r.status == Failed)
    && match r.status
       case Sent => r.claimedAt.Some? && r.claimedAt.value <= now && (r == r0 || r.attempts > r0.attempts)
       case Pending => r.attempts >= r0.attempts
       case Failed => true
       case Delivered => false
  }

  lemma {:induction false} UnansweredProgress(s: State, es: seq<Event>, id: Id, now: int)
    requires id in s.rows && Unanswered(s, es, id, now) && RowsOk(s.rows)
    requires Progressed(s.rows[id], s.rows[id], now)
    ensures id in RunFrom(s, es).rows && Progressed(RunFrom(s, es).rows[id], s.rows[id], now)
  {
    if es != [] {
      UnansweredProgress(s, Prefix(es), id, now);
    }
  }

  /** Some events, and then a tick at now with more of them between its statements. */
  datatype Round = Round(before: seq<Event>, between: seq<Event>, now: int)

  function RunRounds(s: State, rounds: seq<Round>): State {
    if rounds == [] then s
    else
      var last := rounds[|rounds| - 1];
      TickAround(RunFrom(RunRounds(s, rounds[..|rounds| - 1]), last.before), last.now, last.between)
  }

  predicate RoundUnanswered(s: State, round: Round, id: Id) {
    && Unanswered(s, round.before, id, round.now)
    && Unanswered(Step(RunFrom(s, round.before), Reclaim(round.now)), round.between, id, round.now)
  }

  predicate AllUnanswered(s: State, rounds: seq<Round>, id: Id) {
    rounds == [] ||
    var earlier, last := rounds[..|rounds| - 1], rounds[|rounds| - 1];
    AllUnanswered(s, earlier, id) && RoundUnanswered(RunRounds(s, earlier), last, id)
  }

  predicate SpacedByGrace(rounds: seq<Round>) {
    forall i | 0 < i < |rounds| :: rounds[i - 1].now + STALE_CLAIM_GRACE <= rounds[i].now
  }

  /** Given up, or claimed k times at least, the last time not after now. */
  predicate SpentOrFailed(r: Reminder, k: nat, now: int) {
    r.status == Failed || (r.status == Sent && r.attempts >= k && r.claimedAt.Some? && r.claimedAt.value <= now)
  }

  /** As it was before a round: still to be claimed for the k+1st time, and if it is SENT, on a claim that is stale
      by then unless it is the k+1st already. */
  predicate Ready(r: Reminder, k: nat, now: int) {
    && !r.deleted && r.datetime <= now
    && match r.status
       case Pending => r.attempts >= k
       case Sent => r.claimedAt.Some? && r.claimedAt.value <= now
                    && (r.attempts > k || (r.attempts == k && r.claimedAt.value + STALE_CLAIM_GRACE <= now))
       case Failed => true
       case Delivered => false
  }

  lemma ProgressKeepsReady(r: Reminder, r0: Reminder, k: nat, now: int)
    requires Ready(r0, k, now) && Progressed(r, r0, now)
    ensures Ready(r, k, now)
  {
  }

  lemma ReadyProgresses(r: Reminder, k: nat, now: int)
    requires Ready(r, k, now)
    ensures Progressed(r, r, now)
  {
  }

  lemma ReclaimReadies(r: Reminder, k: nat, now: int)
    requires RowOk(r) && Ready(r, k, now)
    ensures Ready(ReclaimRow(r, now), k, now)
    ensures var t := ReclaimRow(r, now); t.status == Sent ==> t.attempts > k
  {
  }

  lemma ClaimSpends(r: Reminder, r0: Reminder, k: nat, now: int)
    requires RowOk(r) && Ready(r0, k, now) && (r0.status == Sent ==> r0.attempts > k) && Progressed(r, r0, now)
    ensures SpentOrFailed(ClaimRow(r, now), k + 1, now)
  {
  }

  predicate SpentRow(s: State, id: Id, datetime: int, k: nat, now: int) {
    RowsOk(s.rows) && id in s.rows && !s.rows[id].deleted && s.rows[id].datetime == datetime
    && SpentOrFailed(s.rows[id], k, now)
  }

  /** Each round spends an attempt, whatever ticks come before it and between its statements. */
  lemma RoundSpendsAnAttempt(s: State, round: Round, id: Id, k: nat)
    requires RowsOk(s.rows) && id in s.rows && Ready(s.rows[id], k, round.now) && RoundUnanswered(s, round, id)
    ensures SpentRow(TickAround(RunFrom(s, round.before), round.now, round.between), id, s.rows[id].datetime, k + 1, round.now)
  {
    hide Ready, Progressed, SpentOrFailed, Unanswered, RowOk, ReclaimRow, ClaimRow, Due, Stale;
    var now := round.now;
    ReadyProgresses(s.rows[id], k, now);
    UnansweredProgress(s, round.before, id, now);
    RunKeepsRowsOk(s, round.before);
    var ticking := RunFrom(s, round.before);
    ProgressKeepsReady(ticking.rows[id], s.rows[id], k, now);
    var reclaimed := Step(ticking, Reclaim(now));
    StepKeepsRowsOk(ticking, Reclaim(now));
    ReclaimReadies(ticking.rows[id], k, now);
    ReadyProgresses(reclaimed.rows[id], k, now);
    UnansweredProgress(reclaimed, round.between, id, now);
    RunKeepsRowsOk(reclaimed, round.between);
    var claiming := RunFrom(reclaimed, round.between);
    StepKeepsRowsOk(claiming, Claim(now));
    ClaimSpends(claiming.rows[id], reclaimed.rows[id], k, now);
    SameOtherwise(s.rows[id], ticking.rows[id], now);
    SameOtherwise(reclaimed.rows[id], claiming.rows[id], now);
  }

  lemma SameOtherwise(r0: Reminder, r: Reminder, now: int)
    requires Progressed(r, r0, now)
    ensures r.datetime == r0.datetime && r.deleted == r0.deleted
    ensures ReclaimRow(r, now).datetime == ClaimRow(r, now).datetime == r.datetime
    ensures ReclaimRow(r, now).deleted == ClaimRow(r, now).deleted == r.deleted
  {
  }

  lemma SpentIsReady(r: Reminder, k: nat, before: int, now: int)
    requires SpentOrFailed(r, k, before) && !r.deleted && r.datetime <= now && before + STALE_CLAIM_GRACE <= now
    ensures Ready(r, k, now)
  {
  }

  lemma {:induction false} RoundsSpendAttempts(s: State, rounds: seq<Round>, id: Id, k: nat)
    requires rounds != [] && SpacedByGrace(rounds) && AllUnanswered(s, rounds, id)
    requires RowsOk(s.rows) && id in s.rows && Ready(s.rows[id], k, rounds[0].now)
    ensures s.rows[id].datetime <= rounds[|rounds| - 1].now
    ensures SpentRow(RunRounds(s, rounds), id, s.rows[id].datetime, k + |rounds|, rounds[|rounds| - 1].now)
  {
    var n := |rounds| - 1;
    if n == 0 {
      assert RunRounds(s, rounds[..0]) == s;
      RoundSpendsAnAttempt(s, rounds[0], id, k);
    } else {
      RoundsSpendAttempts(s, rounds[..n], id, k);
      var earlier := RunRounds(s, rounds[..n]);
      SpentIsReady(earlier.rows[id], k + n, rounds[n - 1].now, rounds[n].now);
      RoundSpendsAnAttempt(earlier, rounds[n], id, k + n);
    }
  }

  /** The attempts that are certainly over: all of a PENDING row's, and all but the current one of a SENT row's. */
  function Spent(r: Reminder): int {
    if r.status == Sent then r.attempts - 1 else r.attempts
  }

  /** A due reminder that nobody answers, edits or deletes has FAILED once its spent attempts and the ticks, two
      minutes apart, are more than five together, however many other ticks and steps come in between. */
  lemma UnansweredReminderFails(s: State, rounds: seq<Round>, id: Id)
    requires RowsOk(s.rows) && id in s.rows && !s.rows[id].deleted
    requires Spent(s.rows[id]) + |rounds| > MAX_DELIVERY_ATTEMPTS && rounds != []
    requires SpacedByGrace(rounds) && AllUnanswered(s, rounds, id) && s.rows[id].datetime <= rounds[0].now
    requires s.rows[id].status == Pending || (s.rows[id].status == Sent && s.rows[id].claimedAt.value <= rounds[0].now)
    ensures id in RunRounds(s, rounds).rows && RunRounds(s, rounds).rows[id].status == Failed
  {
    RoundsSpendAttempts(s, rounds, id, Spent(s.rows[id]));
  }

  // ------------------------------------------------------------------ ticks and nothing else

  function TickRow(r: Reminder, now: int): Reminder {
    ClaimRow(ReclaimRow(r, now), now)
  }

  /** A row after ticks at the given times. */
  function TickedRow(r: Reminder, times: seq<int>): Reminder {
    if times == [] then r else TickRow(TickedRow(r, times[..|times| - 1]), times[|times| - 1])
  }

  function Ticks(s: State, times: seq<int>): State {
    if times == [] then s else Tick(Ticks(s, times[..|times| - 1]), times[|times| - 1])
  }

  lemma {:induction false} TicksAreRowwise(s: State, times: seq<int>, id: Id)
    requires id in s.rows
    ensures id in Ticks(s, times).rows && Ticks(s, times).rows[id] == TickedRow(s.rows[id], times)
  {
    if times != [] {
      TicksAreRowwise(s, times[..|times| - 1], id);
    }
  }

  predicate TimesSpaced(times: seq<int>) {
    forall i | 0 < i < |times| :: times[i - 1] + STALE_CLAIM_GRACE <= times[i]
  }

  lemma {:induction false} TickedExactly(r: Reminder, times: seq<int>)
    requires times != [] && TimesSpaced(times) && Due(r, times[0]) && r.attempts < MAX_DELIVERY_ATTEMPTS
    ensures r.datetime <= times[|times| - 1]
    ensures var last := times[|times| - 1];
      if r.attempts + |times| > MAX_DELIVERY_ATTEMPTS then TickedRow(r, times).status == Failed
      else TickedRow(r, times) == r.(status := Sent, claimedAt := Some(last), attempts := r.attempts + |times|)
  {
    var n := |times| - 1;
    if n == 0 {
      assert TickedRow(r, times[..0]) == r;
    } else {
      TickedExactly(r, times[..n]);
    }
  }

  /** Ticked two minutes apart and otherwise left alone, a due reminder has FAILED exactly when the attempts it had
      spent and the ticks are more than five together: a fresh one at the sixth tick. */
  lemma TicksFailExactly(s: State, times: seq<int>, id: Id)
    requires RowsOk(s.rows) && id in s.rows && times != [] && TimesSpaced(times) && Due(s.rows[id], times[0])
    ensures id in Ticks(s, times).rows
    ensures Ticks(s, times).rows[id].status == Failed <==> s.rows[id].attempts + |times| > MAX_DELIVERY_ATTEMPTS
  {
    TicksAreRowwise(s, times, id);
    TickedExactly(s.rows[id], times);
  }

  /** Five are not enough for a new one: it is still SENT after the fifth. */
  lemma FiveTicksAreNotEnough(s: State, times: seq<int>, id: Id)
    requires |times| == MAX_DELIVERY_ATTEMPTS && TimesSpaced(times)
    requires id in s.rows && Due(s.rows[id], times[0]) && s.rows[id].attempts == 0
    ensures id in Ticks(s, times).rows && Ticks(s, times).rows[id].status == Sent
  {
    TicksAreRowwise(s, times, id);
    TickedExactly(s.rows[id], times);
  }
}
