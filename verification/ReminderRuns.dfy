/** What every run of the reminder protocol keeps. A run is any sequence of events, so every
    interleaving of ticks, confirmations, edits, deletes and create transactions is one. */
module ReminderRuns {
  import opened Wrappers
  import opened Reminders

  function Prefix(es: seq<Event>): seq<Event>
    requires es != []
  {
    es[..|es| - 1]
  }

  function Last(es: seq<Event>): Event
    requires es != []
  {
    es[|es| - 1]
  }

  // ------------------------------------------------------------------ the state of a row

  /** Claimed exactly while SENT; four spent attempts at most while PENDING, one to five after. */
  predicate RowOk(r: Reminder) {
    && (r.claimedAt.Some? <==> r.status == Sent)
    && (if r.status == Pending then r.attempts < MAX_DELIVERY_ATTEMPTS else 1 <= r.attempts <= MAX_DELIVERY_ATTEMPTS)
  }

  predicate RowsOk(rows: map<Id, Reminder>) {
    forall id | id in rows :: RowOk(rows[id])
  }

  lemma StepKeepsRowsOk(s: State, e: Event)
    requires RowsOk(s.rows)
    ensures RowsOk(Step(s, e).rows)
  {
  }

  lemma {:induction false} RunKeepsRowsOk(s: State, es: seq<Event>)
    requires RowsOk(s.rows)
    ensures RowsOk(RunFrom(s, es).rows)
  {
    if es != [] {
      RunKeepsRowsOk(s, Prefix(es));
      StepKeepsRowsOk(RunFrom(s, Prefix(es)), Last(es));
    }
  }

  lemma DeliveryState(es: seq<Event>)
    ensures RowsOk(After(es).rows)
  {
    RunKeepsRowsOk(Initial(), es);
  }

  /** A closed reminder changes status exactly when its owner edits it while it is live. */
  lemma OnlyAnEditReopens(s: State, e: Event, id: Id)
    requires id in s.rows && s.rows[id].status in {Delivered, Failed}
    ensures id in Step(s, e).rows
    ensures Step(s, e).rows[id].status != s.rows[id].status <==> e.Edit? && e.id == id && Owned(s.rows[id], e.user)
  {
  }

  // ------------------------------------------------------------------ conservation of claims

  datatype Kind = Claims | Reclaims | Confirms | SentEdits

  /** What a step did to a row, told from the row before and after. */
  predicate Happened(s: State, e: Event, id: Id, kind: Kind) {
    && id in s.rows && id in Step(s, e).rows && Step(s, e).rows[id] != s.rows[id]
    && match kind
       case Claims => e.Claim?
       case Reclaims => e.Reclaim?
       case Confirms => e.ConfirmWrite?
       case SentEdits => e.Edit? && s.rows[id].status == Sent
  }

  function Count(es: seq<Event>, id: Id, kind: Kind): nat {
    if es == [] then 0
    else Count(Prefix(es), id, kind) + if Happened(After(Prefix(es)), Last(es), id, kind) then 1 else 0
  }

  function SentNow(s: State, id: Id): nat {
    if id in s.rows && s.rows[id].status == Sent then 1 else 0
  }

  lemma StepBalances(s: State, e: Event, id: Id)
    ensures
      var d := (k: Kind) => if Happened(s, e, id, k) then 1 else 0;
      SentNow(Step(s, e), id) + d(Reclaims) + d(Confirms) + d(SentEdits) == SentNow(s, id) + d(Claims)
  {
  }

  /** Every claim of a reminder is answered once: by a reclaim, by an accepted confirmation, by an
      owner edit, or not yet. */
  lemma {:induction false} ClaimConservation(es: seq<Event>, id: Id)
    ensures Count(es, id, Claims) ==
      Count(es, id, Reclaims) + Count(es, id, Confirms) + Count(es, id, SentEdits) + SentNow(After(es), id)
  {
    if es != [] {
      ClaimConservation(Prefix(es), id);
      StepBalances(After(Prefix(es)), Last(es), id);
    }
  }

  function RecordsAbout(records: seq<DeliveryRecord>, id: Id): nat {
    if records == [] then 0
    else RecordsAbout(records[..|records| - 1], id) + if records[|records| - 1].about == id then 1 else 0
  }

  lemma StepRecords(s: State, e: Event, id: Id)
    ensures RecordsAbout(Step(s, e).records, id) <= RecordsAbout(s.records, id) + if Happened(s, e, id, Confirms) then 1 else 0
  {
    if e.ConfirmWrite? && e.cid in s.confirms {
      var c := s.confirms[e.cid];
      var record := DeliveryRecord(c.read.owner, c.id);
      assert (s.records + [record])[..|s.records|] == s.records;
    }
  }

  /** No duplicate or late confirmation leaves a delivery record of its own. */
  lemma {:induction false} RecordsWithinClaims(es: seq<Event>, id: Id)
    ensures RecordsAbout(After(es).records, id) <= Count(es, id, Confirms) <= Count(es, id, Claims)
  {
    ClaimConservation(es, id);
    if es != [] {
      RecordsWithinClaims(Prefix(es), id);
      StepRecords(After(Prefix(es)), Last(es), id);
    }
  }

  // ------------------------------------------------------------------ claims between resets

  /** A create, an applied edit and an accepted reschedule start a reminder over. */
  predicate Resets(s: State, e: Event, id: Id) {
    id in Step(s, e).rows &&
    (|| id !in s.rows
     || (e.Edit? && e.id == id && Owned(s.rows[id], e.user))
     || (Happened(s, e, id, Confirms) && Step(s, e).rows[id].status == Pending))
  }

  /** The claims of a reminder since it was last reset, and when the last of them was. */
  datatype Streak = Streak(claims: nat, lastClaim: Option<int>)

  function StreakOf(es: seq<Event>, id: Id): Streak {
    if es == [] then Streak(0, None)
    else NextStreak(After(Prefix(es)), Last(es), id, StreakOf(Prefix(es), id))
  }

  function NextStreak(s: State, e: Event, id: Id, before: Streak): Streak {
    if Resets(s, e, id) then Streak(0, None)
    else if Happened(s, e, id, Claims) then Streak(before.claims + 1, Some(e.now))
    else before
  }

  lemma StepCountsAttempts(s: State, e: Event, id: Id, before: Streak)
    requires id in Step(s, e).rows
    requires id in s.rows ==> before.claims == s.rows[id].attempts
    ensures NextStreak(s, e, id, before).claims == Step(s, e).rows[id].attempts
  {
  }

  lemma {:induction false} AttemptsCountTheStreak(es: seq<Event>, id: Id)
    requires id in After(es).rows
    ensures StreakOf(es, id).claims == After(es).rows[id].attempts <= MAX_DELIVERY_ATTEMPTS
  {
    DeliveryState(es);
    assert es != [];
    if id in After(Prefix(es)).rows {
      AttemptsCountTheStreak(Prefix(es), id);
    }
    StepCountsAttempts(After(Prefix(es)), Last(es), id, StreakOf(Prefix(es), id));
  }

  /** The time of the latest tick statement. */
  function Clock(es: seq<Event>): Option<int> {
    if es == [] then None
    else NextClock(Clock(Prefix(es)), Last(es))
  }

  /** The clock that ticks read never runs backwards. */
  predicate Monotone(es: seq<Event>) {
    es == [] ||
    (&& Monotone(Prefix(es))
     && (Last(es).Reclaim? || Last(es).Claim? ==> Clock(Prefix(es)).None? || Clock(Prefix(es)).value <= Last(es).now))
  }

  function NextClock(clock: Option<int>, e: Event): Option<int> {
    if e.Reclaim? || e.Claim? then Some(e.now) else clock
  }

  /** The time of the last reclaim that changed the row. */
  function LatestReclaim(es: seq<Event>, id: Id): Option<int> {
    if es == [] then None
    else if Happened(After(Prefix(es)), Last(es), id, Reclaims) then Some(Last(es).now)
    else LatestReclaim(Prefix(es), id)
  }

  /** A row is PENDING again after a claim of its streak only by a reclaim that found the claim a grace old. */
  predicate StreakReclaimed(s: State, streak: Streak, reclaim: Option<int>, id: Id) {
    id in s.rows ==>
      && (s.rows[id].status == Sent ==> streak.lastClaim == s.rows[id].claimedAt)
      && (s.rows[id].status == Pending && streak.lastClaim.Some? ==>
            reclaim.Some? && streak.lastClaim.value + STALE_CLAIM_GRACE <= reclaim.value)
  }

  lemma StepKeepsReclaimed(s: State, e: Event, id: Id, before: Streak, reclaim: Option<int>)
    requires StreakReclaimed(s, before, reclaim, id)
    ensures StreakReclaimed(Step(s, e), NextStreak(s, e, id, before),
                            if Happened(s, e, id, Reclaims) then Some(e.now) else reclaim, id)
  {
  }

  lemma {:induction false} StreakIsReclaimed(es: seq<Event>, id: Id)
    ensures StreakReclaimed(After(es), StreakOf(es, id), LatestReclaim(es, id), id)
  {
    if es != [] {
      hide StreakReclaimed, Happened, NextStreak, Step;
      StreakIsReclaimed(Prefix(es), id);
      StepKeepsReclaimed(After(Prefix(es)), Last(es), id, StreakOf(Prefix(es), id), LatestReclaim(Prefix(es), id));
    } else {
      NothingReclaimed(id);
    }
  }

  lemma NothingReclaimed(id: Id)
    ensures StreakReclaimed(After([]), StreakOf([], id), LatestReclaim([], id), id)
  {
  }

  /** Whatever clocks the ticks read: at most five claims between resets, and between two of them a reclaim that read
      a clock two minutes past the earlier one at least. */
  lemma ClaimsAreReclaimedBetween(es: seq<Event>, id: Id)
    requires es != [] && Happened(After(Prefix(es)), Last(es), id, Claims)
    ensures StreakOf(Prefix(es), id).claims < MAX_DELIVERY_ATTEMPTS
    ensures StreakOf(Prefix(es), id).lastClaim.Some? ==>
      && LatestReclaim(Prefix(es), id).Some?
      && StreakOf(Prefix(es), id).lastClaim.value + STALE_CLAIM_GRACE <= LatestReclaim(Prefix(es), id).value
  {
    StreakIsReclaimed(Prefix(es), id);
    AttemptsCountTheStreak(Prefix(es), id);
    AttemptsCountTheStreak(es, id);
  }

  lemma {:induction false} ReclaimWithinClock(es: seq<Event>, id: Id)
    requires Monotone(es)
    ensures LatestReclaim(es, id).Some? ==> Clock(es).Some? && LatestReclaim(es, id).value <= Clock(es).value
  {
    if es != [] {
      hide After;
      ReclaimWithinClock(Prefix(es), id);
    }
  }

  /** So with a clock that never runs backwards each claim is at least two minutes after the one before. */
  lemma ClaimsAreFewAndFar(es: seq<Event>, id: Id)
    requires Monotone(es) && es != [] && Happened(After(Prefix(es)), Last(es), id, Claims)
    ensures StreakOf(Prefix(es), id).claims < MAX_DELIVERY_ATTEMPTS
    ensures StreakOf(Prefix(es), id).lastClaim.Some? ==>
      StreakOf(Prefix(es), id).lastClaim.value + STALE_CLAIM_GRACE <= Last(es).now
  {
    ClaimsAreReclaimedBetween(es, id);
    ReclaimWithinClock(Prefix(es), id);
  }

  // ------------------------------------------------------------------ confirming again

  /** A confirmation's write changes no reminder exactly when the one it is about is gone, deleted or not SENT now; that
      it was confirmed before does not matter. */
  lemma NoOpExactly(s: State, cid: int, next: Option<int>, recorded: bool)
    ensures Step(s, ConfirmWrite(cid, next, recorded)).rows == s.rows <==>
      !(cid in s.confirms && s.confirms[cid].id in s.rows && Confirmable(s.rows[s.confirms[cid].id]))
  {
    if cid in s.confirms && s.confirms[cid].id in s.rows {
      var c := s.confirms[cid];
      assert Confirmable(s.rows[c.id]) ==> ConfirmedRow(c, next, s.rows[c.id]).status != s.rows[c.id].status;
    }
  }

  /** How often something happened to a reminder after the k-th step. */
  function Since(es: seq<Event>, k: nat, id: Id, kind: Kind): int
    requires k < |es|
  {
    Count(es, id, kind) - Count(es[..k + 1], id, kind)
  }

  ghost predicate ReadsStored(s: State) {
    forall cid | cid in s.confirms :: s.confirms[cid].id in s.rows
  }

  lemma StepKeepsReadsStored(s: State, e: Event)
    requires ReadsStored(s)
    ensures ReadsStored(Step(s, e))
  {
  }

  lemma {:induction false} ReadsStoredInEveryRun(es: seq<Event>)
    ensures ReadsStored(After(es))
  {
    if es != [] {
      ReadsStoredInEveryRun(Prefix(es));
      StepKeepsReadsStored(After(Prefix(es)), Last(es));
    }
  }

  lemma ConfirmedIsNotSent(s: State, e: Event, id: Id)
    requires Happened(s, e, id, Confirms)
    ensures SentNow(Step(s, e), id) == 0
  {
  }

  /** After an accepted confirmation of a reminder, another one's write about it is a no-op exactly when the reminder
      has been deleted, or every claim of it since then has been answered. */
  lemma RetryIsNoOpExactly(es: seq<Event>, k: nat, id: Id, cid: int, next: Option<int>, recorded: bool)
    requires k < |es| && Happened(After(es[..k]), es[k], id, Confirms)
    requires cid in After(es).confirms && After(es).confirms[cid].id == id
    ensures id in After(es).rows
    ensures Step(After(es), ConfirmWrite(cid, next, recorded)).rows == After(es).rows <==>
      || After(es).rows[id].deleted
      || Since(es, k, id, Claims) == Since(es, k, id, Reclaims) + Since(es, k, id, Confirms) + Since(es, k, id, SentEdits)
  {
    hide Happened, Step, Count, RunFrom;
    ReadsStoredInEveryRun(es);
    NoOpExactly(After(es), cid, next, recorded);
    ClaimConservation(es, id);
    ClaimConservation(es[..k + 1], id);
    PrefixStep(es, k);
    ConfirmedIsNotSent(After(es[..k]), es[k], id);
  }

  lemma PrefixStep(es: seq<Event>, k: nat)
    requires k < |es|
    ensures After(es[..k + 1]) == Step(After(es[..k]), es[k])
  {
    hide Step;
    assert Prefix(es[..k + 1]) == es[..k] && Last(es[..k + 1]) == es[k];
  }
}
