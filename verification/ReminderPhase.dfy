/** The phase of a repeating reminder over whole runs of the protocol, and what a late confirmation does to it. */
module ReminderPhase {
  import opened Wrappers
  import opened Reminders
  import opened ReminderRuns
  import opened Schedule
  import ReminderCreates

  /** The delays of the specs that are a fixed period. */
  type Delays = every: string -> Option<int> | forall spec :: every(spec).Some? ==> EveryDelay(every(spec).value)
    witness spec => None

  function DelayOf(r: Reminder, every: Delays): (d: Option<int>)
    ensures d.Some? ==> EveryDelay(d.value)
  {
    if r.repeat.Some? && r.repeat.value != "" then every(r.repeat.value) else None
  }

  // ------------------------------------------------------------------ phase

  predicate Edits(s: State, e: Event, id: Id) {
    e.Edit? && e.id == id && id in s.rows && Owned(s.rows[id], e.user)
  }

  /** The time a reminder was last given by its owner, when it was created or edited. */
  function Anchor(es: seq<Event>, id: Id): int {
    if es == [] then 0
    else
      var before, after := After(Prefix(es)), After(es);
      if id in after.rows && (id !in before.rows || Edits(before, Last(es), id)) then after.rows[id].datetime
      else Anchor(Prefix(es), id)
  }

  predicate ConfirmsNow(s: State, e: Event, id: Id) {
    e.ConfirmWrite? && e.cid in s.confirms && s.confirms[e.cid].id == id
  }

  /** A confirmation reschedules to what the advance gives for the row as it was read, at some time. */
  ghost predicate Honest(s: State, e: Event, id: Id, every: Delays) {
    ConfirmsNow(s, e, id) && e.next.Some? && DelayOf(s.confirms[e.cid].read, every).Some? ==>
      exists at :: AdvanceByDelay(s.confirms[e.cid].read.datetime, at, DelayOf(s.confirms[e.cid].read, every).value) == e.next
  }

  /** The confirmations in flight that an applied edit of the reminder has overtaken. */
  function Over(es: seq<Event>, id: Id): set<int> {
    if es == [] then {}
    else
      var s := After(Prefix(es));
      (Over(Prefix(es), id) + if Edits(s, Last(es), id) then s.confirms.Keys else {}) * After(es).confirms.Keys
  }

  /** A confirmation of the reminder is about to be accepted and to reschedule it. */
  predicate Reschedules(s: State, e: Event, id: Id) {
    ConfirmsNow(s, e, id) && ReminderCreates.WillReschedule(s, s.confirms[e.cid], e.next)
  }

  /** No phase was lost, and no accepted reschedule came from a confirmation that an edit had overtaken. */
  ghost predicate Undisturbed(es: seq<Event>, id: Id, every: Delays) {
    es == [] ||
    var s, e := After(Prefix(es)), Last(es);
    && Undisturbed(Prefix(es), id, every) && Honest(s, e, id, every)
    && (Reschedules(s, e, id) ==> e.cid !in Over(Prefix(es), id))
  }

  ghost predicate Stands(t: int, anchor: int, delay: Option<int>)
    requires delay.Some? ==> EveryDelay(delay.value)
  {
    delay.Some? ==> anchor <= t && OnGrid(t, anchor, delay.value)
  }

  /** The row is on the grid of its anchor, and so is what any confirmation in flight has read of it that no edit has
      overtaken. */
  ghost predicate InStep(s: State, id: Id, anchor: int, over: set<int>, every: Delays) {
    && (id in s.rows ==> Stands(s.rows[id].datetime, anchor, DelayOf(s.rows[id], every)))
    && forall cid | cid in s.confirms && s.confirms[cid].id == id :: id in s.rows
         && (cid !in over ==>
              && s.confirms[cid].read.repeat == s.rows[id].repeat
              && Stands(s.confirms[cid].read.datetime, anchor, DelayOf(s.rows[id], every)))
  }

  lemma GridHasAnchor(anchor: int, delay: int)
    requires delay > 0
    ensures OnGrid(anchor, anchor, delay)
  {
  }

  /** What a confirmation's write does to the time and the schedule. */
  lemma ConfirmedTime(s: State, e: Event, id: Id)
    requires ConfirmsNow(s, e, id) && id in s.rows
    ensures var s' := Step(s, e);
      && id in s'.rows && s'.rows[id].repeat == s.rows[id].repeat && s'.confirms == s.confirms - {e.cid}
      && s'.rows[id].datetime == if Reschedules(s, e, id) then e.next.value else s.rows[id].datetime
  {
  }

  lemma ConfirmKeepsStep(s: State, e: Event, id: Id, anchor: int, over: set<int>, every: Delays)
    requires InStep(s, id, anchor, over, every) && Honest(s, e, id, every) && ConfirmsNow(s, e, id)
    requires Reschedules(s, e, id) ==> e.cid !in over
    ensures InStep(Step(s, e), id, anchor, over * Step(s, e).confirms.Keys, every)
  {
    var c := s.confirms[e.cid];
    var d := DelayOf(c.read, every);
    ConfirmedTime(s, e, id);
    if Reschedules(s, e, id) && d.Some? {
      var at :| AdvanceByDelay(c.read.datetime, at, d.value) == e.next;
      GridHasAnchor(anchor, d.value);
      JumpPassesExactly(c.read.datetime, at, anchor, anchor, d.value);
    }
    hide Step, OnGrid, AdvanceByDelay, EveryDelay;
  }

  /** A step that neither confirms nor sets the reminder leaves its time and schedule alone. */
  lemma OthersLeaveTime(s: State, e: Event, id: Id)
    requires !ConfirmsNow(s, e, id) && !Edits(s, e, id) && id in s.rows
    ensures id in Step(s, e).rows
    ensures Step(s, e).rows[id].datetime == s.rows[id].datetime && Step(s, e).rows[id].repeat == s.rows[id].repeat
  {
  }

  /** A confirmation in flight was in flight before, or has just read the row as it is. */
  lemma WhatIsInFlight(s: State, e: Event, cid: int)
    requires cid in Step(s, e).confirms
    ensures var c := Step(s, e).confirms[cid];
      (cid in s.confirms && c == s.confirms[cid]) || (c.id in s.rows && c.read == s.rows[c.id] && e.ConfirmRead?)
  {
  }

  lemma OtherKeepsStep(s: State, e: Event, id: Id, anchor: int, over: set<int>, every: Delays)
    requires InStep(s, id, anchor, over, every) && !ConfirmsNow(s, e, id) && !Edits(s, e, id) && id in s.rows
    ensures InStep(Step(s, e), id, anchor, over * Step(s, e).confirms.Keys, every)
  {
    OthersLeaveTime(s, e, id);
    hide Stands;
    forall cid | cid in Step(s, e).confirms
      ensures var c := Step(s, e).confirms[cid];
        (cid in s.confirms && c == s.confirms[cid]) || (c.id in s.rows && c.read == s.rows[c.id])
    {
      WhatIsInFlight(s, e, cid);
    }
    hide Step;
  }

  /** A reminder just created has no confirmation in flight, and one just edited only overtaken ones. */
  lemma AnchoredStep(s: State, e: Event, id: Id, anchor: int, over: set<int>, every: Delays)
    requires InStep(s, id, anchor, over, every) && id in Step(s, e).rows
    requires id !in s.rows || Edits(s, e, id)
    ensures InStep(Step(s, e), id, Step(s, e).rows[id].datetime,
                   (over + if Edits(s, e, id) then s.confirms.Keys else {}) * Step(s, e).confirms.Keys, every)
  {
    var s' := Step(s, e);
    assert s'.confirms == s.confirms;
    if DelayOf(s'.rows[id], every).Some? {
      GridHasAnchor(s'.rows[id].datetime, DelayOf(s'.rows[id], every).value);
    }
    hide OnGrid, EveryDelay;
  }

  lemma AbsentStep(s: State, e: Event, id: Id, anchor: int, over: set<int>, every: Delays)
    requires InStep(s, id, anchor, over, every) && id !in s.rows && id !in Step(s, e).rows
    ensures InStep(Step(s, e), id, anchor, over * Step(s, e).confirms.Keys, every)
  {
    forall cid | cid in Step(s, e).confirms && Step(s, e).confirms[cid].id == id
      ensures false
    {
      WhatIsInFlight(s, e, cid);
    }
  }

  /** In every run without a lost phase, in which no confirmation that an edit of the reminder overtook is accepted for
      a reschedule, a repeat with a fixed period stands on the grid of the time its owner last gave it, however late its
      confirmations. */
  lemma {:induction false} PhaseInEveryRun(es: seq<Event>, id: Id, every: Delays)
    requires Undisturbed(es, id, every)
    ensures InStep(After(es), id, Anchor(es, id), Over(es, id), every)
  {
    if es != [] {
      hide InStep, Step, Honest, Owned, Reschedules;
      var s, e := After(Prefix(es)), Last(es);
      var anchor, over := Anchor(Prefix(es), id), Over(Prefix(es), id);
      PhaseInEveryRun(Prefix(es), id, every);
      assert over + {} == over;
      if id !in s.rows {
        if id in Step(s, e).rows {
          AnchoredStep(s, e, id, anchor, over, every);
        } else {
          AbsentStep(s, e, id, anchor, over, every);
        }
      } else if Edits(s, e, id) {
        EditStays(s, e, id);
        AnchoredStep(s, e, id, anchor, over, every);
      } else if ConfirmsNow(s, e, id) {
        ConfirmKeepsStep(s, e, id, anchor, over, every);
      } else {
        OtherKeepsStep(s, e, id, anchor, over, every);
      }
    } else {
      NothingStands(id, every);
    }
  }

  lemma EditStays(s: State, e: Event, id: Id)
    requires Edits(s, e, id)
    ensures id in Step(s, e).rows
  {
  }

  lemma NothingStands(id: Id, every: Delays)
    ensures InStep(After([]), id, 0, {}, every)
  {
  }

  // ------------------------------------------------------------------ an edit overtaken

  /** A confirmation is read, the owner edits the reminder, and it is claimed at its new time. */
  function OvertakenRun(id: Id, owner: string, cid: int, u: Update): seq<Event> {
    [] + [ConfirmRead(cid, id, owner, true)] + [Edit(id, owner, u)] + [Claim(u.datetime)]
  }

  lemma OvertakenRunClaims(s: State, id: Id, cid: int, u: Update)
    requires id in s.rows && Confirmable(s.rows[id]) && cid !in s.confirms
    ensures
      var t := RunFrom(s, OvertakenRun(id, s.rows[id].owner, cid, u));
      && id in t.rows && Confirmable(t.rows[id]) && t.rows[id].datetime == u.datetime
      && cid in t.confirms && t.confirms[cid] == Confirming(id, s.rows[id], true)
  {
    var owner := s.rows[id].owner;
    var a, b := ConfirmRead(cid, id, owner, true), Edit(id, owner, u);
    ReminderCreates.RunSnoc(s, [], a);
    ReminderCreates.RunSnoc(s, [] + [a], b);
    ReminderCreates.RunSnoc(s, [] + [a] + [b], Claim(u.datetime));
    hide RunFrom;
    var read := ReadConfirm(s, cid, id, owner, true);
    assert read.rows == s.rows && read.confirms == s.confirms[cid := Confirming(id, s.rows[id], true)];
  }

  /** The edit is lost: from any live SENT repeat, a confirmation that an edit overtakes is accepted once the reminder
      has been claimed at the edited time, and reschedules from the time before the edit. */
  lemma AnOvertakenConfirmationUndoesAnEdit(s: State, id: Id, every: Delays, cid: int, u: Update, at: int)
    requires id in s.rows && Confirmable(s.rows[id]) && DelayOf(s.rows[id], every).Some? && cid !in s.confirms
    requires AdvanceByDelay(s.rows[id].datetime, at, DelayOf(s.rows[id], every).value).Some?
    ensures
      var next := AdvanceByDelay(s.rows[id].datetime, at, DelayOf(s.rows[id], every).value);
      var t := RunFrom(s, OvertakenRun(id, s.rows[id].owner, cid, u));
      && id in t.rows && t.rows[id].status == Sent && t.rows[id].datetime == u.datetime
      && Step(t, ConfirmWrite(cid, next, true)).rows == t.rows[id := RescheduleRow(t.rows[id], next.value)]
  {
    OvertakenRunClaims(s, id, cid, u);
    hide RunFrom, AdvanceByDelay;
  }

  /** An accepted reschedule leaves the reminder in phase with any given time, an edited one say, and the delay it has
      now exactly when the jump from the time as read lands whole periods from it; where the delay is the one as read,
      exactly when the time as read is whole periods from it, in whole seconds. */
  lemma RescheduleKeepsPhaseExactly(s: State, cid: int, every: Delays, at: int, anchor: int, recorded: bool)
    requires cid in s.confirms && s.confirms[cid].id in s.rows && DelayOf(s.confirms[cid].read, every).Some?
    requires DelayOf(s.rows[s.confirms[cid].id], every).Some?
    requires
      var c := s.confirms[cid];
      && c.delivered && Confirmable(s.rows[c.id])
      && AdvanceByDelay(c.read.datetime, at, DelayOf(c.read, every).value).Some?
    ensures
      var c := s.confirms[cid];
      var t, d, period := c.read.datetime, DelayOf(c.read, every).value, DelayOf(s.rows[c.id], every).value;
      var s' := Step(s, ConfirmWrite(cid, AdvanceByDelay(t, at, d), recorded));
      && c.id in s'.rows && s'.rows[c.id].status == Pending && DelayOf(s'.rows[c.id], every) == Some(period)
      && (InPhase(s'.rows[c.id].datetime, anchor, period) <==>
            (WholeSecond(t) + (Periods(t, Later(t, at), d) + 1) * d - WholeSecond(anchor)) % period == 0)
      && (period == d ==>
            (InPhase(s'.rows[c.id].datetime, anchor, d) <==> (WholeSecond(t) - WholeSecond(anchor)) % d == 0))
  {
    var c := s.confirms[cid];
    JumpKeepsPhaseExactly(c.read.datetime, at, anchor, DelayOf(c.read, every).value);
    JumpFallsInPhaseExactly(c.read.datetime, at, DelayOf(c.read, every).value, anchor, DelayOf(s.rows[c.id], every).value);
    hide AdvanceByDelay, InPhase, WholeSecond, Periods, Later;
  }

  // ------------------------------------------------------------------ forward or not

  /** An accepted reschedule made at a given time moves the reminder forward exactly when no whole period, counted from
      the time as read, separates its time as it is now from the later of the time as read and the given one. */
  lemma MovesForwardExactly(s: State, cid: int, every: Delays, at: int, recorded: bool)
    requires cid in s.confirms && s.confirms[cid].id in s.rows && DelayOf(s.confirms[cid].read, every).Some?
    requires
      var c := s.confirms[cid];
      && c.delivered && Confirmable(s.rows[c.id])
      && AdvanceByDelay(c.read.datetime, at, DelayOf(c.read, every).value).Some?
    ensures
      var c := s.confirms[cid];
      var d, t, now := DelayOf(c.read, every).value, c.read.datetime, s.rows[c.id].datetime;
      var s' := Step(s, ConfirmWrite(cid, AdvanceByDelay(t, at, d), recorded));
      && c.id in s'.rows && s'.rows[c.id].status == Pending
      && (s'.rows[c.id].datetime > now <==> Periods(t, now, d) <= Periods(t, Later(t, at), d))
  {
    var c := s.confirms[cid];
    JumpLandsAfterExactly(c.read.datetime, at, s.rows[c.id].datetime, DelayOf(c.read, every).value);
    hide AdvanceByDelay, Periods;
  }

  /** In a run that keeps the phase, one that no edit has overtaken moves it forward exactly when the row as read was no
      earlier than the row as it is, or the time is no earlier than the row as it is. */
  lemma MovesForwardInStep(es: seq<Event>, id: Id, every: Delays, cid: int, at: int, recorded: bool)
    requires Undisturbed(es, id, every) && cid in After(es).confirms && cid !in Over(es, id)
    requires
      var s, c := After(es), After(es).confirms[cid];
      && c.id == id && c.delivered && id in s.rows && Confirmable(s.rows[id]) && DelayOf(c.read, every).Some?
      && AdvanceByDelay(c.read.datetime, at, DelayOf(c.read, every).value).Some?
    ensures
      var s, c := After(es), After(es).confirms[cid];
      var next := AdvanceByDelay(c.read.datetime, at, DelayOf(c.read, every).value);
      var s' := Step(s, ConfirmWrite(cid, next, recorded));
      && id in s'.rows && s'.rows[id].status == Pending
      && (s'.rows[id].datetime > s.rows[id].datetime <==> c.read.datetime >= s.rows[id].datetime || at >= s.rows[id].datetime)
  {
    PhaseInEveryRun(es, id, every);
    var s, c := After(es), After(es).confirms[cid];
    JumpPassesExactly(c.read.datetime, at, s.rows[id].datetime, Anchor(es, id), DelayOf(c.read, every).value);
    hide AdvanceByDelay, OnGrid, Undisturbed, After;
  }

  /** A SENT row was due when it was claimed. */
  predicate ClaimedWhenDue(rows: map<Id, Reminder>) {
    forall id | id in rows && rows[id].status == Sent ::
      rows[id].claimedAt.Some? && rows[id].datetime <= rows[id].claimedAt.value
  }

  lemma {:induction false} ClaimedWhenDueInEveryRun(es: seq<Event>)
    ensures ClaimedWhenDue(After(es).rows)
  {
    if es != [] {
      ClaimedWhenDueInEveryRun(Prefix(es));
      StepKeepsClaimedWhenDue(After(Prefix(es)), Last(es));
    }
  }

  lemma StepKeepsClaimedWhenDue(s: State, e: Event)
    requires ClaimedWhenDue(s.rows)
    ensures ClaimedWhenDue(Step(s, e).rows)
  {
  }

  /** So in every run, an accepted reschedule made no earlier than the current claim moves the reminder forward,
      overtaken or not. */
  lemma TimelyConfirmationMovesForward(es: seq<Event>, id: Id, every: Delays, cid: int, at: int, recorded: bool)
    requires cid in After(es).confirms
    requires
      var s, c := After(es), After(es).confirms[cid];
      && c.id == id && c.delivered && id in s.rows && Confirmable(s.rows[id]) && DelayOf(c.read, every).Some?
      && AdvanceByDelay(c.read.datetime, at, DelayOf(c.read, every).value).Some?
      && s.rows[id].claimedAt.Some? && at >= s.rows[id].claimedAt.value
    ensures
      var s, c := After(es), After(es).confirms[cid];
      var next := AdvanceByDelay(c.read.datetime, at, DelayOf(c.read, every).value);
      var s' := Step(s, ConfirmWrite(cid, next, recorded));
      id in s'.rows && s'.rows[id].datetime > s.rows[id].datetime
  {
    ClaimedWhenDueInEveryRun(es);
    var c := After(es).confirms[cid];
    AdvanceByDelayIsStepping(c.read.datetime, at, DelayOf(c.read, every).value);
    hide AdvanceByDelay, After;
  }

  /** Two confirmations of one delivery are read, the first is written, and the next occurrence is claimed. */
  function StaleRun(id: Id, owner: string, first: int, second: int, next: int): seq<Event> {
    [] + [ConfirmRead(first, id, owner, true)] + [ConfirmRead(second, id, owner, true)]
    + [ConfirmWrite(first, Some(next), true)] + [Claim(next)]
  }

  lemma StaleRunClaims(s: State, id: Id, first: int, second: int, next: int)
    requires id in s.rows && Confirmable(s.rows[id]) && s.rows[id].repeat.Some? && s.rows[id].repeat.value != ""
    requires first != second && first !in s.confirms && second !in s.confirms
    ensures
      var t := RunFrom(s, StaleRun(id, s.rows[id].owner, first, second, next));
      && id in t.rows && Confirmable(t.rows[id]) && t.rows[id].datetime == next
      && second in t.confirms && t.confirms[second] == Confirming(id, s.rows[id], true)
  {
    var owner := s.rows[id].owner;
    var a, b := ConfirmRead(first, id, owner, true), ConfirmRead(second, id, owner, true);
    var c := ConfirmWrite(first, Some(next), true);
    ReminderCreates.RunSnoc(s, [], a);
    ReminderCreates.RunSnoc(s, [] + [a], b);
    ReminderCreates.RunSnoc(s, [] + [a] + [b], c);
    ReminderCreates.RunSnoc(s, [] + [a] + [b] + [c], Claim(next));
    hide RunFrom;
    var two := ReadConfirm(ReadConfirm(s, first, id, owner, true), second, id, owner, true);
    assert two.rows == s.rows && two.confirms == s.confirms[first := Confirming(id, s.rows[id], true)][second := Confirming(id, s.rows[id], true)];
    var three := WriteConfirm(two, first, Some(next), true);
    assert three.rows[id] == RescheduleRow(s.rows[id], next) && second in three.confirms;
  }

  /** Two confirmations of one delivery, both read before either is written: the first one reschedules, and if the next
      occurrence has been claimed by then the second one is accepted too and arms that occurrence again. */
  lemma AStaleConfirmationArmsAgain(s: State, id: Id, every: Delays, first: int, second: int)
    requires id in s.rows && Confirmable(s.rows[id]) && DelayOf(s.rows[id], every).Some?
    requires first != second && first !in s.confirms && second !in s.confirms
    ensures
      var at, d := s.rows[id].datetime, DelayOf(s.rows[id], every).value;
      var next := DelayNext(at, d);
      var t := RunFrom(s, StaleRun(id, s.rows[id].owner, first, second, next));
      && AdvanceByDelay(at, at, d) == Some(next)
      && id in t.rows && t.rows[id].status == Sent && t.rows[id].datetime == next
      && Step(t, ConfirmWrite(second, Some(next), true)).rows == t.rows[id := RescheduleRow(t.rows[id], next)]
  {
    var at, d := s.rows[id].datetime, DelayOf(s.rows[id], every).value;
    var next := DelayNext(at, d);
    AdvanceByDelayIsStepping(at, at, d);
    StaleRunClaims(s, id, first, second, next);
    hide RunFrom;
  }
}
