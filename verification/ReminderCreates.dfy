/** Create transactions under the per-owner lock: the refs they allocate and the cap they check. */
module ReminderCreates {
  import opened Wrappers
  import opened Reminders
  import opened ReminderRuns

  // ------------------------------------------------------------------ refs

  /** The rows in commit order, each owner's refs rising along it. */
  ghost predicate RefsRise(rows: map<Id, Reminder>, order: seq<Id>) {
    && (forall id | id in rows :: id in order && rows[id].ref >= 1)
    && (forall i | 0 <= i < |order| :: order[i] in rows)
    && (forall i, j | 0 <= i < j < |order| :: order[i] != order[j])
    && (forall i, j | 0 <= i < j < |order| && rows[order[i]].owner == rows[order[j]].owner ::
          rows[order[i]].ref < rows[order[j]].ref)
  }

  /** Open transactions hold different owners' locks, and a ref allocated under one stays the next. */
  ghost predicate LocksHold(rows: map<Id, Reminder>, order: seq<Id>, creates: map<int, Creating>) {
    && (forall tx, ty | tx in creates && ty in creates && tx != ty :: creates[tx].owner != creates[ty].owner)
    && (forall tx | tx in creates && creates[tx].Numbered? ::
          creates[tx].ref == MaxRef(rows, order, creates[tx].owner) + 1)
  }

  ghost predicate RefsOk(s: State) {
    RefsRise(s.rows, s.order) && LocksHold(s.rows, s.order, s.creates)
  }

  /** Owner and ref of a row never change; rows may only be added. */
  ghost predicate Keeps(rows: map<Id, Reminder>, rows': map<Id, Reminder>) {
    forall id | id in rows :: id in rows' && rows'[id].owner == rows[id].owner && rows'[id].ref == rows[id].ref
  }

  /** Nothing is ever taken out of the table, so a ref stays taken after a soft delete. */
  lemma StepKeepsIdentity(s: State, e: Event)
    ensures Keeps(s.rows, Step(s, e).rows) && s.order <= Step(s, e).order
  {
    if e.ConfirmWrite? && e.cid in s.confirms {
      var c := s.confirms[e.cid];
      assert c.id in s.rows ==> ConfirmedRow(c, e.next, s.rows[c.id]).owner == s.rows[c.id].owner;
    }
  }

  lemma {:induction false} MaxRefBounds(rows: map<Id, Reminder>, order: seq<Id>, owner: string)
    ensures MaxRef(rows, order, owner) >= 0
    ensures forall i | 0 <= i < |order| && order[i] in rows && rows[order[i]].owner == owner ::
      rows[order[i]].ref <= MaxRef(rows, order, owner)
  {
    if order != [] {
      MaxRefBounds(rows, order[..|order| - 1], owner);
      forall i | 0 <= i < |order| && order[i] in rows && rows[order[i]].owner == owner
        ensures rows[order[i]].ref <= MaxRef(rows, order, owner)
      {
        if i < |order| - 1 {
          assert order[..|order| - 1][i] == order[i];
        }
      }
    }
  }

  lemma {:induction false} MaxRefFrame(rows: map<Id, Reminder>, rows': map<Id, Reminder>, order: seq<Id>, owner: string)
    requires Keeps(rows, rows') && forall i | 0 <= i < |order| :: order[i] in rows
    ensures MaxRef(rows, order, owner) == MaxRef(rows', order, owner)
  {
    if order != [] {
      MaxRefFrame(rows, rows', order[..|order| - 1], owner);
    }
  }

  lemma RefBelowNext(rows: map<Id, Reminder>, order: seq<Id>, id: Id)
    requires id in rows && id in order
    ensures rows[id].ref <= MaxRef(rows, order, rows[id].owner)
  {
    MaxRefBounds(rows, order, rows[id].owner);
    var i :| 0 <= i < |order| && order[i] == id;
  }

  /** An allocated ref is free when it is inserted: the unique index never has to refuse one. */
  lemma AllocatedRefIsFree(s: State, tx: int)
    requires RefsOk(s) && tx in s.creates && s.creates[tx].Numbered?
    ensures RefFree(s.rows, s.creates[tx].owner, s.creates[tx].ref)
  {
    forall id | id in s.rows
      ensures !(s.rows[id].owner == s.creates[tx].owner && s.rows[id].ref == s.creates[tx].ref)
    {
      RefBelowNext(s.rows, s.order, id);
    }
  }

  /** The next ref is one above the owner's largest, deleted rows included, or one. */
  lemma NextRefIsExact(s: State, owner: string)
    requires RefsOk(s)
    ensures var next := MaxRef(s.rows, s.order, owner) + 1;
      && (forall id | id in s.rows && s.rows[id].owner == owner :: s.rows[id].ref < next)
      && (next == 1 || exists id :: id in s.rows && s.rows[id].owner == owner && s.rows[id].ref + 1 == next)
  {
    forall id | id in s.rows && s.rows[id].owner == owner
      ensures s.rows[id].ref <= MaxRef(s.rows, s.order, owner)
    {
      RefBelowNext(s.rows, s.order, id);
    }
    MaxRefIsTaken(s.rows, s.order, owner);
  }

  lemma {:induction false} MaxRefIsTaken(rows: map<Id, Reminder>, order: seq<Id>, owner: string)
    ensures MaxRef(rows, order, owner) == 0
      || exists id :: id in rows && rows[id].owner == owner && rows[id].ref == MaxRef(rows, order, owner)
  {
    if order != [] {
      MaxRefIsTaken(rows, order[..|order| - 1], owner);
    }
  }

  lemma RefsRiseFrame(rows: map<Id, Reminder>, rows': map<Id, Reminder>, order: seq<Id>)
    requires RefsRise(rows, order) && Keeps(rows, rows') && rows.Keys == rows'.Keys
    ensures RefsRise(rows', order)
  {
  }

  lemma RefsRiseAppend(rows: map<Id, Reminder>, order: seq<Id>, id: Id, row: Reminder)
    requires RefsRise(rows, order) && id !in rows
    requires row.ref == MaxRef(rows, order, row.owner) + 1
    ensures RefsRise(rows[id := row], order + [id])
  {
    MaxRefBounds(rows, order, row.owner);
    var order' := order + [id];
    assert forall i | 0 <= i < |order| :: order'[i] == order[i] != id;
  }

  lemma LocksHoldFrame(rows: map<Id, Reminder>, rows': map<Id, Reminder>, order: seq<Id>, creates: map<int, Creating>)
    requires RefsRise(rows, order) && LocksHold(rows, order, creates) && Keeps(rows, rows')
    ensures LocksHold(rows', order, creates)
  {
    forall tx | tx in creates && creates[tx].Numbered?
      ensures creates[tx].ref == MaxRef(rows', order, creates[tx].owner) + 1
    {
      MaxRefFrame(rows, rows', order, creates[tx].owner);
    }
  }

  /** Inserting for one owner leaves every other owner's next ref alone. */
  lemma LocksHoldAppend(rows: map<Id, Reminder>, order: seq<Id>, creates: map<int, Creating>, id: Id, row: Reminder)
    requires LocksHold(rows, order, creates) && LockFree(creates, row.owner) && id in rows && rows[id] == row
    ensures LocksHold(rows, order + [id], creates)
  {
    assert (order + [id])[..|order|] == order;
  }

  lemma InsertKeepsRefs(s: State, tx: int, id: Id, new_: NewReminder)
    requires RefsOk(s) && tx in s.creates && s.creates[tx].Numbered? && id !in s.rows
    ensures RefsOk(Step(s, CreateInsert(tx, id, new_)))
  {
    AllocatedRefIsFree(s, tx);
    var row := NewRow(s.creates[tx].owner, s.creates[tx].ref, new_);
    var creates := s.creates - {tx};
    RefsRiseAppend(s.rows, s.order, id, row);
    LocksHoldFrame(s.rows, s.rows[id := row], s.order, creates);
    LocksHoldAppend(s.rows[id := row], s.order, creates, id, row);
  }

  lemma StatementKeepsRefs(s: State, e: Event)
    requires RefsOk(s) && Step(s, e).order == s.order && Step(s, e).creates == s.creates
    requires Keeps(s.rows, Step(s, e).rows) && s.rows.Keys == Step(s, e).rows.Keys
    ensures RefsOk(Step(s, e))
  {
    RefsRiseFrame(s.rows, Step(s, e).rows, s.order);
    LocksHoldFrame(s.rows, Step(s, e).rows, s.order, s.creates);
  }

  predicate OfCreate(e: Event) {
    e.CreateLock? || e.CreateCount? || e.CreateNumber? || e.CreateInsert? || e.CreateAbort?
  }

  lemma OthersLeaveCreates(s: State, e: Event)
    requires !OfCreate(e)
    ensures Step(s, e).order == s.order && Step(s, e).creates == s.creates && Step(s, e).rows.Keys == s.rows.Keys
  {
  }

  predicate Inserts(s: State, e: Event) {
    e.CreateInsert? && e.tx in s.creates && s.creates[e.tx].Numbered? && e.id !in s.rows
  }

  lemma CreatesLeaveRows(s: State, e: Event)
    requires OfCreate(e) && !Inserts(s, e)
    ensures Step(s, e).rows == s.rows && Step(s, e).order == s.order
  {
  }

  lemma CreatesKeepLocks(s: State, e: Event)
    requires LocksHold(s.rows, s.order, s.creates) && OfCreate(e) && !Inserts(s, e)
    ensures LocksHold(s.rows, s.order, Step(s, e).creates)
  {
  }

  lemma StepKeepsRefs(s: State, e: Event)
    requires RefsOk(s)
    ensures RefsOk(Step(s, e))
  {
    if Inserts(s, e) {
      InsertKeepsRefs(s, e.tx, e.id, e.new_);
    } else if OfCreate(e) {
      CreatesLeaveRows(s, e);
      CreatesKeepLocks(s, e);
    } else {
      OthersLeaveCreates(s, e);
      StepKeepsIdentity(s, e);
      StatementKeepsRefs(s, e);
    }
  }

  /** In every interleaving an owner's refs are distinct and rise in commit order, deleted rows included. */
  lemma {:induction false} RefsRiseInEveryRun(es: seq<Event>)
    ensures RefsOk(After(es))
  {
    if es != [] {
      RefsRiseInEveryRun(Prefix(es));
      StepKeepsRefs(After(Prefix(es)), Last(es));
    }
  }

  // ------------------------------------------------------------------ the cap

  /** The rows of an owner that a step other than an insert returns to the count. */
  function Rearmed(s: State, e: Event, owner: string): set<Id> {
    Active(Step(s, e).rows, owner) * s.rows.Keys - Active(s.rows, owner)
  }

  function Rearms(es: seq<Event>, owner: string): nat {
    if es == [] then 0 else Rearms(Prefix(es), owner) + |Rearmed(After(Prefix(es)), Last(es), owner)|
  }

  /** Only a retry, an edit or a reschedule returns a row to the count. */
  lemma WhatRearms(s: State, e: Event, owner: string)
    requires Rearmed(s, e, owner) != {}
    ensures e.Reclaim? || e.ConfirmWrite? || e.Edit?
  {
  }

  predicate CapAtMost(es: seq<Event>, cap: int) {
    forall e | e in es && e.CreateLock? :: e.maxActive <= cap
  }

  /** The count of an owner is within the cap but for what was re-armed, and one below it while a
      transaction of that owner is past its check. */
  ghost predicate Capped(s: State, owner: string, cap: int, rearms: nat) {
    && |Active(s.rows, owner)| <= cap + rearms
    && forall tx | tx in s.creates :: s.creates[tx].maxActive <= cap
         && (s.creates[tx].owner == owner && !s.creates[tx].Locked? ==> |Active(s.rows, owner)| < cap + rearms)
  }

  lemma SubsetSize<T>(a: set<T>, b: set<T>)
    requires a <= b
    ensures |a| <= |b|
  {
    assert b == a + (b - a);
  }

  lemma ActiveGrowth(s: State, e: Event, owner: string)
    requires Step(s, e).rows.Keys == s.rows.Keys
    ensures |Active(Step(s, e).rows, owner)| <= |Active(s.rows, owner)| + |Rearmed(s, e, owner)|
  {
    var a, b := Active(s.rows, owner), Active(Step(s, e).rows, owner);
    SubsetSize(b, a + Rearmed(s, e, owner));
  }

  lemma ActiveAfterInsert(rows: map<Id, Reminder>, id: Id, row: Reminder, owner: string)
    requires id !in rows
    ensures |Active(rows[id := row], owner)| <= |Active(rows, owner)| + if row.owner == owner then 1 else 0
  {
    SubsetSize(Active(rows[id := row], owner), Active(rows, owner) + if row.owner == owner then {id} else {});
  }

  lemma InsertKeepsCap(s: State, e: Event, owner: string, cap: int, rearms: nat)
    requires RefsOk(s) && Capped(s, owner, cap, rearms) && Inserts(s, e)
    ensures Capped(Step(s, e), owner, cap, rearms)
  {
    var t, own := Step(s, e), s.creates[e.tx].owner;
    AllocatedRefIsFree(s, e.tx);
    ActiveAfterInsert(s.rows, e.id, NewRow(own, s.creates[e.tx].ref, e.new_), owner);
  }

  lemma CreatesKeepCap(s: State, e: Event, owner: string, cap: int, rearms: nat)
    requires Capped(s, owner, cap, rearms) && OfCreate(e) && !Inserts(s, e)
    requires e.CreateLock? ==> e.maxActive <= cap
    ensures Capped(Step(s, e), owner, cap, rearms)
  {
    CreatesLeaveRows(s, e);
    assert Active(Step(s, e).rows, owner) == Active(s.rows, owner);
  }

  lemma MoreRearms(s: State, owner: string, cap: int, rearms: nat, more: nat)
    requires Capped(s, owner, cap, rearms)
    ensures Capped(s, owner, cap, rearms + more)
  {
  }

  lemma StatementKeepsCap(s: State, e: Event, owner: string, cap: int, rearms: nat)
    requires Capped(s, owner, cap, rearms) && !OfCreate(e)
    ensures Capped(Step(s, e), owner, cap, rearms + |Rearmed(s, e, owner)|)
  {
    OthersLeaveCreates(s, e);
    ActiveGrowth(s, e, owner);
  }

  lemma StepKeepsCap(s: State, e: Event, owner: string, cap: int, rearms: nat)
    requires RefsOk(s) && Capped(s, owner, cap, rearms)
    requires e.CreateLock? ==> e.maxActive <= cap
    ensures Capped(Step(s, e), owner, cap, rearms + |Rearmed(s, e, owner)|)
  {
    if !OfCreate(e) {
      StatementKeepsCap(s, e, owner, cap, rearms);
    } else {
      if Inserts(s, e) {
        InsertKeepsCap(s, e, owner, cap, rearms);
      } else {
        CreatesKeepCap(s, e, owner, cap, rearms);
      }
      MoreRearms(Step(s, e), owner, cap, rearms, |Rearmed(s, e, owner)|);
    }
  }

  /** An owner's pending count exceeds the cap by no more than what retries, edits and reschedules
      brought back. */
  lemma {:induction false} CapHolds(es: seq<Event>, owner: string, cap: nat)
    requires CapAtMost(es, cap)
    ensures Capped(After(es), owner, cap, Rearms(es, owner))
  {
    if es != [] {
      assert forall e | e in Prefix(es) :: e in es;
      CapHolds(Prefix(es), owner, cap);
      RefsRiseInEveryRun(Prefix(es));
      StepKeepsCap(After(Prefix(es)), Last(es), owner, cap, Rearms(Prefix(es), owner));
    } else {
      assert Active(After(es).rows, owner) == {};
    }
  }

  /** What a step is about to add to the owner's count, told from the guards of its statement. */
  function Joins(s: State, e: Event, owner: string): set<Id> {
    match e
    case Reclaim(now) =>
      set id | id in s.rows && s.rows[id].owner == owner && Stale(s.rows[id], now) && s.rows[id].attempts < MAX_DELIVERY_ATTEMPTS
    case Edit(id, user, _) =>
      if id in s.rows && user == owner && Owned(s.rows[id], user) && s.rows[id].status != Pending then {id} else {}
    case ConfirmWrite(cid, next, _) =>
      if cid in s.confirms && WillReschedule(s, s.confirms[cid], next) && s.rows[s.confirms[cid].id].owner == owner
      then {s.confirms[cid].id} else {}
    case CreateInsert(tx, id, _) =>
      if Inserts(s, e) && s.creates[tx].owner == owner && RefFree(s.rows, owner, s.creates[tx].ref) then {id} else {}
    case _ => {}
  }

  predicate WillReschedule(s: State, c: Confirming, next: Option<int>) {
    && c.id in s.rows && Confirmable(s.rows[c.id])
    && c.delivered && c.read.repeat.Some? && c.read.repeat.value != "" && next.Some?
  }

  lemma StepJoins(s: State, e: Event, owner: string)
    requires !e.Claim? && !e.Delete?
    ensures Active(Step(s, e).rows, owner) == Active(s.rows, owner) + Joins(s, e, owner)
    ensures Active(s.rows, owner) !! Joins(s, e, owner)
  {
  }

  lemma OnlyLeaves(s: State, e: Event, owner: string)
    requires e.Claim? || e.Delete?
    ensures |Active(Step(s, e).rows, owner)| <= |Active(s.rows, owner)| && Joins(s, e, owner) == {}
  {
    SubsetSize(Active(Step(s, e).rows, owner), Active(s.rows, owner));
  }

  /** What a claim or a delete is about to take out of the owner's count, told from the guards of its statement. */
  function Leaves(s: State, e: Event, owner: string): set<Id>
    requires e.Claim? || e.Delete?
  {
    match e
    case Claim(now) =>
      set id | id in s.rows && s.rows[id].owner == owner && s.rows[id].status == Pending && !s.rows[id].deleted
               && s.rows[id].datetime <= now
    case Delete(id, user) =>
      if id in s.rows && s.rows[id].owner == user == owner && s.rows[id].status == Pending && !s.rows[id].deleted then {id} else {}
  }

  /** A claim takes out exactly the owner's due rows, a delete exactly the live PENDING row its owner deletes, and
      neither anything else. */
  lemma StepLeaves(s: State, e: Event, owner: string)
    requires e.Claim? || e.Delete?
    ensures Active(Step(s, e).rows, owner) == Active(s.rows, owner) - Leaves(s, e, owner)
    ensures Leaves(s, e, owner) <= Active(s.rows, owner)
    ensures |Active(Step(s, e).rows, owner)| == |Active(s.rows, owner)| - |Leaves(s, e, owner)|
  {
    LeavesFrom(s, e, owner);
    hide Active, Leaves, Step;
    assert Active(s.rows, owner) == (Active(s.rows, owner) - Leaves(s, e, owner)) + Leaves(s, e, owner);
  }

  lemma LeavesFrom(s: State, e: Event, owner: string)
    requires e.Claim? || e.Delete?
    ensures Active(Step(s, e).rows, owner) == Active(s.rows, owner) - Leaves(s, e, owner)
    ensures Leaves(s, e, owner) <= Active(s.rows, owner)
  {
  }

  /** The rows counted against the cap are the owner's live PENDING ones. */
  lemma ActiveAreLivePending(rows: map<Id, Reminder>, owner: string, id: Id)
    ensures id in Active(rows, owner) <==>
      id in rows && rows[id].owner == owner && rows[id].status == Pending && !rows[id].deleted
  {
  }

  /** A step that adds to the count stays within the cap exactly when there is room for all it adds; only claims and
      deletes can bring the count down. */
  lemma StepFitsExactly(s: State, e: Event, owner: string, cap: int)
    requires !e.Claim? && !e.Delete?
    ensures |Active(Step(s, e).rows, owner)| <= cap <==> |Active(s.rows, owner)| + |Joins(s, e, owner)| <= cap
  {
    StepJoins(s, e, owner);
  }

  /** The count was within the cap all along. */
  predicate CapKept(es: seq<Event>, owner: string, cap: int) {
    |Active(After(es).rows, owner)| <= cap && (es != [] ==> CapKept(Prefix(es), owner, cap))
  }

  /** Before every step there was room for what it added. */
  predicate RoomForAll(es: seq<Event>, owner: string, cap: int) {
    es == [] ||
    (&& RoomForAll(Prefix(es), owner, cap)
     && |Active(After(Prefix(es)).rows, owner)| + |Joins(After(Prefix(es)), Last(es), owner)| <= cap)
  }

  /** The cap is kept throughout a run exactly when every step found room for what it was about to add. */
  lemma {:induction false} CapKeptExactly(es: seq<Event>, owner: string, cap: nat)
    ensures CapKept(es, owner, cap) <==> RoomForAll(es, owner, cap)
  {
    if es == [] {
      assert Active(After(es).rows, owner) == {};
    } else {
      CapKeptExactly(Prefix(es), owner, cap);
      var s, e := After(Prefix(es)), Last(es);
      if CapKept(Prefix(es), owner, cap) {
        CapNowKept(Prefix(es), owner, cap);
      }
      if e.Claim? || e.Delete? {
        OnlyLeaves(s, e, owner);
      } else {
        StepFitsExactly(s, e, owner, cap);
      }
    }
  }

  lemma CapNowKept(es: seq<Event>, owner: string, cap: int)
    requires CapKept(es, owner, cap)
    ensures |Active(After(es).rows, owner)| <= cap
  {
  }

  predicate Uncapped(e: Event) {
    e.Reclaim? || e.Edit? || e.ConfirmWrite?
  }

  lemma {:induction false} NothingRearmed(es: seq<Event>, owner: string)
    requires forall e | e in es :: !Uncapped(e)
    ensures Rearms(es, owner) == 0
  {
    if es != [] {
      assert forall e | e in Prefix(es) :: e in es;
      NothingRearmed(Prefix(es), owner);
      assert Last(es) in es;
      if Rearmed(After(Prefix(es)), Last(es), owner) != {} {
        WhatRearms(After(Prefix(es)), Last(es), owner);
      }
    }
  }

  /** Where nothing is reclaimed, edited or confirmed, creates alone never exceed the cap. */
  lemma CreatesNeverExceed(es: seq<Event>, owner: string, cap: nat)
    requires CapAtMost(es, cap) && forall e | e in es :: !Uncapped(e)
    ensures |Active(After(es).rows, owner)| <= cap
  {
    CapHolds(es, owner, cap);
    NothingRearmed(es, owner);
  }

  lemma RunSnoc(s: State, es: seq<Event>, e: Event)
    ensures RunFrom(s, es + [e]) == Step(RunFrom(s, es), e)
  {
    assert (es + [e])[..|es|] == es;
  }

  lemma {:induction false} RunAppend(s: State, es: seq<Event>, fs: seq<Event>)
    ensures RunFrom(s, es + fs) == RunFrom(RunFrom(s, es), fs)
  {
    if fs == [] {
      assert es + fs == es;
    } else {
      RunAppend(s, es, Prefix(fs));
      assert es + fs == (es + Prefix(fs)) + [Last(fs)];
      RunSnoc(s, es + Prefix(fs), Last(fs));
    }
  }

  /** A create transaction on its own, from the lock to the commit. */
  function CreateRun(owner: string, cap: int, id: Id, n: NewReminder): seq<Event> {
    [] + [CreateLock(0, owner, cap)] + [CreateCount(0)] + [CreateNumber(0)] + [CreateInsert(0, id, n)]
  }

  lemma RunOfCreate(s: State, owner: string, cap: int, id: Id, n: NewReminder)
    ensures RunFrom(s, CreateRun(owner, cap, id, n)) == InsertNew(AllocateRef(CountActive(LockOwner(s, 0, owner, cap), 0), 0), 0, id, n)
  {
    var a, b, c := CreateLock(0, owner, cap), CreateCount(0), CreateNumber(0);
    RunSnoc(s, [], a);
    RunSnoc(s, [] + [a], b);
    RunSnoc(s, [] + [a] + [b], c);
    RunSnoc(s, [] + [a] + [b] + [c], CreateInsert(0, id, n));
  }

  lemma LockAndCount(s: State, owner: string, cap: int)
    requires s.creates == map[] && |Active(s.rows, owner)| < cap
    ensures CountActive(LockOwner(s, 0, owner, cap), 0) == s.(creates := map[0 := Counted(owner, cap)])
  {
  }

  lemma NumberAndInsert(s: State, owner: string, cap: int, id: Id, n: NewReminder)
    requires s.creates == map[0 := Counted(owner, cap)] && id !in s.rows
    requires RefFree(s.rows, owner, MaxRef(s.rows, s.order, owner) + 1)
    ensures InsertNew(AllocateRef(s, 0), 0, id, n) ==
      State(s.rows[id := NewRow(owner, MaxRef(s.rows, s.order, owner) + 1, n)], s.order + [id], s.records, s.confirms, map[])
  {
    var numbered := map[0 := Numbered(owner, cap, MaxRef(s.rows, s.order, owner) + 1)];
    assert AllocateRef(s, 0) == s.(creates := numbered);
    assert numbered - {0} == map[];
  }

  lemma CreateInserts(s: State, owner: string, cap: int, id: Id, n: NewReminder)
    requires s.creates == map[] && |Active(s.rows, owner)| < cap && id !in s.rows
    requires RefFree(s.rows, owner, MaxRef(s.rows, s.order, owner) + 1)
    ensures InsertNew(AllocateRef(CountActive(LockOwner(s, 0, owner, cap), 0), 0), 0, id, n) ==
      State(s.rows[id := NewRow(owner, MaxRef(s.rows, s.order, owner) + 1, n)], s.order + [id], s.records, s.confirms, map[])
  {
    LockAndCount(s, owner, cap);
    NumberAndInsert(s.(creates := map[0 := Counted(owner, cap)]), owner, cap, id, n);
  }

  /** The two rows of the run below, the first one claimed. */
  function FirstRow(n: NewReminder): Reminder {
    NewRow("owner", 1, n).(status := Sent, claimedAt := Some(n.datetime), attempts := 1)
  }

  lemma CreateAndClaim(n: NewReminder)
    ensures RunFrom(RunFrom(Initial(), CreateRun("owner", 1, "a", n)), [Claim(n.datetime)])
      == State(map["a" := FirstRow(n)], ["a"], [], map[], map[])
  {
    assert Active(map[], "owner") == {};
    RunOfCreate(Initial(), "owner", 1, "a", n);
    CreateInserts(Initial(), "owner", 1, "a", n);
    RunSnoc(RunFrom(Initial(), CreateRun("owner", 1, "a", n)), [], Claim(n.datetime));
  }

  lemma CreateAgain(n: NewReminder)
    ensures RunFrom(State(map["a" := FirstRow(n)], ["a"], [], map[], map[]), CreateRun("owner", 1, "b", n))
      == State(map["a" := FirstRow(n), "b" := NewRow("owner", 2, n)], ["a", "b"], [], map[], map[])
  {
    var rows := map["a" := FirstRow(n)];
    assert Active(rows, "owner") == {};
    assert ["a"][..0] == [];
    assert MaxRef(rows, ["a"], "owner") == 1;
    RunOfCreate(State(rows, ["a"], [], map[], map[]), "owner", 1, "b", n);
    CreateInserts(State(rows, ["a"], [], map[], map[]), "owner", 1, "b", n);
  }

  lemma FirstTimesOut(n: NewReminder)
    ensures Active(ReclaimAll(map["a" := FirstRow(n), "b" := NewRow("owner", 2, n)], n.datetime + STALE_CLAIM_GRACE), "owner")
      == {"a", "b"}
  {
  }

  lemma CreateRunWithin(owner: string, cap: int, id: Id, n: NewReminder)
    ensures CapAtMost(CreateRun(owner, cap, id, n), cap)
  {
  }

  lemma WithinAppend(es: seq<Event>, fs: seq<Event>, cap: int)
    requires CapAtMost(es, cap) && CapAtMost(fs, cap)
    ensures CapAtMost(es + fs, cap)
  {
  }

  /** The allowance for re-armed rows is needed: create at a cap of one, claim, create again, and
      the first one times out. */
  lemma CapIsExceededByAReclaim(n: NewReminder) returns (es: seq<Event>)
    ensures CapAtMost(es, 1) && |Active(After(es).rows, "owner")| == 2
  {
    hide RunFrom, CreateRun, FirstRow, Active, CapAtMost, NewRow;
    var first, second := CreateRun("owner", 1, "a", n), CreateRun("owner", 1, "b", n);
    var claim, reclaim := Claim(n.datetime), Reclaim(n.datetime + STALE_CLAIM_GRACE);
    es := first + [claim] + second + [reclaim];
    CreateRunWithin("owner", 1, "a", n);
    CreateRunWithin("owner", 1, "b", n);
    TicksWithin(claim, 1);
    TicksWithin(reclaim, 1);
    WithinAppend(first, [claim], 1);
    WithinAppend(first + [claim], second, 1);
    WithinAppend(first + [claim] + second, [reclaim], 1);
    RunAppend(Initial(), first, [claim]);
    CreateAndClaim(n);
    RunAppend(Initial(), first + [claim], second);
    CreateAgain(n);
    RunSnoc(Initial(), first + [claim] + second, reclaim);
    FirstTimesOut(n);
  }

  lemma TicksWithin(e: Event, cap: int)
    requires e.Claim? || e.Reclaim?
    ensures CapAtMost([e], cap)
  {
  }
}
