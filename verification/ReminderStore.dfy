/** The reminder table and the handlers over it, as methods: each is one step of the protocol. */
module ReminderStore {
  import opened Wrappers
  import opened Reminders
  import opened ReminderRuns
  import opened ReminderTicks

  function Having(rows: map<Id, Reminder>, ids: set<Id>, status: Status): set<Id> {
    set id | id in ids && id in rows && rows[id].status == status
  }

  lemma HavingOneMore(rows: map<Id, Reminder>, ids: set<Id>, id: Id, status: Status)
    requires id in rows && id !in ids
    ensures |Having(rows, ids + {id}, status)| == |Having(rows, ids, status)| + if rows[id].status == status then 1 else 0
  {
    if rows[id].status == status {
      assert Having(rows, ids + {id}, status) == Having(rows, ids, status) + {id};
    } else {
      assert Having(rows, ids + {id}, status) == Having(rows, ids, status);
    }
  }

  /** Counts the returned rows one by one: a FAILED one was given up on, any other will be retried. */
  method CountOutcomes(rows: map<Id, Reminder>, returned: set<Id>) returns (retried: nat, failedOut: nat)
    requires returned <= rows.Keys && forall id | id in returned :: rows[id].status in {Pending, Failed}
    ensures retried == |set id | id in returned && rows[id].status == Pending|
    ensures failedOut == |set id | id in returned && rows[id].status == Failed|
  {
    retried, failedOut := 0, 0;
    var left := returned;
    while left != {}
      invariant left <= returned
      invariant retried == |Having(rows, returned - left, Pending)| && failedOut == |Having(rows, returned - left, Failed)|
      decreases left
    {
      var id :| id in left;
      ghost var seen := returned - left;
      left := left - {id};
      assert returned - left == seen + {id};
      HavingOneMore(rows, seen, id, Pending);
      HavingOneMore(rows, seen, id, Failed);
      if rows[id].status == Failed {
        failedOut := failedOut + 1;
        continue;
      }
      retried := retried + 1;
    }
    assert returned - left == returned;
    assert Having(rows, returned, Pending) == set id | id in returned && rows[id].status == Pending;
    assert Having(rows, returned, Failed) == set id | id in returned && rows[id].status == Failed;
  }

  /** What a reclaim returns is what it takes from SENT to PENDING or to FAILED. */
  lemma ReturnedRows(before: map<Id, Reminder>, returned: set<Id>, now: int)
    requires returned == set id | id in before && Stale(before[id], now)
    ensures var rows := ReclaimAll(before, now);
      && returned <= rows.Keys && (forall id | id in returned :: rows[id].status in {Pending, Failed})
      && (set id | id in rows && before[id].status == Sent && rows[id].status == Pending)
         == (set id | id in returned && rows[id].status == Pending)
      && (set id | id in rows && before[id].status == Sent && rows[id].status == Failed)
         == (set id | id in returned && rows[id].status == Failed)
  {
  }

  class ReminderStore {
    var rows: map<Id, Reminder>
    var order: seq<Id>
    var records: seq<DeliveryRecord>
    /** What the handlers in flight hold: rows read for a confirmation, open create transactions. */
    var confirms: map<int, Confirming>
    var creates: map<int, Creating>

    function Now(): State
      reads this
    {
      State(rows, order, records, confirms, creates)
    }

    constructor ()
      ensures Now() == Initial()
    {
      rows, order, records, confirms, creates := map[], [], [], map[], map[];
    }

    // ---------------------------------------------------------------- statements

    method ClaimDueReminders(now: int) returns (claimed: set<Id>)
      modifies this
      ensures Now() == Step(old(Now()), Claim(now))
      ensures claimed == set id | id in old(rows)
        && old(rows)[id].status == Pending && old(rows)[id].datetime <= now && !old(rows)[id].deleted
      ensures rows.Keys == old(rows).Keys && forall id | id in rows ::
        var r := old(rows)[id];
        rows[id] == if id in claimed then r.(status := Sent, claimedAt := Some(now), attempts := r.attempts + 1) else r
    {
      claimed := set id | id in rows && Due(rows[id], now);
      rows := ClaimAll(rows, now);
    }

    method ReclaimStaleReminders(now: int) returns (retried: nat, failedOut: nat)
      modifies this
      ensures Now() == Step(old(Now()), Reclaim(now))
      ensures rows.Keys == old(rows).Keys && forall id | id in rows ::
        var r := old(rows)[id];
        rows[id] ==
          if r.status == Sent && !r.deleted && r.claimedAt.Some? && r.claimedAt.value + 120_000_000_000 <= now
          then r.(status := if r.attempts < 5 then Pending else Failed, claimedAt := None)
          else r
      ensures retried == |set id | id in rows && old(rows)[id].status == Sent && rows[id].status == Pending|
      ensures failedOut == |set id | id in rows && old(rows)[id].status == Sent && rows[id].status == Failed|
    {
      var returned := set id | id in rows && Stale(rows[id], now);
      ReturnedRows(rows, returned, now);
      rows := ReclaimAll(rows, now);
      retried, failedOut := CountOutcomes(rows, returned);
    }

    method AdvanceReminderStatusIfSent(id: Id, to: Status) returns (advanced: bool)
      modifies this`rows
      ensures advanced <==> id in old(rows) && old(rows)[id].status == Sent && !old(rows)[id].deleted
      ensures rows == if advanced then old(rows)[id := old(rows)[id].(status := to, claimedAt := None)] else old(rows)
    {
      advanced := id in rows && Confirmable(rows[id]);
      if advanced {
        rows := rows[id := AdvanceRow(rows[id], to)];
      }
    }

    method RescheduleReminderIfSent(id: Id, next: int) returns (advanced: bool)
      modifies this`rows
      ensures advanced <==> id in old(rows) && old(rows)[id].status == Sent && !old(rows)[id].deleted
      ensures rows == if advanced
        then old(rows)[id := old(rows)[id].(datetime := next, status := Pending, claimedAt := None, attempts := 0)]
        else old(rows)
    {
      advanced := id in rows && Confirmable(rows[id]);
      if advanced {
        rows := rows[id := RescheduleRow(rows[id], next)];
      }
    }

    /** Not found, and nothing changed, unless the row is live and the user's own. */
    method UpdateReminderByUser(id: Id, user: string, update: Update) returns (found: bool)
      modifies this
      ensures Now() == Step(old(Now()), Edit(id, user, update))
      ensures found <==> id in old(rows) && old(rows)[id].owner == user && !old(rows)[id].deleted
      ensures !found ==> Now() == old(Now())
      ensures found ==>
        var r := old(rows)[id];
        rows == old(rows)[id := Reminder(user, r.ref, update.datetime, update.timezone,
                                         if !update.updateRepeat then r.repeat
                                         else if update.repeat == "" then None else Some(update.repeat),
                                         update.destination,
                                         if !update.updateMessage then r.message
                                         else if update.message == "" then None else Some(update.message),
                                         Pending, None, 0, false)]
    {
      found := id in rows && Owned(rows[id], user);
      if id in rows {
        rows := rows[id := EditRow(rows[id], user, update)];
      }
    }

    method SoftDeleteReminderByUser(id: Id, user: string) returns (found: bool)
      modifies this
      ensures Now() == Step(old(Now()), Delete(id, user))
      ensures found <==> id in old(rows) && old(rows)[id].owner == user && !old(rows)[id].deleted
      ensures !found ==> Now() == old(Now())
      ensures found ==> rows == old(rows)[id := old(rows)[id].(deleted := true)]
    {
      found := id in rows && Owned(rows[id], user);
      if id in rows {
        rows := rows[id := DeleteRow(rows[id], user)];
      }
    }

    // ---------------------------------------------------------------- CreateReminder

    /** The advisory lock; a transaction that would have to wait has not taken this step yet. */
    method BeginCreate(tx: int, owner: string, maxActive: int) returns (locked: bool)
      modifies this`creates
      ensures locked <==> tx !in old(creates) && forall t | t in old(creates) :: old(creates)[t].owner != owner
      ensures creates == if locked then old(creates)[tx := Locked(owner, maxActive)] else old(creates)
      ensures Now() == Step(old(Now()), CreateLock(tx, owner, maxActive))
    {
      locked := tx !in creates && LockFree(creates, owner);
      if locked {
        creates := creates[tx := Locked(owner, maxActive)];
      }
    }

    method CheckCap(tx: int) returns (capReached: bool)
      requires tx in creates && creates[tx].Locked?
      modifies this`creates
      ensures Now() == Step(old(Now()), CreateCount(tx))
      ensures
        var Locked(owner, maxActive) := old(creates)[tx];
        && (capReached <==>
              |set id | id in rows && rows[id].owner == owner && rows[id].status == Pending && !rows[id].deleted| >= maxActive)
        && creates == if capReached then old(creates) - {tx} else old(creates)[tx := Counted(owner, maxActive)]
    {
      var c := creates[tx];
      assert Active(rows, c.owner)
        == set id | id in rows && rows[id].owner == c.owner && rows[id].status == Pending && !rows[id].deleted;
      if |Active(rows, c.owner)| >= c.maxActive {
        creates := creates - {tx};
        return true;
      }
      creates := creates[tx := Counted(c.owner, c.maxActive)];
      return false;
    }

    method AllocateRef(tx: int) returns (ref: int)
      requires tx in creates && creates[tx].Counted?
      modifies this`creates
      ensures Now() == Step(old(Now()), CreateNumber(tx))
      ensures ref == MaxRef(rows, order, old(creates)[tx].owner) + 1
      ensures creates == old(creates)[tx := Numbered(old(creates)[tx].owner, old(creates)[tx].maxActive, ref)]
    {
      var c := creates[tx];
      ref := MaxRef(rows, order, c.owner) + 1;
      creates := creates[tx := Numbered(c.owner, c.maxActive, ref)];
    }

    method InsertAndCommit(tx: int, id: Id, n: NewReminder) returns (ref: Option<int>)
      requires tx in creates && creates[tx].Numbered?
      modifies this
      ensures Now() == Step(old(Now()), CreateInsert(tx, id, n))
      ensures ref.Some? <==> id !in old(rows) && forall other | other in old(rows) ::
        !(old(rows)[other].owner == old(creates)[tx].owner && old(rows)[other].ref == old(creates)[tx].ref)
      ensures creates == old(creates) - {tx} && order == old(order) + if ref.Some? then [id] else []
      ensures ref.None? ==> rows == old(rows)
      ensures ref.Some? ==>
        && ref.value == old(creates)[tx].ref
        && rows == old(rows)[id := Reminder(old(creates)[tx].owner, ref.value, n.datetime, n.timezone,
                                            if n.repeat == "" then None else Some(n.repeat), n.destination,
                                            if n.message == "" then None else Some(n.message), Pending, None, 0, false)]
    {
      var c := creates[tx];
      creates := creates - {tx};
      if id in rows || !RefFree(rows, c.owner, c.ref) {
        return None;
      }
      rows := rows[id := NewRow(c.owner, c.ref, n)];
      order := order + [id];
      return Some(c.ref);
    }

    // ---------------------------------------------------------------- ConfirmDelivery

    /** The first half: the row is read and checked to be the caller's own. */
    method ReadForConfirmation(cid: int, id: Id, caller: string, delivered: bool) returns (found: bool)
      requires cid !in confirms
      modifies this`confirms
      ensures Now() == Step(old(Now()), ConfirmRead(cid, id, caller, delivered))
      ensures found <==> id in rows && rows[id].owner == caller && !rows[id].deleted
      ensures confirms == if found then old(confirms)[cid := Confirming(id, rows[id], delivered)] else old(confirms)
    {
      if id !in rows || rows[id].deleted {
        return false;
      }
      var row := rows[id];
      if row.owner != caller {
        return false;
      }
      confirms := confirms[cid := Confirming(id, row, delivered)];
      return true;
    }

    /** The second half, whatever happened in between: one guarded write, and a delivery record only
        for one that moved the row. next is what the schedule gave for the row as read. */
    method FinishConfirmation(cid: int, next: Option<int>, recorded: bool) returns (advanced: bool)
      requires cid in confirms
      modifies this
      ensures Now() == Step(old(Now()), ConfirmWrite(cid, next, recorded))
      ensures
        var id := old(confirms)[cid].id;
        advanced <==> id in old(rows) && old(rows)[id].status == Sent && !old(rows)[id].deleted
      ensures !advanced ==> rows == old(rows) && records == old(records)
      ensures advanced ==>
        var Confirming(id, read, delivered) := old(confirms)[cid];
        var again := delivered && next.Some? && read.repeat.Some? && read.repeat.value != "";
        var r := old(rows)[id].(claimedAt := None);
        && rows == old(rows)[id :=
             if again then r.(status := Pending, datetime := next.value, attempts := 0)
             else r.(status := if delivered then Delivered else Failed)]
        && records == old(records) + if delivered && recorded then [DeliveryRecord(read.owner, id)] else []
    {
      var Confirming(id, row, delivered) := confirms[cid];
      confirms := confirms - {cid};
      if !delivered {
        advanced := AdvanceReminderStatusIfSent(id, Failed);
        return;
      }
      if row.repeat.Some? && row.repeat.value != "" {
        if next.None? {
          advanced := AdvanceReminderStatusIfSent(id, Delivered);
        } else {
          advanced := RescheduleReminderIfSent(id, next.value);
        }
      } else {
        advanced := AdvanceReminderStatusIfSent(id, Delivered);
      }
      if advanced && recorded {
        records := records + [DeliveryRecord(row.owner, id)];
      }
    }

    // ---------------------------------------------------------------- remind

    /** One tick: a failed statement is skipped or ends it, and every claimed reminder is pushed once. */
    method Remind(now: int, reclaimFails: bool, claimFails: bool) returns (sent: seq<Id>)
      modifies this
      ensures
        var reclaimed := if reclaimFails then old(Now()) else Step(old(Now()), Reclaim(now));
        && Now() == (if claimFails then reclaimed else Step(reclaimed, Claim(now)))
        && (forall i, j | 0 <= i < j < |sent| :: sent[i] != sent[j])
        && (forall id :: id in sent <==>
              && !claimFails && id in reclaimed.rows
              && reclaimed.rows[id].status == Pending && reclaimed.rows[id].datetime <= now && !reclaimed.rows[id].deleted)
    {
      sent := [];
      if !reclaimFails {
        var retried, failedOut := ReclaimStaleReminders(now);
      }
      ghost var reclaimed := rows;
      if claimFails {
        return;
      }
      var claimed := ClaimDueReminders(now);
      var left := claimed;
      while left != {}
        invariant left <= claimed
        invariant forall i, j | 0 <= i < j < |sent| :: sent[i] != sent[j]
        invariant forall id :: id in sent <==> id in claimed - left
        decreases left
      {
        var id :| id in left;
        assert id !in sent;
        left := left - {id};
        sent := sent + [id];
      }
    }
  }
}
