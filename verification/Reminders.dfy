/** Reminder delivery as a state machine: every SQL statement is one atomic step on the reminder
    table, and a handler that runs several statements is several steps with anything in between. */
module Reminders {
  import opened Wrappers

  /** Nanoseconds a row may stay SENT before a reclaim: two minutes. */
  const STALE_CLAIM_GRACE: int := 120_000_000_000
  const MAX_DELIVERY_ATTEMPTS: int := 5

  type Id = string

  datatype Status = Pending | Sent | Delivered | Failed

  datatype Reminder = Reminder(owner: string, ref: int, datetime: int, timezone: string, repeat: Option<string>,
                               destination: int, message: Option<string>,
                               status: Status, claimedAt: Option<int>, attempts: nat, deleted: bool)

  datatype Update = Update(datetime: int, timezone: string, destination: int,
                           updateMessage: bool, message: string, updateRepeat: bool, repeat: string)

  datatype NewReminder = NewReminder(datetime: int, timezone: string, repeat: string, destination: int, message: string)

  /** A confirmation between its read and its write: the row as it was read. */
  datatype Confirming = Confirming(id: Id, read: Reminder, delivered: bool)

  /** A create transaction holding its owner's lock, by how far it has got. */
  datatype Creating =
    | Locked(owner: string, maxActive: int)
    | Counted(owner: string, maxActive: int)
    | Numbered(owner: string, maxActive: int, ref: int)

  /** An analytics row for one delivery; about is the reminder it came from. */
  datatype DeliveryRecord = DeliveryRecord(actor: string, about: Id)

  datatype State = State(rows: map<Id, Reminder>, order: seq<Id>, records: seq<DeliveryRecord>,
                         confirms: map<int, Confirming>, creates: map<int, Creating>)

  datatype Event =
    | Reclaim(now: int)
    | Claim(now: int)
    | ConfirmRead(cid: int, id: Id, caller: string, delivered: bool)
    | ConfirmWrite(cid: int, next: Option<int>, recorded: bool)
    | Edit(id: Id, user: string, update: Update)
    | Delete(id: Id, user: string)
    | CreateLock(tx: int, owner: string, maxActive: int)
    | CreateCount(tx: int)
    | CreateNumber(tx: int)
    | CreateInsert(tx: int, id: Id, new_: NewReminder)
    | CreateAbort(tx: int)

  // ------------------------------------------------------------------ statements on one row

  predicate Due(r: Reminder, now: int) {
    r.datetime <= now && r.status == Pending && !r.deleted
  }

  function ClaimRow(r: Reminder, now: int): Reminder {
    if Due(r, now) then r.(status := Sent, claimedAt := Some(now), attempts := r.attempts + 1) else r
  }

  /** A row without a claim time never compares as old. */
  predicate Stale(r: Reminder, now: int) {
    r.status == Sent && !r.deleted && r.claimedAt.Some? && r.claimedAt.value <= now - STALE_CLAIM_GRACE
  }

  function ReclaimRow(r: Reminder, now: int): Reminder {
    if Stale(r, now) then
      r.(status := if r.attempts >= MAX_DELIVERY_ATTEMPTS then Failed else Pending, claimedAt := None)
    else r
  }

  predicate Confirmable(r: Reminder) {
    r.status == Sent && !r.deleted
  }

  function AdvanceRow(r: Reminder, to: Status): Reminder {
    if Confirmable(r) then r.(status := to, claimedAt := None) else r
  }

  function RescheduleRow(r: Reminder, next: int): Reminder {
    if Confirmable(r) then r.(datetime := next, status := Pending, claimedAt := None, attempts := 0) else r
  }

  predicate Owned(r: Reminder, user: string) {
    r.owner == user && !r.deleted
  }

  function EditRow(r: Reminder, user: string, u: Update): Reminder {
    if Owned(r, user) then
      r.(datetime := u.datetime, timezone := u.timezone, destination := u.destination,
         message := if u.updateMessage then NullStr(u.message) else r.message,
         repeat := if u.updateRepeat then NullStr(u.repeat) else r.repeat,
         status := Pending, claimedAt := None, attempts := 0)
    else r
  }

  function DeleteRow(r: Reminder, user: string): Reminder {
    if Owned(r, user) then r.(deleted := true) else r
  }

  function NewRow(owner: string, ref: int, n: NewReminder): Reminder {
    Reminder(owner, ref, n.datetime, n.timezone, NullStr(n.repeat), n.destination, NullStr(n.message),
             Pending, None, 0, false)
  }

  /** The write a confirmation decides on from the row it read. */
  function ConfirmedRow(c: Confirming, next: Option<int>, r: Reminder): Reminder {
    if !c.delivered then AdvanceRow(r, Failed)
    else if c.read.repeat.Some? && c.read.repeat.value != "" && next.Some? then RescheduleRow(r, next.value)
    else AdvanceRow(r, Delivered)
  }

  // ------------------------------------------------------------------ statements on the table

  function ClaimAll(rows: map<Id, Reminder>, now: int): map<Id, Reminder> {
    map id | id in rows :: ClaimRow(rows[id], now)
  }

  function ReclaimAll(rows: map<Id, Reminder>, now: int): map<Id, Reminder> {
    map id | id in rows :: ReclaimRow(rows[id], now)
  }

  /** The rows the cap counts. */
  function Active(rows: map<Id, Reminder>, owner: string): set<Id> {
    set id | id in rows && rows[id].owner == owner && rows[id].status == Pending && !rows[id].deleted
  }

  /** COALESCE(MAX(ref), 0) over an owner's rows, deleted ones included. */
  function MaxRef(rows: map<Id, Reminder>, order: seq<Id>, owner: string): int {
    if order == [] then 0
    else
      var last := order[|order| - 1];
      var earlier := MaxRef(rows, order[..|order| - 1], owner);
      if last in rows && rows[last].owner == owner && rows[last].ref > earlier then rows[last].ref else earlier
  }

  predicate LockFree(creates: map<int, Creating>, owner: string) {
    forall tx | tx in creates :: creates[tx].owner != owner
  }

  /** The unique index on an owner's refs. */
  predicate RefFree(rows: map<Id, Reminder>, owner: string, ref: int) {
    forall id | id in rows :: !(rows[id].owner == owner && rows[id].ref == ref)
  }

  // ------------------------------------------------------------------ steps and runs

  function Initial(): State {
    State(map[], [], [], map[], map[])
  }

  /** Reading the row a confirmation is about; refused unless it is live and the caller's own. */
  function ReadConfirm(s: State, cid: int, id: Id, caller: string, delivered: bool): State {
    if cid !in s.confirms && id in s.rows && Owned(s.rows[id], caller)
    then s.(confirms := s.confirms[cid := Confirming(id, s.rows[id], delivered)])
    else s
  }

  /** The guarded write, and the delivery record of one that changed the row. */
  function WriteConfirm(s: State, cid: int, next: Option<int>, recorded: bool): State {
    if cid !in s.confirms then s
    else
      var c := s.confirms[cid];
      var done := s.(confirms := s.confirms - {cid});
      if c.id !in s.rows || !Confirmable(s.rows[c.id]) then done
      else done.(rows := s.rows[c.id := ConfirmedRow(c, next, s.rows[c.id])],
                 records := if c.delivered && recorded then s.records + [DeliveryRecord(c.read.owner, c.id)] else s.records)
  }

  function LockOwner(s: State, tx: int, owner: string, maxActive: int): State {
    if tx !in s.creates && LockFree(s.creates, owner) then s.(creates := s.creates[tx := Locked(owner, maxActive)]) else s
  }

  /** The cap check; a transaction at the cap is over, and its lock with it. */
  function CountActive(s: State, tx: int): State {
    if tx !in s.creates || !s.creates[tx].Locked? then s
    else
      var c := s.creates[tx];
      if |Active(s.rows, c.owner)| >= c.maxActive then s.(creates := s.creates - {tx})
      else s.(creates := s.creates[tx := Counted(c.owner, c.maxActive)])
  }

  function AllocateRef(s: State, tx: int): State {
    if tx !in s.creates || !s.creates[tx].Counted? then s
    else
      var c := s.creates[tx];
      s.(creates := s.creates[tx := Numbered(c.owner, c.maxActive, MaxRef(s.rows, s.order, c.owner) + 1)])
  }

  /** Insert and commit; a duplicate id or ref fails the transaction. */
  function InsertNew(s: State, tx: int, id: Id, n: NewReminder): State {
    if tx !in s.creates || !s.creates[tx].Numbered? then s
    else
      var c := s.creates[tx];
      var released := s.(creates := s.creates - {tx});
      if id in s.rows || !RefFree(s.rows, c.owner, c.ref) then released
      else released.(rows := s.rows[id := NewRow(c.owner, c.ref, n)], order := s.order + [id])
  }

  /** One step. A statement that matches no row, fails or is not this handler's next one changes nothing. */
  function Step(s: State, e: Event): State {
    match e
    case Reclaim(now) => s.(rows := ReclaimAll(s.rows, now))
    case Claim(now) => s.(rows := ClaimAll(s.rows, now))
    case ConfirmRead(cid, id, caller, delivered) => ReadConfirm(s, cid, id, caller, delivered)
    case ConfirmWrite(cid, next, recorded) => WriteConfirm(s, cid, next, recorded)
    case Edit(id, user, update) => if id in s.rows then s.(rows := s.rows[id := EditRow(s.rows[id], user, update)]) else s
    case Delete(id, user) => if id in s.rows then s.(rows := s.rows[id := DeleteRow(s.rows[id], user)]) else s
    case CreateLock(tx, owner, maxActive) => LockOwner(s, tx, owner, maxActive)
    case CreateCount(tx) => CountActive(s, tx)
    case CreateNumber(tx) => AllocateRef(s, tx)
    case CreateInsert(tx, id, new_) => InsertNew(s, tx, id, new_)
    case CreateAbort(tx) => s.(creates := s.creates - {tx})
  }

  function RunFrom(s: State, es: seq<Event>): State {
    if es == [] then s else Step(RunFrom(s, es[..|es| - 1]), es[|es| - 1])
  }

  /** The state after a run from the empty table. */
  function After(es: seq<Event>): State {
    RunFrom(Initial(), es)
  }
}
