/** Undo windows: for seven seconds after a trigger fired for someone, that person may take the response back. */
module UndoWindows {
  import opened Wrappers
  import opened GoTime

  const TRIGGER_UNDO_WINDOW: int := 7 * NANOS_PER_SECOND

  datatype Key = Key(channelId: string, authorId: string)

  datatype Entry = Entry(responseId: string, expiresAt: int)

  /** One call, in the order they get hold of the lock. */
  datatype Call =
    | Arm(key: Key, responseId: string, now: int)
    | Consume(key: Key, now: int)

  type Pending = map<Key, Entry>

  function Pruned(pending: Pending, now: int): Pending {
    map k | k in pending && now < pending[k].expiresAt :: pending[k]
  }

  function Step(pending: Pending, c: Call): Pending {
    match c
    case Arm(key, id, now) => Pruned(pending, now)[key := Entry(id, now + TRIGGER_UNDO_WINDOW)]
    case Consume(key, now) => Pruned(pending, now) - {key}
  }

  function After(calls: seq<Call>): Pending {
    if calls == [] then map[] else Step(After(calls[..|calls| - 1]), calls[|calls| - 1])
  }

  /** What a consume answers: the response to take back, if any. */
  function Answer(pending: Pending, key: Key, now: int): Option<string> {
    if key in pending && now < pending[key].expiresAt then Some(pending[key].responseId) else None
  }

  // ------------------------------------------------------------------ the full history

  function Expiry(c: Call): int {
    c.now + TRIGGER_UNDO_WINDOW
  }

  /** The i-th call armed the key, and no later call was about the key. */
  predicate ArmedLast(calls: seq<Call>, i: nat, key: Key) {
    i < |calls| && calls[i].Arm? && calls[i].key == key && forall j | i < j < |calls| :: calls[j].key != key
  }

  /** No call since read a clock at or past the expiry of the i-th. */
  predicate NeverExpired(calls: seq<Call>, i: nat) {
    i < |calls| && forall j | i < j < |calls| :: calls[j].now < Expiry(calls[i])
  }

  predicate Open(calls: seq<Call>, i: nat, key: Key) {
    ArmedLast(calls, i, key) && NeverExpired(calls, i)
  }

  ghost predicate Reflects(pending: Pending, calls: seq<Call>, key: Key) {
    && (key in pending ==> exists i: nat :: Open(calls, i, key))
    && forall i: nat | Open(calls, i, key) ::
         key in pending && pending[key] == Entry(calls[i].responseId, Expiry(calls[i]))
  }

  lemma OpenElsewhere(before: seq<Call>, last: Call, i: nat, key: Key)
    requires last.key != key
    ensures Open(before + [last], i, key) <==> Open(before, i, key) && last.now < Expiry(before[i])
  {
    var calls := before + [last];
    assert forall j | 0 <= j < |before| :: calls[j] == before[j];
    assert calls[|before|] == last;
  }

  lemma ReflectsElsewhere(pending: Pending, before: seq<Call>, last: Call, key: Key)
    requires last.key != key && Reflects(pending, before, key)
    ensures Reflects(Step(pending, last), before + [last], key)
  {
    hide Open;
    OpenMeans(before, key);
    forall i: nat
      ensures Open(before + [last], i, key) <==> Open(before, i, key) && last.now < Expiry(before[i])
    {
      OpenMeans(before + [last], key);
      OpenElsewhere(before, last, i, key);
    }
  }

  lemma OpenMeans(calls: seq<Call>, key: Key)
    ensures forall i: nat | Open(calls, i, key) :: i < |calls| && calls[i].Arm?
  {
  }

  lemma ReflectsHere(pending: Pending, before: seq<Call>, last: Call)
    ensures Reflects(Step(pending, last), before + [last], last.key)
  {
    var calls, n := before + [last], |before|;
    assert calls[n] == last;
    forall i: nat
      ensures Open(calls, i, last.key) <==> last.Arm? && i == n
    {
    }
    assert last.Arm? ==> Open(calls, n, last.key);
  }

  lemma {:induction false} EveryRunReflects(calls: seq<Call>, key: Key)
    ensures Reflects(After(calls), calls, key)
  {
    hide Reflects, Step;
    if calls == [] {
      NothingReflected(key);
    } else {
      var n := |calls| - 1;
      EveryRunReflects(calls[..n], key);
      assert calls == calls[..n] + [calls[n]];
      if calls[n].key == key {
        ReflectsHere(After(calls[..n]), calls[..n], calls[n]);
      } else {
        ReflectsElsewhere(After(calls[..n]), calls[..n], calls[n], key);
      }
    }
  }

  lemma NothingReflected(key: Key)
    ensures Reflects(After([]), [], key)
  {
  }

  /** Whatever the clocks of the calls said, an entry is there exactly when the last call about its key armed it and
      no call since saw it expired; then it is that call's. */
  lemma PendingIsTheOpenArm(calls: seq<Call>, key: Key)
    ensures key in After(calls) <==> exists i: nat :: Open(calls, i, key)
    ensures forall i: nat | Open(calls, i, key) ::
      key in After(calls) && After(calls)[key] == Entry(calls[i].responseId, Expiry(calls[i]))
  {
    EveryRunReflects(calls, key);
  }

  /** What a full history answers: the latest arm of the key not yet consumed, if it is less than seven seconds old. */
  ghost predicate FromHistory(calls: seq<Call>, key: Key, now: int, r: Option<string>) {
    match r
    case Some(id) => exists i: nat :: ArmedLast(calls, i, key) && now - calls[i].now < 7_000_000_000
                                      && calls[i].responseId == id
    case None => forall i: nat | ArmedLast(calls, i, key) :: now - calls[i].now >= 7_000_000_000
  }

  /** That arm's window is open, but a later call read a clock at or past its end. */
  predicate SweptEarly(calls: seq<Call>, i: nat, key: Key, now: int) {
    ArmedLast(calls, i, key) && now - calls[i].now < TRIGGER_UNDO_WINDOW && !NeverExpired(calls, i)
  }

  /** For clocks in any order, a consume answers as the full history does exactly when no later call has read a clock
      at or past the end of a window that is still open now. */
  lemma AgreesWithHistoryExactly(calls: seq<Call>, key: Key, now: int)
    ensures FromHistory(calls, key, now, Answer(After(calls), key, now)) <==> forall i: nat :: !SweptEarly(calls, i, key, now)
  {
    PendingIsTheOpenArm(calls, key);
    OneLastArm(calls, key);
    assert forall i: nat :: Open(calls, i, key) <==> ArmedLast(calls, i, key) && NeverExpired(calls, i);
    forall i: nat | ArmedLast(calls, i, key)
      ensures FromHistory(calls, key, now, Answer(After(calls), key, now)) <==> !SweptEarly(calls, i, key, now)
    {
      if Open(calls, i, key) {
        assert After(calls)[key] == Entry(calls[i].responseId, Expiry(calls[i]));
      } else {
        assert key !in After(calls);
      }
    }
  }

  lemma OneLastArm(calls: seq<Call>, key: Key)
    ensures forall i: nat, j: nat | ArmedLast(calls, i, key) && ArmedLast(calls, j, key) :: i == j
  {
  }

  predicate Monotone(calls: seq<Call>, now: int) {
    && (forall i, j | 0 <= i <= j < |calls| :: calls[i].now <= calls[j].now)
    && forall i | 0 <= i < |calls| :: calls[i].now <= now
  }

  /** With a clock that never runs backwards, pruning is unobservable: a consume answers with the latest arm of its key
      not yet consumed, if that is less than seven seconds old, and otherwise with nothing. */
  lemma ConsumeAnswersFromHistory(calls: seq<Call>, key: Key, now: int)
    requires Monotone(calls, now)
    ensures FromHistory(calls, key, now, Answer(After(calls), key, now))
  {
    AgreesWithHistoryExactly(calls, key, now);
  }

  /** A call that read its clock early and got the lock late may find its window gone: another key's call swept it. */
  lemma ALateCallMayFindItGone(a: Key, b: Key, id: string)
    requires a != b
    ensures var calls := [Arm(a, id, 0), Arm(b, id, TRIGGER_UNDO_WINDOW)];
      Answer(After(calls), a, 1).None? && !FromHistory(calls, a, 1, None)
  {
    var calls := [Arm(a, id, 0), Arm(b, id, TRIGGER_UNDO_WINDOW)];
    PendingIsTheOpenArm(calls, a);
    assert forall i: nat | ArmedLast(calls, i, a) :: i == 0;
    assert ArmedLast(calls, 0, a);
  }

  // ------------------------------------------------------------------ the windows

  class UndoWindows {
    var pending: Pending

    constructor ()
      ensures pending == After([])
    {
      pending := map[];
    }

    method Prune(now: int)
      modifies this
      ensures pending == Pruned(old(pending), now)
      ensures pending == map k | k in old(pending) && now < old(pending)[k].expiresAt :: old(pending)[k]
    {
      var left := pending.Keys;
      while left != {}
        invariant left <= old(pending).Keys
        invariant pending == map k | k in old(pending) && (k in left || now < old(pending)[k].expiresAt) :: old(pending)[k]
        decreases left
      {
        ghost var some := Pick(left);
        var key :| key in left;
        left := left - {key};
        if now >= pending[key].expiresAt {
          pending := pending - {key};
        }
      }
    }

    /** Replaces any window already open for the key. */
    method Arm(key: Key, responseId: string, now: int)
      modifies this
      ensures pending == Step(old(pending), Call.Arm(key, responseId, now))
      ensures key in pending && pending[key] == Entry(responseId, now + 7_000_000_000)
      ensures forall k | k != key :: k in pending <==> k in old(pending) && now < old(pending)[k].expiresAt
      ensures forall k | k != key && k in pending :: pending[k] == old(pending)[k]
    {
      Prune(now);
      pending := pending[key := Entry(responseId, now + TRIGGER_UNDO_WINDOW)];
    }

    method Consume(key: Key, now: int) returns (r: Option<string>)
      modifies this
      ensures r == Answer(old(pending), key, now)
      ensures r == if key in old(pending) && now < old(pending)[key].expiresAt then Some(old(pending)[key].responseId) else None
      ensures pending == Step(old(pending), Call.Consume(key, now))
      ensures pending == map k | k in old(pending) && k != key && now < old(pending)[k].expiresAt :: old(pending)[k]
    {
      Prune(now);
      if key !in pending {
        return None;
      }
      r := Some(pending[key].responseId);
      pending := pending - {key};
    }
  }
}
