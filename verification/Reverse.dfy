/** The registry of client action streams: a read-write lock, bounded queues, and channels closed on leaving. */
module Reverse {
  import opened Wrappers

  const CLIENT_SEND_BUFFER: nat := 64
  const MAX_STREAM_CLIENTS: nat := 64

  datatype Action = Action(platform: int, payload: int)

  /** One attempt of a SendAction call to queue its action for a client, after the sender had taken some. */
  datatype Attempt = Attempt(call: nat, action: Action, taken: nat, accepted: bool)

  /** How far the deferred deregistration of a stream has got. */
  datatype Phase = Serving | Removed | Closed

  /** A client's channel, with all that was tried on it and all its sender took from it. */
  datatype Client = Client(platform: int, phase: Phase, closed: bool, queue: seq<Action>, taken: seq<Action>,
                           sent: seq<Action>, stopped: bool, attempts: seq<Attempt>)

  /** A SendAction call: the clients it should reach, those its loop has come to, and the one it is at. */
  datatype Call = Call(action: Action, audience: set<nat>, visited: set<nat>, at: Option<nat>, done: bool)

  /** Who holds the write lock, and what for. */
  datatype Writer = NoWriter | Admitting(platform: int) | Withdrawing(id: nat)

  datatype State = State(clients: set<nat>, all: map<nat, Client>, nextId: nat, calls: map<nat, Call>,
                         writer: Writer, panicked: bool)

  datatype Event =
    | LockToRegister(platform: int)
    | Admit
    | LockToDeregister(id: nat)
    | Remove
    | Close(id: nat)
    | BeginSend(call: nat, action: Action)
    | Range(call: nat, id: nat)
    | Offer(call: nat)
    | EndSend(call: nat)
    | Take(id: nat, sendFails: bool)

  predicate Reading(s: State, call: nat) {
    call in s.calls && !s.calls[call].done
  }

  predicate WriteLockFree(s: State) {
    s.writer.NoWriter? && forall call | call in s.calls :: s.calls[call].done
  }

  function Audience(s: State, action: Action): set<nat> {
    set id | id in s.clients && id in s.all && s.all[id].platform == action.platform
  }

  /** A non-blocking send: it queues unless the buffer is full. */
  function Offered(c: Client, call: nat, action: Action): Client {
    var room := |c.queue| < CLIENT_SEND_BUFFER;
    c.(queue := if room then c.queue + [action] else c.queue,
       attempts := c.attempts + [Attempt(call, action, |c.taken|, room)])
  }

  /** The sender goroutine: takes the next action, sends it, and stops for good at the first failure. */
  function Taken(c: Client, sendFails: bool): Client {
    if c.stopped || c.queue == [] then c
    else
      c.(queue := c.queue[1..], taken := c.taken + [c.queue[0]], stopped := sendFails,
         sent := if sendFails then c.sent else c.sent + [c.queue[0]])
  }

  function WithClient(s: State, id: nat, c: Client): State {
    s.(all := s.all[id := c])
  }

  function WithCall(s: State, call: nat, c: Call): State {
    s.(calls := s.calls[call := c])
  }

  /** Sending on a closed channel panics. */
  function OfferStep(s: State, call: nat): State
    requires Reading(s, call)
  {
    var c := s.calls[call];
    if c.at.None? || c.at.value !in s.all then s
    else if s.all[c.at.value].closed then s.(panicked := true)
    else
      WithCall(WithClient(s, c.at.value, Offered(s.all[c.at.value], call, c.action)), call, c.(at := None))
  }

  function RangeStep(s: State, call: nat, id: nat): State
    requires Reading(s, call)
  {
    var c := s.calls[call];
    if c.at.Some? || id !in s.clients * s.all.Keys - c.visited then s
    else WithCall(s, call, c.(visited := c.visited + {id},
                              at := if s.all[id].platform == c.action.platform then Some(id) else None))
  }

  /** Closing a closed channel panics. */
  function CloseStep(s: State, id: nat): State {
    if id in s.all && s.all[id].phase.Removed?
    then WithClient(s, id, s.all[id].(phase := Closed, closed := true)).(panicked := s.panicked || s.all[id].closed)
    else s
  }

  function AdmitStep(s: State): State {
    if !s.writer.Admitting? then s
    else if |s.clients| >= MAX_STREAM_CLIENTS then s.(writer := NoWriter)
    else
      WithClient(s, s.nextId + 1, Client(s.writer.platform, Serving, false, [], [], [], false, []))
      .(nextId := s.nextId + 1, clients := s.clients + {s.nextId + 1}, writer := NoWriter)
  }

  function RemoveStep(s: State): State {
    if !s.writer.Withdrawing? || s.writer.id !in s.all then s
    else
      WithClient(s, s.writer.id, s.all[s.writer.id].(phase := Removed))
      .(clients := s.clients - {s.writer.id}, writer := NoWriter)
  }

  function Step(s: State, e: Event): State {
    match e
    case LockToRegister(platform) => if WriteLockFree(s) then s.(writer := Admitting(platform)) else s
    case Admit => AdmitStep(s)
    case LockToDeregister(id) =>
      if WriteLockFree(s) && id in s.all && s.all[id].phase.Serving? then s.(writer := Withdrawing(id)) else s
    case Remove => RemoveStep(s)
    case Close(id) => CloseStep(s, id)
    case BeginSend(call, action) =>
      if s.writer.NoWriter? && call !in s.calls
      then WithCall(s, call, Call(action, Audience(s, action), {}, None, false)) else s
    case Range(call, id) => if Reading(s, call) then RangeStep(s, call, id) else s
    case Offer(call) => if Reading(s, call) then OfferStep(s, call) else s
    case EndSend(call) =>
      if Reading(s, call) && s.calls[call].at.None? && s.clients <= s.calls[call].visited
      then WithCall(s, call, s.calls[call].(done := true)) else s
    case Take(id, sendFails) => if id in s.all then WithClient(s, id, Taken(s.all[id], sendFails)) else s
  }

  // ------------------------------------------------------------------ what each step does

  /** A registration under the lock: refused at 64 clients, and otherwise an open empty channel under the next id. */
  lemma Admission(s: State)
    requires s.writer.Admitting?
    ensures |s.clients| >= 64 ==> Step(s, Admit) == s.(writer := NoWriter)
    ensures |s.clients| < 64 ==>
      var t := Step(s, Admit);
      && t.clients == s.clients + {s.nextId + 1} && t.nextId == s.nextId + 1 && t.writer.NoWriter? && t.calls == s.calls
      && t.all == s.all[s.nextId + 1 := Client(s.writer.platform, Serving, false, [], [], [], false, [])]
  {
  }

  /** A departure: out of the registry under the lock, and only then the channel is closed. */
  lemma Departure(s: State, id: nat)
    requires id in s.all
    ensures s.writer == Withdrawing(id) ==>
      var t := Step(s, Remove);
      && t.clients == s.clients - {id} && t.writer.NoWriter? && t.all == s.all[id := s.all[id].(phase := Removed)]
      && t.panicked == s.panicked
    ensures s.all[id].phase.Removed? ==>
      var t := Step(s, Close(id));
      && t.clients == s.clients && t.all == s.all[id := s.all[id].(phase := Closed, closed := true)]
      && t.panicked == (s.panicked || s.all[id].closed)
  {
  }

  /** A send reads who is registered for the platform, comes to each of them once, and there queues the action unless
      64 are queued; it panics on a closed channel. */
  lemma Sending(s: State, call: nat, action: Action, id: nat)
    ensures s.writer.NoWriter? && call !in s.calls ==>
      var t := Step(s, BeginSend(call, action));
      call in t.calls && t.calls[call].action == action && t.calls[call].visited == {} && t.calls[call].at.None?
      && !t.calls[call].done
      && t.calls[call].audience == set i | i in s.clients && i in s.all && s.all[i].platform == action.platform
    ensures call in s.calls && !s.calls[call].done && s.calls[call].at.None? && id in s.clients && id in s.all
            && id !in s.calls[call].visited ==>
      var t := Step(s, Range(call, id));
      && t.calls[call].visited == s.calls[call].visited + {id}
      && t.calls[call].at == if s.all[id].platform == s.calls[call].action.platform then Some(id) else None
    ensures call in s.calls && !s.calls[call].done && s.calls[call].at == Some(id) && id in s.all ==>
      var c, t := s.all[id], Step(s, Offer(call));
      if c.closed then t.panicked
      else
        && id in t.all && t.panicked == s.panicked && t.calls[call].at.None?
        && t.all[id].queue == (if |c.queue| < 64 then c.queue + [s.calls[call].action] else c.queue)
        && t.all[id].taken == c.taken && t.all[id].sent == c.sent
  {
  }

  /** A sender that has not failed takes the next action and sends it; one that fails takes no more. */
  lemma SenderTakesNext(s: State, id: nat, sendFails: bool)
    requires id in s.all && s.all[id].queue != []
    ensures
      var c, t := s.all[id], Step(s, Take(id, sendFails)).all[id];
      if c.stopped then t == c
      else
        && [c.queue[0]] + t.queue == c.queue && t.taken == c.taken + [c.queue[0]] && t.stopped == sendFails
        && t.sent == if sendFails then c.sent else c.sent + [c.queue[0]]
  {
  }

  // ------------------------------------------------------------------ the registry and its lock

  /** Registered is serving; closed comes after removed; the count is bounded; readers shut out the writer. */
  ghost predicate RegistryOk(s: State) {
    && !s.panicked
    && (forall id :: id in s.clients <==> id in s.all && s.all[id].phase.Serving?)
    && (forall id | id in s.all :: 1 <= id <= s.nextId && (s.all[id].closed <==> s.all[id].phase.Closed?))
    && |s.clients| <= MAX_STREAM_CLIENTS
    && (!s.writer.NoWriter? ==> WriteLockFree(s.(writer := NoWriter)))
    && (s.writer.Withdrawing? ==> s.writer.id in s.clients)
  }

  /** While a call runs the clients of its platform stay the ones it began with. */
  ghost predicate CallOk(s: State, c: Call) {
    && c.audience <= s.all.Keys
    && (c.at.Some? ==> !c.done && c.at.value in c.audience && c.at.value in c.visited)
    && (if c.done then c.audience <= c.visited else c.audience == Audience(s, c.action))
  }

  ghost predicate CallsOk(s: State) {
    forall call | call in s.calls :: CallOk(s, s.calls[call])
  }

  ghost predicate LockOk(s: State) {
    RegistryOk(s) && CallsOk(s)
  }

  lemma AdmitKeepsLock(s: State)
    requires LockOk(s)
    ensures LockOk(AdmitStep(s))
  {
    if s.writer.Admitting? && |s.clients| < MAX_STREAM_CLIENTS {
      var s' := AdmitStep(s);
      assert s.nextId + 1 !in s.all;
      assert |s'.clients| == |s.clients| + 1;
      forall call | call in s'.calls
        ensures CallOk(s', s'.calls[call])
      {
        assert CallOk(s, s.calls[call]) && s.calls[call].done;
      }
    }
  }

  lemma RemoveKeepsLock(s: State)
    requires LockOk(s)
    ensures LockOk(RemoveStep(s))
  {
    if s.writer.Withdrawing? {
      var s' := RemoveStep(s);
      assert s'.clients <= s.clients;
      assert |s.clients| == |s'.clients| + 1;
      forall call | call in s'.calls
        ensures CallOk(s', s'.calls[call])
      {
        assert CallOk(s, s.calls[call]) && s.calls[call].done;
      }
    }
  }

  /** A change to one client that keeps its platform, its phase and its channel open or closed. */
  lemma SameStandingKeepsLock(s: State, id: nat, c: Client)
    requires LockOk(s) && id in s.all
    requires s.all[id].(queue := c.queue, taken := c.taken, sent := c.sent, stopped := c.stopped,
                        attempts := c.attempts) == c
    ensures LockOk(WithClient(s, id, c))
  {
    var s' := WithClient(s, id, c);
    forall call | call in s'.calls
      ensures CallOk(s', s'.calls[call])
    {
      assert CallOk(s, s.calls[call]);
      assert Audience(s', s.calls[call].action) == Audience(s, s.calls[call].action);
    }
  }

  lemma CloseKeepsLock(s: State, id: nat)
    requires LockOk(s)
    ensures LockOk(CloseStep(s, id))
  {
    var s' := CloseStep(s, id);
    forall call | call in s'.calls
      ensures CallOk(s', s'.calls[call])
    {
      assert CallOk(s, s.calls[call]);
      assert Audience(s', s.calls[call].action) == Audience(s, s.calls[call].action);
    }
  }

  lemma CallKeepsLock(s: State, call: nat, c: Call)
    requires LockOk(s) && s.writer.NoWriter? && CallOk(s, c)
    ensures LockOk(WithCall(s, call, c))
  {
    var s' := WithCall(s, call, c);
    forall k | k in s'.calls
      ensures CallOk(s', s'.calls[k])
    {
      assert Audience(s', s'.calls[k].action) == Audience(s, s'.calls[k].action);
      assert k != call ==> CallOk(s, s.calls[k]);
    }
  }

  /** A running call holds the read lock, so no one holds the write lock. */
  lemma ReaderExcludesWriter(s: State, call: nat)
    requires LockOk(s) && Reading(s, call)
    ensures s.writer.NoWriter? && CallOk(s, s.calls[call])
  {
  }

  lemma OfferKeepsLock(s: State, call: nat)
    requires LockOk(s) && Reading(s, call)
    ensures LockOk(OfferStep(s, call))
  {
    ReaderExcludesWriter(s, call);
    var c := s.calls[call];
    if c.at.Some? {
      var id := c.at.value;
      SameStandingKeepsLock(s, id, Offered(s.all[id], call, c.action));
      var s' := WithClient(s, id, Offered(s.all[id], call, c.action));
      assert Audience(s', c.action) == Audience(s, c.action);
      CallKeepsLock(s', call, c.(at := None));
    }
  }

  lemma LoopKeepsLock(s: State, e: Event)
    requires LockOk(s) && (e.BeginSend? || e.Range? || e.EndSend?)
    ensures LockOk(Step(s, e))
  {
    if e.BeginSend? {
      if s.writer.NoWriter? && e.call !in s.calls {
        CallKeepsLock(s, e.call, Call(e.action, Audience(s, e.action), {}, None, false));
      }
    } else if Reading(s, e.call) {
      ReaderExcludesWriter(s, e.call);
      if Step(s, e) != s {
        CallKeepsLock(s, e.call, Step(s, e).calls[e.call]);
      }
    }
  }

  lemma StepKeepsLock(s: State, e: Event)
    requires LockOk(s)
    ensures LockOk(Step(s, e))
  {
    match e
    case LockToRegister(_) =>
    case LockToDeregister(_) =>
    case Admit => AdmitKeepsLock(s);
    case Remove => RemoveKeepsLock(s);
    case Close(id) => CloseKeepsLock(s, id);
    case Offer(call) => if Reading(s, call) { OfferKeepsLock(s, call); }
    case Take(id, fails) => if id in s.all { SameStandingKeepsLock(s, id, Taken(s.all[id], fails)); }
    case BeginSend(_, _) => LoopKeepsLock(s, e);
    case Range(_, _) => LoopKeepsLock(s, e);
    case EndSend(_) => LoopKeepsLock(s, e);
  }

  function After(es: seq<Event>): State {
    if es == [] then State({}, map[], 0, map[], NoWriter, false)
    else Step(After(es[..|es| - 1]), es[|es| - 1])
  }

  lemma {:induction false} LockOkInEveryRun(es: seq<Event>)
    ensures LockOk(After(es))
  {
    if es != [] {
      LockOkInEveryRun(es[..|es| - 1]);
      StepKeepsLock(After(es[..|es| - 1]), es[|es| - 1]);
    }
  }

  /** No send meets a closed channel and none is closed twice; a registered channel is open, and there are never
      more than the limit; a new client never takes an id that was used before. */
  lemma StreamsAreSafe(es: seq<Event>)
    ensures !After(es).panicked
    ensures |After(es).clients| <= 64
    ensures forall id | id in After(es).clients :: id in After(es).all && !After(es).all[id].closed
    ensures After(es).nextId + 1 !in After(es).all
  {
    LockOkInEveryRun(es);
  }

  /** Nobody joins or leaves while a call runs. */
  lemma RunningCallSeesOneRegistry(es: seq<Event>, call: nat)
    requires Reading(After(es), call)
    ensures After(es).calls[call].audience == Audience(After(es), After(es).calls[call].action)
    ensures After(es + [Admit]).clients == After(es + [Remove]).clients == After(es).clients
  {
    LockOkInEveryRun(es);
    ReaderExcludesWriter(After(es), call);
    assert (es + [Admit])[..|es|] == es && (es + [Remove])[..|es|] == es;
  }

  // ------------------------------------------------------------------ what each client is given

  /** The actions that were queued, in the order they were tried. */
  function Kept(attempts: seq<Attempt>): seq<Action> {
    if attempts == [] then []
    else
      var last := attempts[|attempts| - 1];
      Kept(attempts[..|attempts| - 1]) + if last.accepted then [last.action] else []
  }

  /** Each attempt was refused exactly when the actions queued before it and not yet taken filled the buffer. */
  ghost predicate Lawful(c: Client) {
    forall k | 0 <= k < |c.attempts| ::
      && c.attempts[k].taken <= |Kept(c.attempts[..k])|
      && c.attempts[k].action.platform == c.platform
      && (c.attempts[k].accepted <==> |Kept(c.attempts[..k])| - c.attempts[k].taken < CLIENT_SEND_BUFFER)
  }

  ghost predicate ClientOk(c: Client) {
    && Kept(c.attempts) == c.taken + c.queue
    && |c.queue| <= CLIENT_SEND_BUFFER
    && Lawful(c)
    && c.sent == (if c.stopped && c.taken != [] then c.taken[..|c.taken| - 1] else c.taken)
    && (c.stopped ==> c.taken != [])
  }

  lemma OfferedKeepsLawful(c: Client, call: nat, action: Action)
    requires ClientOk(c) && action.platform == c.platform
    ensures Lawful(Offered(c, call, action))
  {
    var c' := Offered(c, call, action);
    forall k | 0 <= k < |c'.attempts|
      ensures c'.attempts[k].taken <= |Kept(c'.attempts[..k])|
      ensures c'.attempts[k].action.platform == c'.platform
      ensures c'.attempts[k].accepted <==> |Kept(c'.attempts[..k])| - c'.attempts[k].taken < CLIENT_SEND_BUFFER
    {
      assert c'.attempts[..k] == c.attempts[..k];
      if k == |c.attempts| {
        assert c.attempts[..k] == c.attempts;
      } else {
        assert c'.attempts[k] == c.attempts[k];
      }
    }
  }

  lemma OfferedKeepsClient(c: Client, call: nat, action: Action)
    requires ClientOk(c) && action.platform == c.platform
    ensures ClientOk(Offered(c, call, action))
  {
    OfferedKeepsLawful(c, call, action);
    assert Offered(c, call, action).attempts[..|c.attempts|] == c.attempts;
  }

  lemma TakenKeepsClient(c: Client, sendFails: bool)
    requires ClientOk(c)
    ensures ClientOk(Taken(c, sendFails))
  {
    if c.queue != [] {
      assert c.taken + c.queue == (c.taken + [c.queue[0]]) + c.queue[1..];
      assert (c.taken + [c.queue[0]])[..|c.taken|] == c.taken;
    }
  }

  ghost predicate ClientsOk(s: State) {
    forall id | id in s.all :: ClientOk(s.all[id])
  }

  predicate SameDeliveries(c: Client, c': Client) {
    c' == c.(phase := c'.phase, closed := c'.closed)
  }

  predicate Offers(s: State, e: Event, id: nat) {
    e.Offer? && Reading(s, e.call) && s.calls[e.call].at == Some(id) && id in s.all
  }

  predicate IsNew(c: Client) {
    c.queue == c.taken == c.sent == [] && c.attempts == [] && !c.stopped
  }

  /** A step leaves a client's deliveries alone, or is an attempt on it, or its own sender's. */
  ghost predicate Moves(s: State, e: Event, id: nat, c': Client) {
    if id !in s.all then IsNew(c')
    else if Offers(s, e, id) then c' == Offered(s.all[id], e.call, s.calls[e.call].action)
    else if e == Take(id, true) || e == Take(id, false) then c' == Taken(s.all[id], e.sendFails)
    else SameDeliveries(s.all[id], c')
  }

  lemma WriterMoves(s: State, e: Event, id: nat)
    requires LockOk(s) && (e.LockToRegister? || e.LockToDeregister? || e.Remove? || e.Close?)
    requires id in Step(s, e).all
    ensures Moves(s, e, id, Step(s, e).all[id])
  {
  }

  lemma AdmitMoves(s: State, id: nat)
    requires LockOk(s) && id in AdmitStep(s).all
    ensures Moves(s, Admit, id, AdmitStep(s).all[id])
  {
  }

  lemma ReaderMoves(s: State, e: Event, id: nat)
    requires LockOk(s) && (e.BeginSend? || e.Range? || e.Offer? || e.EndSend? || e.Take?)
    requires id in Step(s, e).all
    ensures Moves(s, e, id, Step(s, e).all[id])
  {
    if e.Offer? && Reading(s, e.call) && s.calls[e.call].at.Some? {
      assert CallOk(s, s.calls[e.call]);
    }
  }

  lemma ClientMoves(s: State, e: Event, id: nat)
    requires LockOk(s) && id in Step(s, e).all
    ensures Moves(s, e, id, Step(s, e).all[id])
  {
    if e.BeginSend? || e.Range? || e.Offer? || e.EndSend? || e.Take? {
      ReaderMoves(s, e, id);
    } else if e.Admit? {
      AdmitMoves(s, id);
    } else {
      WriterMoves(s, e, id);
    }
  }

  /** A call only comes to clients of its platform. */
  lemma OfferIsForPlatform(s: State, e: Event, id: nat)
    requires LockOk(s) && Offers(s, e, id)
    ensures s.calls[e.call].action.platform == s.all[id].platform
  {
    assert CallOk(s, s.calls[e.call]);
  }

  lemma NewOrSameIsOk(c: Client, c': Client)
    ensures IsNew(c) ==> ClientOk(c)
    ensures ClientOk(c) && SameDeliveries(c, c') ==> ClientOk(c')
  {
  }

  lemma MoveKeepsClient(s: State, e: Event, id: nat)
    requires LockOk(s) && ClientsOk(s) && id in Step(s, e).all
    ensures ClientOk(Step(s, e).all[id])
  {
    ClientMoves(s, e, id);
    var c' := Step(s, e).all[id];
    hide ClientOk, LockOk, Step, IsNew, SameDeliveries, Offered, Taken;
    NewOrSameIsOk(if id in s.all then s.all[id] else c', c');
    if Offers(s, e, id) {
      OfferIsForPlatform(s, e, id);
      OfferedKeepsClient(s.all[id], e.call, s.calls[e.call].action);
    } else if id in s.all && e.Take? && e.id == id {
      TakenKeepsClient(s.all[id], e.sendFails);
    }
  }

  /** In every run a client has been sent, in order and without a gap, the actions that were accepted for it, and
      the rest wait in its queue; an attempt was dropped exactly when the queue was full. */
  lemma {:induction false} EveryClientInOrder(es: seq<Event>)
    ensures ClientsOk(After(es))
  {
    if es != [] {
      EveryClientInOrder(es[..|es| - 1]);
      LockOkInEveryRun(es[..|es| - 1]);
      forall id | id in After(es).all
        ensures ClientOk(After(es).all[id])
      {
        MoveKeepsClient(After(es[..|es| - 1]), es[|es| - 1], id);
      }
    }
  }

  // ------------------------------------------------------------------ what each call reaches

  function Tries(attempts: seq<Attempt>, call: nat): nat {
    if attempts == [] then 0
    else Tries(attempts[..|attempts| - 1], call) + if attempts[|attempts| - 1].call == call then 1 else 0
  }

  predicate Reached(s: State, call: nat, id: nat) {
    && call in s.calls
    && id in s.calls[call].audience && id in s.calls[call].visited && s.calls[call].at != Some(id)
  }

  ghost predicate TriesOk(s: State) {
    forall id, call: nat | id in s.all :: Tries(s.all[id].attempts, call) == if Reached(s, call, id) then 1 else 0
  }

  /** A step changes whether a call has reached a client only by offering to it. */
  lemma ReachedMoves(s: State, e: Event, id: nat, call: nat)
    requires LockOk(s) && id in s.all
    ensures Offers(s, e, id) && e.call == call ==> !Reached(s, call, id) && Reached(Step(s, e), call, id)
    ensures !(Offers(s, e, id) && e.call == call) ==> Reached(Step(s, e), call, id) == Reached(s, call, id)
  {
    if call in s.calls {
      assert CallOk(s, s.calls[call]);
    }
  }

  lemma NobodyNewIsReached(s: State, e: Event, id: nat, call: nat)
    requires LockOk(s) && id !in s.all && id in Step(s, e).all
    ensures !Reached(Step(s, e), call, id)
  {
    if call in s.calls {
      assert CallOk(s, s.calls[call]);
    }
  }

  lemma StepKeepsTries(s: State, e: Event, id: nat, call: nat)
    requires LockOk(s) && TriesOk(s) && id in Step(s, e).all
    ensures Tries(Step(s, e).all[id].attempts, call) == if Reached(Step(s, e), call, id) then 1 else 0
  {
    ClientMoves(s, e, id);
    if id in s.all {
      ReachedMoves(s, e, id, call);
      var attempts := s.all[id].attempts;
      assert forall a: Attempt :: (attempts + [a])[..|attempts|] == attempts;
    } else {
      NobodyNewIsReached(s, e, id, call);
    }
  }

  lemma {:induction false} TriesOkInEveryRun(es: seq<Event>)
    ensures TriesOk(After(es))
  {
    if es != [] {
      TriesOkInEveryRun(es[..|es| - 1]);
      LockOkInEveryRun(es[..|es| - 1]);
      forall id, call: nat | id in After(es).all
        ensures Tries(After(es).all[id].attempts, call) == if Reached(After(es), call, id) then 1 else 0
      {
        StepKeepsTries(After(es[..|es| - 1]), es[|es| - 1], id, call);
      }
    }
  }

  /** A finished call tried its action once on every client of its platform that was registered while it ran,
      and on no other client. */
  lemma EveryCallReachesItsAudienceOnce(es: seq<Event>, call: nat, id: nat)
    requires call in After(es).calls && After(es).calls[call].done && id in After(es).all
    ensures Tries(After(es).all[id].attempts, call) == if id in After(es).calls[call].audience then 1 else 0
  {
    LockOkInEveryRun(es);
    TriesOkInEveryRun(es);
    assert CallOk(After(es), After(es).calls[call]);
  }

  // ------------------------------------------------------------------ the server's own steps

  class StreamClient {
    const id: nat
    const platform: int
    var queue: seq<Action>
    var closed: bool

    constructor (id: nat, platform: int)
      ensures this.id == id && this.platform == platform && queue == [] && !closed
    {
      this.id, this.platform := id, platform;
      queue, closed := [], false;
    }
  }

  class ReverseServer {
    var clients: map<nat, StreamClient>
    var nextId: nat

    /** Registered under its own id, open, within its buffer; the ids given out so far reach nextId. */
    ghost predicate Valid()
      reads this, clients.Values
    {
      && |clients| <= MAX_STREAM_CLIENTS
      && forall id | id in clients ::
        && clients[id].id == id && id <= nextId
        && !clients[id].closed
        && |clients[id].queue| <= CLIENT_SEND_BUFFER
    }

    constructor ()
      ensures Valid() && clients == map[] && nextId == 0
    {
      clients, nextId := map[], 0;
    }

    method Register(platform: int) returns (admitted: StreamClient?)
      requires Valid()
      modifies this
      ensures Valid()
      ensures admitted == null <==> |old(clients)| >= 64
      ensures admitted == null ==> clients == old(clients) && nextId == old(nextId)
      ensures admitted != null ==>
        && fresh(admitted) && admitted.id == nextId == old(nextId) + 1 && nextId !in old(clients)
        && clients == old(clients)[nextId := admitted]
        && admitted.platform == platform && admitted.queue == [] && !admitted.closed
    {
      if |clients| >= MAX_STREAM_CLIENTS {
        return null;
      }
      nextId := nextId + 1;
      var c := new StreamClient(nextId, platform);
      assert |clients[nextId := c]| == |clients| + 1;
      clients := clients[nextId := c];
      return c;
    }

    /** Each handler defers this once, for the client it was given; no one can be sending to it when it closes. */
    method Deregister(c: StreamClient)
      requires Valid() && c.id in clients && clients[c.id] == c
      modifies this, c
      ensures Valid() && clients == old(clients) - {c.id} && nextId == old(nextId)
      ensures c.closed && c.queue == old(c.queue)
    {
      clients := clients - {c.id};
      c.closed := true;
    }

    /** What one client should have queued after an action, given what it had. */
    static function Queued(c: StreamClient, action: Action, queue: seq<Action>): seq<Action> {
      if c.platform == action.platform && |queue| < 64 then queue + [action] else queue
    }

    /** Never blocks: it queues for every client of the platform that has room, and leaves out those that have not. */
    method SendAction(action: Action)
      requires Valid()
      modifies clients.Values
      ensures Valid() && clients == old(clients) && nextId == old(nextId)
      ensures forall id | id in clients && clients[id].platform == action.platform && |old(clients[id].queue)| < 64 ::
        clients[id].queue == old(clients[id].queue) + [action]
      ensures forall id | id in clients && (clients[id].platform != action.platform || |old(clients[id].queue)| >= 64) ::
        clients[id].queue == old(clients[id].queue)
    {
      QueueForAll(action);
    }

    /** The loop of it, over the clients in any order. */
    method QueueForAll(action: Action)
      requires Valid()
      modifies clients.Values
      ensures Valid() && clients == old(clients) && nextId == old(nextId)
      ensures forall id | id in clients :: clients[id].queue == Queued(clients[id], action, old(clients[id].queue))
    {
      var left := clients.Keys;
      while left != {}
        invariant left <= clients.Keys && Valid()
        invariant forall id | id in left :: clients[id].queue == old(clients[id].queue)
        invariant forall id | id in clients.Keys - left ::
          clients[id].queue == Queued(clients[id], action, old(clients[id].queue))
        decreases left
      {
        ghost var some := Pick(left);
        var id :| id in left;
        left := left - {id};
        var c := clients[id];
        if c.platform != action.platform {
          continue;
        }
        if |c.queue| < CLIENT_SEND_BUFFER {
          c.queue := c.queue + [action];
        }
      }
    }
  }
}
