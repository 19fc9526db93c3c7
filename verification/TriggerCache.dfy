/** The compiled trigger sets the server caches per instance, against the database behind them. */
module TriggerCache {
  import opened Wrappers

  const MAX_CANDIDATES: nat := 500

  /** Trigger ids compare as numbers, the order the database lists them in. */
  type TriggerId = nat
  type InstanceId = int

  datatype Trigger = Trigger(phrase: string, reply: string, chance: int, mode: int, owner: string,
                             scope: set<InstanceId>, deleted: bool)

  datatype Candidate = Candidate(id: TriggerId, mode: int, chance: int, pattern: string)

  /** Compiling a phrase in a mode, when that succeeds. */
  type Compiler = (string, int) -> Option<string>

  type Database = map<TriggerId, Trigger>

  // ------------------------------------------------------------------ the load

  function ActiveIds(db: Database, instance: InstanceId): set<TriggerId> {
    set id | id in db && !db[id].deleted && instance in db[id].scope
  }

  predicate IsLeast(least: nat, ids: set<nat>) {
    least in ids && forall k | k in ids :: least <= k
  }

  lemma {:induction false} LeastExists(ids: set<nat>)
    requires ids != {}
    ensures exists least :: IsLeast(least, ids)
  {
    var one := Pick(ids);
    var rest := ids - {one};
    assert ids == {one} + rest;
    if rest == {} {
      assert IsLeast(one, ids);
    } else {
      LeastExists(rest);
      var other :| IsLeast(other, rest);
      assert IsLeast(if other < one then other else one, ids);
    }
  }

  function Least(ids: set<nat>): (least: nat)
    requires ids != {}
    ensures IsLeast(least, ids)
  {
    LeastExists(ids);
    var least :| IsLeast(least, ids);
    least
  }

  /** ORDER BY id. */
  function Ordered(ids: set<nat>): seq<nat> {
    if ids == {} then [] else [Least(ids)] + Ordered(ids - {Least(ids)})
  }

  lemma {:induction false} OrderedHasAll(ids: set<nat>)
    ensures forall id :: id in Ordered(ids) <==> id in ids
  {
    if ids != {} {
      var least := Least(ids);
      OrderedHasAll(ids - {least});
      forall id
        ensures id in Ordered(ids) <==> id in ids
      {
        assert id in [least] + Ordered(ids - {least}) <==> id == least || id in Ordered(ids - {least});
      }
    }
  }

  predicate Rising(ids: seq<nat>) {
    forall i, j | 0 <= i < j < |ids| :: ids[i] < ids[j]
  }

  lemma PrependKeepsRising(id: nat, ids: seq<nat>)
    requires Rising(ids) && forall other | other in ids :: id < other
    ensures Rising([id] + ids)
  {
    forall i, j | 0 <= i < j < 1 + |ids|
      ensures ([id] + ids)[i] < ([id] + ids)[j]
    {
      assert ids[j - 1] in ids;
    }
  }

  lemma {:induction false} OrderedRises(ids: set<nat>)
    ensures Rising(Ordered(ids))
  {
    if ids != {} {
      OrderedRises(ids - {Least(ids)});
      OrderedHasAll(ids - {Least(ids)});
      PrependKeepsRising(Least(ids), Ordered(ids - {Least(ids)}));
    }
  }

  /** The rows a load sees: the first live triggers of the instance. */
  function Listed(db: Database, instance: InstanceId): (ids: seq<TriggerId>)
    ensures forall id | id in ids :: id in db && instance in db[id].scope && !db[id].deleted
  {
    OrderedHasAll(ActiveIds(db, instance));
    var all := Ordered(ActiveIds(db, instance));
    assert |all| > MAX_CANDIDATES ==> forall id | id in all[..MAX_CANDIDATES] :: id in all;
    if |all| <= MAX_CANDIDATES then all else all[..MAX_CANDIDATES]
  }

  /** A load sees the live triggers of the instance in id order, and past the limit only the first of them. */
  lemma ListedAreTheFirst(db: Database, instance: InstanceId)
    ensures Rising(Listed(db, instance))
    ensures |Listed(db, instance)| <= 500
    ensures forall id | id in db && !db[id].deleted && instance in db[id].scope && id !in Listed(db, instance) ::
      |Listed(db, instance)| == 500 && forall other | other in Listed(db, instance) :: other < id
  {
    var all := Ordered(ActiveIds(db, instance));
    OrderedHasAll(ActiveIds(db, instance));
    OrderedRises(ActiveIds(db, instance));
    assert forall k | 0 <= k < |Listed(db, instance)| :: Listed(db, instance)[k] == all[k];
    forall id | id in ActiveIds(db, instance) && id !in Listed(db, instance)
      ensures |all| > MAX_CANDIDATES && forall other | other in all[..MAX_CANDIDATES] :: other < id
    {
      assert id in all;
      var j :| 0 <= j < |all| && all[j] == id;
      assert j >= |Listed(db, instance)|;
    }
  }

  /** Rows to candidates, leaving out any phrase that no longer compiles. */
  function Compiled(compile: Compiler, db: Database, ids: seq<TriggerId>): seq<Candidate>
    requires forall id | id in ids :: id in db
  {
    if ids == [] then []
    else
      var id := ids[|ids| - 1];
      var earlier := Compiled(compile, db, ids[..|ids| - 1]);
      match compile(db[id].phrase, db[id].mode)
      case None => earlier
      case Some(pattern) => earlier + [Candidate(id, db[id].mode, db[id].chance, pattern)]
  }

  function Load(compile: Compiler, db: Database, instance: InstanceId): seq<Candidate> {
    Compiled(compile, db, Listed(db, instance))
  }

  /** A candidate for each listed trigger that compiles, with its own mode and chance, in the listed order. */
  lemma LoadIsExact(compile: Compiler, db: Database, instance: InstanceId)
    ensures forall c | c in Load(compile, db, instance) ::
      && c.id in db && !db[c.id].deleted && instance in db[c.id].scope
      && c.mode == db[c.id].mode && c.chance == db[c.id].chance && compile(db[c.id].phrase, c.mode) == Some(c.pattern)
    ensures forall id | id in Listed(db, instance) && compile(db[id].phrase, db[id].mode).Some? ::
      exists c :: c in Load(compile, db, instance) && c.id == id
    ensures forall i, j | 0 <= i < j < |Load(compile, db, instance)| ::
      Load(compile, db, instance)[i].id < Load(compile, db, instance)[j].id
  {
    ListedAreTheFirst(db, instance);
    CompiledExactly(compile, db, Listed(db, instance));
  }

  lemma {:induction false} CompiledExactly(compile: Compiler, db: Database, ids: seq<TriggerId>)
    requires (forall id | id in ids :: id in db) && Rising(ids)
    ensures forall c | c in Compiled(compile, db, ids) ::
      && c.id in ids && c.mode == db[c.id].mode && c.chance == db[c.id].chance
      && compile(db[c.id].phrase, c.mode) == Some(c.pattern)
    ensures forall id | id in ids && compile(db[id].phrase, db[id].mode).Some? ::
      exists c :: c in Compiled(compile, db, ids) && c.id == id
    ensures forall i, j | 0 <= i < j < |Compiled(compile, db, ids)| ::
      Compiled(compile, db, ids)[i].id < Compiled(compile, db, ids)[j].id
  {
    if ids != [] {
      var n := |ids| - 1;
      var last, earlier := ids[n], Compiled(compile, db, ids[..n]);
      LastIsLargest(ids);
      hide Rising;
      CompiledExactly(compile, db, ids[..n]);
      if compile(db[last].phrase, db[last].mode).Some? {
        OneMoreCandidate(earlier, Candidate(last, db[last].mode, db[last].chance, compile(db[last].phrase, db[last].mode).value));
      }
    }
  }

  lemma LastIsLargest(ids: seq<TriggerId>)
    requires ids != [] && Rising(ids)
    ensures var n := |ids| - 1;
      && Rising(ids[..n]) && ids[n] in ids && (forall id | id in ids[..n] :: id in ids && id < ids[n])
      && (forall id | id in ids :: id in ids[..n] || id == ids[n])
  {
  }

  lemma OneMoreCandidate(earlier: seq<Candidate>, c: Candidate)
    requires (forall e | e in earlier :: e.id < c.id) && forall i, j | 0 <= i < j < |earlier| :: earlier[i].id < earlier[j].id
    ensures var cs := earlier + [c];
      && c in cs && (forall e | e in earlier :: e in cs) && (forall e | e in cs :: e in earlier || e == c)
      && forall i, j | 0 <= i < j < |cs| :: cs[i].id < cs[j].id
  {
    assert forall i | 0 <= i < |earlier| :: earlier[i] in earlier;
  }

  lemma {:induction false} CompiledFrame(compile: Compiler, db: Database, db': Database, ids: seq<TriggerId>)
    requires forall id | id in ids :: id in db && id in db' && db[id] == db'[id]
    ensures Compiled(compile, db, ids) == Compiled(compile, db', ids)
  {
    if ids != [] {
      CompiledFrame(compile, db, db', ids[..|ids| - 1]);
    }
  }

  /** Writing a trigger outside an instance, before and after, leaves the load of it alone. */
  lemma LoadFrame(compile: Compiler, db: Database, id: TriggerId, t: Trigger, instance: InstanceId)
    requires instance !in t.scope && (id in db ==> instance !in db[id].scope)
    ensures Load(compile, db[id := t], instance) == Load(compile, db, instance)
  {
    assert ActiveIds(db[id := t], instance) == ActiveIds(db, instance);
    CompiledFrame(compile, db, db[id := t], Listed(db, instance));
  }

  // ------------------------------------------------------------------ interleavings

  /** A lookup that missed, by how far it has got; it holds the cache's lock throughout. */
  datatype Loading = Idle | Missed(instance: InstanceId) | Loaded(instance: InstanceId, candidates: seq<Candidate>)

  datatype Patch = Patch(phrase: Option<string>, reply: Option<string>, chance: Option<int>, mode: Option<int>)

  /** A write handler that has read its trigger's scope and not yet written. */
  datatype Scoped = Scoped(id: TriggerId, scope: set<InstanceId>)

  datatype State = State(db: Database, cache: map<InstanceId, seq<Candidate>>, loading: Loading,
                         scoped: map<int, Scoped>, pending: map<int, set<InstanceId>>)

  datatype Event =
    | Lookup(instance: InstanceId)
    | QueryRows
    | QueryFails
    | Store
    | CommitCreate(handler: int, id: TriggerId, new_: Trigger)
    | ReadScope(handler: int, id: TriggerId)
    | CommitUpdate(handler: int, user: string, patch: Patch)
    | CommitDelete(handler: int, user: string)
    | WriteFails(handler: int)
    | Invalidate(handler: int, instance: InstanceId)
    | InvalidateAll

  predicate Writable(db: Database, id: TriggerId, user: string) {
    id in db && db[id].owner == user && !db[id].deleted
  }

  function OrElse<T>(o: Option<T>, t: T): T {
    if o.Some? then o.value else t
  }

  function Patched(t: Trigger, p: Patch): Trigger {
    t.(phrase := OrElse(p.phrase, t.phrase), reply := OrElse(p.reply, t.reply),
       chance := OrElse(p.chance, t.chance), mode := OrElse(p.mode, t.mode))
  }

  /** A new id names no stored trigger, and none a handler already asked about. */
  predicate FreshId(s: State, id: TriggerId) {
    id !in s.db && forall h | h in s.scoped :: s.scoped[h].id != id
  }

  predicate FreeHandler(s: State, h: int) {
    h !in s.scoped && h !in s.pending
  }

  /** After its write a handler owes an invalidation to every instance it listed. */
  function Committed(s: State, h: int, id: TriggerId, t: Trigger, scope: set<InstanceId>): State {
    s.(db := s.db[id := t], scoped := s.scoped - {h}, pending := if scope == {} then s.pending else s.pending[h := scope])
  }

  function Step(s: State, e: Event, compile: Compiler): State {
    match e
    // The lock is free exactly while no lookup is loading.
    case Lookup(instance) =>
      if s.loading.Idle? && instance !in s.cache then s.(loading := Missed(instance)) else s
    case QueryRows =>
      if s.loading.Missed? then s.(loading := Loaded(s.loading.instance, Load(compile, s.db, s.loading.instance))) else s
    case QueryFails =>
      if s.loading.Missed? then s.(loading := Idle) else s
    case Store =>
      if s.loading.Loaded? then s.(cache := s.cache[s.loading.instance := s.loading.candidates], loading := Idle) else s
    case CommitCreate(h, id, t) =>
      if FreeHandler(s, h) && FreshId(s, id) && t.scope != {} then Committed(s, h, id, t, t.scope) else s
    case ReadScope(h, id) =>
      if FreeHandler(s, h) then s.(scoped := s.scoped[h := Scoped(id, if id in s.db then s.db[id].scope else {})]) else s
    case CommitUpdate(h, user, patch) =>
      if h in s.scoped && Writable(s.db, s.scoped[h].id, user)
      then Committed(s, h, s.scoped[h].id, Patched(s.db[s.scoped[h].id], patch), s.scoped[h].scope)
      else s.(scoped := s.scoped - {h})
    case CommitDelete(h, user) =>
      if h in s.scoped && Writable(s.db, s.scoped[h].id, user)
      then Committed(s, h, s.scoped[h].id, s.db[s.scoped[h].id].(deleted := true), s.scoped[h].scope)
      else s.(scoped := s.scoped - {h})
    case WriteFails(h) => s.(scoped := s.scoped - {h})
    case Invalidate(h, instance) =>
      if s.loading.Idle? && h in s.pending && instance in s.pending[h] then
        var owed := s.pending[h] - {instance};
        s.(cache := s.cache - {instance}, pending := if owed == {} then s.pending - {h} else s.pending[h := owed])
      else s
    case InvalidateAll => if s.loading.Idle? then s.(cache := map[]) else s
  }

  /** What the writes of a handler put in the database, and which instances it owes an invalidation then. */
  lemma CommitsWrite(s: State, h: int, user: string, patch: Patch, compile: Compiler)
    requires h in s.scoped && s.scoped[h].id in s.db
    ensures
      var id, scope := s.scoped[h].id, s.scoped[h].scope;
      var t := s.db[id];
      var may := t.owner == user && !t.deleted;
      var updated, deleted := Step(s, CommitUpdate(h, user, patch), compile), Step(s, CommitDelete(h, user), compile);
      && updated.cache == deleted.cache == s.cache
      && updated.pending == deleted.pending == (if may && scope != {} then s.pending[h := scope] else s.pending)
      && deleted.db == (if may then s.db[id := t.(deleted := true)] else s.db)
      && updated.db == (if !may then s.db else s.db[id := Trigger(
           if patch.phrase.Some? then patch.phrase.value else t.phrase,
           if patch.reply.Some? then patch.reply.value else t.reply,
           if patch.chance.Some? then patch.chance.value else t.chance,
           if patch.mode.Some? then patch.mode.value else t.mode, t.owner, t.scope, false)])
  {
  }

  /** A lookup that missed loads what is stored when it queries, and caches that under the lock. */
  lemma LookupLoads(s: State, instance: InstanceId, compile: Compiler)
    ensures s.loading.Idle? && instance !in s.cache ==> Step(s, Lookup(instance), compile).loading == Missed(instance)
    ensures s.loading == Missed(instance) ==>
      Step(s, QueryRows, compile).loading == Loaded(instance, Load(compile, s.db, instance))
    ensures s.loading.Loaded? ==>
      Step(s, Store, compile).cache == s.cache[s.loading.instance := s.loading.candidates]
  {
  }

  function After(es: seq<Event>, compile: Compiler): State {
    if es == [] then State(map[], map[], Idle, map[], map[])
    else Step(After(es[..|es| - 1], compile), es[|es| - 1], compile)
  }

  /** Some handler has written a trigger of the instance and still has to invalidate it. */
  predicate Owed(s: State, instance: InstanceId) {
    exists h :: h in s.pending && instance in s.pending[h]
  }

  /** What is cached, or about to be, is the load of the current database unless an invalidation is owed. */
  ghost predicate Coherent(s: State, compile: Compiler) {
    && (forall i | i in s.cache :: s.cache[i] == Load(compile, s.db, i) || Owed(s, i))
    && (s.loading.Loaded? ==>
          s.loading.candidates == Load(compile, s.db, s.loading.instance) || Owed(s, s.loading.instance))
  }

  /** A scope that was read still is the scope of that trigger. */
  ghost predicate ScopesCurrent(s: State) {
    forall h | h in s.scoped && s.scoped[h].id in s.db :: s.scoped[h].scope == s.db[s.scoped[h].id].scope
  }

  lemma CommitKeepsCoherent(s: State, h: int, id: TriggerId, t: Trigger, scope: set<InstanceId>, compile: Compiler)
    requires Coherent(s, compile) && h !in s.pending
    requires t.scope == scope && (id in s.db ==> s.db[id].scope == scope)
    ensures Coherent(Committed(s, h, id, t, scope), compile)
  {
    var s' := Committed(s, h, id, t, scope);
    assert scope != {} ==> h in s'.pending && s'.pending[h] == scope;
    forall i
      ensures Owed(s, i) || i in scope ==> Owed(s', i)
      ensures i !in scope ==> Load(compile, s'.db, i) == Load(compile, s.db, i)
    {
      if Owed(s, i) {
        var g :| g in s.pending && i in s.pending[g];
        assert g in s'.pending && i in s'.pending[g];
      }
      if i !in scope {
        LoadFrame(compile, s.db, id, t, i);
      }
    }
  }

  lemma InvalidateKeepsCoherent(s: State, h: int, instance: InstanceId, compile: Compiler)
    requires Coherent(s, compile) && s.loading.Idle? && h in s.pending && instance in s.pending[h]
    ensures Coherent(Step(s, Invalidate(h, instance), compile), compile)
  {
    var s' := Step(s, Invalidate(h, instance), compile);
    forall i | i != instance && Owed(s, i)
      ensures Owed(s', i)
    {
      var g :| g in s.pending && i in s.pending[g];
      if g == h {
        assert i in s.pending[h] - {instance};
      }
      assert g in s'.pending && i in s'.pending[g];
    }
  }

  predicate Commits(s: State, e: Event) {
    || (e.CommitCreate? && FreeHandler(s, e.handler) && FreshId(s, e.id) && e.new_.scope != {})
    || ((e.CommitUpdate? || e.CommitDelete?) && e.handler in s.scoped && Writable(s.db, s.scoped[e.handler].id, e.user))
  }

  ghost predicate Inv(s: State, compile: Compiler) {
    Coherent(s, compile) && ScopesCurrent(s) && s.scoped.Keys !! s.pending.Keys
  }

  lemma QuietStepKeepsCoherent(s: State, e: Event, compile: Compiler)
    requires Coherent(s, compile) && !Commits(s, e) && !e.Invalidate?
    ensures Coherent(Step(s, e, compile), compile)
  {
    var s' := Step(s, e, compile);
    assert s'.db == s.db && s'.pending == s.pending;
    assert forall i :: Owed(s, i) ==> Owed(s', i);
  }

  lemma StepKeepsCoherent(s: State, e: Event, compile: Compiler)
    requires Inv(s, compile)
    ensures Coherent(Step(s, e, compile), compile)
  {
    if !Commits(s, e) && !e.Invalidate? {
      QuietStepKeepsCoherent(s, e, compile);
    } else if e.CommitCreate? {
      CommitKeepsCoherent(s, e.handler, e.id, e.new_, e.new_.scope, compile);
    } else if e.Invalidate? {
      if s.loading.Idle? && e.handler in s.pending && e.instance in s.pending[e.handler] {
        InvalidateKeepsCoherent(s, e.handler, e.instance, compile);
      }
    } else {
      var sc := s.scoped[e.handler];
      var t := if e.CommitUpdate? then Patched(s.db[sc.id], e.patch) else s.db[sc.id].(deleted := true);
      CommitKeepsCoherent(s, e.handler, sc.id, t, sc.scope, compile);
    }
  }

  lemma StepKeepsScopes(s: State, e: Event, compile: Compiler)
    requires Inv(s, compile)
    ensures ScopesCurrent(Step(s, e, compile)) && Step(s, e, compile).scoped.Keys !! Step(s, e, compile).pending.Keys
  {
  }

  /** In every interleaving a cached set is the load of the current database, or some handler has
      committed a write to that instance and has yet to invalidate it. */
  lemma {:induction false} CacheCoherentInEveryRun(es: seq<Event>, compile: Compiler)
    ensures Inv(After(es, compile), compile)
  {
    if es != [] {
      var s := After(es[..|es| - 1], compile);
      CacheCoherentInEveryRun(es[..|es| - 1], compile);
      StepKeepsCoherent(s, es[|es| - 1], compile);
      StepKeepsScopes(s, es[|es| - 1], compile);
    }
  }

  /** So once every handler is done, nothing stale is cached. */
  lemma NothingStaleAtRest(es: seq<Event>, compile: Compiler)
    requires After(es, compile).pending == map[]
    ensures forall i | i in After(es, compile).cache ::
      After(es, compile).cache[i] == Load(compile, After(es, compile).db, i)
  {
    CacheCoherentInEveryRun(es, compile);
  }

  // ------------------------------------------------------------------ the server's own steps

  function Those(instances: seq<InstanceId>): set<InstanceId> {
    set i | i in instances
  }

  class TriggerServer {
    const compile: Compiler
    var db: Database
    var cache: map<InstanceId, seq<Candidate>>

    constructor (compile: Compiler, db: Database)
      ensures this.compile == compile && this.db == db && cache == map[] && Fresh()
    {
      this.compile := compile;
      this.db := db;
      cache := map[];
    }

    /** Nothing cached is stale. */
    ghost predicate Fresh()
      reads this
    {
      forall i | i in cache :: cache[i] == Load(compile, db, i)
    }

    method LoadCandidates(instance: InstanceId) returns (candidates: seq<Candidate>)
      ensures candidates == Load(compile, db, instance)
      ensures forall c | c in candidates ::
        && c.id in db && !db[c.id].deleted && instance in db[c.id].scope
        && c.mode == db[c.id].mode && c.chance == db[c.id].chance && compile(db[c.id].phrase, c.mode) == Some(c.pattern)
      ensures forall id | id in Listed(db, instance) && compile(db[id].phrase, db[id].mode).Some? ::
        exists c :: c in candidates && c.id == id
      ensures forall i, j | 0 <= i < j < |candidates| :: candidates[i].id < candidates[j].id
    {
      var actives := Listed(db, instance);
      candidates := [];
      for k := 0 to |actives|
        invariant candidates == Compiled(compile, db, actives[..k])
      {
        assert actives[..k + 1][..k] == actives[..k];
        var active := db[actives[k]];
        var compiled := compile(active.phrase, active.mode);
        if compiled.None? {
          continue;
        }
        candidates := candidates + [Candidate(actives[k], active.mode, active.chance, compiled.value)];
      }
      assert actives[..|actives|] == actives;
      LoadIsExact(compile, db, instance);
    }

    /** A hit answers from the cache; a miss loads and keeps what it loaded, even nothing; a failed load keeps
        nothing. */
    method Candidates(instance: InstanceId, queryFails: bool) returns (r: Option<seq<Candidate>>)
      modifies this`cache
      ensures r.None? <==> instance !in old(cache) && queryFails
      ensures r.Some? ==> cache == old(cache)[instance := r.value]
      ensures r.None? ==> cache == old(cache)
      ensures instance in old(cache) ==> cache == old(cache)
      ensures old(Fresh()) ==> Fresh() && (r.Some? ==> r.value == Load(compile, db, instance))
    {
      if instance in cache {
        return Some(cache[instance]);
      }
      if queryFails {
        return None;
      }
      var loaded := LoadCandidates(instance);
      cache := cache[instance := loaded];
      return Some(loaded);
    }

    method Invalidate(instance: InstanceId)
      modifies this`cache
      ensures cache == old(cache) - {instance}
    {
      cache := cache - {instance};
    }

    method InvalidateEach(instances: seq<InstanceId>)
      modifies this`cache
      ensures cache == old(cache) - Those(instances)
    {
      for k := 0 to |instances|
        invariant cache == old(cache) - Those(instances[..k])
      {
        assert Those(instances[..k + 1]) == Those(instances[..k]) + {instances[k]};
        Invalidate(instances[k]);
      }
      assert instances[..|instances|] == instances;
    }

    /** One transaction: the trigger, and its scope with repeated instances taken once. */
    method CreateTrigger(id: TriggerId, phrase: string, reply: string, chance: int, mode: int, owner: string,
                         instances: seq<InstanceId>, writeFails: bool) returns (ok: bool)
      requires id !in db
      modifies this
      ensures ok <==> instances != [] && !writeFails
      ensures ok ==> db == old(db)[id := Trigger(phrase, reply, chance, mode, owner, Those(instances), false)]
      ensures ok ==> cache == old(cache) - Those(instances)
      ensures !ok ==> db == old(db) && cache == old(cache)
      ensures old(Fresh()) ==> Fresh()
    {
      if instances == [] || writeFails {
        return false;
      }
      var scope: set<InstanceId> := {};
      for k := 0 to |instances|
        invariant scope == Those(instances[..k])
      {
        assert Those(instances[..k + 1]) == Those(instances[..k]) + {instances[k]};
        scope := scope + {instances[k]};
      }
      assert instances[..|instances|] == instances;
      WriteKeepsFresh(id, Trigger(phrase, reply, chance, mode, owner, scope, false));
      db := db[id := Trigger(phrase, reply, chance, mode, owner, scope, false)];
      InvalidateEach(instances);
      return true;
    }

    /** The scope is read before the write, and every instance of it is invalidated after. */
    method UpdateTrigger(id: TriggerId, user: string, patch: Patch, writeFails: bool) returns (ok: bool)
      modifies this
      ensures ok <==> id in old(db) && old(db)[id].owner == user && !old(db)[id].deleted && !writeFails
      ensures ok ==>
        var t := old(db)[id];
        && db == old(db)[id := Trigger(if patch.phrase.Some? then patch.phrase.value else t.phrase,
                                       if patch.reply.Some? then patch.reply.value else t.reply,
                                       if patch.chance.Some? then patch.chance.value else t.chance,
                                       if patch.mode.Some? then patch.mode.value else t.mode,
                                       t.owner, t.scope, t.deleted)]
        && cache == old(cache) - t.scope
      ensures !ok ==> db == old(db) && cache == old(cache)
      ensures old(Fresh()) ==> Fresh()
    {
      if !Writable(db, id, user) {
        return false;
      }
      var scoped := ListTriggerInstanceIDs(id);
      if writeFails {
        return false;
      }
      WriteKeepsFresh(id, Patched(db[id], patch));
      db := db[id := Patched(db[id], patch)];
      InvalidateEach(scoped);
      return true;
    }

    method DeleteTrigger(id: TriggerId, user: string, writeFails: bool) returns (ok: bool)
      modifies this
      ensures ok <==> id in old(db) && old(db)[id].owner == user && !old(db)[id].deleted && !writeFails
      ensures ok ==> db == old(db)[id := old(db)[id].(deleted := true)] && cache == old(cache) - old(db)[id].scope
      ensures !ok ==> db == old(db) && cache == old(cache)
      ensures old(Fresh()) ==> Fresh()
    {
      var scoped := ListTriggerInstanceIDs(id);
      if writeFails || !Writable(db, id, user) {
        return false;
      }
      WriteKeepsFresh(id, db[id].(deleted := true));
      db := db[id := db[id].(deleted := true)];
      InvalidateEach(scoped);
      return true;
    }

    method ListTriggerInstanceIDs(id: TriggerId) returns (instances: seq<InstanceId>)
      ensures Those(instances) == if id in db then db[id].scope else {}
    {
      instances := [];
      var left := if id in db then db[id].scope else {};
      ghost var all := left;
      while left != {}
        invariant left <= all && Those(instances) == all - left
        decreases left
      {
        ghost var some := Pick(left);
        var i :| i in left;
        assert Those(instances + [i]) == Those(instances) + {i};
        instances := instances + [i];
        left := left - {i};
      }
    }

    /** A write that keeps a trigger's scope, or makes a new one, stales nothing outside that scope. */
    lemma WriteKeepsFresh(id: TriggerId, t: Trigger)
      requires id in db ==> db[id].scope == t.scope
      ensures forall i | i in cache && i !in t.scope :: Load(compile, db[id := t], i) == Load(compile, db, i)
    {
      forall i | i in cache && i !in t.scope
        ensures Load(compile, db[id := t], i) == Load(compile, db, i)
      {
        LoadFrame(compile, db, id, t, i);
      }
    }
  }
}
