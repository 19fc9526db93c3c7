/** One forced fire per author per minute. */
module ForcedLimiter {
  import opened Wrappers
  import opened GoTime

  const FORCED_INTERVAL: int := 60 * NANOS_PER_SECOND

  datatype Call = Allow(author: string, now: int) | Prune(now: int)

  type Last = map<string, int>

  predicate Permits(last: Last, author: string, now: int) {
    author != "" && (author in last ==> Sub(now, last[author]) >= FORCED_INTERVAL)
  }

  function Step(last: Last, c: Call): Last {
    match c
    case Allow(author, now) => if Permits(last, author, now) then last[author := now] else last
    case Prune(now) => map a | a in last && last[a] >= now - FORCED_INTERVAL :: last[a]
  }

  function After(calls: seq<Call>): Last {
    if calls == [] then map[] else Step(After(calls[..|calls| - 1]), calls[|calls| - 1])
  }

  predicate Monotone(calls: seq<Call>) {
    forall i, j | 0 <= i <= j < |calls| :: calls[i].now <= calls[j].now
  }

  // ------------------------------------------------------------------ the full history

  /** Whether the k-th call was a permitted one. */
  predicate Permitted(calls: seq<Call>, k: nat) {
    k < |calls| && calls[k].Allow? && Permits(After(calls[..k]), calls[k].author, calls[k].now)
  }

  /** Nothing permitted to the author lies less than the interval before now. */
  predicate QuietFor(calls: seq<Call>, author: string, now: int) {
    forall j: nat | j < |calls| && Permitted(calls, j) && calls[j].author == author :: calls[j].now + FORCED_INTERVAL <= now
  }

  predicate PermittedTo(calls: seq<Call>, j: nat, author: string) {
    Permitted(calls, j) && calls[j].author == author
  }

  predicate LastPermitted(calls: seq<Call>, j: nat, author: string) {
    PermittedTo(calls, j, author) && forall k: nat | j < k < |calls| :: !PermittedTo(calls, k, author)
  }

  /** A prune since the j-th call found it older than the interval. */
  predicate Swept(calls: seq<Call>, j: nat) {
    j < |calls| && exists p | j < p < |calls| :: calls[p].Prune? && calls[j].now + FORCED_INTERVAL < calls[p].now
  }

  predicate Kept(calls: seq<Call>, j: nat, author: string) {
    LastPermitted(calls, j, author) && !Swept(calls, j)
  }

  ghost predicate Reflects(last: Last, calls: seq<Call>, author: string) {
    && (author in last ==> exists j: nat :: Kept(calls, j, author))
    && forall j: nat | Kept(calls, j, author) :: author in last && last[author] == calls[j].now
  }

  lemma PermittedBefore(calls: seq<Call>, more: seq<Call>, j: nat)
    requires j < |calls|
    ensures Permitted(calls + more, j) == Permitted(calls, j)
  {
    assert (calls + more)[..j] == calls[..j] && (calls + more)[j] == calls[j];
  }

  /** One more call keeps what was kept unless it is permitted to the author or sweeps it. */
  lemma KeptBefore(before: seq<Call>, c: Call, j: nat, author: string)
    requires j < |before|
    ensures Kept(before + [c], j, author) <==>
      && Kept(before, j, author) && !PermittedTo(before + [c], |before|, author)
      && !(c.Prune? && before[j].now + FORCED_INTERVAL < c.now)
  {
    var calls := before + [c];
    forall k: nat | k < |before|
      ensures calls[k] == before[k] && PermittedTo(calls, k, author) == PermittedTo(before, k, author)
    {
      PermittedBefore(before, [c], k);
    }
    assert calls[|before|] == c;
  }

  lemma KeptLast(before: seq<Call>, c: Call, author: string)
    ensures Kept(before + [c], |before|, author) <==> PermittedTo(before + [c], |before|, author)
    ensures PermittedTo(before + [c], |before|, author) <==> c.Allow? && c.author == author && Permits(After(before), author, c.now)
  {
    assert (before + [c])[..|before|] == before;
  }

  lemma KeptWithin(calls: seq<Call>, author: string)
    ensures forall j: nat | Kept(calls, j, author) :: j < |calls|
  {
  }

  lemma StepReflects(before: seq<Call>, c: Call, author: string)
    requires Reflects(After(before), before, author)
    ensures Reflects(Step(After(before), c), before + [c], author)
  {
    hide Kept, After;
    var n := |before|;
    KeptWithin(before, author);
    KeptWithin(before + [c], author);
    KeptLast(before, c, author);
    forall j: nat | j < n
      ensures Kept(before + [c], j, author) <==>
        && Kept(before, j, author) && !PermittedTo(before + [c], n, author)
        && !(c.Prune? && before[j].now + FORCED_INTERVAL < c.now)
      ensures (before + [c])[j] == before[j]
    {
      KeptBefore(before, c, j, author);
    }
    assert (before + [c])[n] == c;
  }

  lemma {:induction false} EveryRunReflects(calls: seq<Call>, author: string)
    ensures Reflects(After(calls), calls, author)
  {
    if calls != [] {
      hide Reflects, Step;
      var n := |calls| - 1;
      EveryRunReflects(calls[..n], author);
      StepReflects(calls[..n], calls[n], author);
      assert calls[..n] + [calls[n]] == calls;
    }
  }

  /** Whatever the clocks of the calls said, an author is permitted exactly when their last permitted call is the
      interval back, or a prune since then read a clock that made it so. Refusals leave no mark, so they cannot extend
      the wait. */
  lemma PermitsExactly(calls: seq<Call>, author: string, now: int)
    ensures Permits(After(calls), author, now) <==>
      author != "" && forall j: nat | LastPermitted(calls, j, author) && !Swept(calls, j) :: calls[j].now + FORCED_INTERVAL <= now
  {
    EveryRunReflects(calls, author);
    if author in After(calls) {
      var j: nat :| Kept(calls, j, author);
    }
    assert forall j: nat :: Kept(calls, j, author) <==> LastPermitted(calls, j, author) && !Swept(calls, j);
  }

  lemma {:induction false} LastExists(calls: seq<Call>, j: nat, author: string) returns (k: nat)
    requires PermittedTo(calls, j, author)
    ensures j <= k && LastPermitted(calls, k, author)
    decreases |calls| - j
  {
    hide PermittedTo;
    PermittedWithin(calls, j, author);
    k := j;
    if more: nat :| j < more < |calls| && PermittedTo(calls, more, author) {
      k := LastExists(calls, more, author);
    }
  }

  lemma PermittedWithin(calls: seq<Call>, j: nat, author: string)
    requires PermittedTo(calls, j, author)
    ensures j < |calls|
  {
  }

  /** With a clock that never runs backwards, pruning is unobservable: an author is permitted exactly when nothing
      permitted to them lies less than the interval back. */
  lemma PermitsFromHistory(calls: seq<Call>, author: string, now: int)
    requires Monotone(calls) && forall i | 0 <= i < |calls| :: calls[i].now <= now
    ensures Permits(After(calls), author, now) <==> author != "" && QuietFor(calls, author, now)
  {
    PermitsExactly(calls, author, now);
    forall j: nat | j < |calls| && Permitted(calls, j) && calls[j].author == author
      ensures exists k: nat :: j <= k && LastPermitted(calls, k, author)
    {
      var k := LastExists(calls, j, author);
    }
  }

  function WithoutPrunes(calls: seq<Call>): seq<Call> {
    if calls == [] then []
    else WithoutPrunes(calls[..|calls| - 1]) + if calls[|calls| - 1].Prune? then [] else [calls[|calls| - 1]]
  }

  /** The same but for authors whose last permitted call is older than the interval. */
  predicate AgreesBut(last: Last, full: Last, now: int) {
    && (forall a | a in last :: a in full && full[a] == last[a])
    && forall a | a in full && a !in last :: full[a] + FORCED_INTERVAL < now
  }

  lemma StepAgrees(last: Last, full: Last, c: Call, before: int)
    requires AgreesBut(last, full, before) && before <= c.now
    ensures AgreesBut(Step(last, c), if c.Prune? then full else Step(full, c), c.now)
    ensures c.Allow? ==> Permits(last, c.author, c.now) == Permits(full, c.author, c.now)
  {
  }

  lemma {:induction false} PrunedRunAgrees(calls: seq<Call>, now: int)
    requires Monotone(calls) && forall i | 0 <= i < |calls| :: calls[i].now <= now
    ensures AgreesBut(After(calls), After(WithoutPrunes(calls)), now)
  {
    if calls != [] {
      var n := |calls| - 1;
      var c, kept := calls[n], WithoutPrunes(calls[..n]);
      PrunedRunAgrees(calls[..n], c.now);
      StepAgrees(After(calls[..n]), After(kept), c, c.now);
      assert (kept + [c])[..|kept|] == kept;
      assert kept + [] == kept;
    }
  }

  /** A limiter that is pruned whenever anyone likes answers exactly as one that never is. */
  lemma PruningIsUnobservable(calls: seq<Call>, author: string, now: int)
    requires Monotone(calls) && forall i | 0 <= i < |calls| :: calls[i].now <= now
    ensures Permits(After(calls), author, now) == Permits(After(WithoutPrunes(calls)), author, now)
  {
    PrunedRunAgrees(calls, now);
  }

  // ------------------------------------------------------------------ when pruning shows

  /** The map of a limiter never pruned: each author's last permitted call. */
  ghost predicate IsFull(full: Last, calls: seq<Call>, author: string) {
    && (author in full ==> exists j: nat :: LastPermitted(calls, j, author))
    && forall j: nat | LastPermitted(calls, j, author) :: author in full && full[author] == calls[j].now
  }

  /** Every call so far was answered as without pruning. */
  predicate AnswersAgree(calls: seq<Call>) {
    calls == [] ||
    (&& AnswersAgree(calls[..|calls| - 1])
     && Agrees(calls[..|calls| - 1], calls[|calls| - 1]))
  }

  /** A call is answered after these as it would be had there been no prunes. */
  predicate Agrees(calls: seq<Call>, c: Call) {
    c.Allow? ==> Permits(After(calls), c.author, c.now) == Permits(After(WithoutPrunes(calls)), c.author, c.now)
  }

  lemma LastPermittedBefore(before: seq<Call>, c: Call, j: nat, author: string)
    requires j < |before|
    ensures LastPermitted(before + [c], j, author) <==> LastPermitted(before, j, author) && !PermittedTo(before + [c], |before|, author)
  {
    var calls := before + [c];
    forall k: nat | k < |before|
      ensures PermittedTo(calls, k, author) == PermittedTo(before, k, author)
    {
      PermittedBefore(before, [c], k);
      assert calls[k] == before[k];
    }
  }

  lemma LastPermittedLast(before: seq<Call>, c: Call, author: string)
    ensures LastPermitted(before + [c], |before|, author) <==> PermittedTo(before + [c], |before|, author)
    ensures forall j: nat | LastPermitted(before + [c], j, author) :: j <= |before|
    ensures forall j: nat | LastPermitted(before, j, author) :: j < |before|
  {
  }

  lemma AfterMore(calls: seq<Call>, c: Call)
    ensures After(calls + [c]) == Step(After(calls), c)
  {
    hide Step;
    assert (calls + [c])[..|calls|] == calls;
  }

  lemma OneMoreKept(before: seq<Call>, c: Call)
    ensures WithoutPrunes(before + [c]) == if c.Prune? then WithoutPrunes(before) else WithoutPrunes(before) + [c]
  {
    var calls := before + [c];
    assert calls[..|calls| - 1] == before && calls[|calls| - 1] == c;
  }

  lemma WithoutPrunesMore(before: seq<Call>, c: Call)
    ensures After(WithoutPrunes(before + [c])) ==
      if c.Prune? then After(WithoutPrunes(before)) else Step(After(WithoutPrunes(before)), c)
  {
    hide Step, After, WithoutPrunes;
    OneMoreKept(before, c);
    AfterMore(WithoutPrunes(before), c);
  }

  /** What a call leaves for an author in the map never pruned. */
  lemma FullMap(before: seq<Call>, c: Call, author: string)
    requires Agrees(before, c)
    ensures var full, full' := After(WithoutPrunes(before)), After(WithoutPrunes(before + [c]));
      if PermittedTo(before + [c], |before|, author) then author in full' && full'[author] == c.now
      else (author in full' <==> author in full) && (author in full ==> full'[author] == full[author])
  {
    hide LastPermitted, After, WithoutPrunes, PermittedTo;
    KeptLast(before, c, author);
    WithoutPrunesMore(before, c);
  }

  lemma FullStep(before: seq<Call>, c: Call, author: string)
    requires IsFull(After(WithoutPrunes(before)), before, author) && Agrees(before, c)
    ensures IsFull(After(WithoutPrunes(before + [c])), before + [c], author)
  {
    hide LastPermitted, After, WithoutPrunes, PermittedTo, Agrees, Step;
    FullMap(before, c, author);
    KeptLast(before, c, author);
    LastPermittedLast(before, c, author);
    forall j: nat | j < |before|
      ensures LastPermitted(before + [c], j, author) <==> LastPermitted(before, j, author) && !PermittedTo(before + [c], |before|, author)
      ensures (before + [c])[j] == before[j]
    {
      LastPermittedBefore(before, c, j, author);
    }
    assert (before + [c])[|before|] == c;
  }

  lemma {:induction false} FullInEveryRun(calls: seq<Call>, author: string)
    requires AnswersAgree(calls)
    ensures IsFull(After(WithoutPrunes(calls)), calls, author)
  {
    if calls != [] {
      hide IsFull, Agrees;
      var n := |calls| - 1;
      FullInEveryRun(calls[..n], author);
      FullStep(calls[..n], calls[n], author);
      assert calls[..n] + [calls[n]] == calls;
    }
  }

  /** Every last permitted call of the author that was pruned away is an interval back by now. */
  ghost predicate PrunedInTime(calls: seq<Call>, author: string, now: int) {
    forall j: nat | LastPermitted(calls, j, author) && Swept(calls, j) :: calls[j].now + FORCED_INTERVAL <= now
  }

  /** For clocks in any order: where the answers were the same so far, the next one is exactly when the author's last
      permitted call was not pruned away, or is an interval back now. */
  lemma NextAgreesExactly(calls: seq<Call>, author: string, now: int)
    requires AnswersAgree(calls) && author != ""
    ensures Permits(After(calls), author, now) == Permits(After(WithoutPrunes(calls)), author, now)
      <==> PrunedInTime(calls, author, now)
  {
    PermitsExactly(calls, author, now);
    FullInEveryRun(calls, author);
    OneLastPermitted(calls, author);
    hide LastPermitted, Swept, After, WithoutPrunes;
  }

  lemma OneLastPermitted(calls: seq<Call>, author: string)
    ensures forall i: nat, j: nat | LastPermitted(calls, i, author) && LastPermitted(calls, j, author) :: i == j
  {
  }

  /** Every attempt of a run came in time for what had been pruned. */
  ghost predicate AllPrunedInTime(calls: seq<Call>) {
    calls == [] ||
    var before, c := calls[..|calls| - 1], calls[|calls| - 1];
    AllPrunedInTime(before) && (c.Allow? && c.author != "" ==> PrunedInTime(before, c.author, c.now))
  }

  /** A run is answered throughout as without pruning exactly when that holds at each attempt. */
  lemma {:induction false} RunAgreesExactly(calls: seq<Call>)
    ensures AnswersAgree(calls) <==> AllPrunedInTime(calls)
  {
    if calls != [] {
      hide PrunedInTime;
      var before, c := calls[..|calls| - 1], calls[|calls| - 1];
      RunAgreesExactly(before);
      if AnswersAgree(before) && c.Allow? && c.author != "" {
        NextAgreesExactly(before, c.author, c.now);
      }
    }
  }

  /** Two permitted calls of one author are at least the interval apart. */
  lemma PermittedAreFarApart(calls: seq<Call>, j: nat, k: nat)
    requires Monotone(calls) && j < k && Permitted(calls, j) && Permitted(calls, k)
    requires calls[j].author == calls[k].author
    ensures calls[j].now + FORCED_INTERVAL <= calls[k].now
  {
    var before := calls[..k];
    PermitsFromHistory(before, calls[k].author, calls[k].now);
    PermittedBefore(before, calls[k..], j);
    assert before + calls[k..] == calls;
  }

  /** A clock that runs backwards lets a prune open the gate early: permitted, pruned by a call that read a later
      clock, and permitted again a moment after the first. */
  lemma ABackwardClockIsObservable(author: string)
    requires author != ""
    ensures var calls := [Allow(author, 0), Prune(FORCED_INTERVAL + 1)];
      Permits(After(calls), author, 1) && !Permits(After(WithoutPrunes(calls)), author, 1)
  {
    var a, b := Allow(author, 0), Prune(FORCED_INTERVAL + 1);
    assert [a, b][..1] == [a] && [a][..0] == [];
    assert After([a]) == map[author := 0];
    assert After([a, b]) == map[];
    assert WithoutPrunes([a]) == [a] && WithoutPrunes([a, b]) == [a];
  }

  // ------------------------------------------------------------------ the limiter

  class ForcedLimiter {
    var last: Last

    constructor ()
      ensures last == After([])
    {
      last := map[];
    }

    method Allow(author: string, now: int) returns (permitted: bool)
      modifies this
      ensures permitted == Permits(old(last), author, now)
      ensures permitted <==> author != "" && (author in old(last) ==> now - old(last)[author] >= 60_000_000_000)
      ensures last == if permitted then old(last)[author := now] else old(last)
      ensures last == Step(old(last), Call.Allow(author, now))
    {
      if author == "" {
        return false;
      }
      if author in last && Sub(now, last[author]) < FORCED_INTERVAL {
        return false;
      }
      last := last[author := now];
      return true;
    }

    method Prune(now: int)
      modifies this
      ensures last == Step(old(last), Call.Prune(now))
      ensures last == map a | a in old(last) && now - old(last)[a] <= 60_000_000_000 :: old(last)[a]
    {
      var cutoff := now - FORCED_INTERVAL;
      var left := last.Keys;
      while left != {}
        invariant left <= old(last).Keys
        invariant last == map a | a in old(last) && (a in left || old(last)[a] >= cutoff) :: old(last)[a]
        decreases left
      {
        ghost var some := Pick(left);
        var author :| author in left;
        left := left - {author};
        if last[author] < cutoff {
          last := last - {author};
        }
      }
    }
  }
}
