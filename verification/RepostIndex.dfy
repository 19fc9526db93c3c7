/** The repost store: entries with their fingerprints, the chunk-filtered lookup and its use on
    an attachment. Each SQL statement is one atomic step on the tables. */
module RepostIndex {
  import opened Wrappers
  import opened PerceptualHash

  const PHASH64: int := 1

  datatype Kind = Link | Image | Video | File

  datatype Entry = Entry(instance: int, user: Option<string>, kind: Kind, sourceKey: Option<string>,
                         contentHash: Option<string>, postedAt: int)

  type Int64 = x: int | -0x8000_0000_0000_0000 <= x < 0x8000_0000_0000_0000

  /** A stored hash is the signed 64-bit reading of the unsigned one. */
  datatype Fingerprint = Fingerprint(entry: int, instance: int, algo: int, phash: Int64, chunks: seq<nat>)

  function AsInt64(h: Hash): Int64 {
    if h < 0x8000_0000_0000_0000 then h else h - 0x1_0000_0000_0000_0000
  }

  function AsUint64(p: Int64): Hash {
    p % 0x1_0000_0000_0000_0000
  }

  lemma SignRoundTrip(h: Hash)
    ensures AsUint64(AsInt64(h)) == h
    ensures AsInt64(h) == if h < 0x8000_0000_0000_0000 then h else h - 0x1_0000_0000_0000_0000
  {
  }

  predicate ChunksOf(chunks: seq<nat>, hash: Hash) {
    |chunks| == CHUNK_COUNT && forall i: nat | i < CHUNK_COUNT :: chunks[i] == ChunkAt(hash, i)
  }

  predicate SomeChunkEqual(a: seq<nat>, b: seq<nat>)
    requires |a| == |b| == CHUNK_COUNT
  {
    exists i: nat | i < CHUNK_COUNT :: a[i] == b[i]
  }

  /** An empty exclusion excludes nobody, and an entry without an author is never excluded. */
  predicate Visible(e: Entry, excludeUser: string) {
    excludeUser == "" || e.user != Some(excludeUser)
  }

  datatype Match = Match(entry: int, distance: nat)

  datatype CreateParams = CreateParams(instance: int, user: string, kind: Kind, sourceKey: string,
                                       contentHash: Option<string>, postedAt: int, phash: Option<Int64>)

  /** Closer first, older first among equals. */
  predicate NoFarther(d: nat, postedAt: int, d': nat, postedAt': int) {
    d < d' || (d == d' && postedAt <= postedAt')
  }

  class RepostIndex {
    var entries: map<int, Entry>
    var fingerprints: set<Fingerprint>
    var nextId: int
    /** What each stored image or video hashed to. */
    ghost var hashes: map<int, Hash>

    ghost predicate Valid()
      reads this
    {
      && (forall id | id in entries :: id < nextId)
      && hashes.Keys <= entries.Keys
      && (forall f | f in fingerprints ::
            && f.entry in hashes
            && f.instance == entries[f.entry].instance
            && f.algo == PHASH64
            && AsUint64(f.phash) == hashes[f.entry]
            && ChunksOf(f.chunks, hashes[f.entry]))
      && (forall id | id in hashes :: exists f :: f in fingerprints && f.entry == id)
    }

    /** The exhaustive scan: every entry of the instance, by its hash alone. */
    ghost function Within(instance: int, query: Hash, maxDistance: int, excludeUser: string): set<int>
      requires hashes.Keys <= entries.Keys
      reads this
    {
      set id | id in hashes && entries[id].instance == instance && Visible(entries[id], excludeUser)
               && Distance(hashes[id], query) <= maxDistance
    }

    /** r is a first row of ids by distance and then age, or nothing when there is none. */
    ghost predicate Nearest(ids: set<int>, query: Hash, r: Option<Match>)
      requires ids <= hashes.Keys <= entries.Keys
      reads this
    {
      match r
      case None => ids == {}
      case Some(m) =>
        && m.entry in ids
        && m.distance == Distance(hashes[m.entry], query)
        && forall id | id in ids ::
             NoFarther(m.distance, entries[m.entry].postedAt, Distance(hashes[id], query), entries[id].postedAt)
    }

    constructor ()
      ensures Valid() && entries == map[] && hashes == map[]
    {
      entries, fingerprints, nextId, hashes := map[], {}, 0, map[];
    }

    /** An entry and its fingerprint go in together; an entry with no identity is refused. */
    method CreateRepostEntry(params: CreateParams) returns (id: Option<int>)
      requires Valid()
      modifies this
      ensures Valid()
      ensures id.Some? <==> params.sourceKey != "" || params.contentHash.Some?
      ensures id.None? ==> entries == old(entries) && hashes == old(hashes)
      ensures id.Some? ==>
        && id.value !in old(entries)
        && entries == old(entries)[id.value := Entry(params.instance, if params.user == "" then None else Some(params.user),
                                                     params.kind, if params.sourceKey == "" then None else Some(params.sourceKey),
                                                     params.contentHash, params.postedAt)]
        && hashes == if params.phash.None? then old(hashes) else old(hashes)[id.value := AsUint64(params.phash.value)]
    {
      if params.sourceKey == "" && params.contentHash.None? {
        return None;
      }
      var new_ := nextId;
      entries := entries[new_ := Entry(params.instance, NullStr(params.user), params.kind,
                                       NullStr(params.sourceKey), params.contentHash, params.postedAt)];
      nextId := nextId + 1;
      if params.phash.Some? {
        var hash := AsUint64(params.phash.value);
        var chunks := Chunks(hash);
        var f := Fingerprint(new_, params.instance, PHASH64, params.phash.value, chunks);
        fingerprints := fingerprints + {f};
        hashes := hashes[new_ := hash];
        assert f in fingerprints && f.entry == new_;
      }
      return Some(new_);
    }

    /** DELETE of the oldest rows of an instance before a cut-off, at most limit of them; the
        fingerprints follow. Which of several equally old rows go is up to the database. */
    method DeleteRepostEntriesBefore(instance: int, before: int, limit: nat)
      returns (deleted: nat, ghost gone: set<int>)
      requires Valid()
      modifies this
      ensures Valid()
      ensures OldestOf(old(entries), Expired(old(entries), instance, before), limit, gone)
      ensures forall g | g in gone :: g in old(entries) && old(entries)[g].instance == instance && old(entries)[g].postedAt < before
      ensures deleted <= limit
      ensures forall k | k in entries && entries[k].instance == instance && entries[k].postedAt < before ::
        deleted == limit && forall g | g in gone :: old(entries)[g].postedAt <= entries[k].postedAt
      ensures entries == old(entries) - gone && hashes == old(hashes) - gone && deleted == |gone|
    {
      hide AsUint64, ChunksOf, OldestOf, Expired;
      var expired := Expired(entries, instance, before);
      ExpiredAreStored(entries, instance, before);
      OldestExist(entries, expired, limit);
      var rows :| rows <= expired && OldestOf(entries, expired, limit, rows);
      OldestMeans(entries, instance, before, limit, rows);
      Cascade(fingerprints, rows, hashes.Keys);
      fingerprints := set f | f in fingerprints && f.entry !in rows;
      entries := entries - rows;
      hashes := hashes - rows;
      return |rows|, rows;
    }

    /** The oldest entry with the same bytes. */
    method MatchRepostByContentHash(instance: int, contentHash: string, excludeUser: string) returns (r: Option<int>)
      ensures
        var same := SameContent(entries, instance, contentHash, excludeUser);
        match r
        case None => same == {}
        case Some(id) => id in same && forall k | k in same :: entries[id].postedAt <= entries[k].postedAt
      ensures r.Some? ==> r.value in entries && Shows(entries[r.value], instance, contentHash, excludeUser)
      ensures forall k | k in entries && Shows(entries[k], instance, contentHash, excludeUser) ::
        r.Some? && entries[r.value].postedAt <= entries[k].postedAt
    {
      var same := SameContent(entries, instance, contentHash, excludeUser);
      assert forall k :: k in same <==> k in entries && Shows(entries[k], instance, contentHash, excludeUser);
      if same == {} {
        return None;
      }
      ghost var first := Oldest(entries, same);
      var id :| id in same && forall k | k in same :: entries[id].postedAt <= entries[k].postedAt;
      return Some(id);
    }

    /** The chunk-filtered lookup. Up to distance 7 it is the exhaustive scan: not found exactly
        when that finds nothing, and otherwise one of its first rows. */
    method MatchRepostByPerceptualHash(instance: int, phash: Int64, chunks: seq<nat>, maxDistance: int, excludeUser: string)
      returns (r: Option<Match>)
      requires Valid() && ChunksOf(chunks, AsUint64(phash))
      ensures
        var query := AsUint64(phash);
        var filtered := set id | id in Within(instance, query, maxDistance, excludeUser) && SharesAChunk(hashes[id], query);
        Nearest(filtered, query, r)
      ensures maxDistance <= MAX_DISTANCE ==>
        Nearest(Within(instance, AsUint64(phash), maxDistance, excludeUser), AsUint64(phash), r)
      ensures r.Some? ==>
        && r.value.entry in hashes && entries[r.value.entry].instance == instance
        && (excludeUser == "" || entries[r.value.entry].user != Some(excludeUser))
        && r.value.distance == Distance(hashes[r.value.entry], AsUint64(phash)) <= maxDistance
      ensures maxDistance <= 7 ==>
        forall id | id in hashes && entries[id].instance == instance && (excludeUser == "" || entries[id].user != Some(excludeUser))
                    && Distance(hashes[id], AsUint64(phash)) <= maxDistance ::
          && r.Some? && r.value.distance <= Distance(hashes[id], AsUint64(phash))
          && (r.value.distance == Distance(hashes[id], AsUint64(phash)) ==> entries[r.value.entry].postedAt <= entries[id].postedAt)
    {
      var rows := Selected(instance, phash, chunks, maxDistance, excludeUser);
      ghost var query := AsUint64(phash);
      ghost var filtered := Filtered(instance, query, maxDistance, excludeUser);
      SelectedAreFiltered(instance, phash, chunks, maxDistance, excludeUser);
      hide Selected, Filtered, Within, Nearest, FirstRow, Distance, AsUint64, Valid;
      if rows == {} {
        r := None;
        NoRowIsNearest(instance, phash, rows, filtered);
      } else {
        FirstRowExists(entries, rows, phash);
        var f :| f in rows && FirstRow(entries, rows, phash, f);
        r := Some(Match(f.entry, RowDistance(f, phash)));
        FirstIsNearest(instance, phash, rows, filtered, f);
      }
      FilteredMeans(instance, query, maxDistance, excludeUser, filtered, r);
      FilteredIs(instance, query, maxDistance, excludeUser);
      if maxDistance <= MAX_DISTANCE {
        FilteredIsAll(instance, query, maxDistance, excludeUser);
        NearestMeans(instance, query, maxDistance, excludeUser, r);
      }
    }

    /** The rows the query selects. */
    function Selected(instance: int, phash: Int64, chunks: seq<nat>, maxDistance: int, excludeUser: string): set<Fingerprint>
      requires |chunks| == CHUNK_COUNT && forall f | f in fingerprints :: |f.chunks| == CHUNK_COUNT && f.entry in entries
      reads this
    {
      set f | f in fingerprints
        && f.instance == instance && f.algo == PHASH64 && SomeChunkEqual(f.chunks, chunks)
        && entries[f.entry].instance == instance
        && RowDistance(f, phash) <= maxDistance
        && Visible(entries[f.entry], excludeUser)
    }

    ghost function Filtered(instance: int, query: Hash, maxDistance: int, excludeUser: string): set<int>
      requires hashes.Keys <= entries.Keys
      reads this
    {
      set id | id in Within(instance, query, maxDistance, excludeUser) && SharesAChunk(hashes[id], query)
    }

    lemma FilteredIs(instance: int, query: Hash, maxDistance: int, excludeUser: string)
      requires hashes.Keys <= entries.Keys
      ensures Filtered(instance, query, maxDistance, excludeUser)
        == set id | id in Within(instance, query, maxDistance, excludeUser) && SharesAChunk(hashes[id], query)
      ensures Filtered(instance, query, maxDistance, excludeUser) <= Within(instance, query, maxDistance, excludeUser)
    {
    }

    /** A row is selected exactly when its entry passes the filter, and every such entry has one. */
    lemma SelectedAreFiltered(instance: int, phash: Int64, chunks: seq<nat>, maxDistance: int, excludeUser: string)
      requires Valid() && ChunksOf(chunks, AsUint64(phash))
      ensures
        var rows := Selected(instance, phash, chunks, maxDistance, excludeUser);
        var filtered := Filtered(instance, AsUint64(phash), maxDistance, excludeUser);
        && filtered <= hashes.Keys <= entries.Keys
        && filtered <= Within(instance, AsUint64(phash), maxDistance, excludeUser)
        && (forall f | f in rows :: f.entry in filtered && RowDistance(f, phash) == Distance(hashes[f.entry], AsUint64(phash)))
        && (forall id | id in filtered :: exists f :: f in rows && f.entry == id)
    {
      hide Distance, AsUint64;
      var rows := Selected(instance, phash, chunks, maxDistance, excludeUser);
      var filtered := Filtered(instance, AsUint64(phash), maxDistance, excludeUser);
      forall f | f in fingerprints
        ensures SomeChunkEqual(f.chunks, chunks) <==> SharesAChunk(hashes[f.entry], AsUint64(phash))
        ensures RowDistance(f, phash) == Distance(hashes[f.entry], AsUint64(phash))
      {
      }
      forall id | id in filtered
        ensures exists f :: f in rows && f.entry == id
      {
        var f :| f in fingerprints && f.entry == id;
        assert f in rows;
      }
    }

    /** Within distance 7 the filter leaves nothing out. */
    lemma FilteredIsAll(instance: int, query: Hash, maxDistance: int, excludeUser: string)
      requires hashes.Keys <= entries.Keys && maxDistance <= MAX_DISTANCE
      ensures Filtered(instance, query, maxDistance, excludeUser) == Within(instance, query, maxDistance, excludeUser)
    {
      hide Distance, SharesAChunk;
      forall id | id in Within(instance, query, maxDistance, excludeUser)
        ensures SharesAChunk(hashes[id], query)
      {
        WithinSevenSharesAChunk(hashes[id], query);
      }
    }

    lemma NoRowIsNearest(instance: int, phash: Int64, rows: set<Fingerprint>, filtered: set<int>)
      requires filtered <= hashes.Keys <= entries.Keys && rows == {}
      requires forall id | id in filtered :: exists f :: f in rows && f.entry == id
      ensures Nearest(filtered, AsUint64(phash), None)
    {
      forall id | id in filtered
        ensures false
      {
      }
      assert filtered == {};
    }

    lemma FirstIsNearest(instance: int, phash: Int64, rows: set<Fingerprint>, filtered: set<int>, f: Fingerprint)
      requires filtered <= hashes.Keys <= entries.Keys && f in rows
      requires forall g | g in rows :: g.entry in filtered && RowDistance(g, phash) == Distance(hashes[g.entry], AsUint64(phash))
      requires (forall id | id in filtered :: exists g :: g in rows && g.entry == id) && FirstRow(entries, rows, phash, f)
      ensures Nearest(filtered, AsUint64(phash), Some(Match(f.entry, RowDistance(f, phash))))
    {
      hide Distance, AsUint64;
      forall id | id in filtered
        ensures NoFarther(RowDistance(f, phash), entries[f.entry].postedAt, Distance(hashes[id], AsUint64(phash)), entries[id].postedAt)
      {
        var g :| g in rows && g.entry == id;
      }
    }

    lemma FilteredMeans(instance: int, query: Hash, maxDistance: int, excludeUser: string, ids: set<int>, r: Option<Match>)
      requires hashes.Keys <= entries.Keys && ids <= Within(instance, query, maxDistance, excludeUser)
      requires Nearest(ids, query, r)
      ensures r.Some? ==>
        && r.value.entry in hashes && entries[r.value.entry].instance == instance
        && (excludeUser == "" || entries[r.value.entry].user != Some(excludeUser))
        && r.value.distance == Distance(hashes[r.value.entry], query) <= maxDistance
    {
    }

    lemma NearestMeans(instance: int, query: Hash, maxDistance: int, excludeUser: string, r: Option<Match>)
      requires hashes.Keys <= entries.Keys
      requires Nearest(Within(instance, query, maxDistance, excludeUser), query, r)
      ensures forall id | id in hashes && entries[id].instance == instance
                          && (excludeUser == "" || entries[id].user != Some(excludeUser))
                          && Distance(hashes[id], query) <= maxDistance ::
        && r.Some? && r.value.distance <= Distance(hashes[id], query)
        && (r.value.distance == Distance(hashes[id], query) ==>
              r.value.entry in entries && entries[r.value.entry].postedAt <= entries[id].postedAt)
    {
      hide Distance;
      forall id | id in hashes && entries[id].instance == instance
                  && (excludeUser == "" || entries[id].user != Some(excludeUser))
                  && Distance(hashes[id], query) <= maxDistance
        ensures id in Within(instance, query, maxDistance, excludeUser)
      {
      }
    }
  }

  /** An entry of the instance with that content, and not by the excluded user. */
  predicate Shows(e: Entry, instance: int, contentHash: string, excludeUser: string) {
    e.instance == instance && e.contentHash == Some(contentHash) && (excludeUser == "" || e.user != Some(excludeUser))
  }

  // ------------------------------------------------------------------ ORDER BY ... LIMIT

  function RowDistance(f: Fingerprint, phash: Int64): nat {
    Distance(AsUint64(f.phash), AsUint64(phash))
  }

  predicate FirstRow(entries: map<int, Entry>, rows: set<Fingerprint>, phash: Int64, f: Fingerprint)
    requires f.entry in entries && forall g | g in rows :: g.entry in entries
  {
    forall g | g in rows ::
      NoFarther(RowDistance(f, phash), entries[f.entry].postedAt, RowDistance(g, phash), entries[g.entry].postedAt)
  }

  lemma {:induction false} FirstRowExists(entries: map<int, Entry>, rows: set<Fingerprint>, phash: Int64)
    requires rows != {} && forall g | g in rows :: g.entry in entries
    ensures exists f :: f in rows && FirstRow(entries, rows, phash, f)
  {
    var f :| f in rows;
    var rest := rows - {f};
    if rest == {} {
      assert rows == {f};
      assert FirstRow(entries, rows, phash, f);
    } else {
      FirstRowExists(entries, rest, phash);
      var g :| g in rest && FirstRow(entries, rest, phash, g);
      var best := if NoFarther(RowDistance(f, phash), entries[f.entry].postedAt, RowDistance(g, phash), entries[g.entry].postedAt)
                  then f else g;
      assert FirstRow(entries, rows, phash, best);
    }
  }

  function SameContent(entries: map<int, Entry>, instance: int, contentHash: string, excludeUser: string): set<int> {
    set id | id in entries && entries[id].instance == instance && entries[id].contentHash == Some(contentHash)
             && Visible(entries[id], excludeUser)
  }

  function Expired(entries: map<int, Entry>, instance: int, before: int): set<int> {
    set id | id in entries && entries[id].instance == instance && entries[id].postedAt < before
  }

  /** gone is what ORDER BY posted_at LIMIT limit may take out of ids. */
  predicate OldestOf(entries: map<int, Entry>, ids: set<int>, limit: nat, gone: set<int>)
    requires ids <= entries.Keys
  {
    && gone <= ids
    && |gone| == (if |ids| < limit then |ids| else limit)
    && forall g, k | g in gone && k in ids - gone :: entries[g].postedAt <= entries[k].postedAt
  }

  lemma ExpiredAreStored(entries: map<int, Entry>, instance: int, before: int)
    ensures Expired(entries, instance, before) <= entries.Keys
  {
  }

  lemma OldestMeans(entries: map<int, Entry>, instance: int, before: int, limit: nat, gone: set<int>)
    requires OldestOf(entries, Expired(entries, instance, before), limit, gone)
    ensures |gone| <= limit && forall g | g in gone :: g in entries && entries[g].instance == instance && entries[g].postedAt < before
    ensures forall k | k in entries && k !in gone && entries[k].instance == instance && entries[k].postedAt < before ::
      |gone| == limit && forall g | g in gone :: entries[g].postedAt <= entries[k].postedAt
  {
    var expired := Expired(entries, instance, before);
    forall k | k in expired && k !in gone
      ensures |gone| == limit && forall g | g in gone :: entries[g].postedAt <= entries[k].postedAt
    {
      assert k in expired - gone;
      assert |expired - gone| == |expired| - |gone|;
      assert expired - gone != {};
    }
  }

  lemma Cascade(fingerprints: set<Fingerprint>, gone: set<int>, ids: set<int>)
    requires forall id | id in ids :: exists f :: f in fingerprints && f.entry == id
    ensures
      var kept := set f | f in fingerprints && f.entry !in gone;
      forall id | id in ids - gone :: exists f :: f in kept && f.entry == id
  {
    forall id | id in ids - gone
      ensures exists f :: f in (set f | f in fingerprints && f.entry !in gone) && f.entry == id
    {
      var f :| f in fingerprints && f.entry == id;
      assert f in (set f | f in fingerprints && f.entry !in gone);
    }
  }

  lemma {:induction false} OldestExist(entries: map<int, Entry>, ids: set<int>, limit: nat)
    requires ids <= entries.Keys
    ensures exists gone :: gone <= ids && OldestOf(entries, ids, limit, gone)
  {
    if ids == {} || limit == 0 {
      assert OldestOf(entries, ids, limit, {});
    } else {
      OldestExist(entries, ids, limit - 1);
      var gone :| gone <= ids && OldestOf(entries, ids, limit - 1, gone);
      var kept := ids - gone;
      assert ids == gone + kept;
      if kept == {} {
        assert OldestOf(entries, ids, limit, gone);
      } else {
        var next := Oldest(entries, kept);
        assert OldestOf(entries, ids, limit, gone + {next});
      }
    }
  }

  lemma {:induction false} Oldest(entries: map<int, Entry>, ids: set<int>) returns (oldest: int)
    requires ids != {} && ids <= entries.Keys
    ensures oldest in ids && forall k | k in ids :: entries[oldest].postedAt <= entries[k].postedAt
  {
    oldest := Pick(ids);
    if ids != {oldest} {
      assert ids == {oldest} + (ids - {oldest});
      var other := Oldest(entries, ids - {oldest});
      if entries[other].postedAt < entries[oldest].postedAt {
        oldest := other;
      }
    }
  }

  // ------------------------------------------------------------------ an attachment

  /** A download with its SHA-256, sniffed kind and, unless the hasher refused, perceptual hash. */
  datatype Fetched = Unusable | Fetched(contentHash: string, kind: Kind, phash: Option<Hash>)

  datatype Identity = Identity(kind: Kind, contentHash: string, phash: Option<Int64>)

  datatype Verdict = Verdict(entry: int, confidence: Confidence, distance: nat)

  /** Same bytes first, then the perceptual lookup, which misses nothing within the last tier
      and never reports an ungraded match. A lookup that fails leaves what is known of the attachment by then. */
  method CheckAttachment(index: RepostIndex, tiers: Tiers, instance: int, excludeUser: string, fetched: Fetched,
                         exactFails: bool, perceptualFails: bool)
    returns (identity: Option<Identity>, verdict: Option<Verdict>)
    requires index.Valid() && Ordered(tiers)
    ensures identity.Some? <==> fetched.Fetched?
    ensures verdict.Some? ==> verdict.value.confidence != Unspecified
    ensures verdict.Some? ==>
      var d := verdict.value.distance;
      match verdict.value.confidence
      case Identical => d <= tiers.identical
      case High => tiers.identical < d <= tiers.high
      case Probable => tiers.high < d <= tiers.probable
      case Unspecified => false
    ensures verdict.Some? ==>
      var entry := verdict.value.entry;
      && entry in index.entries && index.entries[entry].instance == instance
      && (excludeUser == "" || index.entries[entry].user != Some(excludeUser))
      && (verdict.value.distance > 0 ==> entry in index.hashes)
    ensures fetched.Fetched? && !exactFails ==>
      forall k | k in index.entries && Shows(index.entries[k], instance, fetched.contentHash, excludeUser) ::
        && verdict.Some? && verdict.value.confidence == Identical && verdict.value.distance == 0
        && verdict.value.entry in index.entries && index.entries[verdict.value.entry].postedAt <= index.entries[k].postedAt
    ensures fetched.Fetched? && !exactFails && !perceptualFails && fetched.kind in {Image, Video} && fetched.phash.Some? ==>
      forall id | id in index.hashes && index.entries[id].instance == instance
                  && (excludeUser == "" || index.entries[id].user != Some(excludeUser))
                  && Distance(index.hashes[id], fetched.phash.value) <= tiers.probable ::
        verdict.Some? && verdict.value.distance <= Distance(index.hashes[id], fetched.phash.value)
    ensures fetched.Fetched? ==>
      var same := SameContent(index.entries, instance, fetched.contentHash, excludeUser);
      var hashed := !exactFails && same == {} && fetched.kind in {Image, Video} && fetched.phash.Some?;
      && identity.value.kind == fetched.kind && identity.value.contentHash == fetched.contentHash
      && identity.value.phash == (if hashed then Some(AsInt64(fetched.phash.value)) else None)
      && (!exactFails && same != {} ==>
            && verdict.Some? && verdict.value.entry in same
            && verdict.value.confidence == Identical && verdict.value.distance == 0)
      && (exactFails || (same == {} && !hashed) || (hashed && perceptualFails) ==> verdict.None?)
      && (hashed && !perceptualFails ==>
            && index.Nearest(index.Within(instance, fetched.phash.value, tiers.probable, excludeUser), fetched.phash.value,
                             if verdict.None? then None else Some(Match(verdict.value.entry, verdict.value.distance)))
            && (verdict.Some? ==> verdict.value.confidence == Grade(tiers, verdict.value.distance)))
  {
    if fetched.Unusable? {
      return None, None;
    }
    var found := Identity(fetched.kind, fetched.contentHash, None);
    if exactFails {
      return Some(found), None;
    }
    var exact := index.MatchRepostByContentHash(instance, fetched.contentHash, excludeUser);
    if exact.Some? {
      return Some(found), Some(Verdict(exact.value, Identical, 0));
    }
    if (fetched.kind != Image && fetched.kind != Video) || fetched.phash.None? {
      return Some(found), None;
    }
    var phash := AsInt64(fetched.phash.value);
    found := found.(phash := Some(phash));
    SignRoundTrip(fetched.phash.value);
    var chunks := Chunks(fetched.phash.value);
    if perceptualFails {
      return Some(found), None;
    }
    var perceptual := index.MatchRepostByPerceptualHash(instance, phash, chunks, tiers.probable, excludeUser);
    if perceptual.None? {
      return Some(found), None;
    }
    var confidence := Grade(tiers, perceptual.value.distance);
    if confidence == Unspecified {
      return Some(found), None;
    }
    return Some(found), Some(Verdict(perceptual.value.entry, confidence, perceptual.value.distance));
  }
}
