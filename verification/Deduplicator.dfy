/**
 Two-layer deduplication: a bounded local cache in front of a shared store with an atomic
 set-if-absent. Nodes share the store; goroutines of a node share its cache.
 */
module Deduplicator {
  import opened Batches
  import opened JoinedTexts
  import opened Sequences

  /** When a key set at `now` ends; a time to live of 0 means never. */
  function Expiry(now: int, ttl: nat): Option<int> {
    if ttl == 0 then None else Some(now + ttl)
  }

  /** The keys that were set, with their expiry. */
  type Store = map<string, Option<int>>

  predicate Alive(store: Store, key: string, now: int) {
    key in store && (store[key].None? || now < store[key].value)
  }

  /** The store after SETNX at a time. */
  function AfterSetNX(store: Store, key: string, now: int, ttl: nat): Store {
    if Alive(store, key, now) then store else store[key := Expiry(now, ttl)]
  }

  class SharedStore {
    var entries: Store

    constructor ()
      ensures entries == map[]
    {
      entries := map[];
    }

    method SetNX(key: string, now: int, ttl: nat) returns (ok: bool)
      modifies this
      ensures ok <==> (key in old(entries) ==> old(entries)[key].Some? && old(entries)[key].value <= now)
      ensures entries == if ok then old(entries)[key := if ttl == 0 then None else Some(now + ttl)] else old(entries)
    {
      ok := !Alive(entries, key, now);
      if ok {
        entries := entries[key := Expiry(now, ttl)];
      }
    }
  }

  class Deduplicator {
    const redis: SharedStore
    const ttl: nat
    const capacity: nat
    /** Least recently added first. */
    var localCache: seq<string>

    constructor (redis: SharedStore, localCacheSize: nat, ttl: nat)
      requires localCacheSize > 0
      ensures Valid() && localCache == [] && this.redis == redis && this.ttl == ttl && capacity == localCacheSize
    {
      this.redis, this.ttl, capacity := redis, ttl, localCacheSize;
      localCache := [];
    }

    ghost predicate Valid()
      reads this
    {
      capacity > 0 && |localCache| <= capacity && NoDuplicates(localCache)
    }

    /** Adds a key that is not cached, at the cost of the one added longest ago when the cache is full. */
    method Remember(key: string)
      requires Valid() && key !in localCache
      modifies this`localCache
      ensures Valid() && key in localCache
      ensures localCache == (if |old(localCache)| < capacity then old(localCache) else old(localCache)[1..]) + [key]
      ensures Elements(localCache) <= Elements(old(localCache)) + {key}
    {
      ElementsSnoc(localCache, key);
      localCache := localCache + [key];
      if |localCache| > capacity {
        ghost var all := localCache;
        localCache := localCache[1..];
        assert forall i | 0 <= i < |localCache| :: localCache[i] == all[i + 1];
        assert localCache[|localCache| - 1] == key;
      }
    }

    /** `available` says whether the store answers; the error outcome is None. */
    method CheckAndMark(key: string, now: int, available: bool) returns (isNew: Option<bool>)
      requires Valid()
      modifies this`localCache, redis
      ensures Valid()
      ensures key in old(localCache) ==> isNew == Some(false) && redis.entries == old(redis.entries) && localCache == old(localCache)
      ensures key !in old(localCache) && !available ==> isNew == None && redis.entries == old(redis.entries) && localCache == old(localCache)
      ensures key !in old(localCache) && available ==>
                && isNew == Some(!Alive(old(redis.entries), key, now))
                && redis.entries == AfterSetNX(old(redis.entries), key, now, ttl)
                && localCache == (if |old(localCache)| < capacity then old(localCache) else old(localCache)[1..]) + [key]
                && key in localCache && Elements(localCache) <= Elements(old(localCache)) + {key}
    {
      if key in localCache {
        return Some(false);
      }
      if !available {
        return None;
      }
      var ok := redis.SetNX(key, now, ttl);
      Remember(key);
      isNew := Some(ok);
    }
  }

  // ---------------------------------------------------------------- keys

  datatype Snapshot = Snapshot(projectId: string, epochId: nat, snapshotCid: string)

  /** What GenerateKey hashes. */
  function KeyText(s: Snapshot): string {
    s.projectId + ":" + Decimal(s.epochId) + ":" + s.snapshotCid
  }

  /** Two snapshots with one text are the same, unless one CID overlaps the other. */
  lemma SameKeyOnlyByOverlap(a: Snapshot, b: Snapshot)
    requires KeyText(a) == KeyText(b)
    ensures a == b || Overlaps(':', a.snapshotCid, b.snapshotCid) || Overlaps(':', b.snapshotCid, a.snapshotCid)
  {
    SameTextOnlyByOverlap(':', a.projectId, a.epochId, a.snapshotCid, b.projectId, b.epochId, b.snapshotCid);
  }

  /** The texts tell all snapshots with CIDs from the given set apart. */
  ghost predicate KeysDetermineSnapshots(cids: set<string>) {
    forall a: Snapshot, b: Snapshot | a.snapshotCid in cids && b.snapshotCid in cids && KeyText(a) == KeyText(b) :: a == b
  }

  /** They do exactly when no CID of the set ends in a number, a colon and one of the set. */
  lemma KeysDetermineSnapshotsExactlyWithoutOverlaps(cids: set<string>)
    ensures KeysDetermineSnapshots(cids) <==> forall c, d | c in cids && d in cids :: !Overlaps(':', c, d)
  {
    if forall c, d | c in cids && d in cids :: !Overlaps(':', c, d) {
      forall a: Snapshot, b: Snapshot | a.snapshotCid in cids && b.snapshotCid in cids && KeyText(a) == KeyText(b)
        ensures a == b
      {
        SameKeyOnlyByOverlap(a, b);
      }
    } else {
      var c, d :| c in cids && d in cids && Overlaps(':', c, d);
      var p, s, q, t := OverlapGivesSameText(':', c, d);
      var a, b := Snapshot(p, s, c), Snapshot(q, t, d);
      assert KeyText(a) == KeyText(b) && a.snapshotCid in cids && b.snapshotCid in cids;
    }
  }

  /** CIDs without colons are told apart, whatever colons project ids contain. */
  lemma ColonFreeCidsHaveTheirOwnKeys(a: Snapshot, b: Snapshot)
    requires Free(':', a.snapshotCid) && Free(':', b.snapshotCid) && KeyText(a) == KeyText(b)
    ensures a == b
  {
    FreeTextDoesNotOverlap(':', a.snapshotCid, b.snapshotCid);
    FreeTextDoesNotOverlap(':', b.snapshotCid, a.snapshotCid);
    SameKeyOnlyByOverlap(a, b);
  }

  // ---------------------------------------------------------------- runs

  /**
   What happens in some order: a call that finds its key in its node's cache, the SETNX of a call that
   did not, the cache addition that follows a SETNX (with whatever is evicted for it), an emptying of a cache.
   */
  datatype Op =
    | Hit(node: nat, key: string)
    | Ask(node: nat, key: string)
    | Cache(node: nat, key: string, evicted: set<string>)
    | Purge(node: nat)

  datatype Event = Event(now: int, op: Op)

  datatype State = State(store: Store, caches: map<nat, set<string>>) {
    function CacheOf(node: nat): set<string> {
      if node in caches then caches[node] else {}
    }
  }

  ghost predicate Next(s: State, e: Event, ttl: nat, s': State) {
    match e.op
    case Hit(node, key) => key in s.CacheOf(node) && s' == s
    case Ask(node, key) => s' == s.(store := AfterSetNX(s.store, key, e.now, ttl))
    case Cache(node, key, evicted) => key in s.store && s' == s.(caches := s.caches[node := s.CacheOf(node) + {key} - evicted])
    case Purge(node) => s' == s.(caches := s.caches[node := {}])
  }

  predicate IsCall(e: Event) {
    e.op.Hit? || e.op.Ask?
  }

  /** A run of any number of nodes sharing one store, with a clock that does not go back. */
  datatype Run = Run(states: seq<State>, events: seq<Event>, ttl: nat) {
    ghost predicate Valid() {
      && |states| == |events| + 1 && states[0] == State(map[], map[])
      && (forall i, j | 0 <= i <= j < |events| :: events[i].now <= events[j].now)
      && (forall k | 0 <= k < |events| :: StepAt(k))
    }

    ghost predicate StepAt(k: int)
      requires 0 <= k < |events| && |states| == |events| + 1
    {
      Next(states[k], events[k], ttl, states[k + 1])
    }

    ghost predicate CallAt(k: nat) {
      k < |events| && IsCall(events[k])
    }

    /** What the k-th event's call returns. */
    ghost predicate Answer(k: nat)
      requires CallAt(k) && |states| == |events| + 1
    {
      events[k].op.Ask? && !Alive(states[k].store, events[k].op.key, events[k].now)
    }

    /** What it would return if every call went to a store of its own, without any caches. */
    ghost predicate AnswerOfStoreAlone(k: nat)
      requires CallAt(k)
    {
      !Alive(StoreAlone(events[..k], ttl), events[k].op.key, events[k].now)
    }

    /** A key is found in a cache after its entry in the store has expired. */
    ghost predicate StaleHit(k: nat)
      requires |states| == |events| + 1
    {
      k < |events| && events[k].op.Hit? && !Alive(states[k].store, events[k].op.key, events[k].now)
    }
  }

  ghost function StoreAlone(events: seq<Event>, ttl: nat): Store {
    if events == [] then map[]
    else
      var before, e := StoreAlone(events[..|events| - 1], ttl), events[|events| - 1];
      if IsCall(e) then AfterSetNX(before, e.op.key, e.now, ttl) else before
  }

  lemma StoreAloneSnoc(events: seq<Event>, k: nat, ttl: nat)
    requires k < |events|
    ensures StoreAlone(events[..k + 1], ttl) ==
            if IsCall(events[k]) then AfterSetNX(StoreAlone(events[..k], ttl), events[k].op.key, events[k].now, ttl)
            else StoreAlone(events[..k], ttl)
  {
    assert events[..k + 1][..k] == events[..k];
  }

  // ---------------------------------------------------------------- when the caches change an answer

  /** A stale hit on the given key. */
  ghost predicate StaleHitOn(run: Run, k: nat, key: string)
    requires |run.states| == |run.events| + 1
  {
    run.StaleHit(k) && run.events[k].op.key == key
  }

  predicate SameEntry(a: Store, b: Store, key: string) {
    (key in a <==> key in b) && (key in a ==> a[key] == b[key])
  }

  /** As long as no hit on a key was stale, the caches have kept nothing about it from the store. */
  lemma {:induction false} EntriesCoincide(run: Run, k: nat, key: string)
    requires run.Valid() && k <= |run.events|
    requires forall j: nat | j < k :: !StaleHitOn(run, j, key)
    ensures SameEntry(run.states[k].store, StoreAlone(run.events[..k], run.ttl), key)
  {
    if k == 0 {
      assert run.events[..0] == [];
    } else {
      EntriesCoincide(run, k - 1, key);
      assert run.StepAt(k - 1);
      StoreAloneSnoc(run.events, k - 1, run.ttl);
      assert !StaleHitOn(run, k - 1, key);
    }
  }

  lemma {:induction false} FirstStaleHit(run: Run, k: nat, key: string) returns (first: nat)
    requires run.Valid() && StaleHitOn(run, k, key)
    ensures StaleHitOn(run, first, key) && forall j: nat | j < first :: !StaleHitOn(run, j, key)
  {
    first := 0;
    while !StaleHitOn(run, first, key)
      invariant first <= k && forall j: nat | j < first :: !StaleHitOn(run, j, key)
      decreases k - first
    {
      first := first + 1;
    }
  }

  /** Every call for the key is answered as the store alone would answer it. */
  ghost predicate AnswersAsStoreAlone(run: Run, key: string)
    requires |run.states| == |run.events| + 1
  {
    forall k: nat | run.CallAt(k) && run.events[k].op.key == key :: run.Answer(k) <==> run.AnswerOfStoreAlone(k)
  }

  /** Whatever is evicted, and for any number of nodes, the caches change an answer about a key exactly when some hit on it is stale. */
  lemma CachesAreTransparentExactlyWithoutStaleHits(run: Run, key: string)
    requires run.Valid()
    ensures AnswersAsStoreAlone(run, key) <==> forall k: nat :: !StaleHitOn(run, k, key)
  {
    if k: nat :| StaleHitOn(run, k, key) {
      var first := FirstStaleHit(run, k, key);
      EntriesCoincide(run, first, key);
      assert run.CallAt(first) && run.AnswerOfStoreAlone(first) && !run.Answer(first);
    } else {
      forall k: nat | run.CallAt(k) && run.events[k].op.key == key
        ensures run.Answer(k) <==> run.AnswerOfStoreAlone(k)
      {
        EntriesCoincide(run, k, key);
        assert !StaleHitOn(run, k, key);
      }
    }
  }

  // ---------------------------------------------------------------- without expiry

  /** Without expiry every cached key is in the store for good. */
  lemma {:induction false} CachedIsStored(run: Run, k: nat)
    requires run.Valid() && run.ttl == 0 && k <= |run.events|
    ensures forall node, key | key in run.states[k].CacheOf(node) :: key in run.states[k].store
    ensures forall key | key in run.states[k].store :: run.states[k].store[key] == None
  {
    if k > 0 {
      CachedIsStored(run, k - 1);
      assert run.StepAt(k - 1);
      forall node, key | key in run.states[k].CacheOf(node)
        ensures key in run.states[k].store
      {
        assert key in run.states[k - 1].CacheOf(node) || key in run.states[k - 1].store;
      }
    }
  }

  lemma NoExpiryMeansNoStaleHit(run: Run, k: nat)
    requires run.Valid() && run.ttl == 0
    ensures !run.StaleHit(k)
  {
    if k < |run.events| {
      CachedIsStored(run, k);
      assert run.StepAt(k);
    }
  }

  /** So the answers are those of the store alone. */
  lemma AnswersAreTheStores(run: Run, key: string)
    requires run.Valid() && run.ttl == 0
    ensures AnswersAsStoreAlone(run, key)
  {
    forall k: nat
      ensures !StaleHitOn(run, k, key)
    {
      NoExpiryMeansNoStaleHit(run, k);
    }
    CachesAreTransparentExactlyWithoutStaleHits(run, key);
  }

  // ---------------------------------------------------------------- how often a key is new

  /** After a call was told its key is new, the store has an entry for it that lasts. */
  lemma {:induction false} EntryLasts(run: Run, i: nat, k: nat)
    requires run.Valid() && i < k <= |run.events| && run.CallAt(i) && run.Answer(i)
    ensures var key := run.events[i].op.key;
            key in run.states[k].store &&
            match run.states[k].store[key]
            case None => run.ttl == 0
            case Some(end) => run.ttl > 0 && end >= run.events[i].now + run.ttl
  {
    assert run.StepAt(k - 1);
    if k > i + 1 {
      EntryLasts(run, i, k - 1);
    }
  }

  /** Two calls that are both told the same key is new are at least the time to live apart; without expiry there is only one. */
  lemma NewAnswersAreApart(run: Run, i: nat, j: nat)
    requires run.Valid() && i < j && run.CallAt(i) && run.CallAt(j)
    requires run.Answer(i) && run.Answer(j) && run.events[i].op.key == run.events[j].op.key
    ensures run.ttl > 0 && run.events[j].now >= run.events[i].now + run.ttl
  {
    EntryLasts(run, i, j);
  }

  // ---------------------------------------------------------------- when "seen" turns into "new"

  /** The call is told "seen", where the store alone would say "new" (and set its entry). */
  ghost predicate SeenForNew(run: Run, k: nat)
    requires |run.states| == |run.events| + 1
  {
    run.CallAt(k) && !run.Answer(k) && run.AnswerOfStoreAlone(k)
  }

  /** The call is told "new", where the store alone would say "seen". */
  ghost predicate NewForSeen(run: Run, k: nat)
    requires |run.states| == |run.events| + 1
  {
    run.CallAt(k) && run.Answer(k) && !run.AnswerOfStoreAlone(k)
  }

  /** Less than the time to live before call k, the store alone would have set the entry of the same key, but the call was told "seen". */
  ghost predicate MissedRenewal(run: Run, j: nat, k: nat)
    requires |run.states| == |run.events| + 1 && run.CallAt(k)
  {
    && j < k && SeenForNew(run, j) && run.events[j].op.key == run.events[k].op.key
    && run.events[k].now < run.events[j].now + run.ttl
  }

  /** The store alone keeps an entry it has set for the time to live. */
  lemma {:induction false} AloneEntryLasts(run: Run, j: nat, k: nat)
    requires run.Valid() && run.ttl > 0 && j < k <= |run.events| && run.CallAt(j) && run.AnswerOfStoreAlone(j)
    ensures var alone, key := StoreAlone(run.events[..k], run.ttl), run.events[j].op.key;
            key in alone && alone[key].Some? && alone[key].value >= run.events[j].now + run.ttl
  {
    StoreAloneSnoc(run.events, k - 1, run.ttl);
    if k > j + 1 {
      AloneEntryLasts(run, j, k - 1);
    }
  }

  /** Every entry of the store alone was set by some call that it answered "new". */
  lemma {:induction false} AloneEntryWasSet(run: Run, k: nat, key: string) returns (j: nat)
    requires run.Valid() && k <= |run.events| && key in StoreAlone(run.events[..k], run.ttl)
    ensures j < k && run.CallAt(j) && run.events[j].op.key == key && run.AnswerOfStoreAlone(j)
    ensures StoreAlone(run.events[..k], run.ttl)[key] == Expiry(run.events[j].now, run.ttl)
  {
    assert k > 0 by {
      assert run.events[..0] == [];
    }
    StoreAloneSnoc(run.events, k - 1, run.ttl);
    if run.CallAt(k - 1) && run.events[k - 1].op.key == key && run.AnswerOfStoreAlone(k - 1) {
      j := k - 1;
    } else {
      j := AloneEntryWasSet(run, k - 1, key);
    }
  }

  /**
   The other way round: a call is told its key is new where the store alone says it was seen exactly when
   it asks the store at a dead entry and has missed a renewal of that key less than the time to live ago.
   */
  lemma NewForSeenExactlyAfterMissedRenewal(run: Run, k: nat)
    requires run.Valid() && run.CallAt(k)
    ensures NewForSeen(run, k) <==> run.Answer(k) && exists j :: MissedRenewal(run, j, k)
  {
    var key := run.events[k].op.key;
    if run.ttl == 0 {
      AnswersAreTheStores(run, key);
    } else {
      if j :| MissedRenewal(run, j, k) {
        AloneEntryLasts(run, j, k);
      }
      if NewForSeen(run, k) {
        var j := AloneEntryWasSet(run, k, key);
        if run.Answer(j) {
          EntryLasts(run, j, k);
        }
        assert MissedRenewal(run, j, k);
      }
    }
  }

  /** A stale hit that the store alone would have renewed is such a missed renewal ... */
  lemma StaleHitMissesRenewal(run: Run, j: nat, k: nat)
    requires run.Valid() && run.CallAt(k) && run.Answer(k) && j < k
    requires StaleHitOn(run, j, run.events[k].op.key) && run.AnswerOfStoreAlone(j)
    requires run.events[k].now < run.events[j].now + run.ttl
    ensures NewForSeen(run, k)
  {
    assert MissedRenewal(run, j, k);
    NewForSeenExactlyAfterMissedRenewal(run, k);
  }

  /** ... and without an earlier stale hit on the key there is none. */
  lemma NewForSeenNeedsAStaleHit(run: Run, k: nat)
    requires run.Valid() && NewForSeen(run, k)
    ensures exists j: nat :: j < k && StaleHitOn(run, j, run.events[k].op.key)
  {
    if forall j: nat | j < k :: !StaleHitOn(run, j, run.events[k].op.key) {
      EntriesCoincide(run, k, run.events[k].op.key);
    }
  }

  // ---------------------------------------------------------------- two runs that show it

  lemma OneMoreEvent(run: Run, e: Event, s: State) returns (longer: Run)
    requires run.Valid() && Next(run.states[|run.events|], e, run.ttl, s)
    requires run.events != [] ==> run.events[|run.events| - 1].now <= e.now
    ensures longer.Valid() && longer == Run(run.states + [s], run.events + [e], run.ttl)
  {
    longer := Run(run.states + [s], run.events + [e], run.ttl);
    forall k | 0 <= k < |longer.events|
      ensures longer.StepAt(k)
    {
      if k < |run.events| {
        assert run.StepAt(k);
      }
    }
  }

  /** A node asks and caches, hits after the expiry, forgets, and asks again: for a time to live of 10. */
  lemma StaleHitRun(node: nat, key: string) returns (run: Run)
    ensures run.Valid() && run.ttl == 10
    ensures run.events == [Event(0, Ask(node, key)), Event(0, Cache(node, key, {})), Event(12, Hit(node, key)), Event(12, Purge(node)), Event(15, Ask(node, key))]
    ensures run.states == [State(map[], map[]), State(map[key := Some(10)], map[]), State(map[key := Some(10)], map[node := {key}]),
                           State(map[key := Some(10)], map[node := {key}]), State(map[key := Some(10)], map[node := {}]), State(map[key := Some(25)], map[node := {}])]
  {
    var stored: Store := map[key := Some(10)];
    var cached := State(stored, map[node := {key}]);
    var start := State(map[], map[]);
    assert State(stored, map[]).CacheOf(node) + {key} - {} == {key};
    run := OneMoreEvent(Run([start], [], 10), Event(0, Ask(node, key)), State(stored, map[]));
    run := OneMoreEvent(run, Event(0, Cache(node, key, {})), cached);
    run := OneMoreEvent(run, Event(12, Hit(node, key)), cached);
    run := OneMoreEvent(run, Event(12, Purge(node)), State(stored, map[node := {}]));
    run := OneMoreEvent(run, Event(15, Ask(node, key)), State(map[key := Some(25)], map[node := {}]));
  }

  lemma StoreAloneRenews(events: seq<Event>, node: nat, key: string)
    requires |events| >= 5
    requires events[..5] == [Event(0, Ask(node, key)), Event(0, Cache(node, key, {})), Event(12, Hit(node, key)), Event(12, Purge(node)), Event(15, Ask(node, key))]
    ensures StoreAlone(events[..2], 10) == map[key := Some(10)]
    ensures StoreAlone(events[..4], 10) == StoreAlone(events[..5], 10) == map[key := Some(22)]
  {
    assert forall k | 0 <= k < 5 :: events[k] == events[..5][k];
    assert events[..0] == [];
    StoreAloneSnoc(events, 0, 10);
    StoreAloneSnoc(events, 1, 10);
    StoreAloneSnoc(events, 2, 10);
    StoreAloneSnoc(events, 3, 10);
    StoreAloneSnoc(events, 4, 10);
  }

  /** A stale hit leaves the entry unrenewed, so the next call is told its key is new. */
  lemma StaleHitCanMakeSeenNew(node: nat, key: string) returns (run: Run)
    ensures run.Valid() && run.ttl == 10 && run.CallAt(4)
    ensures run.Answer(4) && !run.AnswerOfStoreAlone(4)
  {
    run := StaleHitRun(node, key);
    StoreAloneRenews(run.events, node, key);
  }

  /** The missed renewal need not be a stale hit, and every stale hit may lie the time to live or more back. */
  lemma AskCanMissARenewalToo(node: nat, key: string) returns (run: Run)
    ensures run.Valid() && NewForSeen(run, 6)
    ensures forall j: nat | StaleHitOn(run, j, key) :: run.events[6].now >= run.events[j].now + run.ttl
  {
    run := StaleHitRun(node, key);
    var s := run.states[5];
    run := OneMoreEvent(run, Event(23, Ask(node, key)), s);
    run := OneMoreEvent(run, Event(26, Ask(node, key)), s.(store := map[key := Some(36)]));
    assert run.events[..5] == [Event(0, Ask(node, key)), Event(0, Cache(node, key, {})), Event(12, Hit(node, key)), Event(12, Purge(node)), Event(15, Ask(node, key))];
    StoreAloneRenews(run.events, node, key);
    StoreAloneSnoc(run.events, 5, 10);
    assert StoreAlone(run.events[..6], 10) == map[key := Some(33)];
  }

  // ---------------------------------------------------------------- calls as steps

  /** A call that nothing comes between: a hit, or a SETNX and the cache addition. */
  ghost predicate CallSteps(s: State, node: nat, key: string, now: int, ttl: nat, isNew: bool, s': State) {
    || (Next(s, Event(now, Hit(node, key)), ttl, s') && !isNew)
    || (isNew == !Alive(s.store, key, now)
        && exists asked, evicted :: Next(s, Event(now, Ask(node, key)), ttl, asked) && Next(asked, Event(now, Cache(node, key, evicted)), ttl, s'))
  }

  /** The call of one node, with the store available, is made of the steps of the runs; `others` are the other nodes' caches. */
  method Call(d: Deduplicator, node: nat, key: string, now: int, ghost others: map<nat, set<string>>) returns (isNew: bool)
    requires d.Valid()
    modifies d`localCache, d.redis
    ensures d.Valid()
    ensures CallSteps(State(old(d.redis.entries), others[node := Elements(old(d.localCache))]), node, key, now, d.ttl, isNew,
                      State(d.redis.entries, others[node := Elements(d.localCache)]))
  {
    ghost var before, was := d.redis.entries, Elements(d.localCache);
    var outcome := d.CheckAndMark(key, now, true);
    isNew := outcome.value;
    if key !in was {
      var s := State(before, others[node := was]);
      var asked := s.(store := d.redis.entries);
      var evicted := was + {key} - Elements(d.localCache);
      assert was + {key} - evicted == Elements(d.localCache);
      assert Next(s, Event(now, Ask(node, key)), d.ttl, asked);
      assert Next(asked, Event(now, Cache(node, key, evicted)), d.ttl, State(d.redis.entries, others[node := Elements(d.localCache)]));
    }
  }
}
