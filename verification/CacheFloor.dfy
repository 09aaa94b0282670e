/** How few entries an eviction may leave while Get and the sweeper delete outside the mutex. */
module CacheFloor {
  import opened Results
  import opened AuthorizationHeader
  import opened IntrospectionCache
  import opened CacheKeys
  import opened CacheProtocol
  import opened CacheRuns
  import opened CacheEviction

  predicate OutsideDelete(a: Action) { a.Drop? || a.SweepDrop? }

  /** The deletes by Get and the sweeper since goroutine `t` last took the mutex. */
  function DeletesSinceLock(run: seq<Action>, t: nat): nat {
    if run == [] || run[|run| - 1] == Lock(t) then 0
    else DeletesSinceLock(run[..|run| - 1], t) + if OutsideDelete(run[|run| - 1]) then 1 else 0
  }

  /** The count of the mutex holder is too high by at most the deletes `d` it has not seen. */
  ghost predicate CountsAtMost(max: nat, keys: set<string>, pc: Pc, d: nat) {
    match pc
    case Counting(scan) => scan.visited <= OfferedKeys(scan) && |OfferedKeys(scan) - keys| <= d
    case Deciding(c) => c <= |keys| + d
    case Finding(c, _, _) => max < c <= |keys| + d
    case Evicting(c, _) => max < c <= |keys| + d
    case _ => true
  }

  // -------------------------------------------------- steps of the holder

  lemma CountsAfterLock(max: nat, m: Entries)
    ensures CountsAtMost(max, m.Keys, Counting(NewScan(m)), 0)
  {
    NewScanOffers(m);
    assert OfferedKeys(NewScan(m)) - m.Keys == {};
  }

  lemma CountsAfterVisit(max: nat, keys: set<string>, pc: Pc, d: nat, k: string, e: Entry)
    requires CountsAtMost(max, keys, pc, d) && Holding(pc) && HasScan(pc) && (k, e) in pc.scan.offered
    ensures CountsAtMost(max, keys, Visited(pc, k, e), d)
  {
    assert (k, e).0 in OfferedKeys(pc.scan);
    assert OfferedKeys(Visited(pc, k, e).scan) == OfferedKeys(pc.scan);
  }

  lemma CountsAfterRange(max: nat, keys: set<string>, pc: Pc, d: nat)
    requires CountsAtMost(max, keys, pc, d) && Holding(pc) && HasScan(pc)
    ensures CountsAtMost(max, keys, AfterRange(pc).value, d)
  {
    var offered := OfferedKeys(pc.scan);
    if pc.Counting? {
      CardSubset(pc.scan.visited, offered);
      CardSubset(offered, (offered - keys) + keys);
    }
  }

  lemma CountsAfterOwnStep(p: Params, s: State, a: Action, d: nat)
    requires Enabled(p, s, a) && (a.Visit? || a.EndRange? || a.Decide? || a.Evict?) && Holding(s.threads[a.t])
    requires CountsAtMost(p.maxEntries, s.entries.Keys, s.threads[a.t], d)
    requires a.t in Apply(p, s, a).threads
    ensures CountsAtMost(p.maxEntries, Apply(p, s, a).entries.Keys, Apply(p, s, a).threads[a.t], d)
  {
    var pc := s.threads[a.t];
    if a.Visit? {
      CountsAfterVisit(p.maxEntries, s.entries.Keys, pc, d, a.key, a.entry);
    } else if a.EndRange? {
      CountsAfterRange(p.maxEntries, s.entries.Keys, pc, d);
    } else if a.Decide? {
      CountsAfterDecide(p, s, a.t, d);
    } else {
      CountsAfterEvict(p, s, a.t, d);
    }
  }

  lemma CountsAfterDecide(p: Params, s: State, t: nat, d: nat)
    requires t in s.threads && s.threads[t].Deciding? && s.threads[t].count <= |s.entries.Keys| + d
    requires t in DecideStep(p, s, t).threads
    ensures CountsAtMost(p.maxEntries, DecideStep(p, s, t).entries.Keys, DecideStep(p, s, t).threads[t], d)
  {}

  lemma CountsAfterEvict(p: Params, s: State, t: nat, d: nat)
    requires t in s.threads && s.threads[t].Evicting? && s.threads[t].count <= |s.entries.Keys| + d
    ensures t in EvictStep(s, t).threads
    ensures CountsAtMost(p.maxEntries, EvictStep(s, t).entries.Keys, EvictStep(s, t).threads[t], d)
  {
    FloorAfterEvict(s, t);
    assert EvictStep(s, t).threads[t] == Deciding(s.threads[t].count - 1);
  }

  lemma FloorAfterEvict(s: State, t: nat)
    requires t in s.threads && s.threads[t].Evicting?
    ensures |EvictStep(s, t).entries| >= |s.entries| - 1
    ensures |EvictStep(s, t).entries.Keys| == |EvictStep(s, t).entries|
  {
    if s.threads[t].victim.Some? {
      var k := s.threads[t].victim.value;
      assert EvictStep(s, t).entries.Keys == s.entries.Keys - {k};
      CardSubset(s.entries.Keys, (s.entries.Keys - {k}) + {k});
    }
  }

  // ---------------------------------------------------- steps of others

  lemma CountsSeeStore(max: nat, keys: set<string>, pc: Pc, d: nat, k: string, e: Entry)
    requires CountsAtMost(max, keys, pc, d)
    ensures CountsAtMost(max, keys + {k}, Touch(pc, k, Some(e)), d)
  {
    CardSubset(keys, keys + {k});
    if pc.Counting? {
      OfferedAfterTouch(pc.scan, k, Some(e));
      CardSubset(OfferedKeys(TouchScan(pc.scan, k, Some(e))) - (keys + {k}), OfferedKeys(pc.scan) - keys);
    }
  }

  lemma CountsSeeDelete(max: nat, keys: set<string>, pc: Pc, d: nat, k: string)
    requires CountsAtMost(max, keys, pc, d)
    ensures CountsAtMost(max, keys - {k}, Touch(pc, k, None), d + 1)
  {
    CardSubset(keys, (keys - {k}) + {k});
    if pc.Counting? {
      var offered := OfferedKeys(pc.scan);
      OfferedAfterTouch(pc.scan, k, None);
      CardSubset(offered - (keys - {k}), (offered - keys) + {k});
      CardAdd(offered - keys, k);
    }
  }

  lemma CountsAfterStore(p: Params, s: State, u: nat, t: nat, d: nat)
    requires Enabled(p, s, Store(u)) && t in s.threads && Holding(s.threads[t])
    requires CountsAtMost(p.maxEntries, s.entries.Keys, s.threads[t], d)
    ensures t in StoreStep(p, s, u).threads
    ensures CountsAtMost(p.maxEntries, StoreStep(p, s, u).entries.Keys, StoreStep(p, s, u).threads[t], d)
  {
    HolderViewOfStore(p, s, u, t);
    CountsSeeStore(p.maxEntries, s.entries.Keys, s.threads[t], d, KeyOf(p, s.threads[u].call), s.threads[u].entry);
  }

  lemma HolderViewOfStore(p: Params, s: State, u: nat, t: nat)
    requires Enabled(p, s, Store(u)) && t in s.threads && Holding(s.threads[t])
    ensures
      var k, e, s' := KeyOf(p, s.threads[u].call), s.threads[u].entry, StoreStep(p, s, u);
      s'.entries.Keys == s.entries.Keys + {k} && t in s'.threads && s'.threads[t] == Touch(s.threads[t], k, Some(e))
  {}

  lemma CountsAfterDelete(p: Params, s: State, k: string, u: nat, next: Option<Pc>, t: nat, d: nat)
    requires t in s.threads && u != t && CountsAtMost(p.maxEntries, s.entries.Keys, s.threads[t], d)
    ensures t in Delete(s, k, u, next).threads
    ensures CountsAtMost(p.maxEntries, Delete(s, k, u, next).entries.Keys, Delete(s, k, u, next).threads[t], d + 1)
  {
    CountsSeeDelete(p.maxEntries, s.entries.Keys, s.threads[t], d, k);
    assert Delete(s, k, u, next).entries.Keys == s.entries.Keys - {k};
    assert Delete(s, k, u, next).threads[t] == Touch(s.threads[t], k, None);
  }

  lemma CountsAfterOutsideDelete(p: Params, s: State, a: Action, t: nat, d: nat)
    requires Enabled(p, s, a) && OutsideDelete(a) && t in s.threads && Holding(s.threads[t])
    requires CountsAtMost(p.maxEntries, s.entries.Keys, s.threads[t], d)
    ensures
      var s' := Apply(p, s, a);
      t in s'.threads && CountsAtMost(p.maxEntries, s'.entries.Keys, s'.threads[t], d + 1)
  {
    var pc := s.threads[a.t];
    if a.Drop? {
      CountsAfterDelete(p, s, KeyOf(p, pc.call), a.t, Some(Asking(pc.call)), t, d);
    } else {
      var next := Sweeping(pc.asOf, TouchScan(pc.scan, pc.key, None));
      CountsAfterDelete(p, s, pc.key, a.t, Some(next), t, d);
    }
  }

  /** Any other step of another goroutine leaves the map and the holder alone. */
  lemma OtherLeavesAlone(p: Params, s: State, a: Action, t: nat)
    requires Enabled(p, s, a) && t in s.threads && (a.Tick? || a.t != t)
    requires !OutsideDelete(a) && !a.Store? && !a.Evict?
    ensures
      var s' := Apply(p, s, a);
      t in s'.threads && s'.threads[t] == s.threads[t] && s'.entries == s.entries
  {}

  /** Only Lock makes a goroutine the holder. */
  lemma HolderWasHolder(p: Params, s: State, a: Action, t: nat)
    requires Enabled(p, s, a) && t in Apply(p, s, a).threads && Holding(Apply(p, s, a).threads[t]) && a != Lock(t)
    ensures t in s.threads && Holding(s.threads[t])
  {}

  /** One step of any goroutine, for a goroutine `t` that holds the mutex before and after it. */
  lemma CountsAfterStep(p: Params, s: State, a: Action, t: nat, d: nat)
    requires MutexHeld(s) && Enabled(p, s, a) && t in s.threads && Holding(s.threads[t])
    requires CountsAtMost(p.maxEntries, s.entries.Keys, s.threads[t], d)
    requires t in Apply(p, s, a).threads && Holding(Apply(p, s, a).threads[t])
    ensures
      var s' := Apply(p, s, a);
      CountsAtMost(p.maxEntries, s'.entries.Keys, s'.threads[t], if OutsideDelete(a) then d + 1 else d)
  {
    if OutsideDelete(a) {
      CountsAfterOutsideDelete(p, s, a, t, d);
    } else if a.Store? {
      CountsAfterStore(p, s, a.t, t, d);
    } else if a.Tick? || a.t != t {
      OtherLeavesAlone(p, s, a, t);
    } else {
      CountsAfterOwnStep(p, s, a, d);
    }
  }

  lemma {:induction false} CountsReached(p: Params, start: int, run: seq<Action>, t: nat)
    requires p.maxEntries > 0 && Reached(p, start, run).Some?
    requires t in Reached(p, start, run).value.threads && Holding(Reached(p, start, run).value.threads[t])
    ensures
      var s := Reached(p, start, run).value;
      CountsAtMost(p.maxEntries, s.entries.Keys, s.threads[t], DeletesSinceLock(run, t))
  {
    if run == [] {
    } else {
      var before, a := run[..|run| - 1], run[|run| - 1];
      var s := Reached(p, start, before).value;
      if a == Lock(t) {
        CountsAfterLock(p.maxEntries, s.entries);
      } else {
        HolderWasHolder(p, s, a, t);
        SizeInvReached(p, start, before);
        CountsReached(p, start, before, t);
        CountsAfterStep(p, s, a, t, DeletesSinceLock(before, t));
      }
    }
  }

  /**
   The dual of the size bound: in every interleaving an eviction step leaves at least the limit of
   entries, less one for each delete by Get or the sweeper since its Set took the mutex.
   */
  lemma EvictionFloor(p: Params, start: int, run: seq<Action>, t: nat)
    requires p.maxEntries > 0 && Reached(p, start, run).Some?
    requires Enabled(p, Reached(p, start, run).value, Evict(t))
    ensures
      var s' := Apply(p, Reached(p, start, run).value, Evict(t));
      |s'.entries| >= p.maxEntries - DeletesSinceLock(run, t)
  {
    CountsReached(p, start, run, t);
    FloorAfterEvict(Reached(p, start, run).value, t);
  }

  // --------------------------------- a live entry is evicted below the limit

  /** Goroutine 0 has counted, goroutine 1 sweeps: all entries but `live` have expired and are unvisited. */
  ghost predicate Sweeps(s: State, live: string, c: int) {
    && 0 in s.threads && s.threads[0] == Deciding(c) && live in s.entries && !Expired(s.entries[live], s.now)
    && 1 in s.threads && s.threads[1].Sweeping? && s.threads[1].asOf == s.now
    && forall j | j in s.entries && j != live ::
         && Expired(s.entries[j], s.now)
         && (j, s.entries[j]) in s.threads[1].scan.offered && j !in s.threads[1].scan.visited
  }

  lemma SweepOne(p: Params, s: State, live: string, c: int, j: string) returns (s': State)
    requires Reachable(p, s) && Sweeps(s, live, c) && j in s.entries && j != live
    ensures Reachable(p, s') && Sweeps(s', live, c) && s'.entries == s.entries - {j} && s'.now == s.now
  {
    s' := Extend(p, s, Visit(1, j, s.entries[j]));
    s' := Extend(p, s', SweepDrop(1));
  }

  lemma {:induction false} SweepAll(p: Params, s: State, live: string, c: int) returns (s': State)
    requires Reachable(p, s) && Sweeps(s, live, c)
    ensures Reachable(p, s') && Sweeps(s', live, c) && s'.now == s.now
    ensures s'.entries == map[live := s.entries[live]]
    decreases |s.entries|
  {
    if j :| j in s.entries && j != live {
      var s1 := SweepOne(p, s, live, c, j);
      assert s1.entries.Keys == s.entries.Keys - {j};
      s' := SweepAll(p, s1, live, c);
    } else {
      s' := s;
    }
  }

  /** The map holds one entry, it has not expired, and goroutine 0 is about to evict it. */
  ghost predicate EvictsLastLive(s: State, k: string) {
    && s.entries.Keys == {k} && !Expired(s.entries[k], s.now)
    && 0 in s.threads && s.threads[0].Evicting? && s.threads[0].victim == Some(k)
  }

  /** A Set stores and counts one entry too many; then the clock passes the expiry of all older entries. */
  lemma CountedThenExpired(p: Params, scheme: string) returns (s: State, live: string)
    requires p.maxEntries > 0 && p.ttl >= 0
    requires Injective(p.digest) && scheme in p.registered && HeaderScheme(scheme)
    ensures Reachable(p, s) && Sweeps(s, live, p.maxEntries + 1)
  {
    live := KeyOf(p, SampleCall(scheme, p.maxEntries));
    s := FillsUp(p, scheme, p.maxEntries);
    s := Extend(p, s, Tick(1));
    s := StoresAndCounts(p, scheme, s);
    s := SweepBegins(p, s, live);
  }

  lemma StoresAndCounts(p: Params, scheme: string, s: State) returns (s': State)
    requires p.maxEntries > 0 && Injective(p.digest) && scheme in p.registered && HeaderScheme(scheme)
    requires Reachable(p, s) && Holds(p, scheme, s.entries, p.maxEntries)
    requires s.now == 1 && s.mutex.None? && s.threads == map[]
    ensures
      var k := KeyOf(p, SampleCall(scheme, p.maxEntries));
      && Reachable(p, s') && s'.now == 1 && s'.threads == map[0 := Deciding(p.maxEntries + 1)]
      && k in s'.entries && s'.entries[k].expiresAt == p.ttl + 1
      && forall j | j in s'.entries && j != k :: s'.entries[j].expiresAt == p.ttl
  {
    SampleAccepted(scheme, p.maxEntries);
    LaterKeyIsNew(p, scheme, p.maxEntries, p.maxEntries);
    var s1 := RequestStores(p, s, 0, SampleHeader(scheme, p.maxEntries));
    OneMoreEntry(s.entries, KeyOf(p, SampleCall(scheme, p.maxEntries)), Entry(SampleResult(), s.now + p.ttl));
    s' := LockAndCount(p, s1, 0);
  }

  lemma OneMoreEntry(m: Entries, k: string, e: Entry)
    requires k !in m
    ensures |m[k := e]| == |m| + 1
  {
    assert m[k := e].Keys == m.Keys + {k};
  }

  lemma SweepBegins(p: Params, s: State, live: string) returns (s': State)
    requires p.ttl >= 0 && Reachable(p, s) && s.now == 1 && s.threads == map[0 := Deciding(p.maxEntries + 1)]
    requires live in s.entries && s.entries[live].expiresAt == p.ttl + 1
    requires forall j | j in s.entries && j != live :: s.entries[j].expiresAt == p.ttl
    ensures Reachable(p, s') && Sweeps(s', live, p.maxEntries + 1)
  {
    s' := Extend(p, s, Tick(p.ttl + 1));
    s' := Extend(p, s', BeginSweep(1));
  }

  /**
   The deletes count: for every limit some run sweeps all expired entries after a Set has counted
   them, and the Set then evicts the only entry left, one that has not expired.
   */
  lemma LiveEntryEvicted(p: Params, scheme: string) returns (s: State, k: string)
    requires p.maxEntries > 0 && p.ttl >= 0
    requires Injective(p.digest) && scheme in p.registered && HeaderScheme(scheme)
    ensures Reachable(p, s) && EvictsLastLive(s, k) && Apply(p, s, Evict(0)).entries == map[]
  {
    s, k := CountedThenExpired(p, scheme);
    s := SweepAll(p, s, k, p.maxEntries + 1);
    s := ChoosesLast(p, s, k);
  }

  lemma ChoosesLast(p: Params, s: State, k: string) returns (s': State)
    requires Reachable(p, s) && Sweeps(s, k, p.maxEntries + 1) && s.entries.Keys == {k}
    ensures Reachable(p, s') && EvictsLastLive(s', k)
  {
    s' := Extend(p, s, Decide(0));
    s' := FindsFirst(p, s', k, s.entries[k].expiresAt);
  }
}
