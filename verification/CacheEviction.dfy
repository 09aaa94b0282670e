/** Which entries leave the cache while others store and delete, and why. */
module CacheEviction {
  import opened Results
  import opened AuthorizationHeader
  import opened IntrospectionCache
  import opened CacheKeys
  import opened CacheProtocol
  import opened CacheRuns
  import opened CacheHistory

  // --------------------------------------------------- the key Range chooses

  /** Step `v` is the first of the visits since `b` that report the least expiry. */
  ghost predicate LeastVisit(run: seq<Action>, t: nat, b: nat, v: nat) {
    && VisitAt(run, t, b, v)
    && forall n: nat | VisitAt(run, t, b, n) ::
         && run[v].entry.expiresAt <= run[n].entry.expiresAt
         && (n < v ==> run[v].entry.expiresAt < run[n].entry.expiresAt)
  }

  /** The candidate of a find-minimum Range that began with step `b`. */
  ghost predicate CandidateIs(run: seq<Action>, t: nat, b: nat, oldest: Option<(string, int)>) {
    if oldest.None? then forall n: nat :: !VisitAt(run, t, b, n)
    else exists v: nat | LeastVisit(run, t, b, v) :: oldest.value == (run[v].key, run[v].entry.expiresAt)
  }

  lemma CandidateStep(run: seq<Action>, t: nat, b: nat, oldest: Option<(string, int)>)
    requires b < |run| - 1 && CandidateIs(run[..|run| - 1], t, b, oldest)
    ensures
      var a := run[|run| - 1];
      CandidateIs(run, t, b,
        if a.Visit? && a.t == t && (oldest.None? || a.entry.expiresAt < oldest.value.1)
        then Some((a.key, a.entry.expiresAt)) else oldest)
  {
    var before, last := run[..|run| - 1], |run| - 1;
    forall n: nat | n < last
      ensures VisitAt(run, t, b, n) <==> VisitAt(before, t, b, n)
    {}
    if oldest.Some? {
      var v: nat :| LeastVisit(before, t, b, v) && oldest.value == (before[v].key, before[v].entry.expiresAt);
      assert LeastVisit(run, t, b, v) || LeastVisit(run, t, b, last);
    } else if VisitAt(run, t, b, last) {
      assert LeastVisit(run, t, b, last);
    }
  }

  /** How a step changes the candidate of a goroutine that goes on searching. */
  lemma CandidateAfterStep(p: Params, s: State, a: Action, t: nat)
    requires Enabled(p, s, a) && t in Apply(p, s, a).threads && Apply(p, s, a).threads[t].Finding? && a != Decide(t)
    ensures t in s.threads && s.threads[t].Finding?
    ensures
      var oldest := s.threads[t].oldest;
      Apply(p, s, a).threads[t].oldest
      == if a.Visit? && a.t == t && (oldest.None? || a.entry.expiresAt < oldest.value.1)
         then Some((a.key, a.entry.expiresAt)) else oldest
  {}

  lemma {:induction false} CandidateIsLeast(p: Params, start: int, run: seq<Action>, t: nat, b: nat)
    requires Reached(p, start, run).Some? && RangeStart(run, t, b)
    requires t in Reached(p, start, run).value.threads && Reached(p, start, run).value.threads[t].Finding?
    ensures CandidateIs(run, t, b, Reached(p, start, run).value.threads[t].oldest)
  {
    var before, a := run[..|run| - 1], run[|run| - 1];
    var s := Reached(p, start, before).value;
    if a == Decide(t) {
      assert b == |run| - 1;
    } else {
      CandidateAfterStep(p, s, a, t);
      assert b < |run| - 1;
      CandidateIsLeast(p, start, before, t, b);
      CandidateStep(run, t, b, s.threads[t].oldest);
    }
  }

  // ------------------------------------------------- the key Evict removes

  /** Goroutine `t` ends with the find-minimum Range from step `b` to step `m`. */
  predicate FoundMinimum(run: seq<Action>, t: nat, b: nat, m: nat) {
    b < m && RangeStart(run, t, b) && run[b] == Decide(t) && LastOwn(run, t, m) && run[m] == EndRange(t)
  }

  lemma EvictingFound(p: Params, start: int, run: seq<Action>, t: nat) returns (b: nat, m: nat)
    requires Reached(p, start, run).Some? && Enabled(p, Reached(p, start, run).value, Evict(t))
    ensures FoundMinimum(run, t, b, m) && RangeStart(run[..m], t, b)
    ensures Reached(p, start, run[..m]) == Some(At(p, start, run, m))
    ensures
      var before := At(p, start, run, m);
      && t in before.threads && before.threads[t].Finding? && Enabled(p, before, EndRange(t))
      && AfterRange(before.threads[t]) == Some(Reached(p, start, run).value.threads[t])
  {
    var before;
    m, before := LeftBy(p, start, run, t);
    b := RangeIsWindow(p, start, run[..m], t);
    assert run[..m][b] == run[b];
    forall n | b < n < |run|
      ensures !StartsRange(run[n], t)
    {
      if n < m { assert run[..m][n] == run[n]; }
    }
  }

  /** An untouched key was reported to the Range before it ended, with the entry it has. */
  lemma UntouchedReported(p: Params, start: int, run: seq<Action>, t: nat, b: nat, m: nat, k: string) returns (n: nat)
    requires Reached(p, start, run).Some? && m < |run| && run[m] == EndRange(t) && RangeStart(run[..m], t, b)
    requires Untouched(p, start, run, b, m, k)
    ensures VisitAt(run[..m], t, b, n) && run[n].key == k && MapsTo(At(p, start, run, m), k, run[n].entry)
  {
    AtPrefix(p, start, run, m);
    AtStep(p, start, run, m);
    var b' := RangeIsWindow(p, start, run[..m], t);
    assert b' == b;
    assert Untouched(p, start, run[..m], b, m, k) by { UntouchedInPrefix(p, start, run, b, m, k); }
    n :| VisitAt(run[..m], t, b, n) && run[..m][n].key == k;
    VisitsAreReal(p, start, run[..m], t, b, n);
    var j :| b < j <= n && MapsTo(At(p, start, run[..m], j), k, run[n].entry);
    UntouchedStays(p, start, run, b, j, k);
    UntouchedStays(p, start, run, b, m, k);
  }

  lemma UntouchedInPrefix(p: Params, start: int, run: seq<Action>, b: nat, m: nat, k: string)
    requires Reached(p, start, run).Some? && b < m <= |run| && Untouched(p, start, run, b, m, k)
    ensures Untouched(p, start, run[..m], b, m, k)
  {
    AtPrefix(p, start, run, m);
    forall n | b < n < m
      ensures !Touches(p, At(p, start, run[..m], n), run[..m][n], k)
    {
      assert !Touches(p, At(p, start, run, n), run[n], k);
    }
  }

  /** The report of step `v`: a real entry, expiring no later than any key untouched from `b` to `m`. */
  ghost predicate OldestReport(p: Params, start: int, run: seq<Action>, t: nat, b: nat, m: nat, v: nat) {
    && v < m <= |run| && LeastVisit(run[..m], t, b, v)
    && MappedDuring(p, start, run, b, v, run[v].key, run[v].entry)
    && (forall k | Untouched(p, start, run, b, m, k) ::
          k in At(p, start, run, m).entries && run[v].entry.expiresAt <= At(p, start, run, m).entries[k].expiresAt)
  }

  /**
   What an eviction step removes, in every interleaving: the key of the first least-expiry report of
   the goroutine's last Range, and nothing else. That report was an entry the key had during the
   Range, and it expires no later than any key nobody stored or deleted during the Range. Nothing is
   removed when nothing was reported, and then no key was left untouched.
   */
  lemma VictimWasOldest(p: Params, start: int, run: seq<Action>, t: nat) returns (b: nat, m: nat, v: Option<nat>)
    requires Reached(p, start, run).Some? && Enabled(p, Reached(p, start, run).value, Evict(t))
    ensures FoundMinimum(run, t, b, m)
    ensures
      var s := Reached(p, start, run).value;
      var s' := Apply(p, s, Evict(t));
      && (v.Some? ==> OldestReport(p, start, run, t, b, m, v.value) && s'.entries == s.entries - {run[v.value].key})
      && (v.None? ==> s'.entries == s.entries && forall k :: !Untouched(p, start, run, b, m, k))
  {
    b, m := EvictingFound(p, start, run, t);
    var before := At(p, start, run, m);
    CandidateIsLeast(p, start, run[..m], t, b);
    if before.threads[t].oldest.Some? {
      var n: nat :| LeastVisit(run[..m], t, b, n)
                    && before.threads[t].oldest.value == (run[..m][n].key, run[..m][n].entry.expiresAt);
      v := Some(n);
      LeastIsOldest(p, start, run, t, b, m, n);
    } else {
      v := None;
      forall k | Untouched(p, start, run, b, m, k)
        ensures false
      {
        var n := UntouchedReported(p, start, run, t, b, m, k);
      }
    }
  }

  lemma LeastIsOldest(p: Params, start: int, run: seq<Action>, t: nat, b: nat, m: nat, v: nat)
    requires Reached(p, start, run).Some? && FoundMinimum(run, t, b, m) && RangeStart(run[..m], t, b)
    requires LeastVisit(run[..m], t, b, v)
    ensures OldestReport(p, start, run, t, b, m, v)
  {
    assert run[..m][v] == run[v] && VisitAt(run, t, b, v);
    VisitsAreReal(p, start, run, t, b, v);
    forall k | Untouched(p, start, run, b, m, k)
      ensures k in At(p, start, run, m).entries
      ensures run[v].entry.expiresAt <= At(p, start, run, m).entries[k].expiresAt
    {
      var n := UntouchedReported(p, start, run, t, b, m, k);
      assert run[..m][n] == run[n];
    }
  }

  // --------------------------------------------- why an entry leaves the map

  /** Get of goroutine `t` had loaded an expired entry under key `k`. */
  ghost predicate RemovedByGet(p: Params, start: int, run: seq<Action>, t: nat, k: string) {
    exists i: nat, l: nat, c: nat, e ::
      LoadedExpired(p, start, run, t, i, l, c, e) && k == KeyOf(p, CallOf(run[i].header))
  }

  /** The tick of goroutine `t` was told of an entry of `k` that had expired when the tick began. */
  ghost predicate RemovedBySweep(p: Params, start: int, run: seq<Action>, t: nat, k: string) {
    exists b: nat, v: nat ::
      && SweepVisit(run, t, b, v) && run[v].key == k && At(p, start, run, b).now > run[v].entry.expiresAt
      && MappedDuring(p, start, run, b, v, k, run[v].entry)
  }

  /** The last Range of goroutine `t` was told of an entry of `k` that no untouched key undercuts. */
  ghost predicate RemovedAsOldest(p: Params, start: int, run: seq<Action>, t: nat, k: string) {
    exists b: nat, m: nat, v: nat ::
      FoundMinimum(run, t, b, m) && OldestReport(p, start, run, t, b, m, v) && run[v].key == k
  }

  /**
   In every interleaving a key leaves the map for one of three reasons: Get had loaded it expired, a
   sweeper tick had it reported expired, or an eviction had it reported as the earliest to expire.
   */
  lemma WhyRemoved(p: Params, start: int, run: seq<Action>, a: Action, k: string)
    requires Reached(p, start, run).Some? && Enabled(p, Reached(p, start, run).value, a)
    requires k in Reached(p, start, run).value.entries && k !in Apply(p, Reached(p, start, run).value, a).entries
    ensures a.Drop? || a.SweepDrop? || a.Evict?
    ensures a.Drop? ==> RemovedByGet(p, start, run, a.t, k)
    ensures a.SweepDrop? ==> RemovedBySweep(p, start, run, a.t, k)
    ensures a.Evict? ==> RemovedAsOldest(p, start, run, a.t, k)
  {
    MapAfterStep(p, Reached(p, start, run).value, a);
    if a.Drop? {
      var i, l, c, e := DropsExpired(p, start, run, a.t);
    } else if a.SweepDrop? {
      var b, v := SweepDropsAfterVisit(p, start, run, a.t);
      SweepDropsExactly(p, start, run, a.t, b, v);
      VisitsAreReal(p, start, run, a.t, b, v);
    } else {
      var b, m, v := VictimWasOldest(p, start, run, a.t);
      assert v.Some? && run[v.value].key == k;
    }
  }

  // ------------------------------------------------ a fresh entry is lost

  /** Goroutine `t` is about to evict `k`, which expires later than every other entry. */
  ghost predicate EvictsLatest(s: State, t: nat, k: string) {
    && t in s.threads && s.threads[t].Evicting? && s.threads[t].victim == Some(k) && k in s.entries
    && (forall j | j in s.entries && j != k :: s.entries[j].expiresAt < s.entries[k].expiresAt)
  }

  /**
   The untouched keys are all that can be promised: for every limit some run chooses a key, has it
   stored anew by a request that missed earlier, and then evicts the entry that expires last of all.
   */
  lemma FreshEntryEvicted(p: Params, scheme: string) returns (s: State, k: string)
    requires p.maxEntries > 0 && Injective(p.digest) && scheme in p.registered && HeaderScheme(scheme)
    ensures Reachable(p, s) && EvictsLatest(s, 0, k) && |s.entries| == p.maxEntries + 1
    ensures k !in Apply(p, s, Evict(0)).entries
  {
    k := KeyOf(p, SampleCall(scheme, p.maxEntries));
    s := FillsUp(p, scheme, p.maxEntries);
    s := ChosenWhileAsking(p, scheme, s, k);
    s := StoredAnew(p, scheme, s, k);
  }

  /** Goroutine 1 has missed, goroutine 0 has stored the same key `k` and is about to evict it again. */
  ghost predicate AboutToEvict(p: Params, scheme: string, s: State, k: string) {
    && s.now == 0 && k in s.entries && |s.entries| == p.maxEntries + 1
    && (forall j | j in s.entries :: s.entries[j].expiresAt == p.ttl)
    && s.threads == map[1 := Asking(SampleCall(scheme, p.maxEntries)), 0 := Evicting(p.maxEntries + 1, Some(k))]
  }

  lemma ChosenWhileAsking(p: Params, scheme: string, s: State, k: string) returns (s': State)
    requires p.maxEntries > 0 && Injective(p.digest) && scheme in p.registered && HeaderScheme(scheme)
    requires Reachable(p, s) && Holds(p, scheme, s.entries, p.maxEntries)
    requires s.now == 0 && s.mutex.None? && s.threads == map[] && k == KeyOf(p, SampleCall(scheme, p.maxEntries))
    ensures Reachable(p, s') && AboutToEvict(p, scheme, s', k)
  {
    var s1 := AskedTwice(p, scheme, s, k);
    s' := ChoosesFirst(p, s1, k, p.ttl);
    assert s1.threads[0 := Evicting(p.maxEntries + 1, Some(k))]
        == map[1 := Asking(SampleCall(scheme, p.maxEntries)), 0 := Evicting(p.maxEntries + 1, Some(k))];
  }

  /** Two requests for `k` miss; goroutine 0 stores, goroutine 1 still asks. */
  lemma AskedTwice(p: Params, scheme: string, s: State, k: string) returns (s': State)
    requires p.maxEntries > 0 && Injective(p.digest) && scheme in p.registered && HeaderScheme(scheme)
    requires Reachable(p, s) && Holds(p, scheme, s.entries, p.maxEntries)
    requires s.now == 0 && s.mutex.None? && s.threads == map[] && k == KeyOf(p, SampleCall(scheme, p.maxEntries))
    ensures Reachable(p, s') && s'.now == 0 && s'.mutex.None? && k in s'.entries && |s'.entries| == p.maxEntries + 1
    ensures forall j | j in s'.entries :: s'.entries[j].expiresAt == p.ttl
    ensures s'.threads == map[1 := Asking(SampleCall(scheme, p.maxEntries)), 0 := Locking]
  {
    SampleAccepted(scheme, p.maxEntries);
    LaterKeyIsNew(p, scheme, p.maxEntries, p.maxEntries);
    var s1 := RequestMisses(p, s, 1, SampleHeader(scheme, p.maxEntries));
    assert s1.threads == map[1 := Asking(SampleCall(scheme, p.maxEntries))];
    s' := OneMoreStores(p, scheme, s1, p.maxEntries, 0);
  }

  /** Goroutine 0 counts one entry too many; its Range happens to visit `k` first, and all expire alike. */
  lemma ChoosesFirst(p: Params, s: State, k: string, expiry: int) returns (s': State)
    requires Reachable(p, s) && |s.entries| > p.maxEntries && k in s.entries
    requires forall j | j in s.entries :: s.entries[j].expiresAt == expiry
    requires s.mutex.None? && 0 in s.threads && s.threads[0].Locking?
    ensures Reachable(p, s') && s' == Move(s.(mutex := Some(0)), 0, Some(Evicting(|s.entries|, Some(k))))
  {
    var held, c := s.(mutex := Some(0)), |s.entries|;
    s' := LockAndCount(p, s, 0);
    s' := Extend(p, s', Decide(0));
    MoveTwice(held, 0, Deciding(c), Some(Finding(c, NewScan(s.entries), None)));
    s' := FindsFirst(p, s', k, expiry);
    MoveTwice(held, 0, Finding(c, NewScan(s.entries), None), Some(Evicting(c, Some(k))));
  }

  lemma FindsFirst(p: Params, s: State, k: string, expiry: int) returns (s': State)
    requires Reachable(p, s) && k in s.entries && (forall j | j in s.entries :: s.entries[j].expiresAt == expiry)
    requires 0 in s.threads && s.threads[0].Finding? && s.threads[0].oldest.None?
    requires s.threads[0].scan == NewScan(s.entries)
    ensures Reachable(p, s') && s' == Move(s, 0, Some(Evicting(s.threads[0].count, Some(k))))
  {
    s' := Extend(p, s, Visit(0, k, s.entries[k]));
    s' := VisitAll(p, s', 0);
    s' := Extend(p, s', EndRange(0));
  }

  /** A tick later goroutine 1 stores `k` anew, while goroutine 0 is about to evict it. */
  lemma StoredAnew(p: Params, scheme: string, s: State, k: string) returns (s': State)
    requires Reachable(p, s) && scheme in p.registered && k == KeyOf(p, SampleCall(scheme, p.maxEntries))
    requires AboutToEvict(p, scheme, s, k)
    ensures Reachable(p, s') && EvictsLatest(s', 0, k) && s'.entries.Keys == s.entries.Keys
  {
    s' := Extend(p, s, Tick(1));
    s' := AskedStores(p, s', 1, SampleCall(scheme, p.maxEntries));
  }
}
