/** Runs of the concurrent cache, built step by step, and how far it can exceed its limit. */
module CacheRuns {
  import opened Results
  import opened AuthorizationHeader
  import opened IntrospectionCache
  import opened CacheKeys
  import opened CacheProtocol

  /** Some run from clock 0 reaches `s`. */
  ghost predicate Reachable(p: Params, s: State) {
    exists run :: Reached(p, 0, run) == Some(s)
  }

  lemma InitReachable(p: Params)
    ensures Reachable(p, Init(0))
  {
    assert Reached(p, 0, []) == Some(Init(0));
  }

  lemma Extend(p: Params, s: State, a: Action) returns (s': State)
    requires Reachable(p, s) && Enabled(p, s, a)
    ensures Reachable(p, s') && s' == Apply(p, s, a)
  {
    var run :| Reached(p, 0, run) == Some(s);
    s' := Apply(p, s, a);
    assert (run + [a])[..|run|] == run;
    assert Reached(p, 0, run + [a]) == Some(s');
  }

  /** A result without an expiration of its own. */
  function SampleResult(): Introspection { Introspection("", [], None, "", map[]) }

  /** No Range is in progress. */
  ghost predicate NoScans(threads: map<nat, Pc>) {
    forall t | t in threads :: !HasScan(threads[t]) && !threads[t].SweepDropping?
  }

  lemma TouchNothing(threads: map<nat, Pc>, k: string, e: Option<Entry>)
    requires NoScans(threads)
    ensures TouchAll(threads, k, e) == threads
  {}

  function Stored(p: Params, s: State, call: Call): State {
    s.(entries := s.entries[KeyOf(p, call) := Entry(SampleResult(), s.now + p.ttl)],
       answers := s.answers + {Answer(call, SampleResult())},
       stores := s.stores + {StoreRecord(call, SampleResult(), s.now)})
  }

  /** The goroutine that has stored: about to lock, or done when there is no limit. */
  function AfterStore(p: Params, s: State, t: nat, call: Call): State {
    Move(Stored(p, s, call), t, if p.maxEntries > 0 then Some(Locking) else None)
  }

  /** A request that has missed the cache succeeds and stores, with no Range in progress. */
  lemma AskedStores(p: Params, s: State, t: nat, call: Call) returns (s': State)
    requires Reachable(p, s) && NoScans(s.threads) && t in s.threads && s.threads[t] == Asking(call)
    requires call.scheme in p.registered
    ensures Reachable(p, s') && s' == AfterStore(p, s, t, call)
  {
    s' := Extend(p, s, Succeed(t, SampleResult()));
    s' := Extend(p, s', Stamp(t));
    TouchNothing(s'.threads, KeyOf(p, call), Some(s'.threads[t].entry));
    s' := Extend(p, s', Store(t));
  }

  lemma MoveTwice(s: State, t: nat, a: Pc, b: Option<Pc>)
    ensures Move(Move(s, t, Some(a)), t, b) == Move(s, t, b)
  {
    assert s.threads[t := a] - {t} == s.threads - {t};
  }

  /** A request for a key the cache does not hold. */
  lemma RequestMisses(p: Params, s: State, t: nat, header: string) returns (s': State)
    requires Reachable(p, s) && t !in s.threads && Accepted(header) && KeyOf(p, CallOf(header)) !in s.entries
    ensures Reachable(p, s') && s' == Move(s, t, Some(Asking(CallOf(header))))
  {
    var s1 := Extend(p, s, Begin(t, header));
    s' := Extend(p, s1, Load(t));
    MoveTwice(s, t, Loading(CallOf(header)), Some(Asking(CallOf(header))));
  }

  /** And up to its Store. */
  lemma RequestStores(p: Params, s: State, t: nat, header: string) returns (s': State)
    requires Reachable(p, s) && NoScans(s.threads) && t !in s.threads && Accepted(header)
    requires CallOf(header).scheme in p.registered && KeyOf(p, CallOf(header)) !in s.entries
    ensures Reachable(p, s') && s' == AfterStore(p, s, t, CallOf(header))
  {
    var s1 := RequestMisses(p, s, t, header);
    s' := AskedStores(p, s1, t, CallOf(header));
    var next := if p.maxEntries > 0 then Some(Locking) else None;
    MoveTwice(Stored(p, s, CallOf(header)), t, Asking(CallOf(header)), next);
  }

  // ---------------------------------------------------------- Range calls

  /** Nothing left to visit would replace the oldest entry found so far. */
  ghost predicate Settled(m: Entries, pc: Pc) {
    pc.Finding? ==> pc.oldest.Some? && forall k | k in m :: pc.oldest.value.1 <= m[k].expiresAt
  }

  function WithVisited(pc: Pc, visited: set<string>): Pc
    requires pc.Counting? || pc.Finding?
  {
    if pc.Counting? then Counting(pc.scan.(visited := visited))
    else Finding(pc.count, pc.scan.(visited := visited), pc.oldest)
  }

  /** A Range of goroutine `t` that can still report every entry as it is. */
  ghost predicate Ranging(s: State, t: nat) {
    && t in s.threads && (s.threads[t].Counting? || s.threads[t].Finding?) && Settled(s.entries, s.threads[t])
    && s.threads[t].scan.visited <= s.entries.Keys
    && forall k | k in s.entries :: (k, s.entries[k]) in s.threads[t].scan.offered
  }

  lemma VisitOne(p: Params, s: State, t: nat, k: string) returns (s': State)
    requires Reachable(p, s) && Ranging(s, t) && k in s.entries && k !in s.threads[t].scan.visited
    ensures Reachable(p, s') && Ranging(s', t)
    ensures s' == Move(s, t, Some(WithVisited(s.threads[t], s.threads[t].scan.visited + {k})))
  {
    s' := Extend(p, s, Visit(t, k, s.entries[k]));
  }

  /** An undisturbed Range visits every key. */
  lemma {:induction false} VisitAll(p: Params, s: State, t: nat) returns (s': State)
    requires Reachable(p, s) && Ranging(s, t)
    ensures Reachable(p, s')
    ensures s' == Move(s, t, Some(WithVisited(s.threads[t], s.entries.Keys)))
    decreases |s.entries.Keys - s.threads[t].scan.visited|
  {
    var visited := s.threads[t].scan.visited;
    if visited == s.entries.Keys {
      s' := s;
    } else {
      var k :| k in s.entries && k !in visited;
      var s1;
      s1 := VisitOne(p, s, t, k);
      assert s.entries.Keys - (visited + {k}) == (s.entries.Keys - visited) - {k};
      s' := VisitAll(p, s1, t);
      VisitMore(s, t, visited + {k});
    }
  }

  lemma VisitMore(s: State, t: nat, visited: set<string>)
    requires t in s.threads && (s.threads[t].Counting? || s.threads[t].Finding?)
    ensures
      var s1 := Move(s, t, Some(WithVisited(s.threads[t], visited)));
      Move(s1, t, Some(WithVisited(s1.threads[t], s.entries.Keys)))
      == Move(s, t, Some(WithVisited(s.threads[t], s.entries.Keys)))
  {
    MoveTwice(s, t, WithVisited(s.threads[t], visited), Some(WithVisited(s.threads[t], s.entries.Keys)));
  }

  /** A waiting Set takes the free mutex and counts, undisturbed. */
  lemma LockAndCount(p: Params, s: State, t: nat) returns (s': State)
    requires Reachable(p, s) && t in s.threads && s.threads[t].Locking? && s.mutex.None?
    ensures Reachable(p, s')
    ensures s' == Move(s.(mutex := Some(t)), t, Some(Deciding(|s.entries|)))
  {
    s' := Extend(p, s, Lock(t));
    s' := VisitAll(p, s', t);
    s' := Extend(p, s', EndRange(t));
  }

  // ------------------------------------------------- the bound is reached

  function Credential(i: nat): string { seq(i + 1, _ => 'x') }

  function SampleCall(scheme: string, i: nat): Call { Call(scheme, Credential(i)) }

  function SampleHeader(scheme: string, i: nat): string { scheme + " " + Credential(i) }

  lemma SampleAccepted(scheme: string, i: nat)
    requires HeaderScheme(scheme)
    ensures Accepted(SampleHeader(scheme, i)) && CallOf(SampleHeader(scheme, i)) == SampleCall(scheme, i)
  {
    ParseReaches(scheme, Credential(i));
  }

  /** The keys of the first `n` sample calls. */
  function SampleKeys(p: Params, scheme: string, n: nat): set<string> {
    if n == 0 then {} else SampleKeys(p, scheme, n - 1) + {KeyOf(p, SampleCall(scheme, n - 1))}
  }

  /** The map holds the first `n` sample entries, all stored at clock 0. */
  ghost predicate Holds(p: Params, scheme: string, m: Entries, n: nat) {
    && m.Keys == SampleKeys(p, scheme, n) && |m| == n
    && forall k | k in m :: m[k].expiresAt == p.ttl
  }

  lemma {:induction false} LaterKeyIsNew(p: Params, scheme: string, n: nat, i: nat)
    requires Injective(p.digest) && HeaderScheme(scheme) && n <= i
    ensures KeyOf(p, SampleCall(scheme, i)) !in SampleKeys(p, scheme, n)
  {
    if n == 0 {
    } else {
      LaterKeyIsNew(p, scheme, n - 1, i);
      if KeyOf(p, SampleCall(scheme, i)) == KeyOf(p, SampleCall(scheme, n - 1)) {
        KeyDeterminesCall(p.digest, scheme, Credential(i), scheme, Credential(n - 1));
        assert false;
      }
    }
  }

  lemma HoldsOneMore(p: Params, scheme: string, m: Entries, n: nat)
    requires Injective(p.digest) && HeaderScheme(scheme) && Holds(p, scheme, m, n)
    ensures KeyOf(p, SampleCall(scheme, n)) !in m
    ensures Holds(p, scheme, m[KeyOf(p, SampleCall(scheme, n)) := Entry(SampleResult(), p.ttl)], n + 1)
  {
    LaterKeyIsNew(p, scheme, n, n);
    var m' := m[KeyOf(p, SampleCall(scheme, n)) := Entry(SampleResult(), p.ttl)];
    assert m'.Keys == m.Keys + {KeyOf(p, SampleCall(scheme, n))};
  }

  /** One more sample request stores its entry and waits for the mutex. */
  lemma OneMoreStores(p: Params, scheme: string, s: State, n: nat, t: nat)
    returns (s': State)
    requires Injective(p.digest) && scheme in p.registered && HeaderScheme(scheme)
    requires Reachable(p, s) && Holds(p, scheme, s.entries, n) && NoScans(s.threads)
    requires t !in s.threads && s.now == 0
    ensures Reachable(p, s') && Holds(p, scheme, s'.entries, n + 1)
    ensures s' == AfterStore(p, s, t, SampleCall(scheme, n))
  {
    SampleAccepted(scheme, n);
    HoldsOneMore(p, scheme, s.entries, n);
    s' := RequestStores(p, s, t, SampleHeader(scheme, n));
  }

  lemma StartsEmpty(p: Params, scheme: string) returns (s: State)
    ensures Reachable(p, s) && Holds(p, scheme, s.entries, 0)
    ensures s.now == 0 && s.mutex.None? && s.threads == map[]
  {
    s := Init(0);
    InitReachable(p);
  }

  /** Up to the limit, requests one after the other fill the map and finish. */
  lemma {:induction false} FillsUp(p: Params, scheme: string, n: nat) returns (s: State)
    requires n <= p.maxEntries && Injective(p.digest) && scheme in p.registered && HeaderScheme(scheme)
    ensures Reachable(p, s) && Holds(p, scheme, s.entries, n)
    ensures s.now == 0 && s.mutex.None? && s.threads == map[]
  {
    if n == 0 {
      s := StartsEmpty(p, scheme);
    } else {
      s := FillsUp(p, scheme, n - 1);
      s := OneMoreFinishes(p, scheme, s, n - 1);
    }
  }

  /** Below the limit a sample request stores, counts and finishes without evicting. */
  lemma OneMoreFinishes(p: Params, scheme: string, s: State, n: nat) returns (s': State)
    requires n < p.maxEntries && Injective(p.digest) && scheme in p.registered && HeaderScheme(scheme)
    requires Reachable(p, s) && Holds(p, scheme, s.entries, n)
    requires s.now == 0 && s.mutex.None? && s.threads == map[]
    ensures Reachable(p, s') && Holds(p, scheme, s'.entries, n + 1)
    ensures s'.now == 0 && s'.mutex.None? && s'.threads == map[]
  {
    s' := OneMoreStores(p, scheme, s, n, 0);
    s' := LockAndCount(p, s', 0);
    s' := Extend(p, s', Decide(0));
  }

  /** Goroutines 0 to n - 1 wait for the mutex, and nobody else runs. */
  ghost predicate AllWaiting(threads: map<nat, Pc>, n: nat) {
    && (forall t: nat :: t in threads <==> t < n)
    && (forall t | t in threads :: threads[t].Locking?)
    && |PendingSets(threads)| == n
  }

  lemma NobodyWaits()
    ensures AllWaiting(map[], 0)
  {
    assert PendingSets(map[]) == {};
  }

  lemma OneMoreWaits(threads: map<nat, Pc>, n: nat)
    requires AllWaiting(threads, n)
    ensures AllWaiting(threads[n := Locking], n + 1) && NoScans(threads) && n !in threads
  {
    assert PendingSets(threads[n := Locking]) == PendingSets(threads) + {n};
  }

  lemma {:induction false} Overfills(p: Params, scheme: string, n: nat) returns (s: State)
    requires p.maxEntries > 0 && Injective(p.digest) && scheme in p.registered && HeaderScheme(scheme)
    ensures Overfull(p, scheme, s, n)
  {
    if n == 0 {
      s := JustFull(p, scheme);
    } else {
      s := Overfills(p, scheme, n - 1);
      s := OneMoreInFlight(p, scheme, s, n - 1);
    }
  }

  /** The state holds n entries more than the limit, each stored by a goroutine that waits for the mutex. */
  ghost predicate Overfull(p: Params, scheme: string, s: State, n: nat) {
    && Reachable(p, s) && Holds(p, scheme, s.entries, p.maxEntries + n)
    && s.now == 0 && AllWaiting(s.threads, n)
  }

  lemma JustFull(p: Params, scheme: string) returns (s: State)
    requires p.maxEntries > 0 && Injective(p.digest) && scheme in p.registered && HeaderScheme(scheme)
    ensures Overfull(p, scheme, s, 0)
  {
    s := FillsUp(p, scheme, p.maxEntries);
    NobodyWaits();
  }

  lemma OneMoreInFlight(p: Params, scheme: string, s: State, n: nat) returns (s': State)
    requires p.maxEntries > 0 && Injective(p.digest) && scheme in p.registered && HeaderScheme(scheme)
    requires Overfull(p, scheme, s, n)
    ensures Overfull(p, scheme, s', n + 1)
  {
    OneMoreWaits(s.threads, n);
    s' := OneMoreStores(p, scheme, s, p.maxEntries + n, n);
  }

  /**
   The bound on the size is tight: for every limit and every number of Sets in flight, some run of
   requests holds exactly that many entries more than the limit.
   */
  lemma BoundIsTight(p: Params, scheme: string, n: nat) returns (s: State)
    requires p.maxEntries > 0 && Injective(p.digest) && scheme in p.registered && HeaderScheme(scheme)
    ensures Reachable(p, s) && |PendingSets(s.threads)| == n && |s.entries| == p.maxEntries + n
  {
    s := Overfills(p, scheme, n);
  }
}
