/** What a cache hit is worth, in every interleaving of requests, evictions and sweeper ticks. */
module CacheHits {
  import opened Results
  import opened AuthorizationHeader
  import opened IntrospectionCache
  import opened CacheKeys
  import opened CacheProtocol
  import opened CacheRuns

  /** Token validity: `at` is not past the result's own expiration, if it has one. */
  predicate WithinToken(r: Introspection, at: int) { r.expiresAt.Some? ==> at <= r.expiresAt.value }

  /** Store `r` accounts for entry `e` under key `k`. */
  ghost predicate Backs(p: Params, now: int, r: StoreRecord, k: string, e: Entry) {
    && KeyOf(p, r.call) == k && r.result == e.result && r.at <= now
    && e.expiresAt <= r.at + p.ttl && WithinToken(e.result, e.expiresAt)
  }

  ghost predicate Backed(p: Params, s: State, k: string, e: Entry) {
    exists r | r in s.stores :: Backs(p, s.now, r, k, e)
  }

  /** Store `r` justifies hit `h`: same key and result, at most the TTL old, token not expired. */
  ghost predicate Justifies(p: Params, r: StoreRecord, h: Hit) {
    && KeyOf(p, r.call) == KeyOf(p, h.call) && r.result == h.result
    && r.at <= h.at <= r.at + p.ttl && WithinToken(h.result, h.at)
  }

  ghost predicate HistoryOk(p: Params, s: State) {
    && (forall h | h in s.hits :: exists r | r in s.stores :: Justifies(p, r, h))
    && (forall r | r in s.stores :: Answer(r.call, r.result) in s.answers)
    && (forall a | a in s.answers :: a.call.scheme in p.registered)
  }

  ghost predicate PcOk(p: Params, s: State, pc: Pc) {
    match pc
    case Checking(call, e) => Backed(p, s, KeyOf(p, call), e)
    case Stamping(call, r) => Answer(call, r) in s.answers
    case Storing(call, e) =>
      Answer(call, e.result) in s.answers && e.expiresAt <= s.now + p.ttl && WithinToken(e.result, e.expiresAt)
    case _ => true
  }

  ghost predicate HitInv(p: Params, s: State) {
    && HistoryOk(p, s)
    && (forall k | k in s.entries :: Backed(p, s, k, s.entries[k]))
    && (forall t | t in s.threads :: PcOk(p, s, s.threads[t]))
  }

  lemma HistoryAfterStore(p: Params, s: State, t: nat)
    requires HitInv(p, s) && Enabled(p, s, Store(t))
    ensures HistoryOk(p, StoreStep(p, s, t))
    ensures Backed(p, StoreStep(p, s, t), KeyOf(p, s.threads[t].call), s.threads[t].entry)
  {
    var pc := s.threads[t];
    assert PcOk(p, s, pc);
    assert Backs(p, s.now, StoreRecord(pc.call, pc.entry.result, s.now), KeyOf(p, pc.call), pc.entry);
  }

  lemma HistoryAfterCheck(p: Params, s: State, t: nat)
    requires HitInv(p, s) && t in s.threads && s.threads[t].Checking?
    ensures HistoryOk(p, CheckStep(s, t))
  {
    var pc := s.threads[t];
    assert PcOk(p, s, pc);
    if !Expired(pc.entry, s.now) {
      var r :| r in s.stores && Backs(p, s.now, r, KeyOf(p, pc.call), pc.entry);
      assert Justifies(p, r, Hit(pc.call, pc.entry.result, s.now));
    }
  }

  /** A step that brings one goroutine to an accounted-for position and adds no unaccounted entry. */
  lemma HitInvFrame(p: Params, s: State, s': State, t: nat)
    requires HitInv(p, s) && HistoryOk(p, s')
    requires s.stores <= s'.stores && s.answers <= s'.answers && s.now <= s'.now
    requires forall k | k in s'.entries ::
               (k in s.entries && s'.entries[k] == s.entries[k]) || Backed(p, s', k, s'.entries[k])
    requires forall u | u in s'.threads && u != t ::
               && u in s.threads
               && (s'.threads[u] == s.threads[u] || HasScan(s'.threads[u]) || s'.threads[u].SweepDropping?)
    requires t in s'.threads ==> PcOk(p, s', s'.threads[t])
    ensures HitInv(p, s')
  {}

  /** A deletion; no goroutine gains an entry or a result. */
  lemma HitInvAfterDelete(p: Params, s: State, k: string, t: nat, next: Pc)
    requires HitInv(p, s) && t in s.threads && (next.Asking? || next.Deciding? || next.Sweeping?)
    ensures HitInv(p, Delete(s, k, t, Some(next)))
  {
    HitInvFrame(p, s, Delete(s, k, t, Some(next)), t);
  }

  lemma HitInvAfterStore(p: Params, s: State, t: nat)
    requires HitInv(p, s) && Enabled(p, s, Store(t))
    ensures HitInv(p, StoreStep(p, s, t))
  {
    HistoryAfterStore(p, s, t);
    HitInvFrame(p, s, StoreStep(p, s, t), t);
  }

  lemma HitInvAfterDeleteStep(p: Params, s: State, a: Action)
    requires HitInv(p, s) && Enabled(p, s, a) && (a.Drop? || a.Evict? || a.SweepDrop?)
    ensures HitInv(p, Apply(p, s, a))
  {
    var pc := s.threads[a.t];
    if a.Drop? {
      HitInvAfterDelete(p, s, KeyOf(p, pc.call), a.t, Asking(pc.call));
    } else if a.SweepDrop? {
      HitInvAfterDelete(p, s, pc.key, a.t, Sweeping(pc.asOf, TouchScan(pc.scan, pc.key, None)));
    } else if pc.victim.Some? {
      HitInvAfterDelete(p, s, pc.victim.value, a.t, Deciding(pc.count - 1));
    } else {
      HitInvAfterMove(p, s, a.t, Some(Deciding(pc.count - 1)));
    }
  }

  /** One goroutine moves on; map and history stay. */
  lemma HitInvAfterMove(p: Params, s: State, t: nat, next: Option<Pc>)
    requires HitInv(p, s) && (next.Some? ==> PcOk(p, s, next.value))
    ensures HitInv(p, Move(s, t, next))
  {}

  /** The invariant does not look at the mutex. */
  lemma HitInvAfterMutex(p: Params, s: State, mutex: Option<nat>)
    requires HitInv(p, s)
    ensures HitInv(p, s.(mutex := mutex))
  {}

  lemma HitInvAfterCheck(p: Params, s: State, t: nat)
    requires HitInv(p, s) && Enabled(p, s, Check(t))
    ensures HitInv(p, CheckStep(s, t))
  {
    HistoryAfterCheck(p, s, t);
    HitInvFrame(p, s, CheckStep(s, t), t);
  }

  lemma HitInvAfterSucceed(p: Params, s: State, t: nat, r: Introspection)
    requires HitInv(p, s) && Enabled(p, s, Succeed(t, r))
    ensures HitInv(p, Apply(p, s, Succeed(t, r)))
  {
    HitInvFrame(p, s, Apply(p, s, Succeed(t, r)), t);
  }

  /** Requests between the cache and the chain. */
  lemma HitInvAfterRequestStep(p: Params, s: State, a: Action)
    requires HitInv(p, s) && Enabled(p, s, a) && (a.Begin? || a.Load? || a.Fail? || a.Stamp?)
    ensures HitInv(p, Apply(p, s, a))
  {
    if a.Begin? {
      HitInvAfterMove(p, s, a.t, Some(Loading(CallOf(a.header))));
    } else if a.Fail? {
      HitInvAfterMove(p, s, a.t, None);
    } else if a.Load? {
      HitInvAfterMove(p, s, a.t, Some(Apply(p, s, a).threads[a.t]));
    } else {
      assert PcOk(p, s, s.threads[a.t]);
      HitInvAfterMove(p, s, a.t, Some(Apply(p, s, a).threads[a.t]));
    }
  }

  /** Range calls and the mutex: no goroutine gains an entry or a result. */
  lemma HitInvAfterRangeStep(p: Params, s: State, a: Action)
    requires HitInv(p, s) && Enabled(p, s, a)
    requires a.BeginSweep? || a.Lock? || a.Visit? || a.EndRange? || a.Decide?
    ensures HitInv(p, Apply(p, s, a))
  {
    var s' := Apply(p, s, a);
    HitInvAfterMutex(p, s, s'.mutex);
    HitInvAfterMove(p, s.(mutex := s'.mutex), a.t, if a.t in s'.threads then Some(s'.threads[a.t]) else None);
  }

  /** Every step keeps the hit invariant. */
  lemma HitInvAfterStep(p: Params, s: State, a: Action)
    requires HitInv(p, s) && Enabled(p, s, a)
    ensures HitInv(p, Apply(p, s, a))
  {
    if a.Tick? {
      HitInvAfterTick(p, s, a.to);
    } else if a.Store? {
      HitInvAfterStore(p, s, a.t);
    } else if a.Drop? || a.Evict? || a.SweepDrop? {
      HitInvAfterDeleteStep(p, s, a);
    } else if a.Check? {
      HitInvAfterCheck(p, s, a.t);
    } else if a.Succeed? {
      HitInvAfterSucceed(p, s, a.t, a.result);
    } else if a.Begin? || a.Load? || a.Fail? || a.Stamp? {
      HitInvAfterRequestStep(p, s, a);
    } else {
      HitInvAfterRangeStep(p, s, a);
    }
  }

  lemma HitInvAfterTick(p: Params, s: State, to: int)
    requires HitInv(p, s) && s.now <= to
    ensures HitInv(p, s.(now := to))
  {}

  lemma {:induction false} HitInvReached(p: Params, start: int, run: seq<Action>)
    requires Reached(p, start, run).Some?
    ensures HitInv(p, Reached(p, start, run).value)
  {
    if run == [] {
    } else {
      HitInvReached(p, start, run[..|run| - 1]);
      HitInvAfterStep(p, Reached(p, start, run[..|run| - 1]).value, run[|run| - 1]);
    }
  }

  // ------------------------------------------ calls come from headers

  predicate FromHeader(c: Call) { HeaderScheme(c.scheme) && Trimmed(c.credential) }

  /** Every call, stored or answered, is one a header parses to. */
  ghost predicate CallsFromHeaders(s: State) {
    && (forall t | t in s.threads && HasCall(s.threads[t]) :: FromHeader(s.threads[t].call))
    && (forall r | r in s.stores :: FromHeader(r.call))
    && (forall h | h in s.hits :: FromHeader(h.call))
  }

  lemma CallsAfterMove(s: State, t: nat, next: Option<Pc>)
    requires CallsFromHeaders(s) && (next.Some? && HasCall(next.value) ==> FromHeader(next.value.call))
    ensures CallsFromHeaders(Move(s, t, next))
  {}

  lemma CallsAfterErase(s: State, k: string)
    requires CallsFromHeaders(s)
    ensures CallsFromHeaders(Erase(s, k))
  {}

  lemma CallsAfterStore(p: Params, s: State, t: nat)
    requires CallsFromHeaders(s) && Enabled(p, s, Store(t))
    ensures CallsFromHeaders(StoreStep(p, s, t))
  {}

  /** A step that leaves the map alone: the goroutine keeps its call, or takes one from a header. */
  lemma CallsAfterLocalStep(p: Params, s: State, a: Action)
    requires CallsFromHeaders(s) && Enabled(p, s, a) && !a.Tick?
    requires !a.Drop? && !a.Store? && !a.Evict? && !a.SweepDrop?
    ensures CallsFromHeaders(Apply(p, s, a))
  {
    if a.Begin? { ParseYields(a.header); }
  }

  lemma CallsAfterStep(p: Params, s: State, a: Action)
    requires CallsFromHeaders(s) && Enabled(p, s, a)
    ensures CallsFromHeaders(Apply(p, s, a))
  {
    if a.Tick? {
    } else if a.Store? {
      CallsAfterStore(p, s, a.t);
    } else if a.Drop? {
      CallsAfterErase(s, KeyOf(p, s.threads[a.t].call));
      CallsAfterMove(Erase(s, KeyOf(p, s.threads[a.t].call)), a.t, Some(Asking(s.threads[a.t].call)));
    } else if a.SweepDrop? || a.Evict? {
      CallsAfterQuietDelete(p, s, a);
    } else {
      CallsAfterLocalStep(p, s, a);
    }
  }

  /** Deletions by the sweeper and by eviction, which serve no call. */
  lemma CallsAfterQuietDelete(p: Params, s: State, a: Action)
    requires CallsFromHeaders(s) && Enabled(p, s, a) && (a.SweepDrop? || a.Evict?)
    ensures CallsFromHeaders(Apply(p, s, a))
  {
    var pc := s.threads[a.t];
    if a.SweepDrop? {
      CallsAfterErase(s, pc.key);
    } else if pc.victim.Some? {
      CallsAfterErase(s, pc.victim.value);
    }
  }

  lemma {:induction false} CallsReached(p: Params, start: int, run: seq<Action>)
    requires Reached(p, start, run).Some?
    ensures CallsFromHeaders(Reached(p, start, run).value)
  {
    if run == [] {
    } else {
      CallsReached(p, start, run[..|run| - 1]);
      CallsAfterStep(p, Reached(p, start, run[..|run| - 1]).value, run[|run| - 1]);
    }
  }

  /** The origin of a hit or entry: a chain success for the very same scheme and credential. */
  ghost predicate FromChain(s: State, call: Call, result: Introspection) {
    Answer(call, result) in s.answers
  }

  /**
   In every interleaving, a cache hit for a scheme that clashes with no registered scheme returns a
   result the strategy chain gave for that same scheme and credential, which was stored at most the
   TTL ago, and which is not past its own expiration.
   */
  lemma HitsAreSound(p: Params, start: int, run: seq<Action>, h: Hit)
    requires Injective(p.digest) && Reached(p, start, run).Some?
    requires h in Reached(p, start, run).value.hits
    requires forall scheme | scheme in p.registered :: !Clash(scheme, h.call.scheme)
    ensures
      var s := Reached(p, start, run).value;
      && FromChain(s, h.call, h.result)
      && (exists r | r in s.stores :: r.call == h.call && r.result == h.result && r.at <= h.at <= r.at + p.ttl)
      && WithinToken(h.result, h.at)
  {
    HitInvReached(p, start, run);
    CallsReached(p, start, run);
    var s := Reached(p, start, run).value;
    var r :| r in s.stores && Justifies(p, r, h);
    assert Answer(r.call, r.result) in s.answers;
    KeyDeterminesCall(p.digest, r.call.scheme, r.call.credential, h.call.scheme, h.call.credential);
  }

  /** Every entry in the map, in every interleaving, stems from a chain success stored under its key. */
  lemma EntriesComeFromSuccess(p: Params, start: int, run: seq<Action>, k: string)
    requires Reached(p, start, run).Some? && k in Reached(p, start, run).value.entries
    ensures
      var s := Reached(p, start, run).value;
      exists r | r in s.stores :: KeyOf(p, r.call) == k && FromChain(s, r.call, s.entries[k].result)
                                  && r.call.scheme in p.registered
  {
    HitInvReached(p, start, run);
    var s := Reached(p, start, run).value;
    var r :| r in s.stores && Backs(p, s.now, r, k, s.entries[k]);
  }

  // ------------------------------------- exactly when hits are sound

  /** Two headers with one key: the second request is answered with the result of the first. */
  lemma SharedKeyHit(p: Params, first: string, second: string) returns (s: State, h: Hit)
    requires p.ttl >= 0 && Accepted(first) && Accepted(second)
    requires CallOf(first).scheme in p.registered && KeyOf(p, CallOf(first)) == KeyOf(p, CallOf(second))
    ensures Reachable(p, s) && h in s.hits && h.call == CallOf(second)
    ensures s.answers == {Answer(CallOf(first), h.result)}
  {
    InitReachable(p);
    s := RequestStores(p, Init(0), 0, first);
    s := Extend(p, s, Begin(1, second));
    s := Extend(p, s, Load(1));
    s := Extend(p, s, Check(1));
    h := Hit(CallOf(second), SampleResult(), 0);
  }

  ghost predicate AllHitsFromChain(p: Params, scheme: string) {
    forall start, run, h |
      Reached(p, start, run).Some? && h in Reached(p, start, run).value.hits && h.call.scheme == scheme ::
      FromChain(Reached(p, start, run).value, h.call, h.result)
  }

  /** With a negative TTL entries are stored expired, and no request ever hits. */
  lemma NegativeTtlNeverHits(p: Params, start: int, run: seq<Action>)
    requires p.ttl < 0 && Reached(p, start, run).Some?
    ensures Reached(p, start, run).value.hits == {}
  {
    HitInvReached(p, start, run);
    var s := Reached(p, start, run).value;
    if h :| h in s.hits {
      assert false;
    }
  }

  /**
   Hits for a scheme are sound in every run exactly when it clashes with no registered scheme, or
   when the TTL is negative and nothing ever hits.
   */
  lemma HitsSoundExactly(p: Params, scheme: string)
    requires Injective(p.digest)
    ensures AllHitsFromChain(p, scheme) <==> p.ttl < 0 || forall r | r in p.registered :: !Clash(r, scheme)
  {
    if p.ttl < 0 {
      forall start, run | Reached(p, start, run).Some?
        ensures Reached(p, start, run).value.hits == {}
      {
        NegativeTtlNeverHits(p, start, run);
      }
    } else if r :| r in p.registered && Clash(r, scheme) {
      var first, second := ClashingHeaders(p.digest, r, scheme);
      var s, h := SharedKeyHit(p, first, second);
      var run :| Reached(p, 0, run) == Some(s);
      assert !FromChain(Reached(p, 0, run).value, h.call, h.result);
    } else {
      forall start, run, h |
        Reached(p, start, run).Some? && h in Reached(p, start, run).value.hits && h.call.scheme == scheme
        ensures FromChain(Reached(p, start, run).value, h.call, h.result)
      {
        HitsAreSound(p, start, run, h);
      }
    }
  }
}
