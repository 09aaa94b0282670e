/**
 The cache under concurrent requests and sweeper ticks.

 Every goroutine has a program counter. Load, Store and Delete on the shared map, clock reads and
 mutex operations are single steps; everything else may happen in between. Range is not a
 snapshot: it visits a key at most once, may report any mapping the key had during the call, and
 must visit every key that nobody stores or deletes during the call.
 */
module CacheProtocol {
  import opened Results
  import opened AuthorizationHeader
  import opened IntrospectionCache
  import opened CacheKeys

  datatype Params = Params(ttl: int, maxEntries: nat, registered: set<string>, digest: string -> string)

  datatype Call = Call(scheme: string, credential: string)

  /** The call an authorization header asks for; a malformed header is rejected before the cache. */
  function CallOf(header: string): Call {
    Call(ParseAuthorization(header).0, ParseAuthorization(header).1)
  }

  predicate Accepted(header: string) { CallOf(header).scheme != "" && CallOf(header).credential != "" }

  /** A Range in progress: mappings it may report, keys it has visited, keys it still must visit. */
  datatype Scan = Scan(offered: set<(string, Entry)>, visited: set<string>, owed: set<string>)

  datatype Pc =
    // introspect and Cache.Get
    | Loading(call: Call)
    | Checking(call: Call, entry: Entry)
    | Dropping(call: Call)
    | Asking(call: Call)
    // Cache.Set
    | Stamping(call: Call, result: Introspection)
    | Storing(call: Call, entry: Entry)
    // evictIfNeeded
    | Locking
    | Counting(scan: Scan)
    | Deciding(count: int)
    | Finding(count: int, scan: Scan, oldest: Option<(string, int)>)
    | Evicting(count: int, victim: Option<string>)
    // one sweeper tick
    | Sweeping(asOf: int, scan: Scan)
    | SweepDropping(asOf: int, scan: Scan, key: string)

  /** History: chain successes, Stores and cache hits. No step depends on it. */
  datatype Answer = Answer(call: Call, result: Introspection)
  datatype StoreRecord = StoreRecord(call: Call, result: Introspection, at: int)
  datatype Hit = Hit(call: Call, result: Introspection, at: int)

  datatype State = State(
    now: int, entries: Entries, mutex: Option<nat>, threads: map<nat, Pc>,
    answers: set<Answer>, stores: set<StoreRecord>, hits: set<Hit>)

  function Init(start: int): State {
    State(start, map[], None, map[], {}, {}, {})
  }

  function KeyOf(p: Params, c: Call): string { CacheKey(p.digest, c.scheme, c.credential) }

  function NewScan(m: Entries): Scan {
    Scan(set k | k in m :: (k, m[k]), {}, m.Keys)
  }

  function OfferedKeys(scan: Scan): set<string> { set o | o in scan.offered :: o.0 }

  /** A running Range notices that `k` was stored (with the entry) or deleted. */
  function TouchScan(scan: Scan, k: string, e: Option<Entry>): Scan {
    Scan(scan.offered + (if e.Some? then {(k, e.value)} else {}), scan.visited, scan.owed - {k})
  }

  function Touch(pc: Pc, k: string, e: Option<Entry>): Pc {
    match pc
    case Counting(scan) => Counting(TouchScan(scan, k, e))
    case Finding(c, scan, o) => Finding(c, TouchScan(scan, k, e), o)
    case Sweeping(t, scan) => Sweeping(t, TouchScan(scan, k, e))
    case SweepDropping(t, scan, d) => SweepDropping(t, TouchScan(scan, k, e), d)
    case _ => pc
  }

  function TouchAll(threads: map<nat, Pc>, k: string, e: Option<Entry>): map<nat, Pc> {
    map t | t in threads :: Touch(threads[t], k, e)
  }

  // --------------------------------------------------------------- steps

  datatype Action =
    | Tick(to: int)
    | Begin(t: nat, header: string)
    | BeginSweep(t: nat)
    | Load(t: nat)
    | Check(t: nat)
    | Drop(t: nat)
    | Fail(t: nat)
    | Succeed(t: nat, result: Introspection)
    | Stamp(t: nat)
    | Store(t: nat)
    | Lock(t: nat)
    | Visit(t: nat, key: string, entry: Entry)
    | EndRange(t: nat)
    | Decide(t: nat)
    | Evict(t: nat)
    | SweepDrop(t: nat)

  /** A request that still carries its call. */
  predicate HasCall(pc: Pc) {
    pc.Loading? || pc.Checking? || pc.Dropping? || pc.Asking? || pc.Stamping? || pc.Storing?
  }

  predicate HasScan(pc: Pc) { pc.Counting? || pc.Finding? || pc.Sweeping? }

  predicate Enabled(p: Params, s: State, a: Action) {
    match a
    case Tick(to) => to >= s.now
    case Begin(t, header) => t !in s.threads && Accepted(header)
    case BeginSweep(t) => t !in s.threads
    case Load(t) => t in s.threads && s.threads[t].Loading?
    case Check(t) => t in s.threads && s.threads[t].Checking?
    case Drop(t) => t in s.threads && s.threads[t].Dropping?
    case Fail(t) => t in s.threads && s.threads[t].Asking?
    case Succeed(t, _) => t in s.threads && s.threads[t].Asking? && s.threads[t].call.scheme in p.registered
    case Stamp(t) => t in s.threads && s.threads[t].Stamping?
    case Store(t) => t in s.threads && s.threads[t].Storing?
    case Lock(t) => t in s.threads && s.threads[t].Locking? && s.mutex.None?
    case Visit(t, k, e) =>
      && t in s.threads && HasScan(s.threads[t])
      && (k, e) in s.threads[t].scan.offered && k !in s.threads[t].scan.visited
    case EndRange(t) =>
      t in s.threads && HasScan(s.threads[t]) && s.threads[t].scan.owed <= s.threads[t].scan.visited
    case Decide(t) => t in s.threads && s.threads[t].Deciding?
    case Evict(t) => t in s.threads && s.threads[t].Evicting?
    case SweepDrop(t) => t in s.threads && s.threads[t].SweepDropping?
  }

  /** The goroutine moves on, or is gone when `next` is None. */
  function Move(s: State, t: nat, next: Option<Pc>): State {
    s.(threads := if next.Some? then s.threads[t := next.value] else s.threads - {t})
  }

  /** sync.Map.Delete, seen by every Range in progress. */
  function Erase(s: State, k: string): State {
    s.(entries := s.entries - {k}, threads := TouchAll(s.threads, k, None))
  }

  function Delete(s: State, k: string, t: nat, next: Option<Pc>): State {
    Move(Erase(s, k), t, next)
  }

  function Visited(pc: Pc, k: string, e: Entry): Pc
    requires HasScan(pc)
  {
    var scan := pc.scan.(visited := pc.scan.visited + {k});
    match pc
    case Counting(_) => Counting(scan)
    case Finding(c, _, o) =>
      Finding(c, scan, if o.None? || e.expiresAt < o.value.1 then Some((k, e.expiresAt)) else o)
    case Sweeping(asOf, _) =>
      if asOf > e.expiresAt then SweepDropping(asOf, scan, k) else Sweeping(asOf, scan)
  }

  function AfterRange(pc: Pc): Option<Pc>
    requires HasScan(pc)
  {
    match pc
    case Counting(scan) => Some(Deciding(|scan.visited|))
    case Finding(c, _, o) => Some(Evicting(c, if o.None? then None else Some(o.value.0)))
    case Sweeping(_, _) => None
  }

  function StoreStep(p: Params, s: State, t: nat): State
    requires Enabled(p, s, Store(t))
  {
    var pc := s.threads[t];
    var k := KeyOf(p, pc.call);
    Move(s.(entries := s.entries[k := pc.entry],
            threads := TouchAll(s.threads, k, Some(pc.entry)),
            stores := s.stores + {StoreRecord(pc.call, pc.entry.result, s.now)}),
         t, if p.maxEntries > 0 then Some(Locking) else None)
  }

  function CheckStep(s: State, t: nat): State
    requires t in s.threads && s.threads[t].Checking?
  {
    var pc := s.threads[t];
    if Expired(pc.entry, s.now) then Move(s, t, Some(Dropping(pc.call)))
    else Move(s.(hits := s.hits + {Hit(pc.call, pc.entry.result, s.now)}), t, None)
  }

  function DecideStep(p: Params, s: State, t: nat): State
    requires t in s.threads && s.threads[t].Deciding?
  {
    var c := s.threads[t].count;
    if c > p.maxEntries then Move(s, t, Some(Finding(c, NewScan(s.entries), None)))
    else Move(s.(mutex := None), t, None)
  }

  function EvictStep(s: State, t: nat): State
    requires t in s.threads && s.threads[t].Evicting?
  {
    var pc := s.threads[t];
    var next := Some(Deciding(pc.count - 1));
    if pc.victim.Some? then Delete(s, pc.victim.value, t, next) else Move(s, t, next)
  }

  function Apply(p: Params, s: State, a: Action): State
    requires Enabled(p, s, a)
  {
    match a
    case Tick(to) => s.(now := to)
    case Begin(t, header) => Move(s, t, Some(Loading(CallOf(header))))
    case BeginSweep(t) => Move(s, t, Some(Sweeping(s.now, NewScan(s.entries))))
    case Load(t) =>
      var call := s.threads[t].call;
      var k := KeyOf(p, call);
      Move(s, t, Some(if k in s.entries then Checking(call, s.entries[k]) else Asking(call)))
    case Check(t) => CheckStep(s, t)
    case Drop(t) => Delete(s, KeyOf(p, s.threads[t].call), t, Some(Asking(s.threads[t].call)))
    case Fail(t) => Move(s, t, None)
    case Succeed(t, r) =>
      var call := s.threads[t].call;
      Move(s.(answers := s.answers + {Answer(call, r)}), t, Some(Stamping(call, r)))
    case Stamp(t) =>
      var pc := s.threads[t];
      Move(s, t, Some(Storing(pc.call, Entry(pc.result, Expiry(p.ttl, pc.result, s.now)))))
    case Store(t) => StoreStep(p, s, t)
    case Lock(t) => Move(s.(mutex := Some(t)), t, Some(Counting(NewScan(s.entries))))
    case Visit(t, k, e) => Move(s, t, Some(Visited(s.threads[t], k, e)))
    case EndRange(t) => Move(s, t, AfterRange(s.threads[t]))
    case Decide(t) => DecideStep(p, s, t)
    case Evict(t) => EvictStep(s, t)
    case SweepDrop(t) =>
      var pc := s.threads[t];
      Delete(s, pc.key, t, Some(Sweeping(pc.asOf, TouchScan(pc.scan, pc.key, None))))
  }

  /** The state a run of enabled steps reaches; None when some step was not enabled. */
  function Reached(p: Params, start: int, run: seq<Action>): Option<State> {
    if run == [] then Some(Init(start))
    else
      var last := run[|run| - 1];
      match Reached(p, start, run[..|run| - 1])
      case None => None
      case Some(s) => if Enabled(p, s, last) then Some(Apply(p, s, last)) else None
  }

  // ------------------------------------------------ the size invariant

  /** A Set that has stored but not yet finished evicting. */
  predicate InFlight(pc: Pc) { pc.Locking? || Holding(pc) }
  predicate Holding(pc: Pc) { pc.Counting? || pc.Deciding? || pc.Finding? || pc.Evicting? }

  function PendingSets(threads: map<nat, Pc>): set<nat> {
    set t | t in threads && InFlight(threads[t])
  }

  ghost predicate MutexHeld(s: State) {
    && (s.mutex.Some? ==> s.mutex.value in s.threads && Holding(s.threads[s.mutex.value]))
    && (forall t | t in s.threads && Holding(s.threads[t]) :: s.mutex == Some(t))
  }

  /** What the mutex holder knows, with `others` further Sets in flight. */
  ghost predicate HolderKnows(max: nat, keys: set<string>, pc: Pc, others: nat) {
    match pc
    case Counting(scan) => |keys - scan.owed| <= others
    case Deciding(c) => |keys| <= c + others
    case Finding(c, scan, o) =>
      && c > max && |keys| <= c + others && |keys - scan.owed| <= others
      && (o.None? ==> scan.visited == {})
      && (o.Some? ==> o.value.0 in OfferedKeys(scan))
      && (forall k | k in OfferedKeys(scan) && k !in keys :: |keys| < c + others)
    case Evicting(c, v) =>
      && c > max && |keys| <= c + others
      && (v.None? ==> |keys| <= others)
      && (v.Some? && v.value !in keys ==> |keys| < c + others)
    case _ => true
  }

  ghost predicate Bounded(p: Params, s: State) {
    |s.entries| <= p.maxEntries + |PendingSets(s.threads)|
  }

  ghost predicate HolderInv(p: Params, s: State) {
    forall t | t in s.threads && Holding(s.threads[t]) ::
      HolderKnows(p.maxEntries, s.entries.Keys, s.threads[t], |PendingSets(s.threads) - {t}|)
  }

  ghost predicate SizeInv(p: Params, s: State) {
    MutexHeld(s) && Bounded(p, s) && HolderInv(p, s)
  }

  lemma CardSubset<T>(a: set<T>, b: set<T>)
    requires a <= b
    ensures |a| <= |b|
  {
    assert b == a + (b - a);
  }

  lemma CardAdd<T>(a: set<T>, x: T)
    ensures |a + {x}| <= |a| + 1 && (x !in a ==> |a + {x}| == |a| + 1)
  {
    if x in a { assert a + {x} == a; }
  }

  lemma OfferedAfterTouch(scan: Scan, k: string, e: Option<Entry>)
    ensures OfferedKeys(scan) <= OfferedKeys(TouchScan(scan, k, e))
    ensures OfferedKeys(TouchScan(scan, k, e)) <= OfferedKeys(scan) + {k}
    ensures e.None? ==> OfferedKeys(TouchScan(scan, k, e)) == OfferedKeys(scan)
  {
    forall x | x in OfferedKeys(scan)
      ensures x in OfferedKeys(TouchScan(scan, k, e))
    {
      var o :| o in scan.offered && o.0 == x;
      assert o in TouchScan(scan, k, e).offered;
    }
  }

  /** Another Set stores: one more key at most, and one more Set in flight. */
  lemma HolderSeesStore(max: nat, keys: set<string>, pc: Pc, others: nat, k: string, e: Entry)
    requires HolderKnows(max, keys, pc, others)
    ensures HolderKnows(max, keys + {k}, Touch(pc, k, Some(e)), others + 1)
  {
    CardAdd(keys, k);
    if HasScan(pc) {
      var owed := pc.scan.owed;
      CardAdd(keys - owed, k);
      CardSubset((keys + {k}) - (owed - {k}), (keys - owed) + {k});
      OfferedAfterTouch(pc.scan, k, Some(e));
    }
  }

  /** Get or the sweeper deletes outside the mutex. */
  lemma HolderSeesDelete(max: nat, keys: set<string>, pc: Pc, others: nat, k: string)
    requires HolderKnows(max, keys, pc, others)
    ensures HolderKnows(max, keys - {k}, Touch(pc, k, None), others)
  {
    CardSubset(keys - {k}, keys);
    if k in keys { assert |keys - {k}| == |keys| - 1; } else { assert keys - {k} == keys; }
    if HasScan(pc) {
      CardSubset((keys - {k}) - (pc.scan.owed - {k}), keys - pc.scan.owed);
      OfferedAfterTouch(pc.scan, k, None);
    }
  }

  lemma NewScanOffers(m: Entries)
    ensures OfferedKeys(NewScan(m)) == m.Keys
  {
    forall k | k in m
      ensures k in OfferedKeys(NewScan(m))
    {
      assert (k, m[k]) in NewScan(m).offered;
    }
  }

  lemma TouchKeepsPending(threads: map<nat, Pc>, k: string, e: Option<Entry>)
    ensures PendingSets(TouchAll(threads, k, e)) == PendingSets(threads)
  {}

  predicate NotInFlight(next: Option<Pc>) { next.None? || !InFlight(next.value) }

  lemma PendingAfterMove(s: State, t: nat, next: Option<Pc>)
    requires MutexHeld(s) && (t in s.threads ==> !InFlight(s.threads[t])) && NotInFlight(next)
    ensures PendingSets(Move(s, t, next).threads) == PendingSets(s.threads)
    ensures MutexHeld(Move(s, t, next))
  {}

  /** A goroutine that is not evicting moves on without touching the map. */
  lemma SizeAfterMove(p: Params, s: State, t: nat, next: Option<Pc>)
    requires SizeInv(p, s) && (t in s.threads ==> !InFlight(s.threads[t])) && NotInFlight(next)
    ensures SizeInv(p, Move(s, t, next))
  {
    PendingAfterMove(s, t, next);
  }

  lemma MutexAfterErase(s: State, k: string)
    requires MutexHeld(s)
    ensures MutexHeld(Erase(s, k))
  {}

  lemma SizeAfterErase(p: Params, s: State, k: string)
    requires SizeInv(p, s)
    ensures SizeInv(p, Erase(s, k))
    ensures s.mutex.Some? ==> HolderKnows(p.maxEntries, s.entries.Keys - {k}, Touch(s.threads[s.mutex.value], k, None),
                                          |PendingSets(s.threads) - {s.mutex.value}|)
  {
    MutexAfterErase(s, k);
    TouchKeepsPending(s.threads, k, None);
    assert Erase(s, k).entries.Keys == s.entries.Keys - {k};
    CardSubset(s.entries.Keys - {k}, s.entries.Keys);
    if s.mutex.Some? {
      var h := s.mutex.value;
      HolderSeesDelete(p.maxEntries, s.entries.Keys, s.threads[h], |PendingSets(s.threads) - {h}|, k);
      assert Erase(s, k).threads[h] == Touch(s.threads[h], k, None);
    }
  }

  lemma SizeAfterDelete(p: Params, s: State, k: string, t: nat, next: Option<Pc>)
    requires SizeInv(p, s) && t in s.threads && !InFlight(s.threads[t]) && NotInFlight(next)
    ensures SizeInv(p, Delete(s, k, t, next))
  {
    SizeAfterErase(p, s, k);
    SizeAfterMove(p, Erase(s, k), t, next);
  }

  lemma PendingAfterStore(p: Params, s: State, t: nat)
    requires p.maxEntries > 0 && Enabled(p, s, Store(t)) && MutexHeld(s)
    ensures MutexHeld(StoreStep(p, s, t))
    ensures PendingSets(StoreStep(p, s, t).threads) == PendingSets(s.threads) + {t}
  {
    TouchKeepsPending(s.threads, KeyOf(p, s.threads[t].call), Some(s.threads[t].entry));
  }

  lemma ViewAfterStore(p: Params, s: State, t: nat, h: nat)
    requires p.maxEntries > 0 && MutexHeld(s) && Enabled(p, s, Store(t)) && s.mutex == Some(h)
    ensures
      var pc, s' := s.threads[t], StoreStep(p, s, t);
      && h in s'.threads && s'.threads[h] == Touch(s.threads[h], KeyOf(p, pc.call), Some(pc.entry))
      && s'.entries.Keys == s.entries.Keys + {KeyOf(p, pc.call)}
      && |PendingSets(s'.threads) - {h}| == |PendingSets(s.threads) - {h}| + 1
  {
    var pending := PendingSets(s.threads);
    PendingAfterStore(p, s, t);
    assert (pending + {t}) - {h} == (pending - {h}) + {t};
    CardAdd(pending - {h}, t);
  }

  lemma HolderAfterStore(p: Params, s: State, t: nat)
    requires p.maxEntries > 0 && MutexHeld(s) && HolderInv(p, s) && Enabled(p, s, Store(t))
    requires MutexHeld(StoreStep(p, s, t))
    ensures HolderInv(p, StoreStep(p, s, t))
  {
    if s.mutex.Some? {
      var h, pc := s.mutex.value, s.threads[t];
      ViewAfterStore(p, s, t, h);
      HolderSeesStore(p.maxEntries, s.entries.Keys, s.threads[h], |PendingSets(s.threads) - {h}|,
                      KeyOf(p, pc.call), pc.entry);
    }
  }

  lemma SizeAfterStore(p: Params, s: State, t: nat)
    requires p.maxEntries > 0 && SizeInv(p, s) && Enabled(p, s, Store(t))
    ensures SizeInv(p, StoreStep(p, s, t))
  {
    PendingAfterStore(p, s, t);
    HolderAfterStore(p, s, t);
    CardAdd(PendingSets(s.threads), t);
    assert StoreStep(p, s, t).entries.Keys == s.entries.Keys + {KeyOf(p, s.threads[t].call)};
    CardAdd(s.entries.Keys, KeyOf(p, s.threads[t].call));
  }

  lemma PendingAfterHolderMove(s: State, t: nat, next: Pc)
    requires MutexHeld(s) && s.mutex == Some(t) && Holding(next)
    ensures PendingSets(Move(s, t, Some(next)).threads) == PendingSets(s.threads)
    ensures MutexHeld(Move(s, t, Some(next)))
  {}

  /** The holder itself moves on, keeping the mutex, with the map unchanged. */
  lemma SizeAfterHolderMove(p: Params, s: State, t: nat, next: Pc)
    requires SizeInv(p, s) && s.mutex == Some(t) && Holding(next)
    requires HolderKnows(p.maxEntries, s.entries.Keys, next, |PendingSets(s.threads) - {t}|)
    ensures SizeInv(p, Move(s, t, Some(next)))
  {
    PendingAfterHolderMove(s, t, next);
  }

  lemma SizeAfterLock(p: Params, s: State, t: nat)
    requires SizeInv(p, s) && Enabled(p, s, Lock(t))
    ensures SizeInv(p, Apply(p, s, Lock(t)))
  {
    var s' := Apply(p, s, Lock(t));
    assert PendingSets(s'.threads) == PendingSets(s.threads);
    assert s.entries.Keys - NewScan(s.entries).owed == {};
  }

  lemma HolderVisits(max: nat, keys: set<string>, pc: Pc, others: nat, k: string, e: Entry)
    requires HolderKnows(max, keys, pc, others) && Holding(pc) && HasScan(pc) && (k, e) in pc.scan.offered
    ensures HolderKnows(max, keys, Visited(pc, k, e), others)
  {
    assert (k, e).0 in OfferedKeys(pc.scan);
    assert OfferedKeys(Visited(pc, k, e).scan) == OfferedKeys(pc.scan);
  }

  lemma HolderEndsRange(max: nat, keys: set<string>, pc: Pc, others: nat)
    requires HolderKnows(max, keys, pc, others) && Holding(pc) && HasScan(pc) && pc.scan.owed <= pc.scan.visited
    ensures HolderKnows(max, keys, AfterRange(pc).value, others)
  {
    var owed := pc.scan.owed;
    CardSubset(keys, owed + (keys - owed));
    CardSubset(owed, pc.scan.visited);
    assert |owed + (keys - owed)| <= |owed| + |keys - owed|;
  }

  lemma SizeAfterDecide(p: Params, s: State, t: nat)
    requires SizeInv(p, s) && Enabled(p, s, Decide(t))
    ensures SizeInv(p, DecideStep(p, s, t))
  {
    assert s.mutex == Some(t);
    var c := s.threads[t].count;
    if c > p.maxEntries {
      NewScanOffers(s.entries);
      assert s.entries.Keys - NewScan(s.entries).owed == {};
      SizeAfterHolderMove(p, s, t, Finding(c, NewScan(s.entries), None));
    } else {
      assert PendingSets(DecideStep(p, s, t).threads) == PendingSets(s.threads) - {t};
    }
  }

  lemma HolderEvicts(max: nat, keys: set<string>, c: int, k: string, others: nat)
    requires HolderKnows(max, keys, Evicting(c, Some(k)), others)
    ensures HolderKnows(max, keys - {k}, Deciding(c - 1), others)
  {
    if k !in keys { assert keys - {k} == keys; }
  }

  lemma HolderSkips(max: nat, keys: set<string>, c: int, others: nat)
    requires HolderKnows(max, keys, Evicting(c, None), others)
    ensures HolderKnows(max, keys, Deciding(c - 1), others)
  {}

  lemma SizeAfterEvictNone(p: Params, s: State, t: nat)
    requires SizeInv(p, s) && Enabled(p, s, Evict(t)) && s.threads[t].victim.None?
    ensures SizeInv(p, EvictStep(s, t))
  {
    HolderSkips(p.maxEntries, s.entries.Keys, s.threads[t].count, |PendingSets(s.threads) - {t}|);
    SizeAfterHolderMove(p, s, t, Deciding(s.threads[t].count - 1));
  }

  lemma SizeAfterEvictVictim(p: Params, s: State, t: nat, k: string)
    requires SizeInv(p, s) && Enabled(p, s, Evict(t)) && s.threads[t].victim == Some(k)
    ensures SizeInv(p, EvictStep(s, t))
  {
    EvictingHolderErases(p, s, t, k);
    SizeAfterHolderMove(p, Erase(s, k), t, Deciding(s.threads[t].count - 1));
  }

  lemma EvictingHolderErases(p: Params, s: State, t: nat, k: string)
    requires SizeInv(p, s) && t in s.threads && s.threads[t].Evicting? && s.threads[t].victim == Some(k)
    ensures SizeInv(p, Erase(s, k)) && s.mutex == Some(t)
    ensures HolderKnows(p.maxEntries, Erase(s, k).entries.Keys, Deciding(s.threads[t].count - 1),
                        |PendingSets(Erase(s, k).threads) - {t}|)
  {
    HolderEvicts(p.maxEntries, s.entries.Keys, s.threads[t].count, k, |PendingSets(s.threads) - {t}|);
    SizeAfterErase(p, s, k);
    TouchKeepsPending(s.threads, k, None);
    assert Erase(s, k).entries.Keys == s.entries.Keys - {k};
  }

  /** History variables play no part in the size invariant. */
  lemma SizeIgnoresHistory(p: Params, s: State, answers: set<Answer>, hits: set<Hit>)
    requires SizeInv(p, s)
    ensures SizeInv(p, s.(answers := answers, hits := hits))
  {}

  /** Steps of introspect, Get and the first half of Set that leave the map alone. */
  lemma SizeAfterRequestStep(p: Params, s: State, a: Action)
    requires SizeInv(p, s) && Enabled(p, s, a)
    requires a.Load? || a.Check? || a.Fail? || a.Succeed? || a.Stamp?
    ensures SizeInv(p, Apply(p, s, a))
  {
    var s1, next := RequestMove(p, s, a);
    SizeIgnoresHistory(p, s, s1.answers, s1.hits);
    SizeAfterMove(p, s1, a.t, next);
  }

  lemma RequestMove(p: Params, s: State, a: Action) returns (s1: State, next: Option<Pc>)
    requires Enabled(p, s, a) && (a.Load? || a.Check? || a.Fail? || a.Succeed? || a.Stamp?)
    ensures s1 == s.(answers := s1.answers, hits := s1.hits) && NotInFlight(next)
    ensures Apply(p, s, a) == Move(s1, a.t, next)
  {
    var s' := Apply(p, s, a);
    s1, next := s.(answers := s'.answers, hits := s'.hits), if a.t in s'.threads then Some(s'.threads[a.t]) else None;
  }

  /** Steps inside a Range call. */
  lemma SizeAfterRangeStep(p: Params, s: State, a: Action)
    requires SizeInv(p, s) && Enabled(p, s, a) && (a.Visit? || a.EndRange?)
    ensures SizeInv(p, Apply(p, s, a))
  {
    var pc := s.threads[a.t];
    if Holding(pc) {
      var others := |PendingSets(s.threads) - {a.t}|;
      if a.Visit? {
        HolderVisits(p.maxEntries, s.entries.Keys, pc, others, a.key, a.entry);
        SizeAfterHolderMove(p, s, a.t, Visited(pc, a.key, a.entry));
      } else {
        HolderEndsRange(p.maxEntries, s.entries.Keys, pc, others);
        SizeAfterHolderMove(p, s, a.t, AfterRange(pc).value);
      }
    } else {
      SizeAfterMove(p, s, a.t, if a.Visit? then Some(Visited(pc, a.key, a.entry)) else None);
    }
  }

  /** The late Delete of Get, outside the mutex. */
  lemma SizeAfterDrop(p: Params, s: State, t: nat)
    requires SizeInv(p, s) && Enabled(p, s, Drop(t))
    ensures SizeInv(p, Apply(p, s, Drop(t)))
  {
    SizeAfterDelete(p, s, KeyOf(p, s.threads[t].call), t, Some(Asking(s.threads[t].call)));
  }

  /** The sweeper's Delete, outside the mutex. */
  lemma SizeAfterSweepDrop(p: Params, s: State, t: nat)
    requires SizeInv(p, s) && Enabled(p, s, SweepDrop(t))
    ensures SizeInv(p, Apply(p, s, SweepDrop(t)))
  {
    var pc := s.threads[t];
    SizeAfterDelete(p, s, pc.key, t, Some(Sweeping(pc.asOf, TouchScan(pc.scan, pc.key, None))));
  }

  /** Steps of evictIfNeeded between its Range calls. */
  lemma SizeAfterEvictionStep(p: Params, s: State, a: Action)
    requires SizeInv(p, s) && Enabled(p, s, a) && (a.Lock? || a.Decide? || a.Evict?)
    ensures SizeInv(p, Apply(p, s, a))
  {
    if a.Lock? {
      SizeAfterLock(p, s, a.t);
    } else if a.Decide? {
      SizeAfterDecide(p, s, a.t);
    } else if s.threads[a.t].victim.Some? {
      SizeAfterEvictVictim(p, s, a.t, s.threads[a.t].victim.value);
    } else {
      SizeAfterEvictNone(p, s, a.t);
    }
  }

  lemma SizeAfterBegin(p: Params, s: State, a: Action)
    requires SizeInv(p, s) && Enabled(p, s, a) && (a.Begin? || a.BeginSweep?)
    ensures SizeInv(p, Apply(p, s, a))
  {
    SizeAfterMove(p, s, a.t, Some(if a.Begin? then Loading(CallOf(a.header)) else Sweeping(s.now, NewScan(s.entries))));
  }

  /** Every step keeps the size invariant. */
  lemma SizeAfterStep(p: Params, s: State, a: Action)
    requires p.maxEntries > 0 && SizeInv(p, s) && Enabled(p, s, a)
    ensures SizeInv(p, Apply(p, s, a))
  {
    if a.Tick? {
    } else if a.Begin? || a.BeginSweep? {
      SizeAfterBegin(p, s, a);
    } else if a.Drop? {
      SizeAfterDrop(p, s, a.t);
    } else if a.SweepDrop? {
      SizeAfterSweepDrop(p, s, a.t);
    } else if a.Store? {
      SizeAfterStore(p, s, a.t);
    } else if a.Visit? || a.EndRange? {
      SizeAfterRangeStep(p, s, a);
    } else if a.Lock? || a.Decide? || a.Evict? {
      SizeAfterEvictionStep(p, s, a);
    } else {
      SizeAfterRequestStep(p, s, a);
    }
  }

  lemma {:induction false} SizeInvReached(p: Params, start: int, run: seq<Action>)
    requires p.maxEntries > 0 && Reached(p, start, run).Some?
    ensures SizeInv(p, Reached(p, start, run).value)
  {
    if run == [] {
    } else {
      SizeInvReached(p, start, run[..|run| - 1]);
      SizeAfterStep(p, Reached(p, start, run[..|run| - 1]).value, run[|run| - 1]);
    }
  }

  /**
   In every interleaving the map exceeds the limit by at most the number of Sets that have stored
   and not yet finished evicting; with no such Set it is within the limit.
   */
  lemma SizeBounded(p: Params, start: int, run: seq<Action>)
    requires p.maxEntries > 0 && Reached(p, start, run).Some?
    ensures
      var s := Reached(p, start, run).value;
      && |s.entries| <= p.maxEntries + |PendingSets(s.threads)|
      && (PendingSets(s.threads) == {} ==> |s.entries| <= p.maxEntries)
  {
    SizeInvReached(p, start, run);
  }
}
