/**
 The in-memory introspection cache, with each operation taken as one atomic step.

 Time is an integer; the clock value each operation reads is a parameter. Range visits the
 entries in an arbitrary order.
 */
module IntrospectionCache {
  import opened Results

  datatype Json = Null | Bool(b: bool) | Number(r: real) | String(s: string) | Array(items: seq<Json>) | Object

  /** An introspection result; `expiresAt` is None for Go's zero time. */
  datatype Introspection = Introspection(
    subject: string, scopes: seq<string>, expiresAt: Option<int>, tokenType: string, claims: map<string, Json>)

  datatype Entry = Entry(result: Introspection, expiresAt: int)

  type Entries = map<string, Entry>

  /** The expiry Set gives to an entry: the TTL, cut short by the token's own expiration. */
  function Expiry(ttl: int, result: Introspection, now: int): (e: int)
    ensures e <= now + ttl
    ensures result.expiresAt.Some? ==> e <= result.expiresAt.value
    ensures e == now + ttl || Some(e) == result.expiresAt
  {
    if result.expiresAt.Some? && result.expiresAt.value < now + ttl then result.expiresAt.value else now + ttl
  }

  predicate Expired(e: Entry, now: int) { now > e.expiresAt }

  function Lookup(m: Entries, key: string, now: int): Option<Introspection> {
    if key in m && !Expired(m[key], now) then Some(m[key].result) else None
  }

  function AfterGet(m: Entries, key: string, now: int): Entries {
    if key in m && Expired(m[key], now) then m - {key} else m
  }

  function Swept(m: Entries, now: int): Entries {
    map k | k in m && !Expired(m[k], now) :: m[k]
  }

  // ------------------------------------------------------------ eviction

  ghost predicate SubMap(m': Entries, m: Entries) {
    forall k | k in m' :: k in m && m'[k] == m[k]
  }

  /** No entry missing from `m'` expires later than one that is kept. */
  ghost predicate KeepsLatest(m: Entries, m': Entries) {
    forall k, j | k in m && k !in m' && j in m' && j in m :: m[k].expiresAt <= m[j].expiresAt
  }

  /** What eviction may leave of `m`: which of several equally old entries goes is not fixed. */
  ghost predicate Evicted(m: Entries, m': Entries, max: nat) {
    && SubMap(m', m)
    && KeepsLatest(m, m')
    && |m'| == if |m| <= max then |m| else max
  }

  /** No live entry is evicted while an expired one stays. */
  lemma EvictionPrefersExpired(m: Entries, m': Entries, max: nat, now: int, k: string, j: string)
    requires Evicted(m, m', max) && k in m && k !in m' && !Expired(m[k], now) && j in m'
    ensures !Expired(m'[j], now)
  {
    assert m[k].expiresAt <= m[j].expiresAt;
  }

  /** Eviction within the limit evicts nothing. */
  lemma EvictionWithinLimit(m: Entries, m': Entries, max: nat)
    requires Evicted(m, m', max) && |m| <= max
    ensures m' == m
  {
    SameSizeSubset(m'.Keys, m.Keys);
  }

  lemma SameSizeSubset(a: set<string>, b: set<string>)
    requires a <= b && |a| >= |b|
    ensures a == b
  {
    assert b == a + (b - a);
    assert |b| == |a| + |b - a|;
  }

  /** With distinct expiries the survivors do not depend on the Range order. */
  lemma EvictionDeterministic(m: Entries, m1: Entries, m2: Entries, max: nat)
    requires Evicted(m, m1, max) && Evicted(m, m2, max)
    requires forall k, j | k in m && j in m && k != j :: m[k].expiresAt != m[j].expiresAt
    ensures m1 == m2
  {
    forall k | k in m1
      ensures k in m2
    {
      if m2.Keys <= m1.Keys {
        SameSizeSubset(m2.Keys, m1.Keys);
      } else {
        var j :| j in m2.Keys && j !in m1.Keys;
        assert m[j].expiresAt < m[k].expiresAt;
      }
    }
    SameSizeSubset(m1.Keys, m2.Keys);
  }

  lemma EvictOldest(m: Entries, m': Entries, oldest: string)
    requires SubMap(m', m) && KeepsLatest(m, m') && oldest in m'
    requires forall k | k in m' :: m'[oldest].expiresAt <= m'[k].expiresAt
    ensures SubMap(m' - {oldest}, m) && KeepsLatest(m, m' - {oldest}) && |m' - {oldest}| == |m'| - 1
  {
    assert (m' - {oldest}).Keys == m'.Keys - {oldest};
  }

  // --------------------------------------------- the log of Set calls

  /** One Set as recorded in the log: the entry it stored under its key. */
  datatype SetRecord = SetRecord(key: string, entry: Entry)

  function LastSet(log: seq<SetRecord>, key: string): Option<Entry> {
    if log == [] then None
    else if log[|log| - 1].key == key then Some(log[|log| - 1].entry)
    else LastSet(log[..|log| - 1], key)
  }

  /** The answer the plain log gives: the last Set of the key, unless it has expired. */
  function LogAnswer(log: seq<SetRecord>, key: string, now: int): Option<Introspection> {
    match LastSet(log, key)
    case None => None
    case Some(e) => if Expired(e, now) then None else Some(e.result)
  }

  /** Stored entries are the last Sets of their keys. */
  ghost predicate Sound(m: Entries, log: seq<SetRecord>) {
    forall k | k in m :: LastSet(log, k) == Some(m[k])
  }

  /** Only entries that have expired by `clock` are missing. */
  ghost predicate Complete(m: Entries, log: seq<SetRecord>, clock: int) {
    forall k | k !in m && LastSet(log, k).Some? :: Expired(LastSet(log, k).value, clock)
  }

  lemma LastSetAppend(log: seq<SetRecord>, r: SetRecord, key: string)
    ensures LastSet(log + [r], key) == if r.key == key then Some(r.entry) else LastSet(log, key)
  {
    assert (log + [r])[..|log|] == log;
  }

  lemma StoreKeepsLog(m: Entries, log: seq<SetRecord>, key: string, e: Entry)
    requires Sound(m, log)
    ensures Sound(m[key := e], log + [SetRecord(key, e)])
    ensures forall clock :: Complete(m, log, clock) ==> Complete(m[key := e], log + [SetRecord(key, e)], clock)
  {
    forall k ensures LastSet(log + [SetRecord(key, e)], k) == if k == key then Some(e) else LastSet(log, k) {
      LastSetAppend(log, SetRecord(key, e), k);
    }
  }

  lemma ShrinkKeepsLog(m: Entries, m': Entries, log: seq<SetRecord>, clock: int, now: int)
    requires Sound(m, log) && SubMap(m', m) && clock <= now
    ensures Sound(m', log)
    ensures Complete(m, log, clock) && (forall k | k in m && k !in m' :: Expired(m[k], now)) ==> Complete(m', log, now)
  {}

  // ---------------------------------------------------- runs of operations

  datatype Op = Set(key: string, result: Introspection) | Get(key: string) | Sweep

  /** One executed operation: when it ran, what it left behind and, for Get, what it answered. */
  datatype Step = Step(op: Op, now: int, after: Entries, answer: Option<Introspection>)

  ghost predicate StepAllowed(ttl: int, max: nat, m: Entries, s: Step) {
    match s.op
    case Set(k, r) =>
      var stored := m[k := Entry(r, Expiry(ttl, r, s.now))];
      if max == 0 then s.after == stored else Evicted(stored, s.after, max)
    case Get(k) => s.after == AfterGet(m, k, s.now) && s.answer == Lookup(m, k, s.now)
    case Sweep => s.after == Swept(m, s.now)
  }

  function Clock(start: int, run: seq<Step>): int {
    if run == [] then start else run[|run| - 1].now
  }

  function Contents(run: seq<Step>): Entries {
    if run == [] then map[] else run[|run| - 1].after
  }

  function SetLog(ttl: int, run: seq<Step>): seq<SetRecord> {
    if run == [] then []
    else
      var s := run[|run| - 1];
      var log := SetLog(ttl, run[..|run| - 1]);
      if s.op.Set? then log + [SetRecord(s.op.key, Entry(s.op.result, Expiry(ttl, s.op.result, s.now)))] else log
  }

  ghost predicate IsRun(ttl: int, max: nat, start: int, run: seq<Step>) {
    run == [] ||
    var before := run[..|run| - 1];
    && IsRun(ttl, max, start, before)
    && Clock(start, before) <= run[|run| - 1].now
    && StepAllowed(ttl, max, Contents(before), run[|run| - 1])
  }

  lemma {:induction false} RunMatchesLog(ttl: int, max: nat, start: int, run: seq<Step>)
    requires IsRun(ttl, max, start, run)
    ensures Sound(Contents(run), SetLog(ttl, run))
    ensures max == 0 ==> Complete(Contents(run), SetLog(ttl, run), Clock(start, run))
    ensures max > 0 ==> |Contents(run)| <= max
  {
    if run == [] {
    } else {
      var before, s := run[..|run| - 1], run[|run| - 1];
      RunMatchesLog(ttl, max, start, before);
      var m, log := Contents(before), SetLog(ttl, before);
      if s.op.Set? {
        var e := Entry(s.op.result, Expiry(ttl, s.op.result, s.now));
        StoreKeepsLog(m, log, s.op.key, e);
        ShrinkKeepsLog(m[s.op.key := e], s.after, log + [SetRecord(s.op.key, e)], Clock(start, before), s.now);
      } else {
        ShrinkKeepsLog(m, s.after, log, Clock(start, before), s.now);
        SubMapSmaller(s.after, m);
      }
    }
  }

  lemma SubMapSmaller(m': Entries, m: Entries)
    requires SubMap(m', m)
    ensures |m'| <= |m|
  {
    assert m'.Keys <= m.Keys;
    assert m.Keys == m'.Keys + (m.Keys - m'.Keys);
  }

  lemma {:induction false} RunPrefix(ttl: int, max: nat, start: int, run: seq<Step>, i: nat)
    requires IsRun(ttl, max, start, run) && i <= |run|
    ensures IsRun(ttl, max, start, run[..i])
  {
    if i == |run| {
      assert run[..i] == run;
    } else {
      RunPrefix(ttl, max, start, run[..|run| - 1], i);
      assert run[..|run| - 1][..i] == run[..i];
    }
  }

  /**
   Every run refines the log of its Sets: a hit is always the log's answer, and without an entry
   limit a Get answers exactly what the log does, whatever was swept or dropped before.
   */
  lemma GetRefinesLog(ttl: int, max: nat, start: int, run: seq<Step>, i: nat)
    requires IsRun(ttl, max, start, run) && i < |run| && run[i].op.Get?
    ensures run[i].answer.Some? ==> run[i].answer == LogAnswer(SetLog(ttl, run[..i]), run[i].op.key, run[i].now)
    ensures max == 0 ==> run[i].answer == LogAnswer(SetLog(ttl, run[..i]), run[i].op.key, run[i].now)
  {
    RunPrefix(ttl, max, start, run, i + 1);
    assert run[..i + 1][..i] == run[..i];
    RunMatchesLog(ttl, max, start, run[..i]);
  }

  // ------------------------------------------------------------ the class

  class InMemoryCache {
    const ttl: int
    const maxEntries: nat
    var entries: Entries
    ghost var log: seq<SetRecord>
    ghost var clock: int

    ghost predicate Valid()
      reads this
    {
      && Sound(entries, log)
      && (maxEntries == 0 ==> Complete(entries, log, clock))
      && (maxEntries > 0 ==> |entries| <= maxEntries)
    }

    /** NewInMemoryCache with WithMaxEntries(limit): a negative limit means none. */
    constructor (ttl: int, limit: int, ghost start: int)
      ensures Valid() && entries == map[] && log == [] && clock == start
      ensures this.ttl == ttl && maxEntries == if limit < 0 then 0 else limit
    {
      this.ttl := ttl;
      maxEntries := if limit < 0 then 0 else limit;
      entries, log, clock := map[], [], start;
    }

    method Get(key: string, now: int) returns (r: Option<Introspection>)
      requires Valid() && clock <= now
      modifies this`entries, this`clock
      ensures Valid() && clock == now
      ensures entries == AfterGet(old(entries), key, now) && r == Lookup(old(entries), key, now)
      ensures r.Some? || maxEntries == 0 ==> r == LogAnswer(log, key, now)
    {
      clock := now;
      if key !in entries { return None; }
      var entry := entries[key];
      if now > entry.expiresAt {
        entries := entries - {key};
        return None;
      }
      return Some(entry.result);
    }

    method Set(key: string, result: Introspection, now: int)
      requires Valid() && clock <= now
      modifies this`entries, this`clock, this`log
      ensures Valid() && clock == now
      ensures log == old(log) + [SetRecord(key, Entry(result, Expiry(ttl, result, now)))]
      ensures
        var stored := old(entries)[key := Entry(result, Expiry(ttl, result, now))];
        if maxEntries == 0 then entries == stored else Evicted(stored, entries, maxEntries)
    {
      var expiry := now + ttl;
      if result.expiresAt.Some? && result.expiresAt.value < expiry {
        expiry := result.expiresAt.value;
      }
      var e := Entry(result, expiry);
      StoreKeepsLog(entries, log, key, e);
      clock := now;
      log := log + [SetRecord(key, e)];
      entries := entries[key := e];
      if maxEntries > 0 {
        EvictIfNeeded();
      }
    }

    method EvictIfNeeded()
      modifies this`entries
      ensures Evicted(old(entries), entries, maxEntries)
    {
      var count := 0;
      var rest := entries.Keys;
      while rest != {}
        invariant count + |rest| == |entries|
      {
        var k :| k in rest;
        rest := rest - {k};
        count := count + 1;
      }
      while count > maxEntries
        invariant count == |entries|
        invariant SubMap(entries, old(entries)) && KeepsLatest(old(entries), entries)
        invariant |entries| >= if |old(entries)| <= maxEntries then |old(entries)| else maxEntries
        decreases count
      {
        var oldest := FindOldest();
        if oldest.Some? {
          EvictOldest(old(entries), entries, oldest.value);
          entries := entries - {oldest.value};
        }
        count := count - 1;
      }
      SubMapSmaller(entries, old(entries));
    }

    /** The Range that looks for the entry with the earliest expiry. */
    method FindOldest() returns (oldest: Option<string>)
      ensures oldest.None? <==> entries == map[]
      ensures oldest.Some? ==> oldest.value in entries
      ensures oldest.Some? ==> forall k | k in entries :: entries[oldest.value].expiresAt <= entries[k].expiresAt
    {
      oldest := None;
      var oldestExpiry := 0;
      var rest := entries.Keys;
      while rest != {}
        invariant rest <= entries.Keys
        invariant oldest.None? <==> rest == entries.Keys
        invariant oldest.Some? ==> oldest.value in entries && oldestExpiry == entries[oldest.value].expiresAt
        invariant forall k | k in entries && k !in rest :: oldest.Some? && oldestExpiry <= entries[k].expiresAt
      {
        var k :| k in rest;
        if oldest.None? || entries[k].expiresAt < oldestExpiry {
          oldest, oldestExpiry := Some(k), entries[k].expiresAt;
        }
        rest := rest - {k};
      }
    }

    /** One tick of the background sweeper. */
    method SweepTick(now: int)
      requires Valid() && clock <= now
      modifies this`entries, this`clock
      ensures Valid() && clock == now
      ensures entries == Swept(old(entries), now)
    {
      ghost var m := entries;
      var rest := entries.Keys;
      while rest != {}
        invariant rest <= m.Keys && entries == map k | k in m && (k in rest || !Expired(m[k], now)) :: m[k]
      {
        var k :| k in rest;
        if now > entries[k].expiresAt {
          entries := entries - {k};
        }
        rest := rest - {k};
      }
      SubMapSmaller(entries, m);
      clock := now;
    }
  }
}
