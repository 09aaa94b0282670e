/**
 Why the map of the concurrent cache changes, read off the run: its steps and the maps between them,
 not the bookkeeping of the goroutines.
 */
module CacheHistory {
  import opened Results
  import opened AuthorizationHeader
  import opened IntrospectionCache
  import opened CacheProtocol

  /** The state before step `n` of a run. */
  function At(p: Params, start: int, run: seq<Action>, n: nat): State {
    if n <= |run| && Reached(p, start, run[..n]).Some? then Reached(p, start, run[..n]).value else Init(start)
  }

  lemma {:induction false} AtPrefix(p: Params, start: int, run: seq<Action>, m: nat)
    requires m <= |run| && Reached(p, start, run).Some?
    ensures Reached(p, start, run[..m]) == Some(At(p, start, run, m))
    ensures forall n | 0 <= n <= m :: At(p, start, run[..m], n) == At(p, start, run, n)
  {
    forall n | 0 <= n <= m
      ensures run[..m][..n] == run[..n]
    {}
    if m == |run| {
      assert run[..m] == run;
    } else {
      var before := run[..|run| - 1];
      AtPrefix(p, start, before, m);
      assert before[..m] == run[..m];
    }
  }

  lemma AtStep(p: Params, start: int, run: seq<Action>, n: nat)
    requires n < |run| && Reached(p, start, run).Some?
    ensures Enabled(p, At(p, start, run, n), run[n])
    ensures At(p, start, run, n + 1) == Apply(p, At(p, start, run, n), run[n])
  {
    AtPrefix(p, start, run, n);
    AtPrefix(p, start, run, n + 1);
    assert run[..n + 1][..n] == run[..n] && run[..n + 1][n] == run[n];
  }

  lemma AtEnd(p: Params, start: int, run: seq<Action>)
    requires Reached(p, start, run).Some?
    ensures At(p, start, run, |run|) == Reached(p, start, run).value
  {
    assert run[..|run|] == run;
  }

  // --------------------------------------------- the steps of a goroutine

  predicate ByThread(a: Action, t: nat) { !a.Tick? && a.t == t }

  /** Step `v` is the last one of goroutine `t`. */
  predicate LastOwn(run: seq<Action>, t: nat, v: nat) {
    v < |run| && ByThread(run[v], t) && forall n | v < n < |run| :: !ByThread(run[n], t)
  }

  predicate Scanning(pc: Pc) { HasScan(pc) || pc.SweepDropping? }

  /** Equal apart from the Range in progress. */
  predicate Alike(a: Pc, b: Pc) {
    match a
    case Counting(_) => b.Counting?
    case Finding(c, _, o) => b.Finding? && b.count == c && b.oldest == o
    case Sweeping(asOf, _) => b.Sweeping? && b.asOf == asOf
    case SweepDropping(asOf, _, k) => b.SweepDropping? && b.asOf == asOf && b.key == k
    case _ => a == b
  }

  lemma OtherStep(p: Params, s: State, a: Action, t: nat)
    requires Enabled(p, s, a) && !ByThread(a, t)
    ensures
      var s' := Apply(p, s, a);
      (t in s'.threads <==> t in s.threads) && (t in s.threads ==> Alike(s.threads[t], s'.threads[t]))
  {}

  lemma OtherStepAt(p: Params, start: int, run: seq<Action>, n: nat, t: nat)
    requires n < |run| && Reached(p, start, run).Some? && !ByThread(run[n], t)
    ensures
      var s, s' := At(p, start, run, n), At(p, start, run, n + 1);
      (t in s'.threads <==> t in s.threads) && (t in s.threads ==> Alike(s.threads[t], s'.threads[t]))
  {
    AtStep(p, start, run, n);
    OtherStep(p, At(p, start, run, n), run[n], t);
  }

  lemma {:induction false} LastOwnBefore(p: Params, start: int, run: seq<Action>, n: nat, t: nat) returns (v: nat)
    requires n <= |run| && Reached(p, start, run).Some? && t in At(p, start, run, n).threads
    ensures v < n && ByThread(run[v], t) && forall m | v < m < n :: !ByThread(run[m], t)
    ensures t in At(p, start, run, v + 1).threads
    ensures Alike(At(p, start, run, v + 1).threads[t], At(p, start, run, n).threads[t])
    decreases n
  {
    if ByThread(run[n - 1], t) {
      v := n - 1;
    } else {
      OtherStepAt(p, start, run, n - 1, t);
      v := LastOwnBefore(p, start, run, n - 1, t);
    }
  }

  /** The position of a goroutine is what its last step left, up to the Range in progress. */
  lemma LastOwnStep(p: Params, start: int, run: seq<Action>, t: nat) returns (v: nat)
    requires Reached(p, start, run).Some? && t in Reached(p, start, run).value.threads
    ensures LastOwn(run, t, v) && t in At(p, start, run, v + 1).threads
    ensures Alike(At(p, start, run, v + 1).threads[t], Reached(p, start, run).value.threads[t])
  {
    AtEnd(p, start, run);
    v := LastOwnBefore(p, start, run, |run|, t);
  }

  /** The same, forwards. */
  lemma {:induction false} StaysPut(p: Params, start: int, run: seq<Action>, t: nat, v: nat, n: nat)
    requires Reached(p, start, run).Some? && LastOwn(run, t, v) && t in At(p, start, run, v + 1).threads
    requires v < n <= |run|
    ensures t in At(p, start, run, n).threads
    ensures Alike(At(p, start, run, v + 1).threads[t], At(p, start, run, n).threads[t])
    decreases n
  {
    if n == v + 1 {
    } else {
      StaysPut(p, start, run, t, v, n - 1);
      OtherStepAt(p, start, run, n - 1, t);
    }
  }

  // ------------------------------------------------- what a Range may see

  predicate StartsRange(a: Action, t: nat) { a == Lock(t) || a == Decide(t) || a == BeginSweep(t) }

  /** The last Range of goroutine `t` begins with step `b`. */
  predicate RangeStart(run: seq<Action>, t: nat, b: nat) {
    b < |run| && StartsRange(run[b], t) && forall n | b < n < |run| :: !StartsRange(run[n], t)
  }

  predicate MapsTo(s: State, k: string, e: Entry) { k in s.entries && s.entries[k] == e }

  /** The key had this entry at some moment between steps `b` and `end`. */
  ghost predicate MappedDuring(p: Params, start: int, run: seq<Action>, b: nat, end: nat, k: string, e: Entry) {
    exists n | b < n <= end :: MapsTo(At(p, start, run, n), k, e)
  }

  /** The step stores the key, or removes it from the map. */
  predicate Touches(p: Params, s: State, a: Action, k: string) {
    Enabled(p, s, a) &&
    ((a.Store? && KeyOf(p, s.threads[a.t].call) == k) || (k in s.entries && k !in Apply(p, s, a).entries))
  }

  /** The key is in the map after step `b`, and nobody stores or deletes it until step `end`. */
  ghost predicate Untouched(p: Params, start: int, run: seq<Action>, b: nat, end: nat, k: string) {
    && k in At(p, start, run, b + 1).entries
    && forall n | b < n < end && n < |run| :: !Touches(p, At(p, start, run, n), run[n], k)
  }

  /** Step `n`, after `b`, is a visit of goroutine `t`. */
  predicate VisitAt(run: seq<Action>, t: nat, b: nat, n: nat) {
    b < n < |run| && run[n].Visit? && run[n].t == t
  }

  ghost predicate VisitedSince(run: seq<Action>, t: nat, b: nat, k: string) {
    exists n: nat | VisitAt(run, t, b, n) :: run[n].key == k
  }

  /** A Range as the run tells it. */
  ghost predicate ScanIs(p: Params, start: int, run: seq<Action>, t: nat, b: nat, scan: Scan) {
    && (forall k, e :: (k, e) in scan.offered <==> MappedDuring(p, start, run, b, |run|, k, e))
    && (forall k :: k in scan.visited <==> VisitedSince(run, t, b, k))
    && (forall k :: k in scan.owed <==> Untouched(p, start, run, b, |run|, k))
  }

  // ------------------------------------------------ one step of a Range

  /** The key a step writes, if any, and the entry it stores there. */
  function Written(p: Params, s: State, a: Action): Option<(string, Option<Entry>)>
    requires Enabled(p, s, a)
  {
    match a
    case Store(t) => Some((KeyOf(p, s.threads[t].call), Some(s.threads[t].entry)))
    case Drop(t) => Some((KeyOf(p, s.threads[t].call), None))
    case SweepDrop(t) => Some((s.threads[t].key, None))
    case Evict(t) => if s.threads[t].victim.Some? then Some((s.threads[t].victim.value, None)) else None
    case _ => None
  }

  function EntriesAfter(m: Entries, w: Option<(string, Option<Entry>)>): Entries {
    match w
    case None => m
    case Some((k, None)) => m - {k}
    case Some((k, Some(e))) => m[k := e]
  }

  function ScanAfter(scan: Scan, w: Option<(string, Option<Entry>)>): Scan {
    if w.None? then scan else TouchScan(scan, w.value.0, w.value.1)
  }

  lemma MapAfterStep(p: Params, s: State, a: Action)
    requires Enabled(p, s, a)
    ensures Apply(p, s, a).entries == EntriesAfter(s.entries, Written(p, s, a))
  {}

  /** A Range in progress sees what the step writes; a visit of its own goroutine is recorded. */
  ghost predicate ScanFollows(p: Params, s: State, a: Action, t: nat)
    requires Enabled(p, s, a) && t in s.threads && Scanning(s.threads[t])
    requires t in Apply(p, s, a).threads && Scanning(Apply(p, s, a).threads[t])
  {
    var scan := ScanAfter(s.threads[t].scan, Written(p, s, a));
    Apply(p, s, a).threads[t].scan
    == if a.Visit? && a.t == t then scan.(visited := scan.visited + {a.key}) else scan
  }

  lemma OtherScanFollows(p: Params, s: State, a: Action, t: nat)
    requires Enabled(p, s, a) && !ByThread(a, t)
    requires t in Apply(p, s, a).threads && Scanning(Apply(p, s, a).threads[t])
    ensures t in s.threads && Scanning(s.threads[t]) && ScanFollows(p, s, a, t)
  {
    OtherStep(p, s, a, t);
  }

  lemma OwnScanFollows(p: Params, s: State, a: Action)
    requires Enabled(p, s, a) && !a.Tick? && !StartsRange(a, a.t)
    requires a.t in Apply(p, s, a).threads && Scanning(Apply(p, s, a).threads[a.t])
    ensures a.t in s.threads && Scanning(s.threads[a.t]) && ScanFollows(p, s, a, a.t)
  {}

  lemma ScanAfterStep(p: Params, s: State, a: Action, t: nat)
    requires Enabled(p, s, a) && !StartsRange(a, t)
    requires t in Apply(p, s, a).threads && Scanning(Apply(p, s, a).threads[t])
    ensures t in s.threads && Scanning(s.threads[t]) && ScanFollows(p, s, a, t)
  {
    if ByThread(a, t) {
      OwnScanFollows(p, s, a);
    } else {
      OtherScanFollows(p, s, a, t);
    }
  }

  lemma WasScanning(p: Params, s: State, a: Action, t: nat)
    requires Enabled(p, s, a) && !StartsRange(a, t)
    requires t in Apply(p, s, a).threads && Scanning(Apply(p, s, a).threads[t])
    ensures t in s.threads && Scanning(s.threads[t])
  {
    ScanAfterStep(p, s, a, t);
  }

  lemma MappedStep(p: Params, start: int, run: seq<Action>, b: nat, k: string, e: Entry)
    requires Reached(p, start, run).Some? && b < |run| - 1
    ensures
      var before := run[..|run| - 1];
      MappedDuring(p, start, run, b, |run|, k, e) <==>
      MappedDuring(p, start, before, b, |before|, k, e) || MapsTo(Reached(p, start, run).value, k, e)
  {
    AtPrefix(p, start, run, |run| - 1);
    AtEnd(p, start, run);
    if MappedDuring(p, start, run[..|run| - 1], b, |run| - 1, k, e) {
      var n :| b < n <= |run| - 1 && MapsTo(At(p, start, run[..|run| - 1], n), k, e);
      assert MapsTo(At(p, start, run, n), k, e);
    }
  }

  lemma VisitedStep(run: seq<Action>, t: nat, b: nat, k: string)
    requires b < |run| - 1
    ensures
      var before, a := run[..|run| - 1], run[|run| - 1];
      VisitedSince(run, t, b, k) <==> VisitedSince(before, t, b, k) || (a.Visit? && a.t == t && a.key == k)
  {
    var before, a := run[..|run| - 1], run[|run| - 1];
    if VisitedSince(before, t, b, k) {
      var n: nat :| VisitAt(before, t, b, n) && before[n].key == k;
      assert VisitAt(run, t, b, n);
    }
    if VisitedSince(run, t, b, k) {
      var n: nat :| VisitAt(run, t, b, n) && run[n].key == k;
      assert n < |before| ==> VisitAt(before, t, b, n) && before[n].key == k;
    }
    if a.Visit? && a.t == t && a.key == k { assert VisitAt(run, t, b, |run| - 1); }
  }

  lemma UntouchedStep(p: Params, start: int, run: seq<Action>, b: nat, k: string)
    requires Reached(p, start, run).Some? && b < |run| - 1
    ensures
      var before, a := run[..|run| - 1], run[|run| - 1];
      Untouched(p, start, run, b, |run|, k) <==>
      Untouched(p, start, before, b, |before|, k) && !Touches(p, Reached(p, start, before).value, a, k)
  {
    var before, last := run[..|run| - 1], |run| - 1;
    AtPrefix(p, start, run, last);
    forall n | b < n < last
      ensures Touches(p, At(p, start, before, n), before[n], k) <==> Touches(p, At(p, start, run, n), run[n], k)
    {}
    assert At(p, start, run, last) == Reached(p, start, before).value;
    UntouchedUpTo(p, start, run, b, last, k);
    assert Untouched(p, start, run, b, last, k) <==> Untouched(p, start, before, b, last, k);
  }

  lemma UntouchedUpTo(p: Params, start: int, run: seq<Action>, b: nat, n: nat, k: string)
    requires b < n < |run|
    ensures Untouched(p, start, run, b, n + 1, k) <==>
            Untouched(p, start, run, b, n, k) && !Touches(p, At(p, start, run, n), run[n], k)
  {
    if Untouched(p, start, run, b, n, k) && !Touches(p, At(p, start, run, n), run[n], k) {
      forall m | b < m < n + 1 && m < |run|
        ensures !Touches(p, At(p, start, run, m), run[m], k)
      {
        if m < n { assert !Touches(p, At(p, start, run, m), run[m], k); }
      }
    }
  }

  /** An untouched key keeps its entry. */
  lemma {:induction false} UntouchedStays(p: Params, start: int, run: seq<Action>, b: nat, end: nat, k: string)
    requires Reached(p, start, run).Some? && b < end <= |run| && Untouched(p, start, run, b, end, k)
    ensures MapsTo(At(p, start, run, end), k, At(p, start, run, b + 1).entries[k])
    decreases end
  {
    if end == b + 1 {
    } else {
      UntouchedStays(p, start, run, b, end - 1, k);
      AtStep(p, start, run, end - 1);
      KeptUnlessTouched(p, At(p, start, run, end - 1), run[end - 1], k);
    }
  }

  lemma KeptUnlessTouched(p: Params, s: State, a: Action, k: string)
    requires Enabled(p, s, a) && k in s.entries && !Touches(p, s, a, k)
    ensures MapsTo(Apply(p, s, a), k, s.entries[k])
  {
    MapAfterStep(p, s, a);
  }

  /** Right after its first step a Range has seen the map as it is, and nothing else. */
  lemma MappedAtStart(p: Params, start: int, run: seq<Action>, b: nat, k: string, e: Entry)
    requires |run| == b + 1
    ensures MappedDuring(p, start, run, b, |run|, k, e) <==> MapsTo(At(p, start, run, |run|), k, e)
  {
    if MapsTo(At(p, start, run, |run|), k, e) { assert b < |run| <= |run|; }
  }

  lemma OwedAtStart(p: Params, start: int, run: seq<Action>, b: nat, t: nat, k: string)
    requires |run| == b + 1
    ensures Untouched(p, start, run, b, |run|, k) <==> k in At(p, start, run, |run|).entries
    ensures !VisitedSince(run, t, b, k)
  {
  }

  lemma ScanAtStart(p: Params, start: int, run: seq<Action>, t: nat)
    requires Reached(p, start, run).Some? && run != [] && StartsRange(run[|run| - 1], t)
    ensures RangeStart(run, t, |run| - 1)
    ensures ScanIs(p, start, run, t, |run| - 1, NewScan(Reached(p, start, run).value.entries))
  {
    var b, scan := |run| - 1, NewScan(Reached(p, start, run).value.entries);
    AtEnd(p, start, run);
    forall k, e
      ensures (k, e) in scan.offered <==> MappedDuring(p, start, run, b, |run|, k, e)
    {
      MappedAtStart(p, start, run, b, k, e);
    }
    forall k
      ensures k in scan.owed <==> Untouched(p, start, run, b, |run|, k)
      ensures k in scan.visited <==> VisitedSince(run, t, b, k)
    {
      OwedAtStart(p, start, run, b, t, k);
    }
  }

  lemma ScanIsStep(p: Params, start: int, run: seq<Action>, t: nat, b: nat, scan: Scan)
    requires Reached(p, start, run).Some? && b < |run| - 1
    requires ScanIs(p, start, run[..|run| - 1], t, b, scan)
    ensures
      var a := run[|run| - 1];
      var seen := ScanAfter(scan, Written(p, Reached(p, start, run[..|run| - 1]).value, a));
      ScanIs(p, start, run, t, b, if a.Visit? && a.t == t then seen.(visited := seen.visited + {a.key}) else seen)
  {
    var before, a := run[..|run| - 1], run[|run| - 1];
    var s := Reached(p, start, before).value;
    var seen := ScanAfter(scan, Written(p, s, a));
    MapAfterStep(p, s, a);
    AtEnd(p, start, before);
    forall k, e
      ensures (k, e) in seen.offered <==> MappedDuring(p, start, run, b, |run|, k, e)
    {
      MappedStep(p, start, run, b, k, e);
      assert MapsTo(s, k, e) ==> MappedDuring(p, start, before, b, |before|, k, e);
    }
    forall k
      ensures k in seen.owed <==> Untouched(p, start, run, b, |run|, k)
    {
      UntouchedStep(p, start, run, b, k);
      if k in scan.owed { UntouchedStays(p, start, before, b, |before|, k); }
    }
    forall k
      ensures k in seen.visited || (a.Visit? && a.t == t && a.key == k) <==> VisitedSince(run, t, b, k)
    {
      VisitedStep(run, t, b, k);
    }
  }

  /** The kind of Range a step starts. */
  predicate StartedBy(p: Params, start: int, run: seq<Action>, b: nat, pc: Pc)
    requires b < |run|
  {
    match pc
    case Counting(_) => run[b].Lock?
    case Finding(_, _, _) => run[b].Decide?
    case Sweeping(asOf, _) => run[b].BeginSweep? && asOf == At(p, start, run, b).now
    case SweepDropping(asOf, _, _) => run[b].BeginSweep? && asOf == At(p, start, run, b).now
    case _ => false
  }

  /**
   In every interleaving a Range in progress may report exactly the entries its keys had since it
   began, has visited exactly the keys reported to it, and must still visit exactly the keys that
   were there at its beginning and that nobody has stored or deleted since.
   */
  lemma {:induction false} RangeIsWindow(p: Params, start: int, run: seq<Action>, t: nat) returns (b: nat)
    requires Reached(p, start, run).Some?
    requires t in Reached(p, start, run).value.threads && Scanning(Reached(p, start, run).value.threads[t])
    ensures RangeStart(run, t, b) && StartedBy(p, start, run, b, Reached(p, start, run).value.threads[t])
    ensures ScanIs(p, start, run, t, b, Reached(p, start, run).value.threads[t].scan)
  {
    var before, a := run[..|run| - 1], run[|run| - 1];
    var s := Reached(p, start, before).value;
    AtPrefix(p, start, run, |run| - 1);
    if StartsRange(a, t) {
      b := |run| - 1;
      RangeBegins(p, start, run, t);
    } else {
      WasScanning(p, s, a, t);
      b := RangeIsWindow(p, start, before, t);
      RangeGoesOn(p, start, run, t, b);
      KindStays(p, start, run, t, b);
    }
  }

  lemma RangeBegins(p: Params, start: int, run: seq<Action>, t: nat)
    requires Reached(p, start, run).Some? && run != [] && StartsRange(run[|run| - 1], t)
    requires t in Reached(p, start, run).value.threads && Scanning(Reached(p, start, run).value.threads[t])
    ensures RangeStart(run, t, |run| - 1)
    ensures StartedBy(p, start, run, |run| - 1, Reached(p, start, run).value.threads[t])
    ensures ScanIs(p, start, run, t, |run| - 1, Reached(p, start, run).value.threads[t].scan)
  {
    var s := Reached(p, start, run[..|run| - 1]).value;
    ScanAtStart(p, start, run, t);
    NewAtStart(p, s, run[|run| - 1], t);
    AtPrefix(p, start, run, |run| - 1);
  }

  lemma NewAtStart(p: Params, s: State, a: Action, t: nat)
    requires Enabled(p, s, a) && StartsRange(a, t)
    requires t in Apply(p, s, a).threads && Scanning(Apply(p, s, a).threads[t])
    ensures
      var pc := Apply(p, s, a).threads[t];
      && pc.scan == NewScan(s.entries) && Apply(p, s, a).entries == s.entries && !pc.SweepDropping?
      && (pc.Counting? <==> a.Lock?) && (pc.Finding? <==> a.Decide?)
      && (pc.Sweeping? <==> a.BeginSweep?) && (pc.Sweeping? ==> pc.asOf == s.now)
  {}

  lemma RangeGoesOn(p: Params, start: int, run: seq<Action>, t: nat, b: nat)
    requires Reached(p, start, run).Some? && b < |run| - 1 && !StartsRange(run[|run| - 1], t)
    requires t in Reached(p, start, run).value.threads && Scanning(Reached(p, start, run).value.threads[t])
    requires
      var s := Reached(p, start, run[..|run| - 1]).value;
      t in s.threads && Scanning(s.threads[t]) && ScanIs(p, start, run[..|run| - 1], t, b, s.threads[t].scan)
    ensures ScanIs(p, start, run, t, b, Reached(p, start, run).value.threads[t].scan)
  {
    var s, a := Reached(p, start, run[..|run| - 1]).value, run[|run| - 1];
    ScanAfterStep(p, s, a, t);
    ScanIsStep(p, start, run, t, b, s.threads[t].scan);
  }

  lemma KindStays(p: Params, start: int, run: seq<Action>, t: nat, b: nat)
    requires Reached(p, start, run).Some? && b < |run| - 1 && !StartsRange(run[|run| - 1], t)
    requires
      var s, s' := Reached(p, start, run[..|run| - 1]).value, Reached(p, start, run).value;
      && t in s.threads && Scanning(s.threads[t]) && t in s'.threads && Scanning(s'.threads[t])
      && StartedBy(p, start, run[..|run| - 1], b, s.threads[t])
    ensures StartedBy(p, start, run, b, Reached(p, start, run).value.threads[t])
  {
    var s, a := Reached(p, start, run[..|run| - 1]).value, run[|run| - 1];
    AtPrefix(p, start, run, |run| - 1);
    if !ByThread(a, t) { OtherStep(p, s, a, t); }
  }

  /** What a Range reports to its goroutine is an entry the key had since the Range began. */
  lemma VisitsAreReal(p: Params, start: int, run: seq<Action>, t: nat, b: nat, v: nat)
    requires Reached(p, start, run).Some? && RangeStart(run, t, b) && VisitAt(run, t, b, v)
    ensures MappedDuring(p, start, run, b, v, run[v].key, run[v].entry)
    ensures t in At(p, start, run, v).threads && StartedBy(p, start, run, b, At(p, start, run, v).threads[t])
  {
    AtPrefix(p, start, run, v);
    AtStep(p, start, run, v);
    var b' := RangeIsWindow(p, start, run[..v], t);
    assert StartsRange(run[b'], t) && StartsRange(run[..v][b], t);
    assert b' == b;
    var n :| b < n <= v && MapsTo(At(p, start, run[..v], n), run[v].key, run[v].entry);
    assert MapsTo(At(p, start, run, n), run[v].key, run[v].entry);
  }

  /** Step `a` of goroutine `t` in state `s` is one that can leave it at `pc`. */
  ghost predicate Leaves(p: Params, s: State, a: Action, t: nat, pc: Pc) {
    && Enabled(p, s, a) && ByThread(a, t)
    && (pc.SweepDropping? ==> a.Visit?)
    && (pc.Evicting? ==> a.EndRange? && s.threads[t].Finding? && AfterRange(s.threads[t]) == Some(pc))
    && (pc.Checking? ==> a.Load? && MapsTo(s, KeyOf(p, pc.call), pc.entry))
    && (pc.Dropping? ==>
          a.Check? && s.threads[t].Checking? && pc.call == s.threads[t].call && s.now > s.threads[t].entry.expiresAt)
    && (pc.Stamping? ==> a == Succeed(t, pc.result))
    && (pc.Storing? ==>
          && a.Stamp? && s.threads[t].Stamping?
          && pc.entry == Entry(s.threads[t].result, Expiry(p.ttl, s.threads[t].result, s.now)))
  }

  lemma OwnStepLeaves(p: Params, s: State, a: Action, t: nat)
    requires Enabled(p, s, a) && ByThread(a, t) && t in Apply(p, s, a).threads
    ensures Leaves(p, s, a, t, Apply(p, s, a).threads[t])
  {}

  /** The step that brought goroutine `t` where it is. */
  lemma LeftBy(p: Params, start: int, run: seq<Action>, t: nat) returns (v: nat, before: State)
    requires Reached(p, start, run).Some? && t in Reached(p, start, run).value.threads
    requires !HasScan(Reached(p, start, run).value.threads[t])
    ensures LastOwn(run, t, v) && before == At(p, start, run, v) && Reached(p, start, run[..v]) == Some(before)
    ensures Leaves(p, before, run[v], t, Reached(p, start, run).value.threads[t])
  {
    v := LastOwnStep(p, start, run, t);
    before := At(p, start, run, v);
    AtPrefix(p, start, run, v);
    AtStep(p, start, run, v);
    OwnStepLeaves(p, before, run[v], t);
  }

  // ------------------------------------------------------- the sweeper

  /** Goroutine `t` ends with a visit, step `v`, of the sweeper tick that began with step `b`. */
  predicate SweepVisit(run: seq<Action>, t: nat, b: nat, v: nat) {
    RangeStart(run, t, b) && run[b].BeginSweep? && LastOwn(run, t, v) && VisitAt(run, t, b, v)
  }

  /**
   The sweeper deletes next exactly when the entry just reported to it expired before the tick began;
   it then removes that key and nothing else.
   */
  lemma SweepDropsExactly(p: Params, start: int, run: seq<Action>, t: nat, b: nat, v: nat)
    requires Reached(p, start, run).Some? && SweepVisit(run, t, b, v)
    ensures
      var s := Reached(p, start, run).value;
      && (Enabled(p, s, SweepDrop(t)) <==> At(p, start, run, b).now > run[v].entry.expiresAt)
      && (Enabled(p, s, SweepDrop(t)) ==> Apply(p, s, SweepDrop(t)).entries == s.entries - {run[v].key})
  {
    VisitsAreReal(p, start, run, t, b, v);
    AtStep(p, start, run, v);
    var pc := SweeperVisits(p, At(p, start, run, v), run[v]);
    StaysPut(p, start, run, t, v, |run|);
    AtEnd(p, start, run);
    SweeperNext(p, Reached(p, start, run).value, t, pc);
  }

  lemma SweeperVisits(p: Params, s: State, a: Action) returns (pc: Pc)
    requires Enabled(p, s, a) && a.Visit? && (s.threads[a.t].Sweeping? || s.threads[a.t].SweepDropping?)
    ensures a.t in Apply(p, s, a).threads && Apply(p, s, a).threads[a.t] == pc
    ensures s.threads[a.t].asOf > a.entry.expiresAt ==> pc.SweepDropping? && pc.key == a.key
    ensures s.threads[a.t].asOf <= a.entry.expiresAt ==> pc.Sweeping?
  {
    pc := Visited(s.threads[a.t], a.key, a.entry);
  }

  lemma SweeperNext(p: Params, s: State, t: nat, pc: Pc)
    requires t in s.threads && Alike(pc, s.threads[t])
    ensures Enabled(p, s, SweepDrop(t)) <==> pc.SweepDropping?
    ensures pc.SweepDropping? ==> Apply(p, s, SweepDrop(t)).entries == s.entries - {pc.key}
  {}

  /** It deletes at no other time. */
  lemma SweepDropsAfterVisit(p: Params, start: int, run: seq<Action>, t: nat) returns (b: nat, v: nat)
    requires Reached(p, start, run).Some? && Enabled(p, Reached(p, start, run).value, SweepDrop(t))
    ensures SweepVisit(run, t, b, v)
  {
    var before;
    v, before := LeftBy(p, start, run, t);
    b := RangeIsWindow(p, start, run, t);
    assert ByThread(run[b], t);
  }

  // ---------------------------------------------------------- requests

  /** The request of goroutine `t` begins with step `i`. */
  predicate Began(run: seq<Action>, t: nat, i: nat) {
    && i < |run| && run[i].Begin? && run[i].t == t
    && forall n | i < n < |run| :: !(run[n].Begin? && run[n].t == t)
  }

  lemma CallStaysAt(p: Params, start: int, run: seq<Action>, n: nat, t: nat)
    requires n < |run| && Reached(p, start, run).Some?
    requires t in At(p, start, run, n + 1).threads && HasCall(At(p, start, run, n + 1).threads[t])
    ensures
      var s, pc := At(p, start, run, n), At(p, start, run, n + 1).threads[t];
      if run[n].Begin? && run[n].t == t then pc.call == CallOf(run[n].header)
      else t in s.threads && HasCall(s.threads[t]) && s.threads[t].call == pc.call
  {
    AtStep(p, start, run, n);
    if !(run[n].Begin? && run[n].t == t) { CallStays(p, At(p, start, run, n), run[n], t); }
  }

  lemma {:induction false} BeganBefore(p: Params, start: int, run: seq<Action>, n: nat, t: nat) returns (i: nat)
    requires n <= |run| && Reached(p, start, run).Some?
    requires t in At(p, start, run, n).threads && HasCall(At(p, start, run, n).threads[t])
    ensures i < n && run[i].Begin? && run[i].t == t && forall m | i < m < n :: !(run[m].Begin? && run[m].t == t)
    ensures At(p, start, run, n).threads[t].call == CallOf(run[i].header)
    decreases n
  {
    CallStaysAt(p, start, run, n - 1, t);
    if run[n - 1].Begin? && run[n - 1].t == t {
      i := n - 1;
    } else {
      i := BeganBefore(p, start, run, n - 1, t);
    }
  }

  lemma RequestBegan(p: Params, start: int, run: seq<Action>, t: nat) returns (i: nat)
    requires Reached(p, start, run).Some?
    requires t in Reached(p, start, run).value.threads && HasCall(Reached(p, start, run).value.threads[t])
    ensures Began(run, t, i) && Reached(p, start, run).value.threads[t].call == CallOf(run[i].header)
  {
    AtEnd(p, start, run);
    i := BeganBefore(p, start, run, |run|, t);
  }

  lemma CallStays(p: Params, s: State, a: Action, t: nat)
    requires Enabled(p, s, a) && !(a.Begin? && a.t == t)
    requires t in Apply(p, s, a).threads && HasCall(Apply(p, s, a).threads[t])
    ensures t in s.threads && HasCall(s.threads[t]) && s.threads[t].call == Apply(p, s, a).threads[t].call
  {
    if !ByThread(a, t) { OtherStep(p, s, a, t); }
  }

  /** The request of `t` that begins with step `i` loaded entry `e` under its key in its last step, `l`. */
  ghost predicate Loaded(p: Params, start: int, run: seq<Action>, t: nat, i: nat, l: nat, e: Entry) {
    && Began(run, t, i) && i < l && LastOwn(run, t, l) && run[l] == Load(t)
    && MapsTo(At(p, start, run, l), KeyOf(p, CallOf(run[i].header)), e)
  }

  lemma CheckingLoaded(p: Params, start: int, run: seq<Action>, t: nat) returns (i: nat, l: nat)
    requires Reached(p, start, run).Some?
    requires t in Reached(p, start, run).value.threads && Reached(p, start, run).value.threads[t].Checking?
    ensures Loaded(p, start, run, t, i, l, Reached(p, start, run).value.threads[t].entry)
    ensures Reached(p, start, run).value.threads[t].call == CallOf(run[i].header)
  {
    i := RequestBegan(p, start, run, t);
    var before;
    l, before := LeftBy(p, start, run, t);
    assert ByThread(run[i], t);
  }

  /**
   The check of a request that has loaded an entry: it hits with that entry's result exactly when the
   entry has not expired, and goes on to delete exactly when it has.
   */
  lemma CheckDecides(p: Params, start: int, run: seq<Action>, t: nat) returns (i: nat, l: nat, e: Entry)
    requires Reached(p, start, run).Some? && Enabled(p, Reached(p, start, run).value, Check(t))
    ensures Loaded(p, start, run, t, i, l, e)
    ensures
      var s := Reached(p, start, run).value;
      var s' := Apply(p, s, Check(t));
      var call := CallOf(run[i].header);
      && s'.hits == (if s.now <= e.expiresAt then s.hits + {Hit(call, e.result, s.now)} else s.hits)
      && (Enabled(p, s', Drop(t)) <==> s.now > e.expiresAt)
  {
    i, l := CheckingLoaded(p, start, run, t);
    e := Reached(p, start, run).value.threads[t].entry;
  }

  /** The check of step `c`, the last of `t`, found the entry that step `l` had loaded expired. */
  ghost predicate LoadedExpired(p: Params, start: int, run: seq<Action>, t: nat, i: nat, l: nat, c: nat, e: Entry) {
    && Began(run, t, i) && LastOwn(run, t, c) && run[c] == Check(t)
    && Loaded(p, start, run[..c], t, i, l, e) && At(p, start, run, c).now > e.expiresAt
  }

  /** Get deletes exactly the key of its header, and only after it has loaded an expired entry there. */
  lemma DropsExpired(p: Params, start: int, run: seq<Action>, t: nat) returns (i: nat, l: nat, c: nat, e: Entry)
    requires Reached(p, start, run).Some? && Enabled(p, Reached(p, start, run).value, Drop(t))
    ensures LoadedExpired(p, start, run, t, i, l, c, e)
    ensures
      var s := Reached(p, start, run).value;
      Apply(p, s, Drop(t)).entries == s.entries - {KeyOf(p, CallOf(run[i].header))}
  {
    i := RequestBegan(p, start, run, t);
    var before;
    c, before := LeftBy(p, start, run, t);
    var i';
    i', l := CheckingLoaded(p, start, run[..c], t);
    BeganOnce(run, t, i, c, i');
    e := before.threads[t].entry;
    MapAfterStep(p, Reached(p, start, run).value, Drop(t));
  }

  /** A request begins with one step, in the run as in its part before step `c`. */
  lemma BeganOnce(run: seq<Action>, t: nat, i: nat, c: nat, i': nat)
    requires Began(run, t, i) && LastOwn(run, t, c) && !run[c].Begin? && Began(run[..c], t, i')
    ensures i' == i
  {
    assert run[..c][i'] == run[i'] && ByThread(run[i], t);
    assert run[..c][i] == run[i];
  }

  /** A load finds an entry, to be checked, exactly when the map has the key of the request's header. */
  lemma LoadFinds(p: Params, start: int, run: seq<Action>, t: nat) returns (i: nat)
    requires Reached(p, start, run).Some? && Enabled(p, Reached(p, start, run).value, Load(t))
    ensures Began(run, t, i)
    ensures
      var s := Reached(p, start, run).value;
      Enabled(p, Apply(p, s, Load(t)), Check(t)) <==> KeyOf(p, CallOf(run[i].header)) in s.entries
  {
    i := RequestBegan(p, start, run, t);
  }

  /** The introspector answered `r` in step `u`, and the expiry was computed in step `m`, the last of `t`. */
  ghost predicate Stamped(p: Params, start: int, run: seq<Action>, t: nat, u: nat, m: nat, r: Introspection) {
    LastOwn(run, t, m) && run[m] == Stamp(t) && LastOwn(run[..m], t, u) && run[u] == Succeed(t, r)
  }

  /** Set stores, under the key of its header, the result the chain gave with the expiry of that result. */
  lemma StoresAnswer(p: Params, start: int, run: seq<Action>, t: nat)
    returns (i: nat, u: nat, m: nat, r: Introspection)
    requires Reached(p, start, run).Some? && Enabled(p, Reached(p, start, run).value, Store(t))
    ensures Began(run, t, i) && Stamped(p, start, run, t, u, m, r)
    ensures
      var s := Reached(p, start, run).value;
      var stored := Entry(r, Expiry(p.ttl, r, At(p, start, run, m).now));
      Apply(p, s, Store(t)).entries == s.entries[KeyOf(p, CallOf(run[i].header)) := stored]
  {
    i := RequestBegan(p, start, run, t);
    var before, earlier;
    m, before := LeftBy(p, start, run, t);
    u, earlier := LeftBy(p, start, run[..m], t);
    r := before.threads[t].result;
    assert run[..m][u] == run[u];
    MapAfterStep(p, Reached(p, start, run).value, Store(t));
  }

  // ------------------------------------------------------- no deadlock

  ghost predicate CanStep(p: Params, s: State, t: nat) {
    exists a :: ByThread(a, t) && Enabled(p, s, a) && t in s.threads
  }

  /** The step a goroutine outside a Range takes next. */
  function NextStep(pc: Pc, t: nat): Action
    requires !HasScan(pc)
  {
    match pc
    case Loading(_) => Load(t)
    case Checking(_, _) => Check(t)
    case Dropping(_) => Drop(t)
    case Asking(_) => Fail(t)
    case Stamping(_, _) => Stamp(t)
    case Storing(_, _) => Store(t)
    case Locking => Lock(t)
    case Deciding(_) => Decide(t)
    case Evicting(_, _) => Evict(t)
    case SweepDropping(_, _, _) => SweepDrop(t)
  }

  lemma StepsOutsideRange(p: Params, s: State, t: nat)
    requires t in s.threads && !HasScan(s.threads[t]) && (s.threads[t].Locking? ==> s.mutex.None?)
    ensures CanStep(p, s, t)
  {
    var a := NextStep(s.threads[t], t);
    assert ByThread(a, t) && Enabled(p, s, a);
  }

  /** A Range can always report a key it must still visit, or end. */
  lemma StepsInRange(p: Params, start: int, run: seq<Action>, t: nat)
    requires Reached(p, start, run).Some?
    requires t in Reached(p, start, run).value.threads && HasScan(Reached(p, start, run).value.threads[t])
    ensures CanStep(p, Reached(p, start, run).value, t)
  {
    var s := Reached(p, start, run).value;
    var scan := s.threads[t].scan;
    var b := RangeIsWindow(p, start, run, t);
    if k :| k in scan.owed && k !in scan.visited {
      UntouchedStays(p, start, run, b, |run|, k);
      AtEnd(p, start, run);
      assert MapsTo(At(p, start, run, |run|), k, s.entries[k]);
      assert (k, s.entries[k]) in scan.offered;
      assert ByThread(Visit(t, k, s.entries[k]), t) && Enabled(p, s, Visit(t, k, s.entries[k]));
    } else {
      assert ByThread(EndRange(t), t) && Enabled(p, s, EndRange(t));
    }
  }

  /** Without a limit nobody evicts. */
  lemma {:induction false} NobodyEvicts(p: Params, start: int, run: seq<Action>)
    requires p.maxEntries == 0 && Reached(p, start, run).Some?
    ensures forall t | t in Reached(p, start, run).value.threads :: !InFlight(Reached(p, start, run).value.threads[t])
  {
    if run == [] {
    } else {
      NobodyEvicts(p, start, run[..|run| - 1]);
      NobodyEvictsNext(p, Reached(p, start, run[..|run| - 1]).value, run[|run| - 1]);
    }
  }

  lemma NobodyEvictsNext(p: Params, s: State, a: Action)
    requires p.maxEntries == 0 && Enabled(p, s, a) && forall t | t in s.threads :: !InFlight(s.threads[t])
    ensures forall t | t in Apply(p, s, a).threads :: !InFlight(Apply(p, s, a).threads[t])
  {}

  /**
   In every interleaving every goroutine can take its next step, whatever the others do, unless it waits
   for the mutex; then another goroutine holds the mutex, and that one can.
   */
  lemma NoDeadlock(p: Params, start: int, run: seq<Action>, t: nat)
    requires Reached(p, start, run).Some? && t in Reached(p, start, run).value.threads
    ensures
      var s := Reached(p, start, run).value;
      || CanStep(p, s, t)
      || (s.threads[t].Locking? && s.mutex.Some? && s.mutex.value != t && CanStep(p, s, s.mutex.value))
  {
    var s := Reached(p, start, run).value;
    if p.maxEntries > 0 { SizeInvReached(p, start, run); } else { NobodyEvicts(p, start, run); }
    var h := if s.threads[t].Locking? && s.mutex.Some? then s.mutex.value else t;
    if HasScan(s.threads[h]) {
      StepsInRange(p, start, run, h);
    } else {
      StepsOutsideRange(p, s, h);
    }
  }
}
