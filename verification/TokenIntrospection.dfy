/** The token introspection interceptor: options, scheme dispatch, cache and strategy chain. */
module TokenIntrospection {
  import opened Results
  import opened Strings
  import opened AuthorizationHeader
  import opened IntrospectionCache
  import opened CacheKeys

  /** A registered introspector; what it answers is an oracle, see `RunChain`. */
  datatype Introspector = Introspector(scheme: string, id: nat)

  datatype Setting = WithIntrospector(introspector: Introspector) | WithMetadataKey(key: string)

  datatype Config = Config(metadataKey: string, schemes: map<string, seq<Introspector>>)

  // -------------------------------------------------------------- options

  /** The introspectors registered for a scheme, in registration order. */
  function Registered(settings: seq<Setting>, scheme: string): seq<Introspector> {
    if settings == [] then []
    else
      var rest := Registered(settings[..|settings| - 1], scheme);
      match settings[|settings| - 1]
      case WithIntrospector(i) => if ToLower(i.scheme) == scheme then rest + [i] else rest
      case WithMetadataKey(_) => rest
  }

  /** Option `n` is the last one that sets the metadata key. */
  predicate LastKey(settings: seq<Setting>, n: nat) {
    n < |settings| && settings[n].WithMetadataKey? && forall m | n < m < |settings| :: !settings[m].WithMetadataKey?
  }

  /** The metadata key: the last one set, lowercased, and "authorization" when none is. */
  function MetadataKey(settings: seq<Setting>): (key: string)
    ensures forall n | 0 <= n < |settings| && LastKey(settings, n) :: key == ToLower(settings[n].key)
    ensures (forall n | 0 <= n < |settings| :: !settings[n].WithMetadataKey?) ==> key == "authorization"
  {
    if settings == [] then "authorization"
    else
      match settings[|settings| - 1]
      case WithIntrospector(_) => MetadataKey(settings[..|settings| - 1])
      case WithMetadataKey(k) => ToLower(k)
  }

  function ChainFor(cfg: Config, scheme: string): seq<Introspector> {
    if scheme in cfg.schemes then cfg.schemes[scheme] else []
  }

  method BuildConfig(settings: seq<Setting>) returns (cfg: Config)
    ensures cfg.metadataKey == MetadataKey(settings)
    ensures forall scheme :: ChainFor(cfg, scheme) == Registered(settings, scheme)
  {
    cfg := Config("authorization", map[]);
    for n := 0 to |settings|
      invariant cfg.metadataKey == MetadataKey(settings[..n])
      invariant forall scheme :: ChainFor(cfg, scheme) == Registered(settings[..n], scheme)
    {
      assert settings[..n + 1][..n] == settings[..n];
      match settings[n]
      case WithIntrospector(i) =>
        var scheme := ToLower(i.scheme);
        cfg := cfg.(schemes := cfg.schemes[scheme := ChainFor(cfg, scheme) + [i]]);
      case WithMetadataKey(k) =>
        cfg := cfg.(metadataKey := ToLower(k));
    }
    assert settings[..|settings|] == settings;
  }

  predicate Matches(s: Setting, scheme: string) {
    s.WithIntrospector? && ToLower(s.introspector.scheme) == scheme
  }

  /** The option positions of the introspectors of a scheme. */
  function Positions(settings: seq<Setting>, scheme: string): (at: seq<nat>)
    ensures forall j | 0 <= j < |at| :: at[j] < |settings|
    ensures forall j, k | 0 <= j < k < |at| :: at[j] < at[k]
  {
    if settings == [] then []
    else
      var last := |settings| - 1;
      var rest := Positions(settings[..last], scheme);
      if Matches(settings[last], scheme) then rest + [last] else rest
  }

  lemma {:induction false} PositionsAreMatches(settings: seq<Setting>, scheme: string, n: nat)
    requires n < |settings|
    ensures n in Positions(settings, scheme) <==> Matches(settings[n], scheme)
  {
    var last := |settings| - 1;
    var rest := Positions(settings[..last], scheme);
    if n < last {
      PositionsAreMatches(settings[..last], scheme, n);
    } else {
      assert n !in rest;
    }
    assert forall x :: x in rest + [last] <==> x in rest || x == last;
  }

  /** The chain of a scheme is exactly its introspectors among the options, in registration order. */
  lemma {:induction false} RegisteredInOrder(settings: seq<Setting>, scheme: string, j: nat)
    ensures |Registered(settings, scheme)| == |Positions(settings, scheme)|
    ensures j < |Registered(settings, scheme)| ==>
              settings[Positions(settings, scheme)[j]] == WithIntrospector(Registered(settings, scheme)[j])
  {
    if settings == [] {
    } else {
      var last := |settings| - 1;
      var most := settings[..last];
      RegisteredInOrder(most, scheme, j);
      if j < |Positions(most, scheme)| {
        assert Positions(settings, scheme)[j] == Positions(most, scheme)[j];
        assert most[Positions(most, scheme)[j]] == settings[Positions(most, scheme)[j]];
      }
    }
  }

  // ------------------------------------------------------- strategy chain

  datatype Outcome = Success(result: Introspection) | Failure(error: Error)

  /** Only a gRPC Unauthenticated status passes the credential on to the next strategy. */
  predicate Declines(o: Outcome) { o.Failure? && o.error.Status? && o.error.code == Unauthenticated }

  /** What an introspector answers for a credential. */
  type Oracle = (Introspector, string) -> Outcome

  /** One call of an introspector. */
  datatype Ask = Ask(introspector: Introspector, credential: string)

  /** The position of the first strategy that does not decline the credential; the length when all do. */
  function FirstDecisive(chain: seq<Introspector>, credential: string, ask: Oracle): (d: nat)
    ensures d <= |chain|
    ensures forall j | 0 <= j < d :: Declines(ask(chain[j], credential))
    ensures d < |chain| ==> !Declines(ask(chain[d], credential))
  {
    if chain == [] || !Declines(ask(chain[0], credential)) then 0
    else 1 + FirstDecisive(chain[1..], credential, ask)
  }

  /** The position whose answer counts: the first decisive one, else the last. */
  function Deciding(chain: seq<Introspector>, credential: string, ask: Oracle): (d: nat)
    requires chain != []
    ensures d < |chain|
  {
    var d := FirstDecisive(chain, credential, ask);
    if d < |chain| then d else |chain| - 1
  }

  /** The strategy loop: the answer that counts, and the calls made, which end with it. */
  method RunChain(chain: seq<Introspector>, credential: string, ask: Oracle) returns (r: Outcome, asked: seq<Ask>)
    requires chain != []
    ensures |asked| == Deciding(chain, credential, ask) + 1
    ensures forall j | 0 <= j < |asked| :: asked[j] == Ask(chain[j], credential)
    ensures forall j | 0 <= j < |asked| - 1 :: Declines(ask(chain[j], credential))
    ensures r == ask(chain[|asked| - 1], credential) && (Declines(r) ==> |asked| == |chain|)
  {
    r := Failure(Plain("no strategy"));
    asked := [];
    for j := 0 to |chain|
      invariant |asked| == j && forall k | 0 <= k < j :: asked[k] == Ask(chain[k], credential)
      invariant forall k | 0 <= k < j :: Declines(ask(chain[k], credential))
      invariant j > 0 ==> r == ask(chain[j - 1], credential)
    {
      r := ask(chain[j], credential);
      asked := asked + [Ask(chain[j], credential)];
      if r.Success? { return; }
      if !Declines(r) { return; }
    }
  }

  // ------------------------------------------------------------ introspect

  datatype Decision =
    | PassThrough
    | Placed(result: Introspection)
    | Rejected(error: Error)

  /** What the request asks for, before cache and chain. */
  datatype Demand = Nothing | Malformed | Credential(scheme: string, credential: string)

  function DemandOf(cfg: Config, md: Metadata): Demand {
    if md.None? || cfg.metadataKey !in md.value then Nothing
    else
      var values := md.value[cfg.metadataKey];
      if |values| == 0 || values[0] == "" then Nothing
      else
        var (scheme, credential) := ParseAuthorization(values[0]);
        if scheme == "" || credential == "" then Malformed else Credential(scheme, credential)
  }

  /** The request has no header under the key, or an empty one. */
  predicate NoHeader(md: Metadata, key: string) {
    md.None? || key !in md.value || md.value[key] == [] || md.value[key][0] == ""
  }

  /**
   The decision of a chain on a credential, and the calls made for it: the introspectors in order, up
   to the first that does not answer Unauthenticated; its result is placed, or its own error rejects
   the request. When all answer Unauthenticated it is the last one's error.
   */
  ghost predicate DecidedBy(chain: seq<Introspector>, credential: string, ask: Oracle, d: Decision, asked: seq<Ask>) {
    && |asked| <= |chain| && (asked == [] <==> chain == [])
    && (forall j | 0 <= j < |asked| :: asked[j] == Ask(chain[j], credential))
    && (forall j | 0 <= j < |asked| - 1 ::
          var o := ask(chain[j], credential);
          o.Failure? && o.error.Status? && o.error.code == Unauthenticated)
    && (asked == [] ==> d == Rejected(Status(Unauthenticated, "unsupported")))
    && (asked != [] ==>
          match ask(chain[|asked| - 1], credential)
          case Success(x) => d == Placed(x)
          case Failure(e) => d == Rejected(e) && (e.Status? && e.code == Unauthenticated ==> |asked| == |chain|))
  }

  /** There is only one such decision, with one list of calls. */
  lemma DecisionUnique(chain: seq<Introspector>, credential: string, ask: Oracle,
                       d1: Decision, asked1: seq<Ask>, d2: Decision, asked2: seq<Ask>)
    requires DecidedBy(chain, credential, ask, d1, asked1) && DecidedBy(chain, credential, ask, d2, asked2)
    ensures d1 == d2 && asked1 == asked2
  {
    assert |asked1| == |asked2|;
  }

  /** The result a cache answers for a key at a time; none without a cache. */
  function HitAt(cache: InMemoryCache?, key: string, now: int): Option<Introspection>
    reads cache
  {
    if cache == null then None else Lookup(cache.entries, key, now)
  }

  /**
   introspect: `getNow` and `setNow` are the clock values Get and Set read, `asked` the introspector
   calls made, in order.
   */
  method Introspect(cfg: Config, digest: string -> string, cache: InMemoryCache?, md: Metadata,
                    ask: Oracle, getNow: int, setNow: int)
    returns (d: Decision, asked: seq<Ask>)
    requires cache != null ==> cache.Valid() && cache.clock <= getNow <= setNow
    modifies cache
    ensures cache != null ==> cache.Valid()
    // no header, or one that is no scheme and credential: neither cache nor chain is consulted
    ensures NoHeader(md, cfg.metadataKey) ==> d == PassThrough && asked == [] && (cache != null ==> unchanged(cache))
    ensures !NoHeader(md, cfg.metadataKey) && !AuthorizationText(md.value[cfg.metadataKey][0]) ==>
              && d == Rejected(Status(Unauthenticated, "malformed")) && asked == []
              && (cache != null ==> unchanged(cache))
    // a hit places the cached result and calls nobody; on a miss the scheme's chain decides
    ensures !NoHeader(md, cfg.metadataKey) ==> forall scheme, w1, credential, w2 |
              Reads(md.value[cfg.metadataKey][0], scheme, w1, credential, w2) ::
              var key := CacheKey(digest, ToLower(scheme), credential);
              var hit := old(HitAt(cache, key, getNow));
              && (hit.Some? ==> d == Placed(hit.value) && asked == [])
              && (hit.None? ==> DecidedBy(ChainFor(cfg, ToLower(scheme)), credential, ask, d, asked))
              // only a fresh success is stored, under the header's key
              && (cache != null && hit.None? && d.Placed? ==>
                    var entry := Entry(d.result, Expiry(cache.ttl, d.result, setNow));
                    cache.log == old(cache.log) + [SetRecord(key, entry)])
              && (cache != null && (hit.Some? || !d.Placed?) ==>
                    cache.log == old(cache.log) && cache.entries == old(AfterGet(cache.entries, key, getNow)))
  {
    asked := [];
    var demand := DemandOf(cfg, md);
    DemandReads(cfg, md);
    if demand.Nothing? { return PassThrough, []; }
    if demand.Malformed? { return Rejected(Status(Unauthenticated, "malformed")), []; }
    var key := CacheKey(digest, demand.scheme, demand.credential);
    if cache != null {
      var hit := cache.Get(key, getNow);
      if hit.Some? { return Placed(hit.value), []; }
    }
    var chain := ChainFor(cfg, demand.scheme);
    if |chain| == 0 {
      return Rejected(Status(Unauthenticated, "unsupported")), [];
    }
    var r;
    r, asked := RunChain(chain, demand.credential, ask);
    match r
    case Success(result) =>
      if cache != null { cache.Set(key, result, setNow); }
      d := Placed(result);
    case Failure(e) =>
      d := Rejected(e);
  }

  ghost predicate AuthorizationText(value: string) {
    exists scheme, w1, credential, w2 :: Reads(value, scheme, w1, credential, w2)
  }

  /** What a request demands, read off its metadata. */
  lemma DemandReads(cfg: Config, md: Metadata)
    ensures DemandOf(cfg, md).Nothing? <==> NoHeader(md, cfg.metadataKey)
    ensures !NoHeader(md, cfg.metadataKey) ==>
              var value := md.value[cfg.metadataKey][0];
              && (DemandOf(cfg, md).Credential? <==> AuthorizationText(value))
              && (forall scheme, w1, credential, w2 | Reads(value, scheme, w1, credential, w2) ::
                    DemandOf(cfg, md) == Credential(ToLower(scheme), credential))
  {
    if !NoHeader(md, cfg.metadataKey) { AcceptsExactly(md.value[cfg.metadataKey][0]); }
  }

  // ----------------------------------------------------------- end to end

  /** The introspector that option number `n` registers. */
  function IntrospectorAt(settings: seq<Setting>, n: nat): Introspector
    requires n < |settings| && settings[n].WithIntrospector?
  {
    settings[n].introspector
  }

  /**
   From the options to the calls, for a credential that misses the cache. The calls are, in option
   order, of introspectors whose lowercased scheme is that of the header, each with the header's
   credential; all before the last one called answered Unauthenticated. The last one called decides:
   its result is placed or its error rejects, and if that is Unauthenticated it is the last one
   registered. Without such an option the request is rejected as Unauthenticated.
   */
  lemma OptionsToCalls(settings: seq<Setting>, scheme: string, credential: string, ask: Oracle,
                       d: Decision, asked: seq<Ask>)
    requires DecidedBy(Registered(settings, scheme), credential, ask, d, asked)
    ensures
      var at := Positions(settings, scheme);
      && |asked| <= |at| && (asked == [] <==> at == [])
      && (forall j | 0 <= j < |asked| ::
            Matches(settings[at[j]], scheme) && asked[j] == Ask(IntrospectorAt(settings, at[j]), credential))
      && (forall j | 0 <= j < |asked| - 1 :: Declines(ask(asked[j].introspector, credential)))
      && (asked == [] ==> d.Rejected? && d.error.Status? && d.error.code == Unauthenticated)
      && (asked != [] ==>
            var last := ask(asked[|asked| - 1].introspector, credential);
            && (forall x :: d == Placed(x) <==> last == Success(x))
            && (forall e :: d == Rejected(e) <==> last == Failure(e))
            && (Declines(last) ==> |asked| == |at|))
  {
    RegisteredInOrder(settings, scheme, 0);
    forall j | 0 <= j < |Positions(settings, scheme)|
      ensures settings[Positions(settings, scheme)[j]] == WithIntrospector(Registered(settings, scheme)[j])
      ensures Matches(settings[Positions(settings, scheme)[j]], scheme)
    {
      RegisteredInOrder(settings, scheme, j);
      PositionsAreMatches(settings, scheme, Positions(settings, scheme)[j]);
    }
  }

  /** The interceptor: the options are applied, then a request is introspected. */
  method Intercept(settings: seq<Setting>, digest: string -> string, cache: InMemoryCache?, md: Metadata,
                   ask: Oracle, getNow: int, setNow: int)
    returns (d: Decision, asked: seq<Ask>)
    requires cache != null ==> cache.Valid() && cache.clock <= getNow <= setNow
    modifies cache
    ensures NoHeader(md, MetadataKey(settings)) ==> d == PassThrough && asked == []
    ensures !NoHeader(md, MetadataKey(settings)) && !AuthorizationText(md.value[MetadataKey(settings)][0]) ==>
              d == Rejected(Status(Unauthenticated, "malformed")) && asked == []
    ensures !NoHeader(md, MetadataKey(settings)) ==> forall scheme, w1, credential, w2 |
              Reads(md.value[MetadataKey(settings)][0], scheme, w1, credential, w2) ::
              var hit := old(HitAt(cache, CacheKey(digest, ToLower(scheme), credential), getNow));
              && (hit.Some? ==> d == Placed(hit.value) && asked == [])
              && (hit.None? ==> DecidedBy(Registered(settings, ToLower(scheme)), credential, ask, d, asked))
  {
    var cfg := BuildConfig(settings);
    d, asked := Introspect(cfg, digest, cache, md, ask, getNow, setNow);
  }
}
