/**
 Streaming calls: each interceptor wraps the stream, and a verification wrapper calls Verify before
 every receive it passes on.
 */
module StreamChain {
  import opened Results
  import opened AuthorizationHeader
  import opened ResourceTemplate
  import opened MethodPolicy
  import opened InterceptorChain

  /** A server stream under its wrappers; every layer has the context its Context() returns. */
  datatype Stream =
    | Base(ctx: Ctx)
    | WithCtx(inner: Stream, ctx: Ctx)
    | Auth(inner: Stream, ctx: Ctx, at: nat, verifier: nat, policy: Policy)

  datatype StreamStep = Reject(events: seq<Event>, error: Error) | Wrap(stream: Stream, event: Event)

  /** The policy a stream method declares; field mappings are rejected, nothing is resolved. */
  function StreamPolicy(w: World, fullMethod: string): Declared {
    match LookupPolicy(w.files, fullMethod)
    case Err(e) => Err(e)
    case Ok(None) => Ok(None)
    case Ok(Some(p)) =>
      if |p.fieldMappings| > 0 then Err("field mappings")
      else Ok(Some(Policy(p.resource, p.action)))
  }

  /** The same in terms of the registry. */
  ghost predicate StreamDeclaredAs(lookup: Answer, declared: Declared) {
    && (lookup.Err? ==> declared == Err(lookup.error))
    && (lookup == Ok(None) ==> declared == Ok(None))
    && (lookup.Ok? && lookup.value.Some? ==>
          var p := lookup.value.value;
          if p.fieldMappings == [] then declared == Ok(Some(Policy(p.resource, p.action))) else declared.Err?)
  }

  lemma StreamDeclaredExactly(w: World, fullMethod: string)
    ensures StreamDeclaredAs(LookupPolicy(w.files, fullMethod), StreamPolicy(w, fullMethod))
  {}

  function StepStream(w: World, declared: Declared, ic: Interceptor, i: nat, s: Stream, tr: seq<Event>): StreamStep {
    match ic
    case Tracking(key) =>
      var c := EnsureID(w, tr, s.ctx, key);
      Wrap(WithCtx(s, c), Forwarded(i, c))
    case TokenCheck =>
      (match IntrospectStep(w, i, s.ctx, tr)
       case Stop(es, e) => Reject(es, e)
       case Next(c, event) => Wrap(WithCtx(s, c), event))
    case PolicyOption =>
      (match declared
       case Err(e) => Reject([], Status(Internal, e))
       case Ok(p) =>
         var c := s.ctx.(optionRan := true, policy := if p.Some? then p else s.ctx.policy);
         Wrap(WithCtx(s, c), Forwarded(i, c)))
    case Verification(v) =>
      var c := EnsureID(w, tr, s.ctx, REQUEST_ID_KEY);
      if !c.optionRan then Reject([], NotRegistered())
      else if c.policy.None? then Wrap(WithCtx(s, c), Forwarded(i, c))
      else Wrap(Auth(s, c, i, v, c.policy.value), Forwarded(i, c))
  }

  datatype Opened = Opened(trace: seq<Event>, stream: Result<Stream, Error>)

  /** Stream establishment: the stream the handler is called with, or the error. */
  function OpenStream(w: World, declared: Declared, chain: seq<Interceptor>, i: nat, s: Stream, tr: seq<Event>): Opened
    requires i <= |chain|
    decreases |chain| - i
  {
    if i == |chain| then Opened(tr + [Handled(i, s.ctx)], Ok(s))
    else
      match StepStream(w, declared, chain[i], i, s, tr)
      case Reject(es, e) => Opened(tr + es, Err(e))
      case Wrap(s', e) => OpenStream(w, declared, chain, i + 1, s', tr + [e])
  }

  // -------------------------------------------------------------- receive

  datatype Receipt = Receipt(trace: seq<Event>, error: Option<Error>)

  /** RecvMsg through all wrappers, outermost first. */
  function Receive(w: World, s: Stream, tr: seq<Event>): Receipt {
    match s
    case Base(_) => Receipt(tr + [Received], None)
    case WithCtx(inner, _) => Receive(w, inner, tr)
    case Auth(inner, c, at, v, p) =>
      var verdict := w.verify(tr, v, c, p);
      var tr' := tr + [Verified(at, c, v, p, verdict)];
      if verdict.Some? then Receipt(tr', verdict) else Receive(w, inner, tr')
  }

  /** The handler's run: any number of RecvMsg calls. */
  function Receives(w: World, s: Stream, n: nat, tr: seq<Event>): seq<Event> {
    if n == 0 then tr else Receive(w, s, Receives(w, s, n - 1, tr)).trace
  }

  /** The nil Verify calls that precede a delivered receive: every wrapper's, outermost first. */
  function Clearances(s: Stream): seq<Event> {
    match s
    case Base(_) => []
    case WithCtx(inner, _) => Clearances(inner)
    case Auth(inner, c, at, v, p) => [Verified(at, c, v, p, None)] + Clearances(inner)
  }

  /** `more` is a proper prefix of the clearances followed by a denial in place of the next one. */
  ghost predicate DeniedAt(clear: seq<Event>, more: seq<Event>, err: Error) {
    && 0 < |more| <= |clear|
    && (forall k | 0 <= k < |more| - 1 :: more[k] == clear[k])
    && clear[|more| - 1].Verified?
    && more[|more| - 1] == clear[|more| - 1].(verdict := Some(err))
  }

  lemma DeniedDeeper(e: Event, clear: seq<Event>, more: seq<Event>, err: Error)
    requires DeniedAt(clear, more, err)
    ensures DeniedAt([e] + clear, [e] + more, err)
  {}

  /** A receive either clears every wrapper and reaches the stream once, or is denied and does not. */
  lemma {:induction false} ReceiveClearsOrDenies(w: World, s: Stream, tr: seq<Event>)
    ensures
      var r := Receive(w, s, tr);
      && tr <= r.trace
      && (r.error.None? ==> r.trace[|tr|..] == Clearances(s) + [Received])
      && (r.error.Some? ==> DeniedAt(Clearances(s), r.trace[|tr|..], r.error.value))
  {
    match s
    case Base(_) =>
    case WithCtx(inner, _) => ReceiveClearsOrDenies(w, inner, tr);
    case Auth(inner, c, at, v, p) =>
      var e := Verified(at, c, v, p, w.verify(tr, v, c, p));
      if e.verdict.None? {
        var tr' := tr + [e];
        ReceiveClearsOrDenies(w, inner, tr');
        var r := Receive(w, inner, tr');
        assert r.trace[|tr|..] == [e] + r.trace[|tr'|..];
        if r.error.Some? { DeniedDeeper(e, Clearances(inner), r.trace[|tr'|..], r.error.value); }
      } else {
        assert (tr + [e])[|tr|..] == [e];
      }
  }

  /** A denied receive leaves the underlying stream untouched. */
  lemma DeniedReceiveDeliversNothing(w: World, s: Stream, tr: seq<Event>)
    requires Receive(w, s, tr).error.Some?
    ensures tr <= Receive(w, s, tr).trace
    ensures forall e | e in Receive(w, s, tr).trace[|tr|..] :: e.Verified?
  {
    ReceiveClearsOrDenies(w, s, tr);
    ClearancesAreChecks(s);
  }

  /** In a trace, from `start` on, each Received directly follows its own full block of clearances. */
  ghost predicate EachCleared(tr: seq<Event>, start: nat, clear: seq<Event>) {
    forall j | start <= j < |tr| && tr[j].Received? :: start <= j - |clear| && tr[j - |clear|..j] == clear
  }

  lemma {:induction false} ClearancesAreChecks(s: Stream)
    ensures forall k | 0 <= k < |Clearances(s)| :: Clearances(s)[k].Verified? && Clearances(s)[k].verdict.None?
  {
    match s
    case Base(_) =>
    case WithCtx(inner, _) => ClearancesAreChecks(inner);
    case Auth(inner, _, _, _, _) => ClearancesAreChecks(inner);
  }

  lemma ClearedAfterReceive(w: World, s: Stream, tr: seq<Event>, start: nat)
    requires start <= |tr| && EachCleared(tr, start, Clearances(s))
    ensures EachCleared(Receive(w, s, tr).trace, start, Clearances(s))
  {
    var r := Receive(w, s, tr);
    ReceiveClearsOrDenies(w, s, tr);
    ClearancesAreChecks(s);
    assert r.trace == tr + r.trace[|tr|..];
    ClearedAfterBlock(Clearances(s), tr, r.trace[|tr|..], r.error, start);
  }

  lemma ClearedAfterBlock(clear: seq<Event>, tr: seq<Event>, more: seq<Event>, error: Option<Error>, start: nat)
    requires start <= |tr| && EachCleared(tr, start, clear)
    requires forall k | 0 <= k < |clear| :: clear[k].Verified?
    requires error.None? ==> more == clear + [Received]
    requires error.Some? ==> DeniedAt(clear, more, error.value)
    ensures EachCleared(tr + more, start, clear)
  {
    forall j | start <= j < |tr + more| && (tr + more)[j].Received?
      ensures start <= j - |clear| && (tr + more)[j - |clear|..j] == clear
    {
      if j < |tr| {
        assert tr[j].Received?;
        SliceBefore(tr, more, j - |clear|, j);
      } else {
        BlockEndsInReceived(clear, more, error, j - |tr|);
        SliceAfter(tr, more, |clear|);
      }
    }
  }

  lemma SliceBefore(tr: seq<Event>, more: seq<Event>, a: nat, b: nat)
    requires a <= b <= |tr|
    ensures (tr + more)[a..b] == tr[a..b]
  {}

  lemma SliceAfter(tr: seq<Event>, more: seq<Event>, n: nat)
    requires n <= |more|
    ensures (tr + more)[|tr|..|tr| + n] == more[..n]
  {}

  lemma BlockEndsInReceived(clear: seq<Event>, more: seq<Event>, error: Option<Error>, j: nat)
    requires forall k | 0 <= k < |clear| :: clear[k].Verified?
    requires error.None? ==> more == clear + [Received]
    requires error.Some? ==> DeniedAt(clear, more, error.value)
    requires j < |more| && more[j].Received?
    ensures j == |clear| && more[..|clear|] == clear
  {}

  lemma {:induction false} ReceivesCleared(w: World, s: Stream, n: nat, tr: seq<Event>)
    ensures |tr| <= |Receives(w, s, n, tr)| && EachCleared(Receives(w, s, n, tr), |tr|, Clearances(s))
  {
    if n == 0 {
    } else {
      ReceivesCleared(w, s, n - 1, tr);
      ReceiveClearsOrDenies(w, s, Receives(w, s, n - 1, tr));
      ClearedAfterReceive(w, s, Receives(w, s, n - 1, tr), |tr|);
    }
  }

  // -------------------------------------------------- stacked verification

  /** The verification wrappers of a stream, innermost first, as the Verify they call. */
  function Layers(s: Stream): seq<Check> {
    match s
    case Base(_) => []
    case WithCtx(inner, _) => Layers(inner)
    case Auth(inner, _, at, v, p) => Layers(inner) + [Check(at, v, p, None)]
  }

  /** Clearances run the layers from the outermost to the innermost. */
  lemma {:induction false} ClearancesReverseLayers(s: Stream)
    ensures |Clearances(s)| == |Layers(s)|
    ensures forall k | 0 <= k < |Layers(s)| :: CheckOf(Clearances(s)[k]) == [Layers(s)[|Layers(s)| - 1 - k]]
  {
    match s
    case Base(_) =>
    case WithCtx(inner, _) => ClearancesReverseLayers(inner);
    case Auth(inner, _, _, _, _) => ClearancesReverseLayers(inner);
  }

  /** Every verification wrapper verifies under request ID `id`. */
  predicate LayersUse(s: Stream, id: string) {
    match s
    case Base(_) => true
    case WithCtx(inner, _) => LayersUse(inner, id)
    case Auth(inner, c, _, _, _) => c.requestID == id && LayersUse(inner, id)
  }

  /** Verification wrappers use the request ID of the stream's own context, which is then not empty. */
  predicate OneID(s: Stream) {
    LayersUse(s, s.ctx.requestID) && (s.ctx.requestID == "" ==> Layers(s) == [])
  }

  lemma {:induction false} NoLayersUseAny(s: Stream, id: string)
    requires Layers(s) == []
    ensures LayersUse(s, id)
  {
    match s
    case WithCtx(inner, _) => NoLayersUseAny(inner, id);
    case _ =>
  }

  lemma {:induction false} ClearancesUse(s: Stream, id: string)
    requires LayersUse(s, id)
    ensures forall k | 0 <= k < |Clearances(s)| :: Clearances(s)[k].Verified? && Clearances(s)[k].ctx.requestID == id
  {
    match s
    case Base(_) =>
    case WithCtx(inner, _) => ClearancesUse(inner, id);
    case Auth(inner, _, _, _, _) => ClearancesUse(inner, id);
  }

  lemma StepStreamPolicy(w: World, declared: Declared, ic: Interceptor, i: nat, s: Stream, tr: seq<Event>)
    requires Consistent(s.ctx, declared) && StepStream(w, declared, ic, i, s, tr).Wrap?
    ensures
      var s' := StepStream(w, declared, ic, i, s, tr).stream;
      && Consistent(s'.ctx, declared) && s'.ctx.optionRan == (s.ctx.optionRan || ic.PolicyOption?)
      && (ic.PolicyOption? ==> declared.Ok?)
      && (ic.Verification? ==> s.ctx.optionRan)
      && Layers(s') == Layers(s) + OwedHere(ic, i, declared)
  {}

  lemma StepStreamOneID(w: World, declared: Declared, ic: Interceptor, i: nat, s: Stream, tr: seq<Event>)
    requires OneID(s) && StepStream(w, declared, ic, i, s, tr).Wrap?
    ensures OneID(StepStream(w, declared, ic, i, s, tr).stream)
  {
    var s' := StepStream(w, declared, ic, i, s, tr).stream;
    if s.ctx.requestID == "" { NoLayersUseAny(s, s'.ctx.requestID); }
  }

  lemma {:induction false} OpenFrom(
    w: World, declared: Declared, chain: seq<Interceptor>, i: nat, s: Stream, tr: seq<Event>)
    requires i <= |chain| && Consistent(s.ctx, declared) && OneID(s)
    requires OpenStream(w, declared, chain, i, s, tr).stream.Ok?
    ensures Guarded(chain, i, s.ctx.optionRan)
    ensures (exists k | i <= k < |chain| :: chain[k].PolicyOption?) ==> declared.Ok?
    ensures
      var done := OpenStream(w, declared, chain, i, s, tr).stream.value;
      Layers(done) == Layers(s) + Owed(chain, i, declared) && OneID(done)
    decreases |chain| - i
  {
    if i == |chain| {
    } else {
      StepStreamPolicy(w, declared, chain[i], i, s, tr);
      StepStreamOneID(w, declared, chain[i], i, s, tr);
      var Wrap(s', e) := StepStream(w, declared, chain[i], i, s, tr);
      OpenFrom(w, declared, chain, i + 1, s', tr + [e]);
      ChecksAssoc(Layers(s), OwedHere(chain[i], i, declared), Owed(chain, i + 1, declared));
    }
  }

  lemma ChecksAssoc(a: seq<Check>, b: seq<Check>, c: seq<Check>)
    ensures (a + b) + c == a + (b + c)
  {}

  /** Establishment of a stream of a method, through the whole chain. */
  function Establish(w: World, fullMethod: string, chain: seq<Interceptor>, c: Ctx): Opened {
    OpenStream(w, StreamPolicy(w, fullMethod), chain, 0, Base(c), [])
  }

  /** Establishment from a fresh request. */
  lemma OpenFresh(w: World, declared: Declared, chain: seq<Interceptor>, c: Ctx)
    requires Fresh(c) && OpenStream(w, declared, chain, 0, Base(c), []).stream.Ok?
    ensures Guarded(chain, 0, false)
    ensures (exists k | 0 <= k < |chain| :: chain[k].PolicyOption?) ==> declared.Ok?
    ensures Layers(OpenStream(w, declared, chain, 0, Base(c), []).stream.value) == Owed(chain, 0, declared)
    ensures OneID(OpenStream(w, declared, chain, 0, Base(c), []).stream.value)
  {
    OpenFrom(w, declared, chain, 0, Base(c), []);
  }

  /** What a receive needs: one nil Verify per layer, outermost first, under the stream's request ID. */
  ghost predicate ClearancesMatch(s: Stream) {
    && |Clearances(s)| == |Layers(s)|
    && forall k | 0 <= k < |Clearances(s)| ::
         && CheckOf(Clearances(s)[k]) == [Layers(s)[|Layers(s)| - 1 - k]]
         && Clearances(s)[k].Verified? && Clearances(s)[k].ctx.requestID == s.ctx.requestID != ""
  }

  lemma OneIDClears(s: Stream)
    requires OneID(s)
    ensures ClearancesMatch(s)
  {
    ClearancesReverseLayers(s);
    ClearancesUse(s, s.ctx.requestID);
  }

  /** Wrappers as owed, and `n` receives of which each delivered one directly follows its clearances. */
  ghost predicate ClearedThroughout(w: World, done: Opened, owed: seq<Check>, n: nat)
    requires done.stream.Ok?
  {
    var s := done.stream.value;
    && Layers(s) == owed && ClearancesMatch(s)
    && EachCleared(Receives(w, s, n, done.trace), |done.trace|, Clearances(s))
  }

  /** A lookup a stream interceptor accepts: no policy, or one without field mappings. */
  predicate Streamable(lookup: Answer) {
    lookup.Ok? && (lookup.value.Some? ==> lookup.value.value.fieldMappings == [])
  }

  /** One wrapper per verification, on the resource and action in the registry; none without a policy. */
  function Wrappers(lookup: Answer, chain: seq<Interceptor>): seq<Check> {
    if Streamable(lookup) && lookup.value.Some? then
      Owed(chain, 0, Ok(Some(Policy(lookup.value.value.resource, lookup.value.value.action))))
    else []
  }

  lemma StreamableExactly(w: World, fullMethod: string)
    ensures StreamPolicy(w, fullMethod).Ok? <==> Streamable(LookupPolicy(w.files, fullMethod))
  {
    StreamDeclaredExactly(w, fullMethod);
  }

  lemma WrappersAreOwed(w: World, fullMethod: string, chain: seq<Interceptor>)
    requires Guarded(chain, 0, false)
    requires (exists k | 0 <= k < |chain| :: chain[k].PolicyOption?) ==> StreamPolicy(w, fullMethod).Ok?
    ensures Owed(chain, 0, StreamPolicy(w, fullMethod)) == Wrappers(LookupPolicy(w.files, fullMethod), chain)
    ensures StreamPolicy(w, fullMethod).Ok? <==> Streamable(LookupPolicy(w.files, fullMethod))
  {
    StreamDeclaredExactly(w, fullMethod);
    if !StreamPolicy(w, fullMethod).Ok? {
      VerificationsGuarded(chain);
      NothingOwed(chain, 0, StreamPolicy(w, fullMethod));
    } else if StreamPolicy(w, fullMethod) == Ok(None) {
      NothingOwed(chain, 0, StreamPolicy(w, fullMethod));
    }
  }

  /**
   A stream of any chain that reaches its handler: every verification stands behind a policy-option
   interceptor; the wrappers are exactly one per verification, on the resource and action that the
   registry has for the method, and none for a method without a policy;
   and in any number of receives each one that reaches the underlying stream directly follows a nil
   Verify of every wrapper, all under one request ID, which the handler's context has too.
   */
  lemma StreamVerifiedPerReceive(w: World, fullMethod: string, chain: seq<Interceptor>, c: Ctx, n: nat)
    requires Fresh(c) && Establish(w, fullMethod, chain, c).stream.Ok?
    ensures forall k | 0 <= k < |chain| && chain[k].Verification? :: exists j | 0 <= j < k :: chain[j].PolicyOption?
    ensures ClearedThroughout(w, Establish(w, fullMethod, chain, c),
                              Wrappers(LookupPolicy(w.files, fullMethod), chain), n)
    ensures (exists k | 0 <= k < |chain| :: chain[k].PolicyOption?) ==> Streamable(LookupPolicy(w.files, fullMethod))
  {
    OpenFresh(w, StreamPolicy(w, fullMethod), chain, c);
    WrappersAreOwed(w, fullMethod, chain);
    VerificationsGuarded(chain);
    var done := Establish(w, fullMethod, chain, c);
    OneIDClears(done.stream.value);
    ReceivesCleared(w, done.stream.value, n, done.trace);
  }

  /** A stream method with field mappings never reaches its handler behind the policy-option interceptor. */
  lemma FieldMappingsRejected(w: World, fullMethod: string, chain: seq<Interceptor>, k: nat, c: Ctx, p: ProtoPolicy)
    requires Fresh(c) && LookupPolicy(w.files, fullMethod) == Ok(Some(p)) && |p.fieldMappings| > 0
    requires k < |chain| && chain[k].PolicyOption?
    ensures Establish(w, fullMethod, chain, c).stream.Err?
  {
    if Establish(w, fullMethod, chain, c).stream.Ok? {
      OpenFresh(w, StreamPolicy(w, fullMethod), chain, c);
    }
  }

  lemma {:induction false} OpensGuarded(
    w: World, declared: Declared, chain: seq<Interceptor>, i: nat, s: Stream, tr: seq<Event>)
    requires i <= |chain| && Admits(w) && Guarded(chain, i, s.ctx.optionRan)
    requires (exists k | i <= k < |chain| :: chain[k].PolicyOption?) ==> declared.Ok?
    ensures OpenStream(w, declared, chain, i, s, tr).stream.Ok?
    decreases |chain| - i
  {
    if i == |chain| {
    } else {
      var Wrap(s', e) := StepStream(w, declared, chain[i], i, s, tr);
      OpensGuarded(w, declared, chain, i + 1, s', tr + [e]);
    }
  }

  /**
   Unless introspection rejects, a stream reaches its handler exactly when a policy-option interceptor
   precedes each verification and, if there is one, the method's policy can be read and has no field
   mappings. An empty resource or action is no obstacle: it is what the wrappers verify.
   */
  lemma EstablishedExactly(w: World, fullMethod: string, chain: seq<Interceptor>, c: Ctx)
    requires Fresh(c) && Admits(w)
    ensures Establish(w, fullMethod, chain, c).stream.Ok? <==>
            && Guarded(chain, 0, false)
            && ((exists k | 0 <= k < |chain| :: chain[k].PolicyOption?)
                ==> Streamable(LookupPolicy(w.files, fullMethod)))
  {
    var declared := StreamPolicy(w, fullMethod);
    StreamableExactly(w, fullMethod);
    if Establish(w, fullMethod, chain, c).stream.Ok? {
      OpenFresh(w, declared, chain, c);
    } else if Guarded(chain, 0, false) && ((exists k | 0 <= k < |chain| :: chain[k].PolicyOption?) ==> declared.Ok?) {
      OpensGuarded(w, declared, chain, 0, Base(c), []);
    }
  }

  /** Unlike a unary method, a stream method with an empty resource or action is served and verified as it is. */
  lemma EmptyPolicyStreams(w: World, fullMethod: string, chain: seq<Interceptor>, c: Ctx, p: ProtoPolicy)
    requires Fresh(c) && Admits(w) && Guarded(chain, 0, false)
    requires LookupPolicy(w.files, fullMethod) == Ok(Some(p)) && p.fieldMappings == []
    requires p.resource == "" || p.action == ""
    ensures
      var done := Establish(w, fullMethod, chain, c);
      done.stream.Ok? && Layers(done.stream.value) == Owed(chain, 0, Ok(Some(Policy(p.resource, p.action))))
  {
    EstablishedExactly(w, fullMethod, chain, c);
    OpenFresh(w, StreamPolicy(w, fullMethod), chain, c);
    StreamDeclaredExactly(w, fullMethod);
  }

  // ------------------------------------- what the outside world answered

  /** Every verification wrapper has the context and policy that its establishment left in the trace. */
  predicate LayersIn(s: Stream, tr: seq<Event>) {
    match s
    case Base(_) => true
    case WithCtx(inner, _) => LayersIn(inner, tr)
    case Auth(inner, c, at, _, p) =>
      at < |tr| && !tr[at].Received? && tr[at].ctx == c && c.policy == Some(p) && LayersIn(inner, tr)
  }

  lemma {:induction false} LayersStayIn(s: Stream, tr: seq<Event>, more: seq<Event>)
    requires LayersIn(s, tr) && tr <= more
    ensures LayersIn(s, more)
  {
    match s
    case Base(_) =>
    case WithCtx(inner, _) => LayersStayIn(inner, tr, more);
    case Auth(inner, _, _, _, _) => LayersStayIn(inner, tr, more);
  }

  /** Establishment as a run that ends in the handler or an error. */
  function AsRun(done: Opened): Run {
    Run(done.trace, if done.stream.Ok? then None else Some(done.stream.error))
  }

  /** A step of establishment as a step of a unary call. */
  function AsStep(step: StreamStep): Step {
    match step
    case Reject(es, e) => Stop(es, e)
    case Wrap(s, e) => Next(s.ctx, e)
  }

  lemma StreamStepExplained(w: World, declared: Declared, chain: seq<Interceptor>, s: Stream, tr: seq<Event>)
    requires |tr| < |chain| && Carries(w, chain, declared, s.ctx.md, tr, |tr|, s.ctx)
    ensures StepOk(w, chain, declared, s.ctx.md, tr, AsStep(StepStream(w, declared, chain[|tr|], |tr|, s, tr)))
  {
    if chain[|tr|].Verification? {
      var c := EnsureID(w, tr, s.ctx, REQUEST_ID_KEY);
      LatestPlacedStep(w, tr, Forwarded(|tr|, c));
      if c.optionRan { PassesOk(w, chain, declared, tr, s.ctx, c, Forwarded(|tr|, c)); }
    } else {
      StepExplained(w, declared, chain, s.ctx, tr);
    }
  }

  lemma StepKeepsLayers(w: World, declared: Declared, ic: Interceptor, s: Stream, tr: seq<Event>)
    requires LayersIn(s, tr) && StepStream(w, declared, ic, |tr|, s, tr).Wrap?
    ensures
      var Wrap(s', e) := StepStream(w, declared, ic, |tr|, s, tr);
      LayersIn(s', tr + [e])
  {
    var Wrap(s', e) := StepStream(w, declared, ic, |tr|, s, tr);
    LayersStayIn(s, tr, tr + [e]);
  }

  lemma {:induction false} OpenExplainFrom(
    w: World, declared: Declared, chain: seq<Interceptor>, i: nat, s: Stream, tr: seq<Event>)
    requires i <= |chain| && |tr| == i && Carries(w, chain, declared, s.ctx.md, tr, i, s.ctx)
    requires SoFar(w, chain, declared, s.ctx.md, tr)
    ensures RunOk(w, chain, declared, s.ctx.md, AsRun(OpenStream(w, declared, chain, i, s, tr)))
    decreases |chain| - i
  {
    if i == |chain| {
      HandlerOk(w, chain, declared, s.ctx.md, tr, s.ctx);
    } else {
      StreamStepExplained(w, declared, chain, s, tr);
      match StepStream(w, declared, chain[i], i, s, tr)
      case Wrap(s', e) =>
        SoFarNext(w, chain, declared, s.ctx.md, tr, s'.ctx, e);
        OpenExplainFrom(w, declared, chain, i + 1, s', tr + [e]);
      case Reject(es, err) => StopsOk(w, chain, declared, s.ctx.md, tr, es, err);
    }
  }

  /** Nothing is verified while a stream is established, and the wrappers hold what was. */
  lemma {:induction false} OpenLayers(
    w: World, declared: Declared, chain: seq<Interceptor>, i: nat, s: Stream, tr: seq<Event>)
    requires i <= |chain| && |tr| == i && LayersIn(s, tr) && forall e | e in tr :: !e.Verified?
    ensures
      var done := OpenStream(w, declared, chain, i, s, tr);
      && (forall e | e in done.trace :: !e.Verified?)
      && (done.stream.Ok? ==> LayersIn(done.stream.value, done.trace))
    decreases |chain| - i
  {
    if i == |chain| {
      LayersStayIn(s, tr, tr + [Handled(i, s.ctx)]);
    } else if StepStream(w, declared, chain[i], i, s, tr).Wrap? {
      var Wrap(s', e) := StepStream(w, declared, chain[i], i, s, tr);
      StepKeepsLayers(w, declared, chain[i], s, tr);
      OpenLayers(w, declared, chain, i + 1, s', tr + [e]);
    }
  }

  /**
   Stream establishment through any chain, effect by effect, as for unary calls; nothing is verified
   yet, and a rejected introspection is the last effect and its error the error of the stream.
   */
  lemma OpenExplained(w: World, fullMethod: string, chain: seq<Interceptor>, c: Ctx)
    requires Fresh(c)
    ensures
      var done := Establish(w, fullMethod, chain, c);
      && RunOk(w, chain, StreamPolicy(w, fullMethod), c.md, AsRun(done))
      && (forall e | e in done.trace :: !e.Verified?)
      && (done.stream.Ok? ==> LayersIn(done.stream.value, done.trace))
  {
    OpenExplainFrom(w, StreamPolicy(w, fullMethod), chain, 0, Base(c), []);
    OpenLayers(w, StreamPolicy(w, fullMethod), chain, 0, Base(c), []);
  }

  /** A Verify of a receive: the verifier's own answer, on the context and policy of its establishment. */
  ghost predicate ReceiveAsked(w: World, setup: seq<Event>, run: seq<Event>, j: nat)
    requires j < |run|
  {
    && run[j].Verified? && run[j].at < |setup| && !setup[run[j].at].Received?
    && run[j].ctx == setup[run[j].at].ctx && AskedVerifier(w, run, j, run[j].verifier)
  }

  /** The effects of one receive: Verify calls, of which a refusing one is the last and is the error returned. */
  ghost predicate ReceiptOk(w: World, setup: seq<Event>, tr: seq<Event>, r: Receipt) {
    && tr < r.trace
    && (forall j | |tr| <= j < |r.trace| :: r.trace[j].Received? || ReceiveAsked(w, setup, r.trace, j))
    && (forall j | |tr| <= j < |r.trace| && r.trace[j].Verified? && r.trace[j].verdict.Some? ::
          j == |r.trace| - 1 && r.error == r.trace[j].verdict)
    && (r.error.None? <==> r.trace[|r.trace| - 1].Received?)
    && (forall j | |tr| <= j < |r.trace| - 1 :: !r.trace[j].Received?)
  }

  /** A receive of a stream asks its verifiers, each about the trace before it, and ends as they answer. */
  lemma {:induction false} ReceiveAnswered(w: World, s: Stream, setup: seq<Event>, tr: seq<Event>)
    requires LayersIn(s, setup)
    ensures ReceiptOk(w, setup, tr, Receive(w, s, tr))
  {
    match s
    case Base(_) =>
    case WithCtx(inner, _) => ReceiveAnswered(w, inner, setup, tr);
    case Auth(inner, c, at, v, p) =>
      var tr' := tr + [Verified(at, c, v, p, w.verify(tr, v, c, p))];
      assert tr'[..|tr|] == tr;
      if w.verify(tr, v, c, p).None? {
        ReceiveAnswered(w, inner, setup, tr');
        var r := Receive(w, inner, tr');
        assert r.trace[|tr|] == tr'[|tr|] && r.trace[..|tr|] == tr;
      }
  }

  lemma {:induction false} ReceivesAnswered(w: World, s: Stream, setup: seq<Event>, n: nat, tr: seq<Event>)
    requires LayersIn(s, setup)
    ensures
      var run := Receives(w, s, n, tr);
      && tr <= run
      && (forall j | |tr| <= j < |run| :: run[j].Received? || ReceiveAsked(w, setup, run, j))
  {
    if n == 0 {
    } else {
      var before := Receives(w, s, n - 1, tr);
      ReceivesAnswered(w, s, setup, n - 1, tr);
      ReceiveAnswered(w, s, setup, before);
      var run := Receives(w, s, n, tr);
      forall j | |tr| <= j < |before|
        ensures run[j].Received? || ReceiveAsked(w, setup, run, j)
      {
        assert run[..j] == before[..j] && run[j] == before[j];
      }
    }
  }

  /**
   The whole run of a stream behind any chain: after establishment every effect of any number of
   receives is a delivery or a Verify that has the verifier's own answer, on the policy and in the
   context that the wrapper's interceptor was established with.
   */
  lemma StreamRunExplained(w: World, fullMethod: string, chain: seq<Interceptor>, c: Ctx, n: nat)
    requires Fresh(c) && Establish(w, fullMethod, chain, c).stream.Ok?
    ensures
      var done := Establish(w, fullMethod, chain, c);
      var run := Receives(w, done.stream.value, n, done.trace);
      && done.trace <= run && |done.trace| == |chain| + 1
      && (forall j | |done.trace| <= j < |run| :: run[j].Received? || ReceiveAsked(w, done.trace, run, j))
  {
    OpenExplained(w, fullMethod, chain, c);
    var done := Establish(w, fullMethod, chain, c);
    ReceivesAnswered(w, done.stream.value, done.trace, n, done.trace);
  }

  /** The next receive of such a stream ends as its verifiers answer. */
  lemma NextReceiveAnswered(w: World, fullMethod: string, chain: seq<Interceptor>, c: Ctx, tr: seq<Event>)
    requires Fresh(c) && Establish(w, fullMethod, chain, c).stream.Ok?
    ensures
      var done := Establish(w, fullMethod, chain, c);
      ReceiptOk(w, done.trace, tr, Receive(w, done.stream.value, tr))
  {
    OpenExplained(w, fullMethod, chain, c);
    ReceiveAnswered(w, Establish(w, fullMethod, chain, c).stream.value, Establish(w, fullMethod, chain, c).trace, tr);
  }

  lemma OpenedWithoutPolicy(w: World, fullMethod: string, chain: seq<Interceptor>, c: Ctx)
    requires Fresh(c) && LookupPolicy(w.files, fullMethod) == Ok(None)
    ensures
      var tr := Establish(w, fullMethod, chain, c).trace;
      forall n | 0 <= n < |tr| :: !tr[n].Received? && tr[n].ctx.policy.None? && !tr[n].Verified?
  {
    OpenExplained(w, fullMethod, chain, c);
    StreamDeclaredExactly(w, fullMethod);
    var tr := Establish(w, fullMethod, chain, c).trace;
    forall n | 0 <= n < |tr|
      ensures !tr[n].Received? && tr[n].ctx.policy.None? && !tr[n].Verified?
    {
      assert InPlace(w, chain, StreamPolicy(w, fullMethod), c.md, tr, n);
      assert tr[n] in tr;
    }
  }

  /** A stream of a method without a policy never verifies a receive. */
  lemma NoPolicyNoStreamVerify(w: World, fullMethod: string, chain: seq<Interceptor>, c: Ctx, n: nat)
    requires Fresh(c) && Establish(w, fullMethod, chain, c).stream.Ok?
    requires LookupPolicy(w.files, fullMethod) == Ok(None)
    ensures
      var done := Establish(w, fullMethod, chain, c);
      forall e | e in Receives(w, done.stream.value, n, done.trace) :: !e.Verified?
  {
    OpenedWithoutPolicy(w, fullMethod, chain, c);
    StreamRunExplained(w, fullMethod, chain, c, n);
    var done := Establish(w, fullMethod, chain, c);
    NoneVerified(w, done.trace, Receives(w, done.stream.value, n, done.trace));
  }

  lemma NoneVerified(w: World, setup: seq<Event>, run: seq<Event>)
    requires setup <= run
    requires forall n | 0 <= n < |setup| :: !setup[n].Received? && setup[n].ctx.policy.None? && !setup[n].Verified?
    requires forall j | |setup| <= j < |run| :: run[j].Received? || ReceiveAsked(w, setup, run, j)
    ensures forall e | e in run :: !e.Verified?
  {
    forall j | 0 <= j < |run|
      ensures !run[j].Verified?
    {
      if j < |setup| { assert run[j] == setup[j]; }
    }
  }

  // ------------------------------------------------ one request ID, streams

  lemma StepStreamID(w: World, declared: Declared, ic: Interceptor, i: nat, s: Stream, tr: seq<Event>)
    ensures
      var id := NewID(w, tr, ic, s.ctx);
      match StepStream(w, declared, ic, i, s, tr)
      case Wrap(s', e) => s'.ctx.md == s.ctx.md && s'.ctx.requestID == id && Sees(e, i, id)
      case Reject(es, _) => forall n | 0 <= n < |es| :: Sees(es[n], i, id)
  {}

  lemma {:induction false} OpenKeepsID(
    w: World, declared: Declared, chain: seq<Interceptor>, i: nat, s: Stream, tr: seq<Event>, from: nat)
    requires i <= |chain| && s.ctx.requestID != "" && from <= |tr| && AllSee(tr, from, s.ctx.requestID)
    ensures
      var done := OpenStream(w, declared, chain, i, s, tr);
      && from <= |done.trace| && AllSee(done.trace, from, s.ctx.requestID)
      && (done.stream.Ok? ==> done.stream.value.ctx.requestID == s.ctx.requestID)
    decreases |chain| - i
  {
    if i == |chain| {
    } else {
      StepStreamID(w, declared, chain[i], i, s, tr);
      match StepStream(w, declared, chain[i], i, s, tr)
      case Wrap(s', e) =>
        AllSeeMore(tr, [e], from, s.ctx.requestID, i);
        OpenKeepsID(w, declared, chain, i + 1, s', tr + [e], from);
      case Reject(es, _) => AllSeeMore(tr, es, from, s.ctx.requestID, i);
    }
  }

  /** Establishment fixes the ID at the first tracking or verification interceptor, as for unary calls. */
  lemma {:induction false} StreamRequestID(
    w: World, declared: Declared, chain: seq<Interceptor>, i: nat, s: Stream, tr: seq<Event>, k: nat)
    returns (id: string, from: nat)
    requires FirstFixer(chain, i, k) && s.ctx.requestID == ""
    ensures id != "" && (SentID(s.ctx.md, IDKey(chain[k])).Some? ==> id == SentID(s.ctx.md, IDKey(chain[k])).value)
    ensures
      var done := OpenStream(w, declared, chain, i, s, tr);
      && IDFixedFrom(done.trace, |tr|, from, id, k)
      && (done.stream.Ok? ==> done.stream.value.ctx.requestID == id)
    decreases k - i
  {
    if i == k {
      id, from := NewID(w, tr, chain[i], s.ctx), |tr|;
      StreamFixerFixes(w, declared, chain, i, s, tr);
    } else {
      StepStreamID(w, declared, chain[i], i, s, tr);
      match StepStream(w, declared, chain[i], i, s, tr)
      case Wrap(s', e) =>
        id, from := StreamRequestID(w, declared, chain, i + 1, s', tr + [e], k);
        OpenExtends(w, declared, chain, i + 1, s', tr + [e]);
        FixedOneEarlier(tr, e, OpenStream(w, declared, chain, i, s, tr).trace, from, id, i, k);
      case Reject(es, _) =>
        id, from := NewID(w, tr, chain[k], s.ctx), |tr| + |es|;
    }
  }

  lemma StreamFixerFixes(w: World, declared: Declared, chain: seq<Interceptor>, i: nat, s: Stream, tr: seq<Event>)
    requires i < |chain| && FixesID(chain[i])
    ensures
      var done := OpenStream(w, declared, chain, i, s, tr);
      var id := NewID(w, tr, chain[i], s.ctx);
      && IDFixedFrom(done.trace, |tr|, |tr|, id, i)
      && (done.stream.Ok? ==> done.stream.value.ctx.requestID == id)
  {
    StepStreamID(w, declared, chain[i], i, s, tr);
    match StepStream(w, declared, chain[i], i, s, tr)
    case Wrap(s', e) =>
      AllSeeMore(tr, [e], |tr|, s'.ctx.requestID, i);
      OpenKeepsID(w, declared, chain, i + 1, s', tr + [e], |tr|);
    case Reject(es, _) => AllSeeMore(tr, es, |tr|, NewID(w, tr, chain[i], s.ctx), i);
  }

  /** Every event from index `from` on is a receive or sees `id`. */
  predicate SeenFrom(tr: seq<Event>, from: nat, id: string) {
    forall n | from <= n < |tr| :: tr[n].Received? || tr[n].ctx.requestID == id
  }

  lemma {:induction false} ReceiveSees(w: World, s: Stream, tr: seq<Event>, from: nat, id: string)
    requires LayersUse(s, id) && SeenFrom(tr, from, id)
    ensures tr <= Receive(w, s, tr).trace && SeenFrom(Receive(w, s, tr).trace, from, id)
  {
    match s
    case Base(_) =>
    case WithCtx(inner, _) => ReceiveSees(w, inner, tr, from, id);
    case Auth(inner, c, at, v, p) =>
      var tr' := tr + [Verified(at, c, v, p, w.verify(tr, v, c, p))];
      if w.verify(tr, v, c, p).None? { ReceiveSees(w, inner, tr', from, id); }
  }

  lemma {:induction false} ReceivesSee(w: World, s: Stream, n: nat, tr: seq<Event>, from: nat, id: string)
    requires LayersUse(s, id) && SeenFrom(tr, from, id)
    ensures tr <= Receives(w, s, n, tr) && SeenFrom(Receives(w, s, n, tr), from, id)
  {
    if n == 0 {
    } else {
      ReceivesSee(w, s, n - 1, tr, from, id);
      ReceiveSees(w, s, Receives(w, s, n - 1, tr), from, id);
    }
  }

  /**
   The whole run of a stream: the first tracking or verification interceptor fixes a non-empty ID, the
   client's if it sent one, and every later effect sees it, through establishment, the handler and any
   number of receives, the Verify calls of denied receives included. Earlier effects come from earlier
   positions of the chain.
   */
  lemma StreamRunRequestID(w: World, fullMethod: string, chain: seq<Interceptor>, c: Ctx, k: nat, n: nat)
    returns (id: string, from: nat)
    requires Fresh(c) && FirstFixer(chain, 0, k) && Establish(w, fullMethod, chain, c).stream.Ok?
    ensures id != "" && (SentID(c.md, IDKey(chain[k])).Some? ==> id == SentID(c.md, IDKey(chain[k])).value)
    ensures
      var done := Establish(w, fullMethod, chain, c);
      var run := Receives(w, done.stream.value, n, done.trace);
      && done.trace <= run && from <= |done.trace| && SeenFrom(run, from, id)
      && (forall j | 0 <= j < from :: !run[j].Received? && run[j].at < k)
  {
    var declared := StreamPolicy(w, fullMethod);
    id, from := StreamRequestID(w, declared, chain, 0, Base(c), [], k);
    OpenFresh(w, declared, chain, c);
    var done := Establish(w, fullMethod, chain, c);
    ReceivesSee(w, done.stream.value, n, done.trace, from, id);
  }

  lemma {:induction false} OpenExtends(
    w: World, declared: Declared, chain: seq<Interceptor>, i: nat, s: Stream, tr: seq<Event>)
    requires i <= |chain|
    ensures tr <= OpenStream(w, declared, chain, i, s, tr).trace
    decreases |chain| - i
  {
    if i == |chain| {
    } else {
      match StepStream(w, declared, chain[i], i, s, tr)
      case Wrap(s', e) => OpenExtends(w, declared, chain, i + 1, s', tr + [e]);
      case Reject(es, _) =>
    }
  }
}
