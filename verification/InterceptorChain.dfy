/**
 Chains of the four interceptors, for unary calls.

 A run threads an immutable context through the chain and appends to a trace of effects. Verify,
 the introspection decision and generated request IDs are oracles that may depend on the whole
 trace so far, so every behaviour of the outside world is some world.
 */
module InterceptorChain {
  import opened Results
  import opened AuthorizationHeader
  import opened IntrospectionCache
  import opened TokenIntrospection
  import opened HoleSubstitution
  import opened ResourceTemplate
  import opened MethodPolicy

  datatype Ctx = Ctx(
    md: Metadata, requestID: string, optionRan: bool, policy: Option<Policy>, result: Option<Introspection>)

  datatype Interceptor =
    | Tracking(metadataKey: string)
    | TokenCheck
    | PolicyOption
    | Verification(verifier: nat)

  /** Effects; `at` is the chain position they come from, the chain's length for the handler. */
  datatype Event =
    | Forwarded(at: nat, ctx: Ctx)
    | Introspected(at: nat, ctx: Ctx)
    | Verified(at: nat, ctx: Ctx, verifier: nat, policy: Policy, verdict: Option<Error>)
    | Handled(at: nat, ctx: Ctx)
    | Received

  datatype World = World(
    files: seq<File>,
    verify: (seq<Event>, nat, Ctx, Policy) -> Option<Error>,
    introspect: (seq<Event>, Ctx) -> Decision,
    timestamp: seq<Event> -> string,
    uuid: seq<Event> -> string)

  /** The context of a request no interceptor has seen. */
  predicate Fresh(c: Ctx) { c.requestID == "" && !c.optionRan && c.policy.None? && c.result.None? }

  // ---------------------------------------------------------- request IDs

  function GenerateID(w: World, tr: seq<Event>): (id: string)
    ensures id != ""
  {
    w.timestamp(tr) + "_" + w.uuid(tr)
  }

  /** The non-empty request ID the client sent under a metadata key. */
  function SentID(md: Metadata, key: string): (sent: Option<string>)
    ensures sent.Some? ==> sent.value != ""
  {
    if md.Some? && key in md.value && |md.value[key]| > 0 && md.value[key][0] != "" then Some(md.value[key][0])
    else None
  }

  /** The first value the client sent under the key unless that is empty, else a generated ID; never empty. */
  function ExtractOrGenerateID(w: World, tr: seq<Event>, md: Metadata, key: string): (id: string)
    ensures id != "" && (SentID(md, key).Some? ==> Some(id) == SentID(md, key))
    ensures md.Some? && key in md.value && md.value[key] != [] && md.value[key][0] != "" ==> id == md.value[key][0]
    ensures SentID(md, key).None? ==> id == w.timestamp(tr) + "_" + w.uuid(tr)
  {
    match SentID(md, key)
    case Some(id) => id
    case None => GenerateID(w, tr)
  }

  /** The context with a request ID: the one it has, else a new one. */
  function EnsureID(w: World, tr: seq<Event>, c: Ctx, key: string): (c': Ctx)
    ensures c'.requestID != "" && (c.requestID != "" ==> c' == c)
    ensures c' == c.(requestID := c'.requestID)
  {
    if c.requestID == "" then c.(requestID := ExtractOrGenerateID(w, tr, c.md, key)) else c
  }

  const REQUEST_ID_KEY := "x-request-id"

  // ---------------------------------------------------------- unary calls

  datatype Run = Run(trace: seq<Event>, error: Option<Error>)

  /** What one interceptor does: fail after some effects, or call on with a context after one effect. */
  datatype Step = Stop(events: seq<Event>, error: Error) | Next(ctx: Ctx, event: Event)

  /** What the policy-option interceptor finds for a call: no policy, one policy, or an error. */
  type Declared = Result<Option<Policy>, string>

  /** The policy a unary method declares for a request, if any, with its resource resolved. */
  function DeclaredPolicy(w: World, fullMethod: string, req: Request): Declared {
    match LookupPolicy(w.files, fullMethod)
    case Err(e) => Err(e)
    case Ok(None) => Ok(None)
    case Ok(Some(p)) =>
      match ResolveSpec(p, req)
      case Err(e) => Err(e)
      case Ok(r) => Ok(Some(r))
  }

  /** What a lookup in the registry makes of the declared policy: none, the resolved one, or an error. */
  ghost predicate DeclaredAs(lookup: Answer, req: Request, declared: Declared) {
    && (lookup.Err? ==> declared == Err(lookup.error))
    && (lookup == Ok(None) ==> declared == Ok(None))
    && (lookup.Ok? && lookup.value.Some? ==>
          var p := lookup.value.value;
          && (p.resource == "" || p.action == "" ==> declared.Err?)
          && (Regular(p, req) ==> (declared.Ok? <==> Resolves(p, req)))
          && (Regular(p, req) && Resolves(p, req) ==> declared == Ok(Some(FilledIn(p, req)))))
  }

  lemma DeclaredExactly(w: World, fullMethod: string, req: Request)
    ensures DeclaredAs(LookupPolicy(w.files, fullMethod), req, DeclaredPolicy(w, fullMethod, req))
  {
    var lookup := LookupPolicy(w.files, fullMethod);
    if lookup.Ok? && lookup.value.Some? { ResolvedExactly(lookup.value.value, req); }
  }

  function IntrospectStep(w: World, i: nat, c: Ctx, tr: seq<Event>): Step {
    match w.introspect(tr, c)
    case Rejected(e) => Stop([Introspected(i, c)], e)
    case PassThrough => Next(c, Introspected(i, c))
    case Placed(r) => Next(c.(result := Some(r)), Introspected(i, c))
  }

  function NotRegistered(): Error {
    Status(Internal, "not registered")
  }

  function VerifyStep(w: World, v: nat, i: nat, c: Ctx, tr: seq<Event>): Step {
    var c' := EnsureID(w, tr, c, REQUEST_ID_KEY);
    if !c'.optionRan then Stop([], NotRegistered())
    else if c'.policy.None? then Next(c', Forwarded(i, c'))
    else
      var verdict := w.verify(tr, v, c', c'.policy.value);
      var event := Verified(i, c', v, c'.policy.value, verdict);
      if verdict.Some? then Stop([event], verdict.value) else Next(c', event)
  }

  function UnaryStep(w: World, declared: Declared, ic: Interceptor, i: nat, c: Ctx, tr: seq<Event>): Step {
    match ic
    case Tracking(key) => var c' := EnsureID(w, tr, c, key); Next(c', Forwarded(i, c'))
    case TokenCheck => IntrospectStep(w, i, c, tr)
    case PolicyOption =>
      (match declared
       case Err(e) => Stop([], Status(Internal, e))
       case Ok(p) =>
         var c' := c.(optionRan := true, policy := if p.Some? then p else c.policy);
         Next(c', Forwarded(i, c')))
    case Verification(v) => VerifyStep(w, v, i, c, tr)
  }

  function RunUnary(w: World, declared: Declared, chain: seq<Interceptor>, i: nat, c: Ctx, tr: seq<Event>): Run
    requires i <= |chain|
    decreases |chain| - i
  {
    if i == |chain| then Run(tr + [Handled(i, c)], None)
    else
      match UnaryStep(w, declared, chain[i], i, c, tr)
      case Stop(events, e) => Run(tr + events, Some(e))
      case Next(c', event) => RunUnary(w, declared, chain, i + 1, c', tr + [event])
  }

  /** A unary call of a method with a request, through the whole chain. */
  function ServeUnary(w: World, fullMethod: string, req: Request, chain: seq<Interceptor>, c: Ctx): Run {
    RunUnary(w, DeclaredPolicy(w, fullMethod, req), chain, 0, c, [])
  }

  /** One Verify call as the verifier sees it. */
  datatype Check = Check(at: nat, verifier: nat, policy: Policy, verdict: Option<Error>)

  function CheckOf(e: Event): seq<Check> {
    if e.Verified? then [Check(e.at, e.verifier, e.policy, e.verdict)] else []
  }

  /** The Verify calls of a trace, in order. */
  function Checks(tr: seq<Event>): seq<Check> {
    if tr == [] then [] else Checks(tr[..|tr| - 1]) + CheckOf(tr[|tr| - 1])
  }

  /** One nil Verify of the declared policy, if there is one, for a verification interceptor. */
  function OwedHere(ic: Interceptor, i: nat, declared: Declared): seq<Check> {
    if ic.Verification? && declared.Ok? && declared.value.Some? then
      [Check(i, ic.verifier, declared.value.value, None)]
    else []
  }

  /** The Verify calls a run that reaches the handler owes from position `i` on. */
  function Owed(chain: seq<Interceptor>, i: nat, declared: Declared): seq<Check>
    requires i <= |chain|
    decreases |chain| - i
  {
    if i == |chain| then [] else OwedHere(chain[i], i, declared) + Owed(chain, i + 1, declared)
  }

  /** Every verification from `i` on has a policy-option interceptor before it (or `ran` already). */
  predicate Guarded(chain: seq<Interceptor>, i: nat, ran: bool)
    requires i <= |chain|
    decreases |chain| - i
  {
    i == |chain| ||
    ((chain[i].Verification? ==> ran) && Guarded(chain, i + 1, ran || chain[i].PolicyOption?))
  }

  /** The context carries the declared policy once the policy-option interceptor has run. */
  predicate Consistent(c: Ctx, declared: Declared) {
    if c.optionRan then declared == Ok(c.policy) else c.policy.None?
  }

  lemma {:induction false} NothingOwed(chain: seq<Interceptor>, i: nat, declared: Declared)
    requires i <= |chain|
    requires (declared.Ok? ==> declared.value.None?) || forall k | i <= k < |chain| :: !chain[k].Verification?
    ensures Owed(chain, i, declared) == []
    decreases |chain| - i
  {
    if i == |chain| {
    } else {
      NothingOwed(chain, i + 1, declared);
    }
  }

  lemma ChecksAppend(tr: seq<Event>, e: Event, more: seq<Check>)
    ensures Checks(tr + [e]) + more == Checks(tr) + (CheckOf(e) + more)
  {
    assert (tr + [e])[..|tr|] == tr;
  }

  /** What one successful unary step keeps and contributes. */
  lemma UnaryStepOk(w: World, declared: Declared, ic: Interceptor, i: nat, c: Ctx, tr: seq<Event>)
    requires Consistent(c, declared) && UnaryStep(w, declared, ic, i, c, tr).Next?
    ensures
      var Next(c', e) := UnaryStep(w, declared, ic, i, c, tr);
      && Consistent(c', declared) && c'.optionRan == (c.optionRan || ic.PolicyOption?)
      && (ic.PolicyOption? ==> declared.Ok?)
      && (ic.Verification? ==> c.optionRan)
      && CheckOf(e) == OwedHere(ic, i, declared)
  {}

  lemma {:induction false} UnaryFrom(
    w: World, declared: Declared, chain: seq<Interceptor>, i: nat, c: Ctx, tr: seq<Event>)
    requires i <= |chain| && Consistent(c, declared)
    requires RunUnary(w, declared, chain, i, c, tr).error.None?
    ensures Guarded(chain, i, c.optionRan)
    ensures (exists k | i <= k < |chain| :: chain[k].PolicyOption?) ==> declared.Ok?
    ensures Checks(RunUnary(w, declared, chain, i, c, tr).trace)
            == Checks(tr) + Owed(chain, i, declared)
    decreases |chain| - i
  {
    if i == |chain| {
      ChecksAppend(tr, Handled(i, c), []);
    } else {
      UnaryStepOk(w, declared, chain[i], i, c, tr);
      var Next(c', e) := UnaryStep(w, declared, chain[i], i, c, tr);
      ChecksAppend(tr, e, Owed(chain, i + 1, declared));
      UnaryFrom(w, declared, chain, i + 1, c', tr + [e]);
    }
  }

  /** `Guarded` in plain words: a policy-option interceptor stands before each verification. */
  lemma {:induction false} GuardedMeans(chain: seq<Interceptor>, i: nat, ran: bool, k: nat)
    requires i <= k < |chain| && Guarded(chain, i, ran) && chain[k].Verification?
    ensures ran || exists j | i <= j < k :: chain[j].PolicyOption?
    decreases |chain| - i
  {
    if i == k {
    } else {
      GuardedMeans(chain, i + 1, ran || chain[i].PolicyOption?, k);
    }
  }

  lemma VerificationsGuarded(chain: seq<Interceptor>)
    requires Guarded(chain, 0, false)
    ensures forall k | 0 <= k < |chain| && chain[k].Verification? :: exists j | 0 <= j < k :: chain[j].PolicyOption?
  {
    forall k | 0 <= k < |chain| && chain[k].Verification?
      ensures exists j | 0 <= j < k :: chain[j].PolicyOption?
    {
      GuardedMeans(chain, 0, false, k);
    }
  }

  /** The handler is reached exactly when the run ends without an error, and then as its last effect. */
  lemma {:induction false} HandledExactlyOnSuccess(
    w: World, declared: Declared, chain: seq<Interceptor>, i: nat, c: Ctx, tr: seq<Event>)
    requires i <= |chain| && forall n | 0 <= n < |tr| :: !tr[n].Handled?
    ensures
      var run := RunUnary(w, declared, chain, i, c, tr);
      && (run.error.None? ==> |run.trace| > 0 && run.trace[|run.trace| - 1].Handled?)
      && (run.error.Some? ==> forall n | 0 <= n < |run.trace| :: !run.trace[n].Handled?)
    decreases |chain| - i
  {
    if i == |chain| {
    } else {
      NoHandlerYet(w, declared, chain[i], i, c, tr);
      match UnaryStep(w, declared, chain[i], i, c, tr)
      case Next(c', e) => HandledExactlyOnSuccess(w, declared, chain, i + 1, c', tr + [e]);
      case Stop(es, _) =>
    }
  }

  lemma NoHandlerYet(w: World, declared: Declared, ic: Interceptor, i: nat, c: Ctx, tr: seq<Event>)
    ensures
      match UnaryStep(w, declared, ic, i, c, tr)
      case Next(_, e) => !e.Handled?
      case Stop(es, _) => forall n | 0 <= n < |es| :: !es[n].Handled?
  {}

  /** The Verify calls of a call that reached its handler, in terms of the registry. */
  ghost predicate ChecksAs(lookup: Answer, req: Request, chain: seq<Interceptor>, checks: seq<Check>) {
    var verified := exists k | 0 <= k < |chain| :: chain[k].Verification?;
    && (!verified || lookup == Ok(None) ==> checks == [])
    && (verified ==> lookup.Ok?)
    && (verified && lookup.Ok? && lookup.value.Some? && Regular(lookup.value.value, req) ==>
          && Resolves(lookup.value.value, req)
          && checks == Owed(chain, 0, Ok(Some(FilledIn(lookup.value.value, req)))))
  }

  /**
   In every chain, in any order and with repeats, the handler of a fresh request runs only when a
   policy-option interceptor precedes each verification; the Verify calls of the run are exactly one
   nil answer per verification, in chain order, on the declared policy. In terms of the registry: on
   the method's resource with its holes filled in from the request and on its action, and none at all
   for a method without a policy.
   */
  lemma HandlerOnlyIfVerified(w: World, fullMethod: string, req: Request, chain: seq<Interceptor>, c: Ctx, n: nat)
    requires Fresh(c)
    requires
      var trace := ServeUnary(w, fullMethod, req, chain, c).trace;
      n < |trace| && trace[n].Handled?
    ensures forall k | 0 <= k < |chain| && chain[k].Verification? :: exists j | 0 <= j < k :: chain[j].PolicyOption?
    ensures
      var declared := DeclaredPolicy(w, fullMethod, req);
      && ((exists k | 0 <= k < |chain| :: chain[k].Verification?) ==> declared.Ok?)
      && Checks(ServeUnary(w, fullMethod, req, chain, c).trace) == Owed(chain, 0, declared)
    ensures ChecksAs(LookupPolicy(w.files, fullMethod), req, chain,
                     Checks(ServeUnary(w, fullMethod, req, chain, c).trace))
  {
    var declared := DeclaredPolicy(w, fullMethod, req);
    HandledExactlyOnSuccess(w, declared, chain, 0, c, []);
    UnaryFrom(w, declared, chain, 0, c, []);
    VerificationsGuarded(chain);
    OwedByRegistry(w, fullMethod, req, chain);
  }

  /** What a chain owes for the declared policy, in terms of the registry. */
  lemma OwedByRegistry(w: World, fullMethod: string, req: Request, chain: seq<Interceptor>)
    requires (exists k | 0 <= k < |chain| :: chain[k].Verification?) ==> DeclaredPolicy(w, fullMethod, req).Ok?
    ensures ChecksAs(LookupPolicy(w.files, fullMethod), req, chain, Owed(chain, 0, DeclaredPolicy(w, fullMethod, req)))
  {
    var declared := DeclaredPolicy(w, fullMethod, req);
    DeclaredExactly(w, fullMethod, req);
    if declared == Ok(None) || forall k | 0 <= k < |chain| :: !chain[k].Verification? {
      NothingOwed(chain, 0, declared);
    }
  }

  // ------------------------------------- what the outside world answered

  /** A policy-option interceptor stands before position `i`. */
  predicate RanBefore(chain: seq<Interceptor>, i: nat) {
    exists j | 0 <= j < i && j < |chain| :: chain[j].PolicyOption?
  }

  /** The result that the latest successful introspection of a trace placed. */
  function LatestPlaced(w: World, tr: seq<Event>): Option<Introspection> {
    if tr == [] then None
    else
      var n := |tr| - 1;
      if tr[n].Introspected? && w.introspect(tr[..n], tr[n].ctx).Placed? then
        Some(w.introspect(tr[..n], tr[n].ctx).result)
      else LatestPlaced(w, tr[..n])
  }

  /** The error that the verifier or the introspection of effect `n` answers, asked about the trace before it. */
  function Objection(w: World, tr: seq<Event>, n: nat): Option<Error>
    requires n < |tr|
  {
    match tr[n]
    case Verified(_, c, v, p, _) => w.verify(tr[..n], v, c, p)
    case Introspected(_, c) =>
      (match w.introspect(tr[..n], c)
       case Rejected(e) => Some(e)
       case _ => None)
    case _ => None
  }

  /** What a context carries behind the first `i` interceptors, after the effects `tr`. */
  ghost predicate Carries(w: World, chain: seq<Interceptor>, declared: Declared, md: Metadata,
                          tr: seq<Event>, i: nat, c: Ctx) {
    && c.md == md && c.optionRan == RanBefore(chain, i) && c.result == LatestPlaced(w, tr)
    && (RanBefore(chain, i) ==> declared == Ok(c.policy)) && (!RanBefore(chain, i) ==> c.policy.None?)
  }

  /** A Verify of verifier `v`: on the policy of the context, with the verifier's own answer. */
  ghost predicate AskedVerifier(w: World, tr: seq<Event>, n: nat, v: nat)
    requires n < |tr|
  {
    && tr[n].Verified? && tr[n].verifier == v && tr[n].ctx.policy == Some(tr[n].policy)
    && tr[n].verdict == w.verify(tr[..n], v, tr[n].ctx, tr[n].policy)
  }

  /** Effect `n` is that of position `n` of the chain, and its context carries what it should. */
  ghost predicate InPlace(w: World, chain: seq<Interceptor>, declared: Declared, md: Metadata, tr: seq<Event>, n: nat)
    requires n < |tr|
  {
    && n <= |chain| && !tr[n].Received? && tr[n].at == n
    && Carries(w, chain, declared, md, tr[..n], n + 1, tr[n].ctx)
    && (n == |chain| <==> tr[n].Handled?) && (n < |chain| && chain[n].TokenCheck? <==> tr[n].Introspected?)
  }

  /** Effect `n` of a unary call: a verification with a policy has asked its verifier, and nobody else has. */
  ghost predicate VerifierAsked(w: World, chain: seq<Interceptor>, tr: seq<Event>, n: nat)
    requires n < |tr| && !tr[n].Received?
  {
    var owed := n < |chain| && chain[n].Verification? && tr[n].ctx.policy.Some?;
    (tr[n].Verified? <==> owed) && (owed ==> AskedVerifier(w, tr, n, chain[n].verifier))
  }

  /** How a run ends: at the first objection and with it, or where the chain is at fault, or in the handler. */
  ghost predicate EndOk(w: World, chain: seq<Interceptor>, declared: Declared, run: Run) {
    var n := |run.trace|;
    && (forall m | 0 <= m < n :: Objection(w, run.trace, m).Some? ==>
          m == n - 1 && run.error == Objection(w, run.trace, m))
    && (run.error.None? ==> n == |chain| + 1)
    && (run.error.Some? ==>
          || (0 < n <= |chain| && run.error == Objection(w, run.trace, n - 1))
          || (n < |chain| && AtFault(chain, n, declared, run.error.value)))
  }

  /** The interceptor at position `n` fails by itself: no policy it can use, or nobody looked for one. */
  ghost predicate AtFault(chain: seq<Interceptor>, n: nat, declared: Declared, err: Error)
    requires n < |chain|
  {
    || (chain[n].PolicyOption? && declared.Err? && err == Status(Internal, declared.error))
    || (chain[n].Verification? && !RanBefore(chain, n) && err == NotRegistered())
  }

  lemma LatestPlacedStep(w: World, tr: seq<Event>, e: Event)
    ensures LatestPlaced(w, tr + [e])
            == if e.Introspected? && w.introspect(tr, e.ctx).Placed? then Some(w.introspect(tr, e.ctx).result)
               else LatestPlaced(w, tr)
  {
    assert (tr + [e])[..|tr|] == tr;
  }

  lemma RanBeforeStep(chain: seq<Interceptor>, i: nat)
    requires i < |chain|
    ensures RanBefore(chain, i + 1) <==> RanBefore(chain, i) || chain[i].PolicyOption?
  {
    if RanBefore(chain, i) {
      var j :| 0 <= j < i && chain[j].PolicyOption?;
      assert j < i + 1;
    }
  }

  /** Every effect so far is in place, and nobody has objected. */
  ghost predicate SoFar(w: World, chain: seq<Interceptor>, declared: Declared, md: Metadata, tr: seq<Event>) {
    forall n | 0 <= n < |tr| :: InPlace(w, chain, declared, md, tr, n) && Objection(w, tr, n).None?
  }

  /** Every effect of a run is in place, and it ends as it should. */
  ghost predicate RunOk(w: World, chain: seq<Interceptor>, declared: Declared, md: Metadata, run: Run) {
    && (forall n | 0 <= n < |run.trace| :: InPlace(w, chain, declared, md, run.trace, n))
    && EndOk(w, chain, declared, run)
  }

  /** One interceptor: its effect, the context it hands on, and why it stops. */
  ghost predicate StepOk(w: World, chain: seq<Interceptor>, declared: Declared, md: Metadata,
                         tr: seq<Event>, step: Step)
    requires |tr| < |chain|
  {
    match step
    case Next(c, e) =>
      && InPlace(w, chain, declared, md, tr + [e], |tr|) && Objection(w, tr + [e], |tr|).None?
      && Carries(w, chain, declared, md, tr + [e], |tr| + 1, c)
    case Stop(es, err) =>
      || (es == [] && AtFault(chain, |tr|, declared, err))
      || (|es| == 1 && InPlace(w, chain, declared, md, tr + [es[0]], |tr|)
          && Objection(w, tr + [es[0]], |tr|) == Some(err))
  }

  lemma EffectStays(w: World, chain: seq<Interceptor>, declared: Declared, md: Metadata,
                    tr: seq<Event>, more: seq<Event>, n: nat)
    requires n < |tr| && tr <= more
    ensures Objection(w, more, n) == Objection(w, tr, n)
    ensures InPlace(w, chain, declared, md, tr, n) ==> InPlace(w, chain, declared, md, more, n)
  {
    assert more[..n] == tr[..n] && more[n] == tr[n];
  }

  lemma SoFarStays(w: World, chain: seq<Interceptor>, declared: Declared, md: Metadata,
                   tr: seq<Event>, more: seq<Event>)
    requires SoFar(w, chain, declared, md, tr) && tr <= more
    ensures forall n | 0 <= n < |tr| :: InPlace(w, chain, declared, md, more, n) && Objection(w, more, n).None?
  {
    forall n | 0 <= n < |tr|
      ensures InPlace(w, chain, declared, md, more, n) && Objection(w, more, n).None?
    {
      EffectStays(w, chain, declared, md, tr, more, n);
    }
  }

  lemma SoFarNext(w: World, chain: seq<Interceptor>, declared: Declared, md: Metadata, tr: seq<Event>, c: Ctx, e: Event)
    requires SoFar(w, chain, declared, md, tr) && |tr| < |chain|
    requires StepOk(w, chain, declared, md, tr, Next(c, e))
    ensures SoFar(w, chain, declared, md, tr + [e])
  {
    SoFarStays(w, chain, declared, md, tr, tr + [e]);
  }

  lemma StopsOk(w: World, chain: seq<Interceptor>, declared: Declared, md: Metadata,
                tr: seq<Event>, es: seq<Event>, err: Error)
    requires SoFar(w, chain, declared, md, tr) && |tr| < |chain|
    requires StepOk(w, chain, declared, md, tr, Stop(es, err))
    ensures RunOk(w, chain, declared, md, Run(tr + es, Some(err)))
  {
    SoFarStays(w, chain, declared, md, tr, tr + es);
    assert es == [] || es == [es[0]];
  }

  lemma HandlerOk(w: World, chain: seq<Interceptor>, declared: Declared, md: Metadata, tr: seq<Event>, c: Ctx)
    requires SoFar(w, chain, declared, md, tr) && |tr| == |chain| && Carries(w, chain, declared, md, tr, |tr|, c)
    ensures RunOk(w, chain, declared, md, Run(tr + [Handled(|chain|, c)], None))
  {
    var trace := tr + [Handled(|chain|, c)];
    SoFarStays(w, chain, declared, md, tr, trace);
    assert trace[..|tr|] == tr;
    assert RanBefore(chain, |chain|) <==> RanBefore(chain, |chain| + 1);
  }

  /** An effect of an interceptor other than the policy-option one: it changes at most the request ID. */
  ghost predicate PlainEffect(chain: seq<Interceptor>, tr: seq<Event>, c: Ctx, e: Event)
    requires |tr| < |chain|
  {
    && !chain[|tr|].PolicyOption? && !e.Received? && !e.Handled? && e.at == |tr|
    && (chain[|tr|].TokenCheck? <==> e.Introspected?) && e.ctx == c.(requestID := e.ctx.requestID)
  }

  lemma PlainInPlace(w: World, chain: seq<Interceptor>, declared: Declared, tr: seq<Event>, c: Ctx, e: Event)
    requires |tr| < |chain| && Carries(w, chain, declared, c.md, tr, |tr|, c) && PlainEffect(chain, tr, c, e)
    ensures InPlace(w, chain, declared, c.md, tr + [e], |tr|)
    ensures Carries(w, chain, declared, c.md, tr, |tr| + 1, e.ctx)
  {
    assert (tr + [e])[..|tr|] == tr;
    RanBeforeStep(chain, |tr|);
  }

  /** An interceptor that passes the context on, with one effect that nobody objects to. */
  lemma PassesOk(w: World, chain: seq<Interceptor>, declared: Declared, tr: seq<Event>, c: Ctx, c': Ctx, e: Event)
    requires |tr| < |chain| && Carries(w, chain, declared, c.md, tr, |tr|, c) && PlainEffect(chain, tr, c, e)
    requires c' == e.ctx.(result := LatestPlaced(w, tr + [e])) && Objection(w, tr + [e], |tr|).None?
    ensures StepOk(w, chain, declared, c.md, tr, Next(c', e))
  {
    PlainInPlace(w, chain, declared, tr, c, e);
  }

  lemma PolicyOptionOk(w: World, chain: seq<Interceptor>, declared: Declared, tr: seq<Event>, c: Ctx)
    requires |tr| < |chain| && Carries(w, chain, declared, c.md, tr, |tr|, c) && chain[|tr|].PolicyOption?
    ensures StepOk(w, chain, declared, c.md, tr, UnaryStep(w, declared, chain[|tr|], |tr|, c, tr))
  {
    RanBeforeStep(chain, |tr|);
    if declared.Ok? {
      var Next(c', e) := UnaryStep(w, declared, chain[|tr|], |tr|, c, tr);
      LatestPlacedStep(w, tr, e);
      assert (tr + [e])[..|tr|] == tr;
    }
  }

  /** An interceptor that stops the request after one effect, because of what it was answered. */
  lemma ObjectsOk(w: World, chain: seq<Interceptor>, declared: Declared, tr: seq<Event>, c: Ctx, e: Event, err: Error)
    requires |tr| < |chain| && Carries(w, chain, declared, c.md, tr, |tr|, c) && PlainEffect(chain, tr, c, e)
    requires Objection(w, tr + [e], |tr|) == Some(err)
    ensures StepOk(w, chain, declared, c.md, tr, Stop([e], err))
  {
    PlainInPlace(w, chain, declared, tr, c, e);
  }

  lemma IntrospectOk(w: World, chain: seq<Interceptor>, declared: Declared, tr: seq<Event>, c: Ctx)
    requires |tr| < |chain| && Carries(w, chain, declared, c.md, tr, |tr|, c) && chain[|tr|].TokenCheck?
    ensures StepOk(w, chain, declared, c.md, tr, IntrospectStep(w, |tr|, c, tr))
  {
    var e := Introspected(|tr|, c);
    LatestPlacedStep(w, tr, e);
    assert (tr + [e])[..|tr|] == tr;
    match IntrospectStep(w, |tr|, c, tr)
    case Next(c', _) => PassesOk(w, chain, declared, tr, c, c', e);
    case Stop(_, err) => ObjectsOk(w, chain, declared, tr, c, e, err);
  }

  lemma VerifyOk(w: World, chain: seq<Interceptor>, declared: Declared, tr: seq<Event>, c: Ctx)
    requires |tr| < |chain| && Carries(w, chain, declared, c.md, tr, |tr|, c) && chain[|tr|].Verification?
    ensures StepOk(w, chain, declared, c.md, tr, VerifyStep(w, chain[|tr|].verifier, |tr|, c, tr))
  {
    var c' := EnsureID(w, tr, c, REQUEST_ID_KEY);
    if c'.optionRan && c'.policy.None? {
      LatestPlacedStep(w, tr, Forwarded(|tr|, c'));
      PassesOk(w, chain, declared, tr, c, c', Forwarded(|tr|, c'));
    } else if c'.optionRan {
      AsksOk(w, chain, declared, tr, c, c');
    }
  }

  lemma AsksOk(w: World, chain: seq<Interceptor>, declared: Declared, tr: seq<Event>, c: Ctx, c': Ctx)
    requires |tr| < |chain| && Carries(w, chain, declared, c.md, tr, |tr|, c) && chain[|tr|].Verification?
    requires c' == c.(requestID := c'.requestID) && c'.policy.Some?
    ensures
      var v, p := chain[|tr|].verifier, c'.policy.value;
      var verdict := w.verify(tr, v, c', p);
      var e := Verified(|tr|, c', v, p, verdict);
      StepOk(w, chain, declared, c.md, tr, if verdict.Some? then Stop([e], verdict.value) else Next(c', e))
  {
    var v, p := chain[|tr|].verifier, c'.policy.value;
    var e := Verified(|tr|, c', v, p, w.verify(tr, v, c', p));
    assert (tr + [e])[..|tr|] == tr;
    if e.verdict.Some? {
      ObjectsOk(w, chain, declared, tr, c, e, e.verdict.value);
    } else {
      LatestPlacedStep(w, tr, e);
      PassesOk(w, chain, declared, tr, c, c', e);
    }
  }

  lemma StepExplained(w: World, declared: Declared, chain: seq<Interceptor>, c: Ctx, tr: seq<Event>)
    requires |tr| < |chain| && Carries(w, chain, declared, c.md, tr, |tr|, c)
    ensures StepOk(w, chain, declared, c.md, tr, UnaryStep(w, declared, chain[|tr|], |tr|, c, tr))
  {
    match chain[|tr|]
    case Tracking(key) =>
      var c' := EnsureID(w, tr, c, key);
      LatestPlacedStep(w, tr, Forwarded(|tr|, c'));
      PassesOk(w, chain, declared, tr, c, c', Forwarded(|tr|, c'));
    case TokenCheck => IntrospectOk(w, chain, declared, tr, c);
    case PolicyOption => PolicyOptionOk(w, chain, declared, tr, c);
    case Verification(_) => VerifyOk(w, chain, declared, tr, c);
  }

  lemma {:induction false} ExplainFrom(
    w: World, declared: Declared, chain: seq<Interceptor>, i: nat, c: Ctx, tr: seq<Event>)
    requires i <= |chain| && |tr| == i && Carries(w, chain, declared, c.md, tr, i, c)
    requires SoFar(w, chain, declared, c.md, tr)
    ensures RunOk(w, chain, declared, c.md, RunUnary(w, declared, chain, i, c, tr))
    decreases |chain| - i
  {
    if i == |chain| {
      HandlerOk(w, chain, declared, c.md, tr, c);
    } else {
      StepExplained(w, declared, chain, c, tr);
      match UnaryStep(w, declared, chain[i], i, c, tr)
      case Next(c', e) =>
        SoFarNext(w, chain, declared, c.md, tr, c', e);
        ExplainFrom(w, declared, chain, i + 1, c', tr + [e]);
      case Stop(es, err) => StopsOk(w, chain, declared, c.md, tr, es, err);
    }
  }

  /** Every Verify of a unary call is made by a verification that has a policy, and has its verifier's answer. */
  ghost predicate AllAsked(w: World, chain: seq<Interceptor>, tr: seq<Event>) {
    forall n | 0 <= n < |tr| :: !tr[n].Received? && VerifierAsked(w, chain, tr, n)
  }

  /** One more effect, of the interceptor at position `|tr|`. */
  lemma AskedMore(w: World, declared: Declared, chain: seq<Interceptor>, c: Ctx, tr: seq<Event>, e: Event)
    requires |tr| < |chain| && AllAsked(w, chain, tr)
    requires
      var step := UnaryStep(w, declared, chain[|tr|], |tr|, c, tr);
      if step.Next? then step.event == e else step.events == [e]
    ensures AllAsked(w, chain, tr + [e])
  {
    assert (tr + [e])[..|tr|] == tr;
    AskedStays(w, chain, tr, tr + [e]);
  }

  lemma AskedHandled(w: World, chain: seq<Interceptor>, c: Ctx, tr: seq<Event>)
    requires |tr| == |chain| && AllAsked(w, chain, tr)
    ensures AllAsked(w, chain, tr + [Handled(|tr|, c)])
  {
    AskedStays(w, chain, tr, tr + [Handled(|tr|, c)]);
  }

  lemma StopsAfterOne(w: World, declared: Declared, ic: Interceptor, i: nat, c: Ctx, tr: seq<Event>)
    requires UnaryStep(w, declared, ic, i, c, tr).Stop?
    ensures |UnaryStep(w, declared, ic, i, c, tr).events| <= 1
  {}

  lemma AskedStays(w: World, chain: seq<Interceptor>, tr: seq<Event>, more: seq<Event>)
    requires AllAsked(w, chain, tr) && tr <= more
    ensures forall n | 0 <= n < |tr| :: !more[n].Received? && VerifierAsked(w, chain, more, n)
  {
    forall n | 0 <= n < |tr|
      ensures more[..n] == tr[..n] && more[n] == tr[n]
    {}
  }

  lemma {:induction false} AskedFrom(
    w: World, declared: Declared, chain: seq<Interceptor>, i: nat, c: Ctx, tr: seq<Event>)
    requires i <= |chain| && |tr| == i && AllAsked(w, chain, tr)
    ensures AllAsked(w, chain, RunUnary(w, declared, chain, i, c, tr).trace)
    decreases |chain| - i
  {
    if i == |chain| {
      AskedHandled(w, chain, c, tr);
    } else {
      match UnaryStep(w, declared, chain[i], i, c, tr)
      case Next(c', e) =>
        AskedMore(w, declared, chain, c, tr, e);
        AskedFrom(w, declared, chain, i + 1, c', tr + [e]);
      case Stop(es, err) =>
        StopsAfterOne(w, declared, chain[i], i, c, tr);
        if es == [] {
          assert tr + es == tr;
        } else {
          assert es == [es[0]];
          AskedMore(w, declared, chain, c, tr, es[0]);
        }
    }
  }

  /**
   A unary call of a fresh request through any chain, effect by effect. Effect `n` is that of position
   `n`; its context carries the client's metadata, the declared policy from the policy-option
   interceptor on, and the result of the latest successful introspection before it. Each verification
   that has a policy asks its verifier about it, and the verdict is the verifier's own answer. A Verify
   that is not nil, or a rejected introspection, is the last effect and its error is the error of the
   call; the only other errors are an unusable policy and a verification without policy resolution.
   */
  lemma RunExplained(w: World, fullMethod: string, req: Request, chain: seq<Interceptor>, c: Ctx)
    requires Fresh(c)
    ensures
      var run := ServeUnary(w, fullMethod, req, chain, c);
      RunOk(w, chain, DeclaredPolicy(w, fullMethod, req), c.md, run) && AllAsked(w, chain, run.trace)
  {
    ExplainFrom(w, DeclaredPolicy(w, fullMethod, req), chain, 0, c, []);
    AskedFrom(w, DeclaredPolicy(w, fullMethod, req), chain, 0, c, []);
  }

  /** A method without a policy is never verified, however its call ends. */
  lemma NoPolicyNoVerify(w: World, fullMethod: string, req: Request, chain: seq<Interceptor>, c: Ctx)
    requires Fresh(c) && LookupPolicy(w.files, fullMethod) == Ok(None)
    ensures forall e | e in ServeUnary(w, fullMethod, req, chain, c).trace :: !e.Verified?
  {
    RunExplained(w, fullMethod, req, chain, c);
    var declared, run := DeclaredPolicy(w, fullMethod, req), ServeUnary(w, fullMethod, req, chain, c);
    forall n | 0 <= n < |run.trace|
      ensures !run.trace[n].Verified?
    {
      assert InPlace(w, chain, declared, c.md, run.trace, n);
    }
  }

  /** Introspection, where a chain has it, rejects nothing. */
  ghost predicate Admits(w: World) { forall tr, c :: !w.introspect(tr, c).Rejected? }

  /** Every Verify answers nil. */
  ghost predicate Approves(w: World) { forall tr, v, c, p :: w.verify(tr, v, c, p).None? }

  lemma {:induction false} RunsGuarded(
    w: World, declared: Declared, chain: seq<Interceptor>, i: nat, c: Ctx, tr: seq<Event>)
    requires i <= |chain| && Admits(w) && Approves(w) && Guarded(chain, i, c.optionRan)
    requires (exists k | i <= k < |chain| :: chain[k].PolicyOption?) ==> declared.Ok?
    ensures RunUnary(w, declared, chain, i, c, tr).error.None?
    decreases |chain| - i
  {
    if i == |chain| {
    } else {
      var Next(c', e) := UnaryStep(w, declared, chain[i], i, c, tr);
      RunsGuarded(w, declared, chain, i + 1, c', tr + [e]);
    }
  }

  /**
   When neither introspection nor a verifier objects, a unary call succeeds exactly when a
   policy-option interceptor precedes each verification and, if there is one, the method's policy can
   be read and resolved for the request: nothing else stops a request.
   */
  lemma ServedExactly(w: World, fullMethod: string, req: Request, chain: seq<Interceptor>, c: Ctx)
    requires Fresh(c) && Admits(w) && Approves(w)
    ensures ServeUnary(w, fullMethod, req, chain, c).error.None? <==>
            && Guarded(chain, 0, false)
            && ((exists k | 0 <= k < |chain| :: chain[k].PolicyOption?) ==> DeclaredPolicy(w, fullMethod, req).Ok?)
  {
    var declared := DeclaredPolicy(w, fullMethod, req);
    if ServeUnary(w, fullMethod, req, chain, c).error.None? {
      UnaryFrom(w, declared, chain, 0, c, []);
    } else if Guarded(chain, 0, false) && ((exists k | 0 <= k < |chain| :: chain[k].PolicyOption?) ==> declared.Ok?) {
      RunsGuarded(w, declared, chain, 0, c, []);
    }
  }

  /** A unary method whose declared resource or action is empty never reaches its handler. */
  lemma EmptyPolicyRejected(
    w: World, fullMethod: string, req: Request, chain: seq<Interceptor>, k: nat, c: Ctx, p: ProtoPolicy)
    requires Fresh(c) && k < |chain| && chain[k].PolicyOption?
    requires LookupPolicy(w.files, fullMethod) == Ok(Some(p)) && (p.resource == "" || p.action == "")
    ensures
      var run := ServeUnary(w, fullMethod, req, chain, c);
      run.error.Some? && forall n | 0 <= n < |run.trace| :: !run.trace[n].Handled?
  {
    var declared := DeclaredPolicy(w, fullMethod, req);
    HandledExactlyOnSuccess(w, declared, chain, 0, c, []);
    if ServeUnary(w, fullMethod, req, chain, c).error.None? {
      UnaryFrom(w, declared, chain, 0, c, []);
    }
  }

  // ----------------------------------------- one request ID, unary calls

  predicate FixesID(ic: Interceptor) { ic.Tracking? || ic.Verification? }

  function IDKey(ic: Interceptor): string { if ic.Tracking? then ic.metadataKey else REQUEST_ID_KEY }

  /** Position `k` holds the first interceptor from `i` on that fixes the request ID. */
  predicate FirstFixer(chain: seq<Interceptor>, i: nat, k: nat) {
    i <= k < |chain| && FixesID(chain[k]) && forall j | i <= j < k :: !FixesID(chain[j])
  }

  /** The request ID seen from an interceptor on: a new one only at a fixer, and only if there is none. */
  function NewID(w: World, tr: seq<Event>, ic: Interceptor, c: Ctx): (id: string)
    ensures FixesID(ic) ==> id != ""
    ensures c.requestID != "" || !FixesID(ic) ==> id == c.requestID
    ensures c.requestID == "" && FixesID(ic) && SentID(c.md, IDKey(ic)).Some? ==> Some(id) == SentID(c.md, IDKey(ic))
  {
    if FixesID(ic) then EnsureID(w, tr, c, IDKey(ic)).requestID else c.requestID
  }

  predicate Sees(e: Event, i: nat, id: string) { !e.Received? && e.at == i && e.ctx.requestID == id }

  lemma UnaryStepID(w: World, declared: Declared, ic: Interceptor, i: nat, c: Ctx, tr: seq<Event>)
    ensures
      match UnaryStep(w, declared, ic, i, c, tr)
      case Next(c', e) => c'.md == c.md && c'.requestID == NewID(w, tr, ic, c) && Sees(e, i, NewID(w, tr, ic, c))
      case Stop(es, _) => forall n | 0 <= n < |es| :: Sees(es[n], i, NewID(w, tr, ic, c))
  {}

  /** Every event from position `from` of a trace on sees `id`. */
  predicate AllSee(tr: seq<Event>, from: nat, id: string) {
    forall n | from <= n < |tr| :: !tr[n].Received? && tr[n].ctx.requestID == id
  }

  /** From index `from` on every event sees `id`; those between `start` and `from` precede position `k`. */
  predicate IDFixedFrom(tr: seq<Event>, start: nat, from: nat, id: string, k: nat) {
    && start <= from <= |tr| && AllSee(tr, from, id)
    && (forall n | start <= n < from :: !tr[n].Received? && tr[n].at < k)
  }

  lemma AllSeeMore(tr: seq<Event>, es: seq<Event>, from: nat, id: string, i: nat)
    requires from <= |tr| && AllSee(tr, from, id) && forall n | 0 <= n < |es| :: Sees(es[n], i, id)
    ensures AllSee(tr + es, from, id)
  {}

  /** An effect `e` of position `i < k` comes before those of a trace whose ID is fixed at `k`. */
  lemma FixedOneEarlier(tr: seq<Event>, e: Event, trace: seq<Event>, from: nat, id: string, i: nat, k: nat)
    requires tr + [e] <= trace && IDFixedFrom(trace, |tr| + 1, from, id, k) && !e.Received? && e.at == i < k
    ensures IDFixedFrom(trace, |tr|, from, id, k)
  {
    assert trace[|tr|] == e;
  }

  lemma {:induction false} IDStays(
    w: World, declared: Declared, chain: seq<Interceptor>, i: nat, c: Ctx, tr: seq<Event>, from: nat)
    requires i <= |chain| && c.requestID != "" && from <= |tr| && AllSee(tr, from, c.requestID)
    ensures
      var trace := RunUnary(w, declared, chain, i, c, tr).trace;
      from <= |trace| && AllSee(trace, from, c.requestID)
    decreases |chain| - i
  {
    if i == |chain| {
    } else {
      UnaryStepID(w, declared, chain[i], i, c, tr);
      match UnaryStep(w, declared, chain[i], i, c, tr)
      case Next(c', e) =>
        AllSeeMore(tr, [e], from, c.requestID, i);
        IDStays(w, declared, chain, i + 1, c', tr + [e], from);
      case Stop(es, _) => AllSeeMore(tr, es, from, c.requestID, i);
    }
  }

  /**
   The first tracking or verification interceptor a unary call reaches fixes a non-empty ID, the
   client's if it sent one; every effect from there on, the handler included, sees that ID, and
   every effect before it comes from an earlier position.
   */
  lemma {:induction false} OneRequestID(
    w: World, declared: Declared, chain: seq<Interceptor>, i: nat, c: Ctx, tr: seq<Event>, k: nat)
    returns (id: string, from: nat)
    requires FirstFixer(chain, i, k) && c.requestID == ""
    ensures id != "" && (SentID(c.md, IDKey(chain[k])).Some? ==> id == SentID(c.md, IDKey(chain[k])).value)
    ensures IDFixedFrom(RunUnary(w, declared, chain, i, c, tr).trace, |tr|, from, id, k)
    decreases k - i
  {
    if i == k {
      id, from := NewID(w, tr, chain[i], c), |tr|;
      FixerFixes(w, declared, chain, i, c, tr);
    } else {
      UnaryStepID(w, declared, chain[i], i, c, tr);
      match UnaryStep(w, declared, chain[i], i, c, tr)
      case Next(c', e) =>
        id, from := OneRequestID(w, declared, chain, i + 1, c', tr + [e], k);
        RunExtends(w, declared, chain, i + 1, c', tr + [e]);
        FixedOneEarlier(tr, e, RunUnary(w, declared, chain, i, c, tr).trace, from, id, i, k);
      case Stop(es, _) =>
        id, from := NewID(w, tr, chain[k], c), |tr| + |es|;
    }
  }

  lemma FixerFixes(w: World, declared: Declared, chain: seq<Interceptor>, i: nat, c: Ctx, tr: seq<Event>)
    requires i < |chain| && FixesID(chain[i])
    ensures IDFixedFrom(RunUnary(w, declared, chain, i, c, tr).trace, |tr|, |tr|, NewID(w, tr, chain[i], c), i)
  {
    UnaryStepID(w, declared, chain[i], i, c, tr);
    match UnaryStep(w, declared, chain[i], i, c, tr)
    case Next(c', e) =>
      AllSeeMore(tr, [e], |tr|, c'.requestID, i);
      IDStays(w, declared, chain, i + 1, c', tr + [e], |tr|);
    case Stop(es, _) => AllSeeMore(tr, es, |tr|, NewID(w, tr, chain[i], c), i);
  }

  lemma {:induction false} RunExtends(
    w: World, declared: Declared, chain: seq<Interceptor>, i: nat, c: Ctx, tr: seq<Event>)
    requires i <= |chain|
    ensures tr <= RunUnary(w, declared, chain, i, c, tr).trace
    decreases |chain| - i
  {
    if i == |chain| {
    } else {
      match UnaryStep(w, declared, chain[i], i, c, tr)
      case Next(c', e) => RunExtends(w, declared, chain, i + 1, c', tr + [e]);
      case Stop(es, _) =>
    }
  }
}
