/**
 Resource template resolution.

 The interceptor rewrites a template such as "items/<id>" by one Contains/ReplaceAll
 round per field mapping. This module states what the loop computes (one simultaneous
 substitution), and exactly for which templates and which field values it does so.
 */
module ResourceTemplate {
  import opened Results
  import opened Strings
  import opened HoleSubstitution

  datatype FieldMapping = FieldMapping(placeholder: string, requestField: string)
  datatype ProtoPolicy = ProtoPolicy(resource: string, action: string, fieldMappings: seq<FieldMapping>)
  datatype Policy = Policy(resource: string, action: string)

  /** A request as field extraction sees it: scalar fields have a text, other kinds have none. */
  datatype FieldValue = Scalar(text: string) | Unsupported
  datatype Request = NotProto | Proto(fields: map<string, FieldValue>)

  /** The text of a field, exactly when the request is a message that has it as a scalar. */
  function ExtractField(req: Request, name: string): (r: Result<string, string>)
    ensures r.Ok? <==> req.Proto? && name in req.fields && req.fields[name].Scalar?
    ensures r.Ok? ==> req.fields[name] == Scalar(r.value)
  {
    match req
    case NotProto => Err("not a message")
    case Proto(fields) =>
      if name !in fields then Err("no such field")
      else if fields[name].Unsupported? then Err("unsupported field")
      else Ok(fields[name].text)
  }

  // ---------------------------------------------------------------- the loop

  datatype Rewriting = Rewriting(outcome: Result<string, string>, fetched: seq<string>)

  /** What the rewriting loop leaves of `s`, and the request fields it reads, in order. */
  function Rewrite(s: string, ms: seq<FieldMapping>, req: Request): Rewriting
    decreases |ms|
  {
    if ms == [] then Rewriting(Ok(s), [])
    else
      var m := ms[0];
      if m.placeholder == "" || m.requestField == "" then Rewriting(Err("bad mapping"), [])
      else if Contains(s, Bracketed(m.placeholder)) then
        match ExtractField(req, m.requestField)
        case Err(e) => Rewriting(Err("unreadable"), [m.requestField])
        case Ok(v) =>
          var rest := Rewrite(ReplaceAll(s, Bracketed(m.placeholder), v), ms[1..], req);
          Rewriting(rest.outcome, [m.requestField] + rest.fetched)
      else Rewrite(s, ms[1..], req)
  }

  function ResolveSpec(p: ProtoPolicy, req: Request): Result<Policy, string> {
    if p.resource == "" then Err("empty resource")
    else if p.action == "" then Err("empty action")
    else
      match Rewrite(p.resource, p.fieldMappings, req).outcome
      case Ok(r) => Ok(Policy(r, p.action))
      case Err(e) => Err(e)
  }

  /** The conditions under which the loop is one simultaneous substitution, see `RewriteIsSimultaneous`. */
  ghost predicate Regular(p: ProtoPolicy, req: Request) {
    Tidy(p.resource) && CleanNames(p.fieldMappings) && SafeFills(Holes(p.resource), p.fieldMappings, req)
  }

  /** A regular policy can be resolved for the request. */
  ghost predicate Resolves(p: ProtoPolicy, req: Request) {
    p.resource != "" && p.action != "" && Resolvable(Holes(p.resource), p.fieldMappings, req)
  }

  /** The policy with every mapped hole of its resource filled in at once, and its action as declared. */
  function FilledIn(p: ProtoPolicy, req: Request): Policy {
    Policy(Substitute(p.resource, Env(p.fieldMappings, req)), p.action)
  }

  /** The answer for a regular policy: filled in, exactly when it can be resolved. */
  ghost predicate ResolvedTo(p: ProtoPolicy, req: Request, r: Result<Policy, string>) {
    Regular(p, req) ==> (r.Ok? <==> Resolves(p, req)) && (r.Ok? ==> r.value == FilledIn(p, req))
  }

  /**
   resolveResourceFromRequest: the loop's rewriting of the resource, with the declared action. A
   regular policy is resolved exactly when resource and action are given, every mapping is complete
   and each deciding field can be read, and then by one simultaneous substitution.
   */
  method ResolveResource(p: ProtoPolicy, req: Request) returns (r: Result<Policy, string>, fetched: seq<string>)
    ensures r == ResolveSpec(p, req)
    ensures ResolvedTo(p, req, r)
    ensures p.resource != "" && p.action != "" ==> fetched == Rewrite(p.resource, p.fieldMappings, req).fetched
    ensures p.resource == "" || p.action == "" ==> fetched == []
  {
    ResolvedExactly(p, req);
    fetched := [];
    if p.resource == "" { return Err("empty resource"), fetched; }
    if p.action == "" { return Err("empty action"), fetched; }
    var resource := p.resource;
    var i := 0;
    while i < |p.fieldMappings|
      invariant 0 <= i <= |p.fieldMappings|
      invariant
        var whole := Rewrite(p.resource, p.fieldMappings, req);
        var rest := Rewrite(resource, p.fieldMappings[i..], req);
        whole.outcome == rest.outcome && whole.fetched == fetched + rest.fetched
    {
      var field := p.fieldMappings[i];
      assert p.fieldMappings[i..][1..] == p.fieldMappings[i+1..];
      if field.placeholder == "" || field.requestField == "" {
        return Err("bad mapping"), fetched;
      }
      var placeholder := Bracketed(field.placeholder);
      if Contains(resource, placeholder) {
        fetched := fetched + [field.requestField];
        var value := ExtractField(req, field.requestField);
        if value.Err? { return Err("unreadable"), fetched; }
        resource := ReplaceAll(resource, placeholder, value.value);
      }
      i := i + 1;
    }
    r := Ok(Policy(resource, p.action));
  }

  // ---------------------------- the loop is one simultaneous substitution

  /**
   Placeholders that cannot match anything but a hole of their name: without angle brackets, or so
   full of them that no tidy template contains the bracketed placeholder.
   */
  predicate CleanName(n: string) { NameFree(n) || !Tidy(Bracketed(n)) }

  predicate CleanNames(ms: seq<FieldMapping>) {
    forall m | m in ms :: CleanName(m.placeholder)
  }

  ghost predicate SafeValues(ms: seq<FieldMapping>, req: Request) {
    forall m | m in ms :: ExtractField(req, m.requestField).Ok? ==> Safe(ExtractField(req, m.requestField).value)
  }

  /** The values of the deciding mappings, the only ones the loop inserts, are safe. */
  ghost predicate SafeFills(holes: set<string>, ms: seq<FieldMapping>, req: Request) {
    forall i | 0 <= i < |ms| && ms[i].placeholder in holes && IsFirst(ms, i) ::
      var v := ExtractField(req, ms[i].requestField);
      v.Ok? ==> Safe(v.value)
  }

  predicate WellFormed(m: FieldMapping) { m.placeholder != "" && m.requestField != "" }

  /** The values the mappings give to their names; the first mapping of a name wins. */
  function Env(ms: seq<FieldMapping>, req: Request): map<string, string> {
    if ms == [] then map[]
    else
      var v := ExtractField(req, ms[0].requestField);
      Env(ms[1..], req)[ms[0].placeholder := if v.Ok? then v.value else ""]
  }

  /** Index `i` holds the first mapping of its placeholder. */
  predicate IsFirst(ms: seq<FieldMapping>, i: nat)
    requires i < |ms|
  {
    forall j | 0 <= j < i :: ms[j].placeholder != ms[i].placeholder
  }

  /** Resolution can succeed: every mapping is complete, and each deciding one can be read. */
  ghost predicate Resolvable(holes: set<string>, ms: seq<FieldMapping>, req: Request) {
    && (forall m | m in ms :: WellFormed(m))
    && (forall i | 0 <= i < |ms| && ms[i].placeholder in holes && IsFirst(ms, i) ::
          ExtractField(req, ms[i].requestField).Ok?)
  }

  /** The request fields of the deciding mappings, in mapping order. */
  function Deciding(holes: set<string>, ms: seq<FieldMapping>): seq<string> {
    if ms == [] then []
    else if ms[0].placeholder in holes then
      [ms[0].requestField] + Deciding(holes - {ms[0].placeholder}, ms[1..])
    else Deciding(holes, ms[1..])
  }

  lemma ResolvableStep(holes: set<string>, ms: seq<FieldMapping>, req: Request)
    requires ms != []
    ensures Resolvable(holes, ms, req) <==>
              && WellFormed(ms[0])
              && (ms[0].placeholder in holes ==> ExtractField(req, ms[0].requestField).Ok?)
              && Resolvable(holes - {ms[0].placeholder}, ms[1..], req)
  {
    var rest := ms[1..];
    var fewer := holes - {ms[0].placeholder};
    assert forall m :: m in ms <==> m == ms[0] || m in rest;
    forall i | 0 <= i < |rest| && rest[i].placeholder in fewer
      ensures IsFirst(rest, i) <==> IsFirst(ms, i + 1)
    {
      assert forall j | 0 <= j < i :: rest[j] == ms[j + 1];
      assert forall j | 1 <= j < i + 1 :: ms[j] == rest[j - 1];
    }
    assert IsFirst(ms, 0);
    if Resolvable(holes, ms, req) {
      forall i | 0 <= i < |rest| && rest[i].placeholder in fewer && IsFirst(rest, i)
        ensures ExtractField(req, rest[i].requestField).Ok?
      {
        assert ms[i + 1] == rest[i] && IsFirst(ms, i + 1);
      }
    } else if forall m | m in ms :: WellFormed(m) {
      var i :| 0 <= i < |ms| && ms[i].placeholder in holes && IsFirst(ms, i)
        && ExtractField(req, ms[i].requestField).Err?;
      if i > 0 { assert rest[i - 1] == ms[i] && IsFirst(rest, i - 1); }
    }
  }

  lemma SafeFillsStep(holes: set<string>, ms: seq<FieldMapping>, req: Request)
    requires ms != [] && SafeFills(holes, ms, req)
    ensures SafeFills(holes - {ms[0].placeholder}, ms[1..], req)
    ensures ms[0].placeholder in holes && ExtractField(req, ms[0].requestField).Ok? ==>
              Safe(ExtractField(req, ms[0].requestField).value)
  {
    var rest, fewer := ms[1..], holes - {ms[0].placeholder};
    assert IsFirst(ms, 0);
    forall i | 0 <= i < |rest| && rest[i].placeholder in fewer && IsFirst(rest, i)
      ensures ExtractField(req, rest[i].requestField).Ok? ==> Safe(ExtractField(req, rest[i].requestField).value)
    {
      assert forall j | 1 <= j < i + 1 :: ms[j] == rest[j - 1];
      assert ms[i + 1] == rest[i] && IsFirst(ms, i + 1);
    }
  }

  /** The part of the values that a template with these holes uses. */
  function Used(holes: set<string>, env: map<string, string>): map<string, string> {
    map n | n in env && n in holes :: env[n]
  }

  lemma UsedIsSafe(holes: set<string>, ms: seq<FieldMapping>, req: Request)
    requires SafeFills(holes, ms, req) && Resolvable(holes, ms, req)
    ensures SafeEnv(Used(holes, Env(ms, req)))
  {
    EnvKeys(ms, req);
    forall n | n in Env(ms, req) && n in holes
      ensures n != "" && Safe(Env(ms, req)[n])
    {
      var m :| m in ms && m.placeholder == n;
      var i := FirstIndex(ms, n);
      EnvFirstWins(ms, req, i);
    }
  }

  lemma {:induction false} FirstIndex(ms: seq<FieldMapping>, n: string) returns (i: nat)
    requires exists m :: m in ms && m.placeholder == n
    ensures i < |ms| && ms[i].placeholder == n && IsFirst(ms, i)
  {
    if ms[0].placeholder == n {
      i := 0;
    } else {
      assert forall m | m in ms :: m == ms[0] || m in ms[1..];
      i := FirstIndex(ms[1..], n);
      assert forall j | 1 <= j < i + 1 :: ms[j] == ms[1..][j - 1];
      i := i + 1;
    }
  }

  /** One round of the loop on a partly filled template. */
  lemma RoundFillsOneName(s: string, e: map<string, string>, n: string, v: string)
    requires Tidy(s) && SafeEnv(e) && NameFree(n) && n != ""
    ensures Contains(Substitute(s, e), Bracketed(n)) <==> n in Holes(s) - e.Keys
    ensures ReplaceAll(Substitute(s, e), Bracketed(n), v) == Substitute(s, map[n := v] + e)
  {
    ReplaceIsSubstitute(Substitute(s, e), n, v);
    SubstituteTwice(s, e, map[n := v]);
  }

  /** A clean placeholder is found in a partly filled template exactly when its hole is still open. */
  lemma CleanNameOccurs(s: string, e: map<string, string>, n: string)
    requires Tidy(s) && SafeEnv(e) && CleanName(n) && n != ""
    ensures Contains(Substitute(s, e), Bracketed(n)) <==> n in Holes(s) - e.Keys
  {
    if NameFree(n) {
      RoundFillsOneName(s, e, n, "");
    } else {
      SubstituteKeepsTidy(s, e);
      UntidyNameAbsent(Substitute(s, e), n);
      HolesAreShortNames(s);
    }
  }

  /** The loop, resumed after the names of `e` have been filled in, fills in the rest at once. */
  ghost predicate FinishesFrom(s: string, e: map<string, string>, ms: seq<FieldMapping>, req: Request) {
    var open := Holes(s) - e.Keys;
    var w := Rewrite(Substitute(s, e), ms, req);
    && (w.outcome.Ok? <==> Resolvable(open, ms, req))
    && (w.outcome.Ok? ==> w.outcome.value == Substitute(s, Env(ms, req) + e))
    && (w.outcome.Ok? ==> w.fetched == Deciding(open, ms))
    && w.fetched <= Deciding(open, ms)
  }

  lemma EnvAfterFill(e: map<string, string>, ms: seq<FieldMapping>, req: Request, v: string)
    requires ms != [] && ms[0].placeholder !in e && ExtractField(req, ms[0].requestField) == Ok(v)
    ensures Env(ms[1..], req) + (map[ms[0].placeholder := v] + e) == Env(ms, req) + e
  {}

  lemma FinishesAfterFill(s: string, e: map<string, string>, ms: seq<FieldMapping>, req: Request, v: string)
    requires Tidy(s) && SafeEnv(e) && ms != [] && NameFree(ms[0].placeholder) && WellFormed(ms[0])
    requires ms[0].placeholder in Holes(s) - e.Keys && ExtractField(req, ms[0].requestField) == Ok(v)
    requires FinishesFrom(s, map[ms[0].placeholder := v] + e, ms[1..], req)
    ensures FinishesFrom(s, e, ms, req)
  {
    var n := ms[0].placeholder;
    var e' := map[n := v] + e;
    RoundFillsOneName(s, e, n, v);
    ResolvableStep(Holes(s) - e.Keys, ms, req);
    assert Holes(s) - e'.Keys == Holes(s) - e.Keys - {n};
    EnvAfterFill(e, ms, req, v);
  }

  lemma FinishesAfterSkip(s: string, e: map<string, string>, ms: seq<FieldMapping>, req: Request)
    requires Tidy(s) && SafeEnv(e) && ms != [] && CleanName(ms[0].placeholder) && WellFormed(ms[0])
    requires ms[0].placeholder !in Holes(s) - e.Keys
    requires FinishesFrom(s, e, ms[1..], req)
    ensures FinishesFrom(s, e, ms, req)
  {
    var n := ms[0].placeholder;
    CleanNameOccurs(s, e, n);
    ResolvableStep(Holes(s) - e.Keys, ms, req);
    assert Holes(s) - e.Keys - {n} == Holes(s) - e.Keys;
    SubstituteAgrees(s, Env(ms, req) + e, Env(ms[1..], req) + e);
  }

  /** An incomplete mapping, or an open hole whose field cannot be read, ends the loop. */
  lemma FinishesInError(s: string, e: map<string, string>, ms: seq<FieldMapping>, req: Request)
    requires Tidy(s) && SafeEnv(e) && ms != [] && CleanName(ms[0].placeholder)
    requires WellFormed(ms[0]) ==>
               ms[0].placeholder in Holes(s) - e.Keys && ExtractField(req, ms[0].requestField).Err?
    ensures FinishesFrom(s, e, ms, req)
  {
    ResolvableStep(Holes(s) - e.Keys, ms, req);
    if WellFormed(ms[0]) { CleanNameOccurs(s, e, ms[0].placeholder); }
  }

  lemma {:induction false} RewriteFrom(s: string, e: map<string, string>, ms: seq<FieldMapping>, req: Request)
    requires Tidy(s) && SafeEnv(e) && CleanNames(ms) && SafeFills(Holes(s) - e.Keys, ms, req)
    ensures FinishesFrom(s, e, ms, req)
    decreases |ms|
  {
    if ms == [] {
      assert Env(ms, req) + e == e;
    } else {
      var m := ms[0];
      var v := ExtractField(req, m.requestField);
      assert m in ms;
      assert forall x | x in ms[1..] :: x in ms;
      var open := Holes(s) - e.Keys;
      SafeFillsStep(open, ms, req);
      if WellFormed(m) && m.placeholder !in open {
        assert open - {m.placeholder} == open;
        RewriteFrom(s, e, ms[1..], req);
        FinishesAfterSkip(s, e, ms, req);
      } else if WellFormed(m) && v.Ok? {
        HolesAreShortNames(s);
        var e' := map[m.placeholder := v.value] + e;
        assert Holes(s) - e'.Keys == open - {m.placeholder};
        RewriteFrom(s, e', ms[1..], req);
        FinishesAfterFill(s, e, ms, req, v.value);
      } else {
        FinishesInError(s, e, ms, req);
      }
    }
  }

  /**
   The rewriting loop succeeds exactly when the deciding mappings can be read, its result is one
   simultaneous substitution, no mapped hole is left, and it reads exactly the deciding fields.
   */
  lemma RewriteIsSimultaneous(s: string, ms: seq<FieldMapping>, req: Request)
    requires Tidy(s) && CleanNames(ms) && SafeFills(Holes(s), ms, req)
    ensures
      var w := Rewrite(s, ms, req);
      && (w.outcome.Ok? <==> Resolvable(Holes(s), ms, req))
      && (w.outcome.Ok? ==> w.outcome.value == Substitute(s, Env(ms, req)))
      && (w.outcome.Ok? ==> w.fetched == Deciding(Holes(s), ms))
      && (w.outcome.Ok? ==> Holes(w.outcome.value) !! Env(ms, req).Keys)
      && w.fetched <= Deciding(Holes(s), ms)
  {
    var none: map<string, string> := map[];
    SubstituteOutside(s, none);
    RewriteFrom(s, none, ms, req);
    assert Env(ms, req) + none == Env(ms, req);
    assert Holes(s) - none.Keys == Holes(s);
    if Resolvable(Holes(s), ms, req) {
      var used := Used(Holes(s), Env(ms, req));
      UsedIsSafe(Holes(s), ms, req);
      SubstituteAgrees(s, Env(ms, req), used);
      SubstituteTwice(s, used, none);
      EnvKeys(ms, req);
    }
  }

  /** The policy returned carries the result of the substitution, and the declared action. */
  lemma ResolvedExactly(p: ProtoPolicy, req: Request)
    ensures ResolvedTo(p, req, ResolveSpec(p, req))
  {
    if Regular(p, req) { RewriteIsSimultaneous(p.resource, p.fieldMappings, req); }
  }

  // --------------------------------------- order of the field mappings

  predicate Distinct(ms: seq<FieldMapping>) {
    forall i, j | 0 <= i < j < |ms| :: ms[i].placeholder != ms[j].placeholder
  }

  /** `Env` binds exactly the mapped names, each to the value of its first mapping. */
  lemma {:induction false} EnvFirstWins(ms: seq<FieldMapping>, req: Request, i: nat)
    requires i < |ms| && IsFirst(ms, i)
    ensures ms[i].placeholder in Env(ms, req)
    ensures
      var v := ExtractField(req, ms[i].requestField);
      Env(ms, req)[ms[i].placeholder] == if v.Ok? then v.value else ""
  {
    if i == 0 {
    } else {
      assert ms[1..][i - 1] == ms[i];
      assert forall j | 0 <= j < i - 1 :: ms[1..][j] == ms[j + 1];
      EnvFirstWins(ms[1..], req, i - 1);
    }
  }

  lemma {:induction false} EnvKeys(ms: seq<FieldMapping>, req: Request)
    ensures Env(ms, req).Keys == set m | m in ms :: m.placeholder
  {
    if ms == [] {
    } else {
      EnvKeys(ms[1..], req);
      assert forall m :: m in ms <==> m == ms[0] || m in ms[1..];
    }
  }

  lemma EnvPermutes(ms1: seq<FieldMapping>, ms2: seq<FieldMapping>, req: Request)
    requires Distinct(ms1) && Distinct(ms2) && (forall m :: m in ms1 <==> m in ms2)
    ensures Env(ms1, req) == Env(ms2, req)
  {
    EnvKeys(ms1, req);
    EnvKeys(ms2, req);
    forall n | n in Env(ms1, req)
      ensures n in Env(ms2, req) && Env(ms1, req)[n] == Env(ms2, req)[n]
    {
      var m :| m in ms1 && m.placeholder == n;
      EnvOfDistinct(ms1, req, m);
      EnvOfDistinct(ms2, req, m);
    }
  }

  lemma EnvOfDistinct(ms: seq<FieldMapping>, req: Request, m: FieldMapping)
    requires Distinct(ms) && m in ms
    ensures m.placeholder in Env(ms, req)
    ensures
      var v := ExtractField(req, m.requestField);
      Env(ms, req)[m.placeholder] == if v.Ok? then v.value else ""
  {
    var i :| 0 <= i < |ms| && ms[i] == m;
    EnvFirstWins(ms, req, i);
  }

  lemma SafeFillsPermutes(holes: set<string>, ms1: seq<FieldMapping>, ms2: seq<FieldMapping>, req: Request)
    requires Distinct(ms1) && (forall m :: m in ms1 <==> m in ms2) && SafeFills(holes, ms1, req)
    ensures SafeFills(holes, ms2, req)
  {
    forall j | 0 <= j < |ms2| && ms2[j].placeholder in holes && IsFirst(ms2, j)
      ensures ExtractField(req, ms2[j].requestField).Ok? ==> Safe(ExtractField(req, ms2[j].requestField).value)
    {
      assert ms2[j] in ms1;
      var i :| 0 <= i < |ms1| && ms1[i] == ms2[j];
      assert IsFirst(ms1, i);
    }
  }

  lemma ResolvablePermutes(holes: set<string>, ms1: seq<FieldMapping>, ms2: seq<FieldMapping>, req: Request)
    requires Distinct(ms1) && (forall m :: m in ms1 <==> m in ms2) && Resolvable(holes, ms1, req)
    ensures Resolvable(holes, ms2, req)
  {
    forall j | 0 <= j < |ms2| && ms2[j].placeholder in holes && IsFirst(ms2, j)
      ensures ExtractField(req, ms2[j].requestField).Ok?
    {
      assert ms2[j] in ms1;
      var i :| 0 <= i < |ms1| && ms1[i] == ms2[j];
      assert IsFirst(ms1, i);
    }
  }

  lemma {:induction false} DecidingIsMentioned(holes: set<string>, ms: seq<FieldMapping>, f: string)
    requires Distinct(ms)
    ensures f in Deciding(holes, ms) <==> exists m :: m in ms && m.placeholder in holes && m.requestField == f
    decreases |ms|
  {
    if ms == [] {
    } else {
      var m0, rest := ms[0], ms[1..];
      var fewer := if m0.placeholder in holes then holes - {m0.placeholder} else holes;
      DecidingIsMentioned(fewer, rest, f);
      assert forall m :: m in ms <==> m == m0 || m in rest;
      assert forall m | m in rest :: m.placeholder in fewer <==> m.placeholder in holes;
    }
  }

  lemma CleanNameInTemplate(s: string, n: string)
    requires Tidy(s) && CleanName(n) && n != ""
    ensures Contains(s, Bracketed(n)) <==> n in Holes(s)
  {
    var none: map<string, string> := map[];
    SubstituteOutside(s, none);
    CleanNameOccurs(s, none, n);
  }

  /**
   With distinct placeholders the order of the mappings changes neither whether resolution
   succeeds nor its result, and a field is read exactly when its placeholder occurs.
   */
  lemma MappingOrderIrrelevant(s: string, ms1: seq<FieldMapping>, ms2: seq<FieldMapping>, req: Request)
    requires Tidy(s) && CleanNames(ms1) && SafeFills(Holes(s), ms1, req)
    requires Distinct(ms1) && Distinct(ms2) && (forall m :: m in ms1 <==> m in ms2)
    ensures Rewrite(s, ms1, req).outcome.Ok? <==> Rewrite(s, ms2, req).outcome.Ok?
    ensures Rewrite(s, ms1, req).outcome.Ok? ==> Rewrite(s, ms1, req).outcome == Rewrite(s, ms2, req).outcome
    ensures Rewrite(s, ms1, req).outcome.Ok? ==> forall f ::
              f in Rewrite(s, ms1, req).fetched <==>
              exists m :: m in ms1 && Contains(s, Bracketed(m.placeholder)) && m.requestField == f
  {
    SafeFillsPermutes(Holes(s), ms1, ms2, req);
    RewriteIsSimultaneous(s, ms1, req);
    RewriteIsSimultaneous(s, ms2, req);
    EnvPermutes(ms1, ms2, req);
    if Resolvable(Holes(s), ms1, req) {
      ResolvablePermutes(Holes(s), ms1, ms2, req);
      forall f
        ensures f in Rewrite(s, ms1, req).fetched <==>
                exists m :: m in ms1 && Contains(s, Bracketed(m.placeholder)) && m.requestField == f
      {
        DecidingIsMentioned(Holes(s), ms1, f);
        forall m | m in ms1
          ensures Contains(s, Bracketed(m.placeholder)) <==> m.placeholder in Holes(s)
        {
          CleanNameInTemplate(s, m.placeholder);
        }
      }
    }
    if Resolvable(Holes(s), ms2, req) {
      ResolvablePermutes(Holes(s), ms2, ms1, req);
    }
  }

  // -------------------------------- exactly which values and templates

  ghost predicate Simultaneous(s: string, ms: seq<FieldMapping>, req: Request) {
    Rewrite(s, ms, req).outcome.Ok? ==> Rewrite(s, ms, req).outcome.value == Substitute(s, Env(ms, req))
  }

  /** Every readable value is `v` itself or a safe one. */
  ghost predicate ValuesAmong(ms: seq<FieldMapping>, req: Request, v: string) {
    forall m | m in ms ::
      var r := ExtractField(req, m.requestField);
      r.Ok? ==> r.value == v || Safe(r.value)
  }

  function TwoMappings(h: string, n: string): seq<FieldMapping> {
    [FieldMapping(h, "f"), FieldMapping(n, "g")]
  }

  function TwoFields(v: string): Request {
    Proto(map["f" := Scalar(v), "g" := Scalar("")])
  }

  /** What the loop and the environment are for these two mappings when both rounds find a hole. */
  lemma TwoRounds(s: string, h: string, n: string, v: string)
    requires h != "" && n != "" && h != n
    requires Contains(s, Bracketed(h)) && Contains(ReplaceAll(s, Bracketed(h), v), Bracketed(n))
    ensures
      var r := ReplaceAll(ReplaceAll(s, Bracketed(h), v), Bracketed(n), "");
      Rewrite(s, TwoMappings(h, n), TwoFields(v)).outcome == Ok(r)
    ensures Env(TwoMappings(h, n), TwoFields(v)) == map[n := "", h := v]
  {
    var last := TwoMappings(h, n)[1..];
    assert last == [FieldMapping(n, "g")] && last[1..] == [];
    assert Env(last, TwoFields(v)) == map[n := ""];
    var r1 := ReplaceAll(s, Bracketed(h), v);
    assert Rewrite(r1, last, TwoFields(v)).outcome == Ok(ReplaceAll(r1, Bracketed(n), ""));
  }

  /** Filling `h` and then deleting `n`: the loop also deletes an `n` that the fill created. */
  lemma SecondRoundShrinks(s: string, h: string, n: string, v: string)
    requires NameFree(h) && NameFree(n) && h != "" && n != "" && h != n
    requires h in Holes(s) && n !in Holes(s)
    requires Contains(Substitute(s, map[h := v]), Bracketed(n))
    ensures !Simultaneous(s, TwoMappings(h, n), TwoFields(v))
    ensures CleanNames(TwoMappings(h, n)) && ValuesAmong(TwoMappings(h, n), TwoFields(v), v)
  {
    var ms, req := TwoMappings(h, n), TwoFields(v);
    var r := Substitute(s, map[h := v]);
    ReplaceIsSubstitute(s, h, v);
    ReplaceShrinks(r, Bracketed(n));
    TwoRounds(s, h, n, v);
    SubstituteAgrees(s, Env(ms, req), map[h := v]);
  }

  /** Text after an unsafe value completes a mappable hole. */
  lemma {:induction false} UnsafeCompletes(v: string) returns (tail: string, n: string)
    requires !Safe(v)
    ensures '<' !in tail && NameFree(n) && n != "" && Contains(v + tail, Bracketed(n))
  {
    if Closed(v) {
      n :| n in Holes(v) && n != "";
      HolesAreShortNames(v);
      tail := "";
      ReplaceIsSubstitute(v, n, "");
      assert v + tail == v;
    } else {
      var a, q := OpenTail(v);
      tail, n := "z>", q + "z";
      assert v + tail == a + Bracketed(n) + "";
      ContainsAt(a, Bracketed(n), "");
    }
  }

  lemma {:induction false} OpenTail(v: string) returns (a: string, q: string)
    requires !Closed(v)
    ensures v == a + "<" + q && NameFree(q)
  {
    if Closed(v[1..]) {
      a, q := "", v[1..];
    } else {
      a, q := OpenTail(v[1..]);
      a := [v[0]] + a;
    }
  }

  lemma UnsafeValueBreaks(v: string) returns (s: string, ms: seq<FieldMapping>, req: Request)
    requires !Safe(v)
    ensures Tidy(s) && CleanNames(ms) && ValuesAmong(ms, req, v) && !Simultaneous(s, ms, req)
  {
    var tail, n := UnsafeCompletes(v);
    var h := n + "h";
    s, ms, req := Bracketed(h) + tail, TwoMappings(h, n), TwoFields(v);
    HoleReadsBack(h, tail);
    TextIsClosed(tail);
    TextIsTidy(tail);
    SubstituteOutside(tail, map[h := v]);
    assert Substitute(s, map[h := v]) == v + tail;
    SecondRoundShrinks(s, h, n, v);
  }

  /** A value is harmless in every template, mapping list and request exactly when it is safe. */
  lemma SafeExactly(v: string)
    ensures Safe(v) <==>
            forall s, ms, req | Tidy(s) && CleanNames(ms) && ValuesAmong(ms, req, v) :: Simultaneous(s, ms, req)
  {
    if Safe(v) {
      forall s, ms, req | Tidy(s) && CleanNames(ms) && ValuesAmong(ms, req, v)
        ensures Simultaneous(s, ms, req)
      {
        RewriteIsSimultaneous(s, ms, req);
      }
    } else {
      var s, ms, req := UnsafeValueBreaks(v);
    }
  }

  lemma {:induction false} ContainsAfter(a: string, b: string, needle: string)
    requires Contains(b, needle)
    ensures Contains(a + b, needle)
  {
    if a == "" {
      assert a + b == b;
    } else {
      assert (a + b)[1..] == a[1..] + b;
      ContainsAfter(a[1..], b, needle);
    }
  }

  /** In an untidy template some fill `y>` of a hole completes a stray `<` to a new hole. */
  lemma {:induction false} UntidyNests(s: string, y: string) returns (x: string, h: string)
    requires !Tidy(s) && NameFree(y)
    ensures NameFree(x) && NameFree(h) && h != "" && h in Holes(s)
    ensures Contains(Substitute(s, map[h := y + ">"]), Bracketed(x + y))
    decreases |s|
  {
    if HoleFirst(s) {
      x, h := UntidyNests(AfterHole(s), y);
      var env := map[h := y + ">"];
      ContainsAfter(Fill(HoleName(s), env), Substitute(AfterHole(s), env), Bracketed(x + y));
    } else if !Tidy(s[1..]) {
      x, h := UntidyNests(s[1..], y);
      ContainsAfter([s[0]], Substitute(s[1..], map[h := y + ">"]), Bracketed(x + y));
    } else {
      x, h := StrayNests(s, y);
    }
  }

  /** The case of a template that begins with the stray `<`. */
  lemma StrayNests(s: string, y: string) returns (x: string, h: string)
    requires s != "" && s[0] == '<' && !HoleFirst(s) && MappableNext(s[1..])
    ensures NameFree(x) && NameFree(h) && h != "" && h in Holes(s)
    ensures Contains(Substitute(s, map[h := y + ">"]), Bracketed(x + y))
  {
    var k := NameLen(s[1..]);
    var t := s[1..][k..];
    x, h := s[1..][..k], HoleName(t);
    HoleNameFree(t);
    StrayCompletes(x, t, y);
    assert s == "<" + (x + t) && s[1..] == x + t;
  }

  lemma StrayCompletes(x: string, t: string, y: string)
    requires NameFree(x) && HoleFirst(t)
    ensures HoleName(t) in Holes(x + t)
    ensures Contains("<" + Substitute(x + t, map[HoleName(t) := y + ">"]), Bracketed(x + y))
  {
    var env := map[HoleName(t) := y + ">"];
    TextIsClosed(x);
    SubstituteOutside(x, env);
    SubstituteConcat(x, t, env);
    var after := Substitute(AfterHole(t), env);
    Regroup(x, y, after);
    ContainsAt("", Bracketed(x + y), after);
  }

  lemma Regroup(x: string, y: string, after: string)
    ensures "<" + (x + ((y + ">") + after)) == "" + Bracketed(x + y) + after
  {}

  lemma UntidyTemplateBreaks(s: string) returns (ms: seq<FieldMapping>, req: Request)
    requires !Tidy(s)
    ensures CleanNames(ms) && SafeValues(ms, req) && !Simultaneous(s, ms, req)
  {
    var y := seq(|s| + 1, _ => 'y');
    var x, h := UntidyNests(s, y);
    HolesAreShortNames(s);
    var v := y + ">";
    ms, req := TwoMappings(h, x + y), TwoFields(v);
    SecondRoundShrinks(s, h, x + y, v);
    TextIsClosed(v);
    TextIsClosed("");
  }

  /** A template is resolved simultaneously for every mapping list and safe request exactly when it is tidy. */
  lemma TidyExactly(s: string)
    ensures Tidy(s) <==>
            forall ms, req | CleanNames(ms) && SafeValues(ms, req) :: Simultaneous(s, ms, req)
  {
    if Tidy(s) {
      forall ms, req | CleanNames(ms) && SafeValues(ms, req)
        ensures Simultaneous(s, ms, req)
      {
        RewriteIsSimultaneous(s, ms, req);
      }
    } else {
      var ms, req := UntidyTemplateBreaks(s);
    }
  }

  // ------------------------------------------- exactly which placeholders

  /** Every placeholder is `n` itself or a clean one. */
  ghost predicate NamesAmong(ms: seq<FieldMapping>, n: string) {
    forall m | m in ms :: m.placeholder == n || CleanName(m.placeholder)
  }

  /** The bracketed placeholder, taken as a template, is deleted by the loop and kept by the substitution. */
  lemma UncleanNameBreaks(n: string) returns (ms: seq<FieldMapping>, req: Request)
    requires !CleanName(n)
    ensures NamesAmong(ms, n) && SafeValues(ms, req) && !Simultaneous(Bracketed(n), ms, req)
  {
    var s := Bracketed(n);
    ms, req := [FieldMapping(n, "f")], Proto(map["f" := Scalar("")]);
    assert ms[1..] == [];
    assert ReplaceAll(s[|s|..], s, "") == "";
    assert Contains(s, s) && ReplaceAll(s, s, "") == "";
    assert Rewrite("", ms[1..], req).outcome == Ok("");
    assert Rewrite(s, ms, req).outcome == Ok("");
    assert Env(ms, req) == map[n := ""];
    HolesAreShortNames(s);
    SubstituteOutside(s, Env(ms, req));
  }

  /** The placeholder "a>b" is not clean: in "<a>b>" the loop finds it where there is only a hole "a". */
  lemma ClosingBracketExample()
    ensures !CleanName("a>b") && Tidy("<a>b>") && Holes("<a>b>") == {"a"}
  {
    HoleReadsBack("a", "b>");
    assert "<a>b>" == Bracketed("a") + "b>" && "<a>b>" == Bracketed("a>b");
    TextIsTidy("b>");
    TextIsClosed("b>");
    assert IsBracket("a>b"[1]);
  }

  /** A placeholder keeps the loop simultaneous, in every tidy template and safe request, exactly when it is clean. */
  lemma PlaceholderExactly(n: string)
    ensures CleanName(n) <==>
            forall s, ms, req | Tidy(s) && NamesAmong(ms, n) && SafeValues(ms, req) :: Simultaneous(s, ms, req)
  {
    if CleanName(n) {
      forall s, ms, req | Tidy(s) && NamesAmong(ms, n) && SafeValues(ms, req)
        ensures Simultaneous(s, ms, req)
      {
        RewriteIsSimultaneous(s, ms, req);
      }
    } else {
      var ms, req := UncleanNameBreaks(n);
    }
  }

  /**
   A template without `<`, such as "posts/{id}", is a literal: whatever the mappings, no field is
   read, and the result is the template itself unless some mapping is incomplete.
   */
  lemma {:induction false} LiteralTemplate(s: string, ms: seq<FieldMapping>, req: Request)
    requires '<' !in s
    ensures
      var w := Rewrite(s, ms, req);
      && w.fetched == []
      && (w.outcome.Ok? <==> forall m | m in ms :: WellFormed(m))
      && (w.outcome.Ok? ==> w.outcome.value == s)
    decreases |ms|
  {
    if ms == [] {
    } else {
      ContainsSkips(s, "", Bracketed(ms[0].placeholder));
      assert s + "" == s && !Contains("", Bracketed(ms[0].placeholder));
      assert ms[0] in ms;
      assert forall m :: m in ms <==> m == ms[0] || m in ms[1..];
      LiteralTemplate(s, ms[1..], req);
    }
  }

  /** The documented case: templates whose every `<` opens a hole, and values without `<`. */
  predicate HolesOnly(s: string)
    decreases |s|
  {
    if s == "" then true
    else if HoleFirst(s) then HolesOnly(AfterHole(s))
    else s[0] != '<' && HolesOnly(s[1..])
  }

  lemma {:induction false} PlainCaseCovered(s: string, v: string)
    ensures HolesOnly(s) ==> Tidy(s)
    ensures '<' !in v ==> Safe(v)
    decreases |s|
  {
    if '<' !in v { TextIsClosed(v); }
    if s == "" {
    } else if HoleFirst(s) {
      PlainCaseCovered(AfterHole(s), v);
    } else {
      PlainCaseCovered(s[1..], v);
    }
  }
}
