/** The static verifier endpoint: allow rules with exact, prefix and match-all patterns. */
module StaticEndpoint {
  import opened Results
  import opened AuthorizationHeader

  datatype StaticRule = StaticRule(resource: string, action: string)

  predicate Wild(pattern: string) { pattern != "" && pattern[|pattern| - 1] == '*' }

  /** strings.TrimSuffix(pattern, "*") */
  function Stem(pattern: string): string {
    if Wild(pattern) then pattern[..|pattern| - 1] else pattern
  }

  predicate MatchPattern(pattern: string, value: string) {
    if pattern == "*" then true
    else if Wild(pattern) then Stem(pattern) <= value
    else pattern == value
  }

  predicate RuleMatches(r: StaticRule, resource: string, action: string) {
    MatchPattern(r.resource, resource) && MatchPattern(r.action, action)
  }

  predicate Allows(rules: seq<StaticRule>, resource: string, action: string) {
    exists r | r in rules :: RuleMatches(r, resource, action)
  }

  /** Verify's answer: no error exactly when a token parses and some rule matches. */
  function Decide(rules: seq<StaticRule>, md: Metadata, resource: string, action: string): Option<Error> {
    match GetToken(md)
    case Err(e) => Some(Status(Unauthenticated, "no token"))
    case Ok(_) => if Allows(rules, resource, action) then None else Some(Status(PermissionDenied, "access denied"))
  }

  class StaticVerifier {
    const rules: array<StaticRule>

    /** NewStaticEndpoint: the rules are copied into a fresh array. */
    constructor (given: array<StaticRule>)
      ensures fresh(rules) && rules[..] == given[..]
    {
      var r := new StaticRule[given.Length](_ => StaticRule("", ""));
      var i := 0;
      while i < given.Length
        invariant 0 <= i <= given.Length && fresh(r) && r.Length == given.Length
        invariant r[..i] == given[..i]
      {
        r[i] := given[i];
        i := i + 1;
      }
      assert given[..given.Length] == given[..] && r[..r.Length] == r[..];
      rules := r;
    }

    method Verify(md: Metadata, resource: string, action: string) returns (err: Option<Error>)
      ensures err == Decide(rules[..], md, resource, action)
      ensures err.None? <==> GetToken(md).Ok? && exists i | 0 <= i < rules.Length ::
                MatchPattern(rules[i].resource, resource) && MatchPattern(rules[i].action, action)
      ensures err.Some? ==>
                err.value.Status? && err.value.code == if GetToken(md).Err? then Unauthenticated else PermissionDenied
    {
      var tok := GetToken(md);
      if tok.Err? { return Some(Status(Unauthenticated, "no token")); }
      var i := 0;
      while i < rules.Length
        invariant 0 <= i <= rules.Length
        invariant forall j | 0 <= j < i :: !RuleMatches(rules[j], resource, action)
      {
        if MatchPattern(rules[i].resource, resource) && MatchPattern(rules[i].action, action) {
          assert rules[..][i] == rules[i] && RuleMatches(rules[..][i], resource, action);
          return None;
        }
        i := i + 1;
      }
      err := Some(Status(PermissionDenied, "access denied"));
    }
  }

  /** The caller may overwrite its slice after construction: the decision is on the rules it passed. */
  method VerifyAfterOverwrite(
    given: array<StaticRule>, later: seq<StaticRule>, md: Metadata, resource: string, action: string)
    returns (err: Option<Error>)
    requires |later| == given.Length
    modifies given
    ensures err == Decide(old(given[..]), md, resource, action)
    ensures given[..] == later
  {
    var endpoint := new StaticVerifier(given);
    forall i | 0 <= i < given.Length {
      given[i] := later[i];
    }
    assert endpoint.rules[..] == old(given[..]);
    err := endpoint.Verify(md, resource, action);
  }

  // ------------------------------------------------------------- patterns

  predicate EndsInSlashStar(pattern: string) { Wild(pattern) && SlashLast(Stem(pattern)) }

  predicate SlashLast(s: string) { s != "" && s[|s| - 1] == '/' }

  /** Matching as the source's comments describe it: exact, a lone star, and a prefix before slash and star. */
  predicate DocumentedMatch(pattern: string, value: string) {
    if pattern == "*" then true
    else if EndsInSlashStar(pattern) then Stem(pattern) <= value
    else pattern == value
  }

  /** A pattern matches as documented exactly when it ends in no star, is a lone star, or has a slash before it. */
  lemma DocumentedExactly(pattern: string)
    ensures (forall value :: MatchPattern(pattern, value) == DocumentedMatch(pattern, value)) <==>
            !Wild(pattern) || pattern == "*" || EndsInSlashStar(pattern)
  {
    if Wild(pattern) && pattern != "*" && !EndsInSlashStar(pattern) {
      assert MatchPattern(pattern, Stem(pattern)) && !DocumentedMatch(pattern, Stem(pattern));
    }
  }

  // ------------------------------------------------------------- coverage

  /** Everything `q` matches, `p` matches too. */
  ghost predicate Covers(p: string, q: string) {
    forall v | MatchPattern(q, v) :: MatchPattern(p, v)
  }

  /** Coverage by prefix comparison. */
  predicate PrefixCovers(p: string, q: string) {
    if Wild(p) then Stem(p) <= Stem(q) else p == q
  }

  lemma MatchesStem(p: string)
    ensures MatchPattern(p, Stem(p))
    ensures Wild(p) ==> MatchPattern(p, Stem(p) + "x")
  {}

  /** Pattern coverage is exactly prefix comparison. */
  lemma CoverageExactly(p: string, q: string)
    ensures Covers(p, q) <==> PrefixCovers(p, q)
  {
    MatchesStem(q);
    if PrefixCovers(p, q) {
      forall v | MatchPattern(q, v)
        ensures MatchPattern(p, v)
      {
        assert Wild(p) ==> Stem(q) <= v;
      }
    }
  }

  ghost predicate RuleCovers(s: StaticRule, r: StaticRule) {
    Covers(s.resource, r.resource) && Covers(s.action, r.action)
  }

  /** A rule covers another in every decision exactly when both its patterns do. */
  lemma RuleCoverageExactly(s: StaticRule, r: StaticRule)
    ensures RuleCovers(s, r) <==>
            forall resource, action | RuleMatches(r, resource, action) :: RuleMatches(s, resource, action)
  {
    if forall resource, action | RuleMatches(r, resource, action) :: RuleMatches(s, resource, action) {
      MatchesStem(r.resource);
      MatchesStem(r.action);
      forall v | MatchPattern(r.resource, v)
        ensures MatchPattern(s.resource, v)
      {
        assert RuleMatches(r, v, Stem(r.action));
      }
      forall v | MatchPattern(r.action, v)
        ensures MatchPattern(s.action, v)
      {
        assert RuleMatches(r, Stem(r.resource), v);
      }
    }
  }

  /** Reordering or duplicating rules changes no decision. */
  lemma OrderAndRepetitionIrrelevant(
    rs1: seq<StaticRule>, rs2: seq<StaticRule>, md: Metadata, resource: string, action: string)
    requires forall r :: r in rs1 <==> r in rs2
    ensures Decide(rs1, md, resource, action) == Decide(rs2, md, resource, action)
  {}

  /** Dropping a rule that a remaining rule covers by prefix comparison changes no decision. */
  lemma CoveredRuleDropped(
    before: seq<StaticRule>, r: StaticRule, after: seq<StaticRule>, s: StaticRule,
    md: Metadata, resource: string, action: string)
    requires s in before + after && PrefixCovers(s.resource, r.resource) && PrefixCovers(s.action, r.action)
    ensures Decide(before + [r] + after, md, resource, action) == Decide(before + after, md, resource, action)
  {
    CoverageExactly(s.resource, r.resource);
    CoverageExactly(s.action, r.action);
    assert forall x :: x in before + [r] + after <==> x in before + after || x == r;
    assert RuleMatches(r, resource, action) ==> RuleMatches(s, resource, action);
  }
}
