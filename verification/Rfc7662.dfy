/** The decision the RFC 7662 introspector takes once an HTTP response has arrived. */
module Rfc7662 {
  import opened Results
  import opened AuthorizationHeader
  import opened IntrospectionCache
  import opened TokenIntrospection

  /** A response: its body is the bytes delivered until the stream ends, at its end or in an error. */
  datatype Response = Response(status: int, body: seq<Byte>, breaks: bool)

  type Claims = map<string, Json>

  /** encoding/json into a map: None for a parse error, as for no input at all; the empty map for null. */
  type Parser = seq<Byte> -> Option<Claims>

  const PROMOTED := {"active", "sub", "scope", "scopes", "exp", "token_type"}

  const ZERO_TIME_UNIX := -62135596800
  const NANOSECONDS := 1_000_000_000

  const INT64_MIN := -0x8000_0000_0000_0000
  const INT64_MAX := 0x7fff_ffff_ffff_ffff

  function Truncate(r: real): int {
    if r >= 0.0 then r.Floor else -((-r).Floor)
  }

  /** Go's int64(exp): rounds toward zero; outside the range of int64 the value is the implementation's choice. */
  ghost predicate ConvertsToInt64(convert: real -> int) {
    forall r :: INT64_MIN <= convert(r) <= INT64_MAX
                && (INT64_MIN <= Truncate(r) <= INT64_MAX ==> convert(r) == Truncate(r))
  }

  /** time.Unix(sec, 0), where the zero time means "no expiration". */
  function ExpiryFromUnix(sec: int): Option<int> {
    if sec == ZERO_TIME_UNIX then None else Some(sec * NANOSECONDS)
  }

  predicate IsString(raw: Claims, k: string) { k in raw && raw[k].String? }
  predicate IsActive(raw: Claims) { "active" in raw && raw["active"] == Bool(true) }

  /** The body size limit: an int64 that WithMaxResponseBodySize accepts. */
  type Limit = n: int | 0 < n <= INT64_MAX witness 1

  /** limit + 1 in int64. */
  function Successor(limit: Limit): (n: int)
    ensures INT64_MIN <= n <= INT64_MAX && (n - limit - 1) % 0x1_0000_0000_0000_0000 == 0
  {
    if limit == INT64_MAX then INT64_MIN else limit + 1
  }

  /** The body was delivered to its end and is within the limit. */
  predicate ReadWhole(resp: Response, limit: Limit) { !resp.breaks && |resp.body| <= limit }

  predicate Is2xx(status: int) { 200 <= status < 300 }

  /** The promoted fields of a result. */
  ghost predicate PromotedFrom(r: Introspection, raw: Claims, convert: real -> int) {
    && r.subject == (if IsString(raw, "sub") then raw["sub"].s else "")
    && r.scopes == (if IsString(raw, "scope") && raw["scope"].s != "" then Fields(raw["scope"].s) else [])
    && ("exp" in raw && raw["exp"].Number? && convert(raw["exp"].r) != ZERO_TIME_UNIX ==>
          r.expiresAt == Some(convert(raw["exp"].r) * NANOSECONDS))
    && (r.expiresAt.Some? ==> "exp" in raw && raw["exp"].Number? && convert(raw["exp"].r) != ZERO_TIME_UNIX)
    && r.tokenType == (if IsString(raw, "token_type") then raw["token_type"].s else "")
  }

  /**
   What a response means: success for a whole body within the limit, 2xx, parsed and active, with
   nothing lost and nothing added; declined for a fully read 401 or a parsed 2xx without active true.
   */
  ghost predicate Meant(resp: Response, limit: Limit, parse: Parser, convert: real -> int, o: Outcome) {
    var parsed := parse(resp.body);
    var active := parsed.Some? && "active" in parsed.value && parsed.value["active"] == Bool(true);
    && (o.Success? <==> ReadWhole(resp, limit) && Is2xx(resp.status) && active)
    && (o.Success? ==> PromotedFrom(o.result, parsed.value, convert))
    && (o.Success? ==>
          o.result.claims == parsed.value - {"active", "sub", "scope", "scopes", "exp", "token_type"})
    && (Declines(o) <==>
          && ReadWhole(resp, limit)
          && (resp.status == 401 || (Is2xx(resp.status) && parsed.Some? && !active)))
  }

  /** The answer to a response of which nothing is read. */
  ghost predicate Unread(resp: Response, o: Outcome) {
    o.Failure? && (Declines(o) <==> resp.status == 401)
  }

  method Interpret(resp: Response, limit: Limit, parse: Parser, convert: real -> int) returns (o: Outcome)
    requires ConvertsToInt64(convert)
    requires parse([]).None?
    ensures o.Failure? ==> o.error.Status? && o.error.code in {Unauthenticated, Internal}
    ensures limit < INT64_MAX ==> Meant(resp, limit, parse, convert, o)
    ensures limit == INT64_MAX ==> Unread(resp, o)
  {
    var data, err := ReadLimited(resp, limit);
    if err { return Failure(Status(Internal, "unreadable")); }
    if |data| > limit { return Failure(Status(Internal, "too large")); }
    if resp.status < 200 || resp.status >= 300 {
      if resp.status == 401 {
        return Failure(Status(Unauthenticated, "rejected"));
      }
      return Failure(Status(Internal, "error status"));
    }
    var parsed := parse(data);
    if parsed.None? { return Failure(Status(Internal, "unparsable")); }
    var raw := parsed.value;
    if !IsActive(raw) { return Failure(Status(Unauthenticated, "not active")); }
    var result := Introspection("", [], None, "", map[]);
    if IsString(raw, "sub") { result := result.(subject := raw["sub"].s); }
    if IsString(raw, "scope") && raw["scope"].s != "" { result := result.(scopes := Fields(raw["scope"].s)); }
    if "exp" in raw && raw["exp"].Number? {
      result := result.(expiresAt := ExpiryFromUnix(convert(raw["exp"].r)));
    }
    if IsString(raw, "token_type") { result := result.(tokenType := raw["token_type"].s); }
    var claims := RemainingClaims(raw);
    o := Success(result.(claims := claims));
  }

  /**
   With the largest limit the code answers unread, which is right exactly for a response that is
   neither a 401 cut short nor a whole 2xx that parses.
   */
  lemma LargestLimitExactly(resp: Response, parse: Parser, convert: real -> int, o: Outcome)
    requires Unread(resp, o)
    ensures Meant(resp, INT64_MAX, parse, convert, o) <==>
              && (resp.status == 401 ==> ReadWhole(resp, INT64_MAX))
              && (Is2xx(resp.status) && ReadWhole(resp, INT64_MAX) ==> parse(resp.body).None?)
  {}

  /**
   io.ReadAll over io.LimitReader(body, limit + 1): a break behind the limit goes unnoticed, and a
   reader whose limit has wrapped to a negative number is at its end at once.
   */
  method ReadLimited(resp: Response, limit: Limit) returns (data: seq<Byte>, err: bool)
    ensures limit < INT64_MAX ==> (ReadWhole(resp, limit) <==> !err && |data| <= limit)
    ensures limit < INT64_MAX && !err ==> data <= resp.body && |data| <= limit + 1
    ensures limit < INT64_MAX && !err && |data| <= limit ==> data == resp.body
    ensures limit == INT64_MAX ==> !err && data == []
  {
    var n := Successor(limit);
    if n <= 0 {
      data, err := [], false;
    } else if |resp.body| >= n {
      data, err := resp.body[..n], false;
    } else {
      data, err := resp.body, resp.breaks;
    }
  }

  /** The loop over the response map, in whatever order it is iterated. */
  method RemainingClaims(raw: Claims) returns (claims: Claims)
    ensures claims == raw - PROMOTED
  {
    claims := map[];
    var rest := raw.Keys;
    while rest != {}
      invariant rest <= raw.Keys
      invariant claims == map k | k in raw && k !in rest && k !in PROMOTED :: raw[k]
    {
      var k :| k in rest;
      if k !in PROMOTED { claims := claims[k := raw[k]]; }
      rest := rest - {k};
    }
  }
}
