# Verification of the grpc.authz interceptors

`grpc.authz` is a set of gRPC server interceptors: request tracking, token introspection with an
in-memory cache, policy resolution from protobuf method options, and policy verification. This
project models their logic in Dafny and proves what every run of it keeps. Check everything with
`dafny verify dfyconfig.toml`.

| file | what it models |
|---|---|
| `Basics.dfy` | status errors, and the Go string functions the code relies on |
| `IntrospectionCache.dfy` | the TTL cache with atomic operations: a class, and runs that refine the log of `Set` calls |
| `CacheKeys.dfy` | cache keys, and which headers share one |
| `CacheProtocol.dfy` | the cache under concurrent requests and sweeper ticks, one program counter per goroutine; its size |
| `CacheHistory.dfy` | what the steps of a goroutine were and what a `Range` may see, read off the run; no deadlock |
| `CacheHits.dfy`, `CacheEviction.dfy`, `CacheFloor.dfy`, `CacheRuns.dfy` | what hits and evictions are worth under concurrency, and runs that show the limits of both |
| `AuthorizationHeader.dfy` | the two authorization-header parsers |
| `TokenIntrospection.dfy` | options, scheme dispatch, strategy chain and `introspect` on top of the cache |
| `Rfc7662.dfy`, `ClientCredentials.dfy` | RFC 7662 response handling; the Basic credential encoder and its decoders |
| `HoleSubstitution.dfy`, `ResourceTemplate.dfy` | the `Contains`/`ReplaceAll` loop against one simultaneous substitution |
| `MethodPolicy.dfy` | full method names, the registry scan, its memo table alone and under concurrent callers |
| `InterceptorChain.dfy`, `StreamChain.dfy` | arbitrary chains of the four interceptors as a protocol over an effect trace |
| `StaticEndpoint.dfy` | static allow rules |

## Main results

- **Cache size under concurrency.** In every interleaving the map holds at most the limit plus one
  entry per `Set` that has stored and not finished evicting, although `Range` is no snapshot and
  `Get` and the sweeper delete outside the mutex (`CacheProtocol.SizeBounded`). The bound is reached
  for every limit and every number of such `Set` calls (`CacheRuns.BoundIsTight`).
- **Removal under concurrency.** In every interleaving a key leaves the map for one of three reasons
  (`CacheEviction.WhyRemoved`): `Get` had loaded it expired, a sweeper tick had it reported expired, or
  an eviction had it reported as the earliest to expire. An eviction step removes exactly the key of the
  first least-expiry report of its `Range`, and that report expires no later than any key nobody stored
  or deleted during the `Range` (`CacheEviction.VictimWasOldest`). These statements speak of the steps of
  the run and the maps between them; that the bookkeeping of a `Range` is exactly that is
  `CacheHistory.RangeIsWindow`. The evicted key need
  not be the earliest when it goes: stored anew in between, it may be the entry that expires last of
  all (`CacheEviction.FreshEntryEvicted`). An eviction leaves at least the limit of entries, less one
  for each delete by `Get` or the sweeper since its `Set` took the mutex (`CacheFloor.EvictionFloor`);
  such deletes can make it evict a live entry, the only one left (`CacheFloor.LiveEntryEvicted`).
  No interleaving deadlocks (`CacheHistory.NoDeadlock`).
- **Cache hits.** In every interleaving a hit was answered by the strategy chain for that scheme and
  credential, stored at most the TTL ago, and not past its own expiration (`CacheHits.HitsAreSound`).
  This is true of a scheme exactly when it clashes with no registered scheme: both can come from a
  header, and one is the other, a colon, and text that does not begin with whitespace
  (`CacheHits.HitsSoundExactly`; with a negative TTL nothing ever hits). Header `a:b c` and header `a b:c` have one cache key
  (`CacheKeys.ColonInSchemeExample`). Schemes that are tokens (section 5.6.2 of RFC 9110) have no colon and never clash
  (`CacheKeys.ColonFreeNeverClashes`).
- **Cache refinement.** With atomic operations and no limit, every `Get` answers what the log of
  `Set` calls answers; with a limit, every hit does (`IntrospectionCache.GetRefinesLog`).
- **Template resolution.** The rewriting loop is one simultaneous substitution in which the first
  mapping of a name wins. Each ingredient has its exact condition. A field value is harmless exactly
  when its last angle bracket is not `<` and it contains no `<name>` with a non-empty name
  (`ResourceTemplate.SafeExactly`). A template is, exactly when no stray `<` has a mappable hole as its
  next bracket (`ResourceTemplate.TidyExactly`). A placeholder is, exactly when it has no angle bracket
  or no such template can contain it in brackets (`ResourceTemplate.PlaceholderExactly`); `a>b` is
  harmful (`ResourceTemplate.ClosingBracketExample`). Values without `<`, and templates whose every `<` opens a hole, are inside these conditions
  (`ResourceTemplate.PlainCaseCovered`).
- **Chains.** In any chain of the four interceptors, a handler runs only behind a nil `Verify` of
  each verification, on the resource and action the registry has for the method, with the holes of the
  resource filled in from the request; on streams that holds for every single receive. Every effect of
  every run is explained (`InterceptorChain.RunExplained`, `StreamChain.OpenExplained`,
  `StreamChain.StreamRunExplained`): each `Verify` has the verifier's own answer, the first refusal or
  rejected introspection ends the call with its error, and a placed result is in every later context.
  One request ID is seen from the first interceptor that fixes it, on streams through every
  receive, denied ones included. Nothing but a missing or misplaced policy-option interceptor, an
  unusable policy, introspection or a verifier stops a request
  (`InterceptorChain.ServedExactly`, `StreamChain.EstablishedExactly`).
- **Introspection.** From options and metadata to the decision: without a header the request passes, a
  header that is no scheme and credential is rejected, and on a cache miss the introspectors of the
  scheme are asked in option order up to the first that does not answer Unauthenticated, whose result is
  placed or whose own error rejects the request (`TokenIntrospection.Intercept`).

## How the code is modelled

- Time is an integer, the clock never goes back, and SHA-256 is an injective function.
- A request to the concurrent cache starts from an authorization header; a malformed one is rejected
  before it reaches the cache and is no step.
- Go's conversion of a JSON `exp` to int64 is a parameter: fixed inside the range of int64, the
  implementation's choice outside.
- `Verify`, introspectors, timestamps and random bytes are oracles. In chains an oracle sees the
  whole trace so far, so every behaviour of the outside world is covered.
- `Range` and Go map iteration visit keys in an arbitrary order. In the interleaved model `Range`
  visits a key at most once, may report any mapping the key had during the call, and must visit
  every key nobody touches during the call; `Load`, `Store` and `Delete` are atomic.
- Error texts are shortened; status codes are as in the code.

The code and its documentation differ in five places, and the model follows the code.

- The comment on static rules describes `prefix/*`; any pattern that ends in `*` is a prefix pattern
  (`StaticEndpoint.DocumentedExactly`).
- The comment on the entry limit says the earliest entry is evicted when the limit is exceeded on `Set`;
  under concurrent `Set` calls the map exceeds the limit until they finish, the entry evicted may be
  the latest, and entries may be evicted from a map within the limit (`CacheRuns.BoundIsTight`,
  `CacheEviction.FreshEntryEvicted`, `CacheFloor.LiveEntryEvicted`).
- A stream method is said to be treated like a unary one apart from field mappings; an empty resource or
  action is rejected for a unary method and verified as it is for a stream method
  (`InterceptorChain.EmptyPolicyRejected`, `StreamChain.EmptyPolicyStreams`).
- The package comment of `protobuf_policy_option` writes the template as `posts/{id}`; only `<id>` is
  substituted, so that template is a literal (`ResourceTemplate.LiteralTemplate`).
- `WithMaxResponseBodySize` sets the largest body that is read; with the largest int64 the code's
  limit plus one wraps around and nothing is read: no answer succeeds, and a 401 is taken at its word
  (`Rfc7662.Interpret`). Which responses that gets wrong is `Rfc7662.LargestLimitExactly`.

## Model

| member | source | states |
|---|---|---|
| IntrospectionCache.Expiry | token_introspection/cache.go:129-134 | an entry's expiry is the earlier of the TTL and the token's own expiration |
| IntrospectionCache.EvictionPrefersExpired | token_introspection/cache.go:157-174 | no live entry is evicted while an expired one stays |
| IntrospectionCache.EvictionWithinLimit | token_introspection/cache.go:157-174 | eviction within the limit removes nothing |
| IntrospectionCache.EvictionDeterministic | token_introspection/cache.go:157-174 | with distinct expiries the survivors do not depend on the Range order |
| IntrospectionCache.RunMatchesLog | token_introspection/cache.go:94-145 | in every run the stored entries are the last Sets of their keys, only expired ones are missing when there is no limit, and the limit is kept |
| IntrospectionCache.GetRefinesLog | token_introspection/cache.go:94-145 | every hit is the answer of the log of Sets; without a limit every Get is |
| IntrospectionCache.InMemoryCache.constructor | token_introspection/cache.go:47-92 | an empty cache; a negative limit means none |
| IntrospectionCache.InMemoryCache.Get | token_introspection/cache.go:115-126 | hits exactly on an unexpired entry, drops an expired one, agrees with the log |
| IntrospectionCache.InMemoryCache.Set | token_introspection/cache.go:128-145 | stores under the key, evicts down to the limit, keeps the log invariant |
| IntrospectionCache.InMemoryCache.EvictIfNeeded | token_introspection/cache.go:147-175 | keeps exactly the smaller of size and limit, entries unchanged, none evicted that expires later than a kept one |
| IntrospectionCache.InMemoryCache.FindOldest | token_introspection/cache.go:158-168 | finds an entry of least expiry in any Range order, none only on an empty map |
| IntrospectionCache.InMemoryCache.SweepTick | token_introspection/cache.go:102-111 | one sweeper tick removes exactly the expired entries |
| CacheKeys.KeyDeterminesCall | token_introspection/interceptor.go:90-93 | schemes that do not clash share a cache key only for the same scheme and credential |
| CacheKeys.ColonFreeNeverClashes | token_introspection/interceptor.go:90-93 | schemes without a colon never clash |
| CacheKeys.KeysSeparateExactly | token_introspection/interceptor.go:90-107 | headers of two schemes share a key only when they parse alike, exactly when the schemes do not clash |
| CacheKeys.ColonInSchemeExample | token_introspection/interceptor.go:90-107 | headers `a:b c` and `a b:c` parse differently and share a key |
| CacheKeys.ClashingHeaders | token_introspection/interceptor.go:90-107 | clashing schemes have accepted headers with one key |
| CacheProtocol.HolderSeesStore | token_introspection/cache.go:136-175 | what the mutex holder knows about the map survives a concurrent Store |
| CacheProtocol.HolderSeesDelete | token_introspection/cache.go:94-126 | and a concurrent Delete by Get or the sweeper |
| CacheProtocol.SizeAfterStep | token_introspection/cache.go:94-175 | every step of every goroutine keeps the size and mutex invariant |
| CacheProtocol.SizeBounded | token_introspection/cache.go:94-175 | in every interleaving size is at most the limit plus the Sets in flight, and within the limit when none is |
| CacheRuns.BoundIsTight | token_introspection/cache.go:128-175 | for every limit and number of Sets in flight some run exceeds the limit by exactly that number |
| CacheHistory.RangeIsWindow | token_introspection/cache.go:104-110 | in every interleaving a Range may report exactly the entries its keys had since it began, and must still visit exactly the keys nobody has stored or deleted since |
| CacheHistory.SweepDropsExactly | token_introspection/cache.go:103-110 | the sweeper deletes next exactly when the entry just reported expired before the tick began, and then that key only |
| CacheHistory.SweepDropsAfterVisit | token_introspection/cache.go:104-110 | the sweeper deletes only right after a report of its tick |
| CacheHistory.LoadFinds | token_introspection/cache.go:115-119 | a load finds an entry exactly when the map has the key of the request's header |
| CacheHistory.CheckDecides | token_introspection/cache.go:120-125 | a request hits with the entry it loaded exactly when that has not expired, and goes on to delete exactly when it has |
| CacheHistory.DropsExpired | token_introspection/cache.go:115-124 | Get deletes exactly the key of its header, only after loading an expired entry there |
| CacheHistory.StoresAnswer | token_introspection/cache.go:128-139 | Set stores under the header's key the chain's result, with its expiry at the clock Set read |
| CacheHistory.NoDeadlock | token_introspection/cache.go:94-175 | in every interleaving every goroutine can step, or waits for a mutex holder that can |
| CacheEviction.VictimWasOldest | token_introspection/cache.go:157-174 | an eviction step removes exactly the key of the first least-expiry report of its Range, a real entry expiring no later than any key untouched during that Range; nothing only when no key was untouched |
| CacheEviction.WhyRemoved | token_introspection/cache.go:94-175 | in every interleaving a key leaves the map only because Get loaded it expired, a tick had it reported expired, or an eviction had it reported as the earliest |
| CacheEviction.FreshEntryEvicted | token_introspection/cache.go:136-175 | for every limit some run evicts an entry stored anew that expires last of all |
| CacheFloor.EvictionFloor | token_introspection/cache.go:147-175 | in every interleaving an eviction leaves at least the limit, less one per delete outside the mutex since its Set locked |
| CacheFloor.LiveEntryEvicted | token_introspection/cache.go:102-175 | for every limit some run sweeps expired entries after the count and then evicts the only entry left, a live one |
| CacheHits.HitInvAfterStep | token_introspection/cache.go:94-145 | every step keeps each entry, loaded entry and hit accounted for by a Store of a chain success |
| CacheHits.HitsAreSound | token_introspection/interceptor.go:110-167 | a hit was returned by the chain for the same scheme and credential, stored at most the TTL ago, not past its expiration |
| CacheHits.EntriesComeFromSuccess | token_introspection/interceptor.go:135-167 | every entry stems from a successful introspection of a registered scheme; failures create none |
| CacheHits.CallsReached | token_introspection/interceptor.go:97-124 | in every run every call, stored result and hit is for a scheme and credential some header parses to |
| CacheHits.HitsSoundExactly | token_introspection/interceptor.go:90-133 | for every TTL, hits of a scheme stem from the chain in all runs exactly when it clashes with no registered scheme or the TTL is negative; the failing run starts from two headers |
| CacheHits.NegativeTtlNeverHits | token_introspection/cache.go:115-134 | with a negative TTL no request ever hits |
| AuthorizationHeader.ParsesExactly | token_introspection/interceptor.go:97-107 | a header yields exactly the lowercased schemes without a space and the trimmed credentials |
| AuthorizationHeader.AcceptsExactly | token_introspection/interceptor.go:97-107 | accepted text is exactly scheme without space, space, whitespace, trimmed credential, whitespace, and yields these |
| AuthorizationHeader.TokenExactly | policy_verification/endpoint/rest_policy_verifier.go:151-168 | getToken succeeds exactly when the first authorization value has two words, and returns the first two |
| AuthorizationHeader.CanonicalParses | token_introspection/interceptor.go:97-107 | both parsers read scheme and credential from a canonical header |
| AuthorizationHeader.ParsersAgreeExactly | policy_verification/endpoint/rest_policy_verifier.go:151-168 | the two parsers agree exactly on: scheme, a space, whitespace, credential, whitespace |
| TokenIntrospection.BuildConfig | token_introspection/interceptor.go:59-87 | after any options the chain of a scheme is its registered introspectors, and the last metadata key wins |
| TokenIntrospection.PositionsAreMatches | token_introspection/interceptor.go:59-68 | the positions of a scheme are exactly the options whose lowercased scheme matches |
| TokenIntrospection.RegisteredInOrder | token_introspection/interceptor.go:59-68 | the chain lists them in registration order |
| TokenIntrospection.FirstDecisive | token_introspection/interceptor.go:143-163 | the first introspector of the chain that does not answer Unauthenticated to the credential |
| TokenIntrospection.RunChain | token_introspection/interceptor.go:141-166 | asks the introspectors in order with the credential, returns that one's outcome and calls none after it; the last Unauthenticated error if all decline |
| TokenIntrospection.MetadataKey | token_introspection/interceptor.go:48-87 | the last metadata key set, lowercased, and authorization when none is |
| TokenIntrospection.Introspect | token_introspection/interceptor.go:110-167 | over metadata and answers: pass-through, malformed, hit, miss; on a miss the last introspector asked decides, its result placed or its own error rejecting; only a fresh success is stored, under the header's key |
| TokenIntrospection.DecisionUnique | token_introspection/interceptor.go:141-166 | a chain and its answers fix one decision and one list of calls |
| TokenIntrospection.OptionsToCalls | token_introspection/interceptor.go:59-166 | from options to calls: those asked are, in option order, introspectors of the header's lowercased scheme with its credential, up to the first that does not answer Unauthenticated; it places its result or rejects with its error |
| TokenIntrospection.Intercept | token_introspection/interceptor.go:177-189 | options applied, then a request introspected: no header passes, other text is rejected as Unauthenticated, a hit is placed, on a miss the registered introspectors decide |
| Rfc7662.Interpret | token_introspection/rfc7662.go:248-312 | below the largest limit: success exactly for a whole, active 2xx answer, with the promoted fields and all other claims; Unauthenticated exactly for a fully read 401 or a parsed 2xx not active; Internal otherwise. At the largest limit nothing succeeds and every 401 is Unauthenticated |
| Rfc7662.LargestLimitExactly | token_introspection/rfc7662.go:84-91 | at the largest limit the answer is right exactly for responses that are neither a 401 cut short nor a whole 2xx that parses |
| Rfc7662.ReadLimited | token_introspection/rfc7662.go:248-255 | the data passes exactly when the body was read whole and within the limit; at the largest limit nothing is read |
| Rfc7662.RemainingClaims | token_introspection/rfc7662.go:303-309 | the claims are the response map without the six promoted keys, in any iteration order |
| ClientCredentials.PercentEncodeBytewise | token_introspection/rfc7662.go:106-108 | QueryEscape with '+' replaced percent-encodes byte by byte |
| ClientCredentials.EncodedIsPlain | token_introspection/rfc7662.go:106-108 | an encoded half is ASCII without colon and plus |
| ClientCredentials.Base64RoundTrip | token_introspection/rfc7662.go:109 | base64 decoding inverts the encoding |
| ClientCredentials.CredentialsRoundTrip | token_introspection/rfc7662.go:99-115 | decoding the Basic value returns the client id and secret, for all bytes |
| ResourceTemplate.ResolveResource | protobuf_policy_option/interceptor.go:253-294 | the loop computes the rewriting that the lemmas below characterise and reads the stated fields; a regular policy is resolved exactly when resource and action are given and the deciding fields can be read, to the substituted resource and the declared action |
| ResourceTemplate.ResolvedExactly | protobuf_policy_option/interceptor.go:253-294 | the same of the specification |
| HoleSubstitution.ReplaceIsSubstitute | protobuf_policy_option/interceptor.go:271-285 | one Contains/ReplaceAll round is a one-name substitution, on every string |
| ResourceTemplate.RewriteIsSimultaneous | protobuf_policy_option/interceptor.go:261-293 | the loop succeeds exactly when the deciding mappings can be read, equals one simultaneous substitution, leaves no mapped hole and reads exactly the deciding fields |
| ResourceTemplate.EnvFirstWins | protobuf_policy_option/interceptor.go:266-286 | in that substitution the first mapping of a name wins |
| ResourceTemplate.MappingOrderIrrelevant | protobuf_policy_option/interceptor.go:266-286 | with distinct placeholders the mapping order changes neither success nor result, and a field is read exactly when its placeholder occurs |
| ResourceTemplate.SafeExactly | protobuf_policy_option/interceptor.go:266-286 | a value is harmless in every template, mapping list and request exactly when it is safe |
| ResourceTemplate.TidyExactly | protobuf_policy_option/interceptor.go:266-286 | a template is resolved simultaneously for all mappings and safe requests exactly when it is tidy |
| HoleSubstitution.SubstituteKeepsTidy | protobuf_policy_option/interceptor.go:266-286 | filling safe values into a tidy template leaves it tidy, so later rounds meet the same conditions |
| ResourceTemplate.PlaceholderExactly | protobuf_policy_option/interceptor.go:266-286 | a placeholder keeps the loop simultaneous in every tidy template and safe request exactly when it is clean |
| ResourceTemplate.ClosingBracketExample | protobuf_policy_option/interceptor.go:271-285 | placeholder `a>b` is not clean: template `<a>b>` contains it and has only the hole `a` |
| ResourceTemplate.LiteralTemplate | protobuf_policy_option/interceptor.go:261-293 | a template without `<` reads no field and stays as it is, or fails exactly on an incomplete mapping |
| ResourceTemplate.PlainCaseCovered | protobuf_policy_option/interceptor.go:271-285 | values without `<` are safe, templates whose every `<` opens a hole are tidy |
| MethodPolicy.ParseThenPrint | protobuf_policy_option/interceptor.go:146-175 | a parsed full method name prints back, with a slash-free method |
| MethodPolicy.PrintThenParse | protobuf_policy_option/interceptor.go:146-175 | a printed service and slash-free method parse back |
| MethodPolicy.ParsesExactlyPrinted | protobuf_policy_option/interceptor.go:146-175 | the parser accepts exactly the printed names |
| MethodPolicy.LookupMethodPolicy | protobuf_policy_option/interceptor.go:202-250 | the nested scan answers for the first service of the name, with each absent case and the options error |
| MethodPolicy.LookupExactly | protobuf_policy_option/interceptor.go:202-250 | the lookup finds exactly the policy in the options of the method of that name, and fails exactly on a bad name or foreign options |
| MethodPolicy.LookupIgnoresFileOrder | protobuf_policy_option/interceptor.go:209-220 | with unique service names the answer is the same for every file order |
| MethodPolicy.PolicyMemo.GetMethodPolicy | protobuf_policy_option/interceptor.go:186-198 | the memo table answers the direct lookup and stays in agreement with it, errors and absent policies included |
| PolicyMemoProtocol.AnswersAreLookups | protobuf_policy_option/interceptor.go:186-198 | in every interleaving of callers every answer is the direct lookup |
| InterceptorChain.ExtractOrGenerateID | policy_verification/interceptor.go:54-62 | the first value the client sent unless it is empty, else timestamp and random part; never empty |
| InterceptorChain.EnsureID | request_tracking/interceptor.go:86-96 | a context keeps its request ID or gets a non-empty one, and nothing else changes |
| InterceptorChain.DeclaredExactly | protobuf_policy_option/interceptor.go:110-142 | the declared policy is none, the registry's policy with its resource filled in, or an error, each exactly when it should be |
| InterceptorChain.UnaryStepOk | policy_verification/interceptor.go:177-215 | a passing interceptor keeps the context's policy equal to the declared one and makes exactly the Verify call it owes |
| InterceptorChain.HandledExactlyOnSuccess | protobuf_policy_option/interceptor.go:110-142 | the handler runs exactly when no interceptor fails, as the last effect |
| InterceptorChain.RunExplained | policy_verification/interceptor.go:177-215 | every effect of every run: its position and context, each verdict the verifier's own answer on the declared policy; the first refusal or rejection is the last effect and the call's error; a placed result is in every later context |
| InterceptorChain.HandlerOnlyIfVerified | policy_verification/interceptor.go:177-215 | in any chain the handler runs only behind policy resolution and one nil Verify per verification, on the registry's resource filled in from the request and its action; on none for a method without a policy |
| InterceptorChain.NoPolicyNoVerify | policy_verification/interceptor.go:196-200 | a method without a policy is never verified, however its call ends |
| InterceptorChain.ServedExactly | policy_verification/interceptor.go:177-215 | unless introspection or a verifier objects, a unary call succeeds exactly when each verification is preceded by policy resolution and the policy can be read and resolved |
| InterceptorChain.EmptyPolicyRejected | protobuf_policy_option/interceptor.go:253-259 | a unary method with an empty resource or action never reaches its handler |
| InterceptorChain.OneRequestID | request_tracking/interceptor.go:53-97 | the first tracking or verification interceptor fixes a non-empty ID, the client's if sent, which all later effects see |
| StreamChain.ReceiveClearsOrDenies | policy_verification/interceptor.go:105-113 | a receive clears every wrapper and then reaches the stream, or ends in a denial |
| StreamChain.DeniedReceiveDeliversNothing | policy_verification/interceptor.go:105-113 | a denied receive leaves the underlying stream untouched |
| StreamChain.ReceiveAnswered | policy_verification/interceptor.go:105-113 | a receive asks its verifiers in turn, each verdict the verifier's own answer; a refusal is its last effect and its error |
| StreamChain.OpenExplained | policy_verification/interceptor.go:128-162 | every effect of every establishment: its position and context; a rejected introspection is the last effect and the stream's error; nothing is verified yet |
| StreamChain.StreamRunExplained | policy_verification/interceptor.go:106-162 | in any number of receives every Verify has the verifier's own answer, on the policy and in the context its wrapper was established with |
| StreamChain.StreamVerifiedPerReceive | policy_verification/interceptor.go:106-162 | each delivered receive of any run directly follows its own nil Verify of every wrapper, one per verification on the registry's resource and action and none without a policy, under one request ID |
| StreamChain.NoPolicyNoStreamVerify | policy_verification/interceptor.go:145-150 | a stream of a method without a policy never verifies a receive |
| StreamChain.FieldMappingsRejected | protobuf_policy_option/interceptor.go:323-350 | a stream method with field mappings never reaches its handler |
| StreamChain.EstablishedExactly | policy_verification/interceptor.go:128-162 | unless introspection rejects, a stream reaches its handler exactly when each verification is preceded by policy resolution and the policy is readable without field mappings |
| StreamChain.EmptyPolicyStreams | protobuf_policy_option/interceptor.go:325-350 | a stream method with an empty resource or action is served, and verified on exactly those |
| StreamChain.StreamRequestID | policy_verification/interceptor.go:128-162 | stream establishment, rejected or not, fixes one non-empty request ID for its later effects and the handler's context |
| StreamChain.StreamRunRequestID | policy_verification/interceptor.go:106-162 | over the whole run, every effect after the first fixer sees its ID: establishment, handler, and each Verify of each receive, denied or not |
| StaticEndpoint.StaticVerifier.constructor | policy_verification/endpoint/static.go:46-50 | the rules are copied into a fresh array |
| StaticEndpoint.StaticVerifier.Verify | policy_verification/endpoint/static.go:66-79 | allows exactly when a token parses and some rule's patterns match resource and action; Unauthenticated without a token, else PermissionDenied |
| StaticEndpoint.VerifyAfterOverwrite | policy_verification/endpoint/static.go:46-79 | whatever the caller later writes to its slice, the decision is on the rules as passed |
| StaticEndpoint.DocumentedExactly | policy_verification/endpoint/static.go:25-63 | the matcher does what its comments say exactly for patterns without a `*` at the end, `*` alone, and those ending in slash and `*` |
| StaticEndpoint.CoverageExactly | policy_verification/endpoint/static.go:52-63 | one pattern matches all another does exactly by prefix comparison |
| StaticEndpoint.RuleCoverageExactly | policy_verification/endpoint/static.go:72-76 | a rule covers another in every decision exactly when both patterns do |
| StaticEndpoint.OrderAndRepetitionIrrelevant | policy_verification/endpoint/static.go:66-79 | reordering or duplicating rules changes no decision |
| StaticEndpoint.CoveredRuleDropped | policy_verification/endpoint/static.go:66-79 | dropping a rule covered by another changes no decision |

## Left out

- HTTP transport, timeouts, headers and URL building of the REST, OPA, Cedar and RFC 7662 backends, and the OPA and Cedar response mapping.
- JSON parsing and protobuf reflection: the parsed response is an optional map, a request field is a text or an error.
- Lowercasing outside ASCII: gRPC metadata is ASCII, so a header scheme is too.
- Wrap-around of Go times and durations: time is an unbounded integer.
- Exactness of concurrent `Get`: its late delete can drop a freshly stored entry, which costs one extra miss; interleavings get hit soundness, atomic operations the exact refinement.
- Start, stop and ticker timing of the sweeper: a tick may happen at any time, any number of times.
- Errors that wrap a gRPC status: an error is a status or it is not.
- Logging, log-level options, the choice of a cache object by `WithCache` (the cache is a parameter of `Introspect`), and constructor panics on bad options.
- Identity of the fields of an introspection result after it is cached: results are values, so a handler that mutates a cached result is not modelled.
