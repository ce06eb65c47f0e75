# Verified model of the Gateway API reference implementation

The program compiles Gateway API objects (gateways, HTTP routes, services, TLS policies, config
maps) into a flat routing table, serves requests from that table, and reports status back on the
objects. This project models that pipeline and proves what it promises, from the hostname patterns
up to the status that reconcilers write.

| file | models |
|---|---|
| `Common.dfy` | options, string tests, the flattening operator behind the appending loops, map listings |
| `GatewayApi.dfy` | the API objects, the request, and the library calls taken as parameters |
| `Hostnames.dfy` | `pkg/state/utils.go` and `MatchHostname` |
| `Paths.dfy` | `hasPathPrefix` against path segments |
| `Matching.dfy`, `Precedence.dfy` | `Matches`, `isBetterMatch`, `MatchRoute`, and what its precedence gives |
| `RouteStatus.dfy` | `pkg/state/httproute.go` |
| `Compiler.dfy`, `Meaning.dfy`, `Outcomes.dfy` | `BuildInternalRoutes`, its meaning, and what every compiled table satisfies |
| `Places.dfy` | the route, rule and match at which a request's candidates sit |
| `Serving.dfy` | `pkg/proxy/proxy.go` |
| `Store.dfy`, `Publishing.dfy` | `pkg/state/state.go`, `updateProxy`, and concurrent reconcilers as a step system |
| `Conditions.dfy`, `RouteReconciler.dfy`, `GatewayReconciler.dfy`, `PolicyReconciler.dfy` | status computation, the status diff, and the three `Reconcile` methods |

Loops and objects with updated fields are methods and classes. Each is proved equal to a
function, and the theorems are about those functions. The main ones:

- `Meaning.CompilationPreservesMeaning` and `Serving.ServedAsTheObjectsSay`: serving from the
  compiled table is interpreting the objects directly, candidate by candidate, in order.
- `Matching.WinnerIsFirstMaxIff` and `Precedence.WinnerAppend`: the matcher's three nested loops
  are "first candidate of greatest rank", and compose over concatenated tables, with the exact
  exceptions.
- `Hostnames.HostnamesExact`: emitted hostname lists accept exactly the hosts both sides accept,
  with the exact exception.
- `Publishing.EveryPublicationHeld`, `Publishing.StaysFreshIff` and `Publishing.FreshStaysCurrent`:
  over every interleaving, what is published was really held, and when it is current;
  `Publishing.FreshAnswersAsCurrent` carries that to the answer of every request.
- `Conditions.NoChangeIffPermutation`, `RouteReconciler.SecondReconcileQuietIff` and
  `PolicyReconciler.SecondReconcileQuietIffOneAffected`: the status diff, and exactly when a
  second reconcile writes nothing whatever the map orders.
- `Outcomes.StatusByNameAgreesIff`, `Outcomes.StatusAgreesIff`,
  `GatewayReconciler.CountEqualsEmittedIff` and `PolicyReconciler.DecoratedIsListedIff`: exactly
  when status agrees with the data plane.

Lemmas whose names end in `Fields` or `Iff`, and witnesses such as `SectionSelectsListener`, read the
definitions those theorems share off the objects' own fields: which header key, section, service
name, status code or map entry is meant.

## Where the code does not do what one might expect

Each of these is a proved lemma.

- A route hostname that is the empty string is a wildcard for `Intersect` and for listeners, but
  not for `MatchHostname`; `HostnamesExact` says exactly when that matters.
- A path match of type RegularExpression is not checked and ranks below "no path", so a rule
  without matches can lose to an earlier one that ranks lower (`RegularExpressionKeepsLowerRank`),
  and more routes can lower the winning rank (`MoreRoutesNeverWorseIff` says exactly when).
- The path prefix `/abc/` does not accept `/abc` (`IgnoresTrailingSlashExcept`).
- Redirecting the prefix `/` to `/foo` turns `/bar` into `/foobar`, and redirecting `/foo` to `/`
  turns `/foo/bar` into `//bar` (`RootPrefixRunsTogether`, `RootValueDoublesSlash`; exactly when:
  `PrefixRedirectSegmentwiseIff`, `PrefixRedirectCleanIff`).
- Acceptance ignores the parentRef's namespace, which the compiler checks
  (`AcceptedWithoutEmission`), and looks the gateway up by name only (`EmissionWithoutAcceptance`).
  Exactly when what is reported for a gateway's name agrees with what it emits:
  `StatusByNameAgreesIff`, and `AcceptedByNameEmitsIff` for a gateway that its name finds; exactly
  when the two agree on the parentRefs of a compatible namespace: `StatusAgreesIff`. Two gateways of one name make the status depend on map order
  (`SharedNameFlaps`; exactly when not: `SecondReconcileQuietIff`).
- The attached-route count asks for a parentRef naming the listener and for acceptance by any
  parent, whichever it is: it ignores the namespace (`CountIgnoresNamespace`) and which parent
  accepted (`CountIgnoresAcceptingParent`). `CountEqualsEmittedIff` says exactly when it equals
  what is emitted.
- An `updateProxy` call that read old maps can publish last and leave a stale table with nothing
  in flight (`OlderCallLeavesStaleTable`).
- Policy ancestors are compared in map order, so a policy that affects two gateways, and only such
  a policy, can be rewritten on a reconcile that changes nothing
  (`SecondReconcileQuietIffOneAffected`), and only the first targetRef is searched
  (`SecondTargetNotSearched`): the gateways that serve a policy's TLS settings are all listed
  exactly when the services it targets have one name (`DecoratedIsListedIff`).

## Assumptions

- The API's closed enumerations are closed: a path match type is Exact, PathPrefix,
  RegularExpression or empty; a header match type is Exact, RegularExpression or empty; a
  RequestRedirect filter carries its redirect.
- Strings are sequences of characters that stand for Go's bytes.
- `regexp`, `net.SplitHostPort`, `http.CanonicalHeaderKey`, the PEM test of a certificate and the
  printing of a list of names are arbitrary total functions, the fields of `Lib`; a compiled
  expression is represented by its source text.
- Request paths start with `/` where a lemma says so. `NoRegexPaths`/`TableRanked` appear only in
  lemmas about objects without RegularExpression paths. `HostnamesReadable` excludes exactly the
  attached listener and route pairs for which `HostnamesExact` shows the hostname list to be wrong.
  `LookupGateway(gateways, g.name) == Some(g)` says that a lookup by that name finds that gateway.
- Where a lemma speaks of `held` maps, gateways are held under their own names if `GatewaysKeyed`
  says so, which `Store.ApplyKeepsKeyed` keeps.
- A position in the list of a request's candidates stands for Go's reference into the table.

## Model

| member | source | states |
|---|---|---|
| Hostnames.IntersectHostnames | pkg/state/utils.go:22-41 | the loop computes the intersection of each route hostname with the listener's, with both empty cases |
| Hostnames.MatchHostname | pkg/state/gateway.go:62-86 | an empty list takes every host; otherwise some pattern accepts the host without its port |
| Hostnames.AcceptsIff | pkg/state/gateway.go:68-84 | a pattern accepts every host, itself, or, as `*.` and a parent, every host ending with a dot and the parent |
| Hostnames.IntersectExact | pkg/state/utils.go:44-85 | for every host, both patterns accept it iff there is an intersection and it accepts it; a failed intersection means no common host |
| Hostnames.IntersectSomeIffShare | pkg/state/utils.go:44-85 | an intersection exists iff some host is accepted by both patterns |
| Hostnames.IntersectSelects | pkg/state/utils.go:44-85 | idempotent, `*` is a left unit, the result is one of the arguments |
| Hostnames.IntersectCommutes | pkg/state/utils.go:44-85 | commutative exactly when the arguments are not the two spellings of the full wildcard |
| Hostnames.IntersectRightUnit | pkg/state/utils.go:44-50 | `*` is a right unit of exactly the non-empty patterns |
| Hostnames.IntersectAssociates | pkg/state/utils.go:44-85 | associative on all strings, failure absorbing |
| Hostnames.IntersectGreatest | pkg/state/utils.go:44-85 | every common lower bound is below the intersection |
| Hostnames.HostnamesExact | pkg/state/utils.go:22-85 | the emitted list accepts exactly the hosts taken by the listener and the route, iff no empty route hostname leaks through a wildcard listener |
| Hostnames.NoOverlapMeansNoHost | pkg/state/utils.go:22-41 | an empty list is emitted iff the route has hostnames and none shares a host with the listener |
| Paths.JoinSplit | pkg/state/gateway.go:181-198 | the segments used to specify prefixes are the slash-free pieces whose join is the path |
| Paths.HasPathPrefixMeaning | pkg/state/gateway.go:181-198 | element-wise prefix for prefixes without trailing slash, everything for `/`, string prefix otherwise |
| Paths.TrailingSlashExcludesOnlyItself | pkg/state/gateway.go:181-198 | prefix Q/ accepts what Q accepts except Q itself |
| Paths.IgnoresTrailingSlashExcept | pkg/state/gateway.go:181-198 | agrees with the reading that ignores the prefix's trailing slash exactly when the path is not the prefix without it |
| Paths.PrefixReflexive | pkg/state/gateway.go:181-187 | every path accepts itself as a prefix |
| Paths.PrefixTransitive | pkg/state/gateway.go:181-198 | the prefix test is transitive on request paths |
| Paths.PrefixAntisymmetric | pkg/state/gateway.go:181-198 | the prefix test is antisymmetric on request paths |
| Paths.LongerPrefixIsNarrower | pkg/state/gateway.go:181-198 | of two prefixes accepting one path, the longer accepts only what the shorter accepts |
| Matching.Matches | pkg/state/gateway.go:143-179 | true iff the path test passes and every header match has some accepted value |
| Matching.AcceptsHeaderIff | pkg/state/gateway.go:159-176 | a header match is met iff some value under the canonical form of its name is accepted |
| Matching.MatchRoute | pkg/state/gateway.go:212-244 | returns rule and match of the winning position among all candidates in table order |
| Matching.MatchRules | pkg/state/gateway.go:222-240 | the rules of one route, after what earlier routes left |
| Matching.MatchRule | pkg/state/gateway.go:222-240 | one rule's matches, then the special case of a rule without matches |
| Matching.BetterMeansHigherRank | pkg/state/gateway.go:246-295 | isBetterMatch is the strict lexicographic order of (type weight, path length, header count) |
| Matching.BetterMatchRules | pkg/state/gateway.go:246-295 | each rule of precedence by itself: exact, prefix, none, regular expression; then the longer path; then more headers |
| Matching.WinnerIsFirstEligibleMax | pkg/state/gateway.go:212-268 | on every candidate list, the winner is the first of greatest rank among those that are not late matchless rules |
| Matching.WinnerIsFirstMaxIff | pkg/state/gateway.go:212-268 | the winner is the first candidate of greatest (type weight, length, headers), matchless ranking (1,0,0), iff the list is not shadowed by regular-expression paths |
| Precedence.RankedWinner | pkg/state/gateway.go:212-268 | on tables without regular-expression paths the winner is the first candidate of greatest rank |
| Precedence.RegularExpressionKeepsLowerRank | pkg/state/gateway.go:233-238 | a table for which every request is answered by a lower-ranked candidate |
| Precedence.WinnerAppend | pkg/state/gateway.go:212-268 | the winner of a concatenation is the better of the two winners, left on ties, iff not blocked |
| Precedence.MatchRouteConcatenates | pkg/controller/utils.go:29-33 | the same for concatenated tables, as updateProxy builds them |
| Precedence.MatchNeverLost | pkg/state/gateway.go:212-244 | on every table, more routes never turn a match into no match |
| Precedence.MoreRoutesNeverWorseIff | pkg/state/gateway.go:212-268 | more routes keep or raise the winning rank, except exactly when a rule without matches came first and now a match comes first, all matches being on regular-expression paths |
| Precedence.RouteOrderIrrelevantIff | pkg/state/gateway.go:212-268 | the same routes in another order give the same winning rank iff the first candidates are of one kind or some match is not on a regular-expression path |
| Precedence.RouteOrderKeepsUniqueRule | pkg/state/gateway.go:212-268 | and then the same rule, when one rule holds all candidates of that rank |
| Precedence.RankedNeverSinks | pkg/state/gateway.go:246-268 | without regular-expression paths the exception of more routes never arises |
| Precedence.RankedOrderIrrelevant | pkg/state/gateway.go:246-268 | without regular-expression paths the order of the routes is always irrelevant |
| Precedence.WinnerIsMostSpecific | pkg/state/gateway.go:246-268 | on every table, the winner's path match accepts a subset of what any other candidate accepts |
| RouteStatus.Validate | pkg/state/httproute.go:29-45 | returns the first failing regular expression in document order, if any |
| RouteStatus.ValidateRule | pkg/state/httproute.go:33-43 | the first failing expression of one rule |
| RouteStatus.ValidateMatch | pkg/state/httproute.go:35-42 | the first failing expression of one match |
| RouteStatus.ValidateDecidesValid | pkg/state/httproute.go:29-45 | validation passes iff every regular-expression header value compiles |
| RouteStatus.FirstErrorDecides | pkg/state/httproute.go:29-45 | the first expression in document order that does not compile gives the error |
| RouteStatus.ComputeAcceptedCondition | pkg/state/httproute.go:47-103 | the loops compute status, reason and message of the Accepted condition |
| RouteStatus.AcceptedIff | pkg/state/httproute.go:47-103 | accepted iff valid and the first gateway of that name has an HTTP(S) listener of the section that shares a host with the route |
| RouteStatus.FitsIff | pkg/state/httproute.go:67-86 | fitting a gateway, in terms of a listener's protocol, the parentRef's section name and the hostnames |
| RouteStatus.AcceptedConditionFields | pkg/state/httproute.go:47-103 | type, generation, status and reason: invalid route, no gateway of the name, the first such gateway not fitting, or accepted |
| RouteStatus.AcceptedConditionMessage | pkg/state/httproute.go:47-103 | the message that belongs to each reason |
| RouteStatus.ComputeResolvedRefsCondition | pkg/state/httproute.go:105-130 | the first unsupported kind in document order decides the condition |
| RouteStatus.ResolvedRefsIff | pkg/state/httproute.go:105-130 | resolved iff every backendRef of every rule has a supported kind |
| RouteStatus.ResolvedRefsFields | pkg/state/httproute.go:105-130 | type, generation and reason of the condition |
| RouteStatus.FirstBadKindDecides | pkg/state/httproute.go:110-119 | the message names the first unsupported kind in document order |
| RouteStatus.IsAccepted | pkg/state/httproute.go:132-146 | true iff some parent of this controller has Accepted=True |
| RouteStatus.MatchesGateway | pkg/state/httproute.go:148-167 | the same, for a parent that names the gateway |
| RouteStatus.StoredAcceptedFields | pkg/state/httproute.go:132-146 | only a true Accepted condition in an entry of the named controller counts |
| RouteStatus.StoredMatchesFields | pkg/state/httproute.go:148-167 | the same, in an entry whose parentRef has the gateway's name |
| RouteStatus.OtherControllersIgnored | pkg/state/httproute.go:132-167 | a status written by other controllers alone counts for nothing |
| Compiler.FindBound | pkg/state/gateway.go:307-334 | true iff some parentRef names gateway, namespace and listener and is accepted |
| Compiler.RefersToIff | pkg/state/gateway.go:308-322 | the three tests of a parentRef in terms of its name, namespace and section name |
| Compiler.FindRedirect | pkg/state/gateway.go:353-377 | compiles the first redirect filter |
| Compiler.FindAppProtocol | pkg/state/gateway.go:422-430 | the protocol of the service's first port with that number |
| Compiler.FindTLS | pkg/state/gateway.go:432-464 | the last policy targeting the service decides TLS settings and protocol |
| Compiler.CollectCACerts | pkg/state/gateway.go:443-455 | the certificates of the resolvable ConfigMap references, in order |
| Compiler.FindBackend | pkg/state/gateway.go:389-476 | backend and error left by the loop over backendRefs |
| Compiler.CompileMatch | pkg/state/gateway.go:479-509 | defaults for path and header types, compiled expressions |
| Compiler.CompileRule | pkg/state/gateway.go:352-511 | redirect, error, backend and matches of one rule |
| Compiler.CompileRoute | pkg/state/gateway.go:346-513 | effective hostnames and every rule, in order |
| Compiler.BuildListenerRoutes | pkg/state/gateway.go:306-515 | for one listener, the bound routes with a non-empty intersection, in order |
| Compiler.BuildInternalRoutes | pkg/state/gateway.go:297-519 | the nested loops emit, per listener and route in order, the compiled routes of the specification |
| Meaning.EmittedIff | pkg/state/gateway.go:300-344 | per listener, emission is: HTTP(S), valid route, parentRef naming both, shared host |
| Meaning.CompiledMatchMeaning | pkg/state/gateway.go:479-509 | a compiled match accepts exactly the requests its source match takes |
| Meaning.SourceCandidatesComplete | pkg/state/gateway.go:297-519 | the ordered source list holds exactly the ways the objects take a request |
| Meaning.CompilationPreservesMeaning | pkg/state/gateway.go:297-519 | the matcher's candidates on the table are, one by one in order, the compiled ways the objects take the request |
| Meaning.RuleFoundIff | pkg/state/gateway.go:212-244 | a rule is found iff some listener, attached valid route, hostname pair and source rule take the request |
| Meaning.WinnerIsBestSource | pkg/state/gateway.go:212-268 | the winner is the compiled form of the first eligible source candidate of greatest source rank, and of the first of all of them iff the source is not shadowed by regular-expression paths |
| Meaning.NoRegexNotShadowed | pkg/state/gateway.go:246-268 | sources without regular-expression paths are not shadowed |
| Outcomes.TableOrigin | pkg/state/gateway.go:297-519 | an internal route is in the table iff some gateway's listener emits it for some route |
| Outcomes.HostnamesNeverEmpty | pkg/state/gateway.go:336-348 | no emitted route has an empty hostname list |
| Outcomes.NoNilRegexp | pkg/state/gateway.go:490-508 | every emitted regular-expression header match holds its compiled expression |
| Outcomes.RankedSources | pkg/state/gateway.go:479-488 | routes without regular-expression paths compile to tables without them |
| Outcomes.MoreObjectsNeverWorse | pkg/controller/utils.go:29-33 | adding gateways or routes never loses a match, and lowers a winning rank exactly in the case of MoreRoutesNeverWorseIff |
| Outcomes.EmissionIffAccepted | pkg/state/gateway.go:300-344 | a gateway that lookups by its name find emits something for a route iff some parentRef with its name and a compatible namespace is accepted |
| Outcomes.StatusAgreesIff | pkg/state/httproute.go:58-65 | for any held gateway and the parentRefs that name it and its namespace: under every listing, it emits for the route iff one of them is accepted, exactly when the route is invalid or all held gateways of that name fit it alike |
| Outcomes.StatusByNameAgreesIff | pkg/state/httproute.go:58-65 | the same for all parentRefs with the gateway's name, whatever their namespace: exactly when the route is invalid or every held gateway of that name fits it for some parentRef just when this gateway fits it for one of a compatible namespace |
| Outcomes.AcceptedByNameEmitsIff | pkg/state/httproute.go:58-65 | for a gateway that lookups by its name find: accepted by name implies emitted iff a valid route that fits it also fits it by a parentRef of a compatible namespace; emitted always implies accepted by name |
| Outcomes.AcceptedWithoutEmission | pkg/state/httproute.go:58-65 | a route reported accepted for which nothing is emitted |
| Outcomes.EmissionWithoutAcceptance | pkg/state/httproute.go:58-65 | a route reported rejected for which its gateway emits, because another gateway has the same name |
| Outcomes.SectionSelectsListener | pkg/state/gateway.go:320-322 | a parentRef with section `https` is accepted, and emitted for that listener and not for `http` |
| Outcomes.SupportedBackend | pkg/state/gateway.go:389-476 | with supported kinds the first backendRef with a port is taken and the unsupported-kind branch is not reached |
| Outcomes.RuleOutcome | pkg/state/gateway.go:352-477 | a backend excludes redirect and error; error is on all rules of a route or none; each field is the one the source rule asks for |
| Outcomes.RedirectMeaning | pkg/state/gateway.go:353-377 | the compiled redirect carries the first filter's fields and the replacement of its modifier type |
| Outcomes.RedirectsIff | pkg/state/gateway.go:353-377 | a rule redirects iff it has a redirect filter |
| Outcomes.LastPolicyDecides | pkg/state/gateway.go:432-464 | of several policies targeting a service the last listed one is used |
| Outcomes.FirstPortDecides | pkg/state/gateway.go:424-429 | the first port entry with the number gives the protocol |
| Outcomes.CACertMeaning | pkg/state/gateway.go:443-455 | a certificate is collected iff some ConfigMap reference resolves to it, text data before binary data |
| Outcomes.BackendMeaning | pkg/state/gateway.go:409-471 | TLS settings are present iff some policy targets the service, and then the protocol is https |
| Outcomes.ForwardingMeaning | pkg/state/gateway.go:389-471 | a rule that forwards does so to the port and to `name.namespace.svc.cluster.local` of its first backendRef with a port, the namespace being the ref's or else the route's |
| Outcomes.PlainBackend | pkg/state/gateway.go:419-432 | with no policy for the service there are no TLS settings, and the protocol is that of the service's first port entry of the number, or none |
| Outcomes.SecuredBackend | pkg/state/gateway.go:432-464 | with the last policy for the service: protocol https, and that policy's hostname and certificates |
| Outcomes.TableUndecorated | pkg/state/gateway.go:297-519 | services, policies and config maps change only protocol and TLS settings of backends |
| Outcomes.ClusterDoesNotInterfere | pkg/state/gateway.go:297-519 | for every request the winner's position, and the route it lies in, do not depend on services, policies and config maps |
| Outcomes.ClusterKeepsRuleAndMatch | pkg/state/gateway.go:297-519 | nor do, inside each route, the number of candidates of every rule prefix and the matches of every rule |
| Places.PlaceHoldsCandidate | pkg/state/gateway.go:212-244 | the i-th place (route, rule, match) of a request holds its i-th candidate |
| Places.PlacesDistinct | pkg/state/gateway.go:212-244 | no two candidates of a request share a place |
| Places.ClusterKeepsWinningPlace | pkg/state/gateway.go:297-519 | for every request the places of all candidates, and the winning route, rule and match, do not depend on services, policies and config maps |
| Serving.WinnerRedirects | pkg/proxy/proxy.go:81-140 | a redirecting winner answers with the code asked for, 302 when unset; the part of the path after the matched prefix is kept behind the value, a full path replaces it, and otherwise the path stays |
| Serving.WinnerRedirectSegments | pkg/proxy/proxy.go:123-130 | a winner's prefix redirect replaces the prefix's segments by the value's and can be undone; the exact conditions for both readings of a trailing slash |
| Serving.Proxy.UpdateRoutes | pkg/proxy/proxy.go:47-51 | the served table becomes the given one |
| Serving.Proxy.ServeHTTP | pkg/proxy/proxy.go:53-79 | redirect, then error, then backend of the winning rule; otherwise 404 |
| Serving.NotTakenIsNotFound | pkg/proxy/proxy.go:53-79 | a request the objects do not take is answered with 404 |
| Serving.NothingToServeIsNotFound | pkg/proxy/proxy.go:53-79 | no candidate, or a winning rule without redirect, error and backend, is answered with 404 |
| Serving.WinnerAnswers | pkg/proxy/proxy.go:53-79 | a winning rule redirects, else answers its error, else forwards to its backend |
| Serving.ServedAsTheObjectsSay | pkg/proxy/proxy.go:53-79 | a request the objects take is answered as the first eligible source candidate of greatest rank says, the first of all iff they are not shadowed |
| Serving.PrefixRedirectSegmentwise | pkg/proxy/proxy.go:123-130 | for a matched prefix without trailing slash the guard passes and its segments are replaced by the value's |
| Serving.PrefixRedirectReverses | pkg/proxy/proxy.go:123-130 | whenever the guard passes, rewriting the value back to the prefix restores the path |
| Serving.PrefixRedirectSegmentwiseIff | pkg/proxy/proxy.go:123-130 | segment-wise exactly when a trailing slash of the prefix is met by one of the value |
| Serving.PrefixRedirectCleanIff | pkg/proxy/proxy.go:123-130 | segments are replaced, trailing slashes ignored, exactly when both or neither of prefix and value end with a slash |
| Serving.RootPrefixRunsTogether | pkg/proxy/proxy.go:123-130 | the prefix `/` with value `/foo` turns `/bar` into `/foobar` |
| Serving.RootValueDoublesSlash | pkg/proxy/proxy.go:123-130 | the prefix `/foo` with value `/` turns `/foo/bar` into `//bar` |
| Serving.WinningPrefixMatches | pkg/proxy/proxy.go:124-126 | the winner's prefix matches the request path and is a string prefix of it |
| Store.State.UpsertHTTPRoute | pkg/state/state.go:109-137 | stores the route under its name, even when invalid, and returns the validation condition |
| Store.State.constructor | pkg/state/state.go:37-45 | all five maps are empty |
| Store.State.UpsertConfigMap | pkg/state/state.go:47-52 | stores the config map under its name and changes nothing else |
| Store.State.DeleteConfigMap | pkg/state/state.go:54-59 | removes the config map and nothing else |
| Store.State.GetConfigMaps | pkg/state/state.go:61-70 | returns a copy of the map |
| Store.State.UpsertService | pkg/state/state.go:72-77 | stores the service under its name and changes nothing else |
| Store.State.DeleteService | pkg/state/state.go:79-84 | removes the service and nothing else |
| Store.State.DeleteGateway | pkg/state/state.go:102-107 | removes the gateway and nothing else |
| Store.State.UpsertBackendTLSPolicy | pkg/state/state.go:146-151 | stores the policy under its name and changes nothing else |
| Store.State.DeleteBackendTLSPolicy | pkg/state/state.go:153-158 | removes the policy and nothing else |
| Store.State.GetHTTPRoutes | pkg/state/state.go:171-180 | lists every route once, in some order |
| Store.State.GetBackendTLSPolicies | pkg/state/state.go:182-191 | lists every policy once, in some order |
| Store.State.DeleteHTTPRoute | pkg/state/state.go:139-144 | removes the route and nothing else |
| Store.State.UpsertGateway | pkg/state/state.go:93-100 | stores the gateway under its name and changes nothing else |
| Store.State.GetGateways | pkg/state/state.go:160-169 | lists every gateway once, in some order |
| Store.State.GetServices | pkg/state/state.go:193-202 | returns a copy of the map |
| Store.ApplyKeepsKeyed | pkg/state/state.go:47-158 | every mutation keeps each object under its own name |
| Store.ApplyPerKey | pkg/state/state.go:47-158 | each of the ten mutations sets or removes the one entry it names and keeps every other entry and map |
| Store.DeletedIsNotListed | pkg/state/state.go:139-180 | after its deletion no listing holds the route |
| Store.UpsertConditionFields | pkg/state/state.go:109-137 | the condition returned: true iff the route is valid, with its generation, reason and message |
| Store.UpdateProxy | pkg/controller/utils.go:22-34 | without interference, publishes a table of the current objects |
| Publishing.StepKeepsInv | pkg/controller/utils.go:22-34 | every step keeps: reads in flight and published tables come from maps that were current at their times |
| Publishing.EveryPublicationHeld | pkg/controller/utils.go:22-34 | in every reachable state each published table is a build over five maps that were held, each at its own read, in reading order, before publication |
| Publishing.EveryPublicationCurrentIff | pkg/controller/utils.go:22-34 | in every reachable state, what a publication's call read lists the current maps iff each map is what it was at its own read |
| Publishing.FreshIsCurrent | pkg/controller/utils.go:22-34 | a served table whose call is up to date is a table of the current objects |
| Publishing.StaysFreshIff | pkg/proxy/proxy.go:47-51 | a step keeps a fresh table fresh iff it is not a mutation that changes a map nor a publication by a call that is not up to date |
| Publishing.PublishingMakesCurrent | pkg/controller/utils.go:22-34 | and then the served table is one of the current objects |
| Publishing.LateCallIsUpToDate | pkg/controller/utils.go:22-34 | a call that begins after the last mutation is up to date |
| Publishing.FreshStaysCurrent | pkg/proxy/proxy.go:47-51 | over any run of such steps a fresh table stays fresh and current |
| Publishing.FreshAnswersAsCurrent | pkg/proxy/proxy.go:53-79 | in every reachable state with a fresh table and readable hostnames, every request gets the answer of the first eligible source candidate of greatest rank over some listing of the current objects, and 404 when there is none |
| Publishing.OlderCallLeavesStaleTable | pkg/controller/utils.go:22-34 | a run that ends with nothing in flight and a stale table |
| Publishing.TablesOfOneStateAgree | pkg/state/state.go:160-202 | two tables of the same objects, whatever the map orders, give a request the same winning rank iff the order of its candidates is irrelevant |
| Conditions.ConditionsChanged | pkg/controller/httproute_controller.go:88-105 | the two inner loops: changed iff some computed condition is not the first stored one of its type |
| Conditions.EntriesChanged | pkg/controller/httproute_controller.go:77-110 | the diff: changed iff the entries differ in number, reference, controller or, up to order, conditions |
| Conditions.ChangedEntry | pkg/controller/httproute_controller.go:77-110 | another reference, another controller or a changed condition field makes the diff write |
| Conditions.UnchangedConditions | pkg/controller/httproute_controller.go:88-105 | conditions equal in the compared fields are no change |
| Conditions.NoChangeIffPermutation | pkg/controller/httproute_controller.go:77-110 | with equal length and distinct computed types, no change iff the stored conditions are a permutation of the computed ones |
| RouteReconciler.ValidationFirst | pkg/controller/httproute_controller.go:61-65 | a failed validation condition is the acceptance condition of every parent |
| RouteReconciler.ComputedParentsFields | pkg/controller/httproute_controller.go:60-75 | the i-th entry has the i-th parentRef, this controller's name and the two conditions |
| RouteReconciler.HTTPRouteReconciler.ComputeParents | pkg/controller/httproute_controller.go:60-75 | one entry per parentRef with its acceptance and the route's ResolvedRefs |
| RouteReconciler.HTTPRouteReconciler.StatusChanged | pkg/controller/httproute_controller.go:77-110 | the diff says changed iff the stored status is out of sync |
| RouteReconciler.HTTPRouteReconciler.ReconcileFound | pkg/controller/httproute_controller.go:52-125 | the reconcile of a route that exists: write attempted iff out of sync, state and proxy afterwards |
| RouteReconciler.HTTPRouteReconciler.Reconcile | pkg/controller/httproute_controller.go:40-126 | a write is attempted iff the status is out of sync; state and proxy afterwards, for every outcome |
| RouteReconciler.SecondReconcileQuietIff | pkg/controller/httproute_controller.go:57-118 | after a reconcile that wrote a status or found it in sync, for every two listings of the held gateways a second one writes nothing, iff the route is invalid or all held gateways of each name it refers to fit it alike |
| RouteReconciler.QuietIffSameAcceptance | pkg/controller/httproute_controller.go:57-118 | for two given listings: iff every parentRef gets the same acceptance from both |
| RouteReconciler.SecondReconcileQuiet | pkg/controller/httproute_controller.go:57-118 | with unique gateway names a second reconcile, after one that wrote or did not, writes nothing in any listing order |
| RouteReconciler.SharedNameFlaps | pkg/controller/httproute_controller.go:57-118 | a route for which, whatever its status, a reconcile with either listing of two gateways of one name makes the other listing write |
| GatewayReconciler.CountAttached | pkg/controller/gateway_controller.go:183-195 | counts each accepted route with a parentRef naming gateway and section once |
| GatewayReconciler.NamesListenerIff | pkg/controller/gateway_controller.go:183-195 | the tests of a parentRef in terms of its name and section name |
| GatewayReconciler.SectionSelectsCount | pkg/controller/gateway_controller.go:183-195 | a route that names the section `https` is counted on that listener and not on `http` |
| GatewayReconciler.CountIndependentOfOrder | pkg/controller/gateway_controller.go:179-195 | the count does not depend on map order |
| GatewayReconciler.CountsForIff | pkg/controller/gateway_controller.go:183-195 | with its status in sync a route counts iff it is valid, some parentRef names gateway and section, and some parentRef, maybe another, is fitted by the gateway its name finds |
| GatewayReconciler.CountEqualsEmittedIff | pkg/controller/gateway_controller.go:178-200 | with statuses in sync the count equals the emitted internal routes iff each such route is attached to the listener, namespace included, and shares a host with it |
| GatewayReconciler.CountCoversEmitted | pkg/controller/gateway_controller.go:178-200 | with statuses in sync the count is at least the number of internal routes the listener emits, and equal iff the listener emits for every counted route |
| GatewayReconciler.CountIgnoresNamespace | pkg/controller/gateway_controller.go:186-188 | a route in sync that is counted while nothing is emitted, because its parentRef names another namespace |
| GatewayReconciler.CountIgnoresAcceptingParent | pkg/state/httproute.go:132-146 | a route in sync that the gateway rejects and yet counts, because another gateway accepts it |
| GatewayReconciler.StatusDiffers | pkg/controller/gateway_controller.go:230-292 | the three-level diff decides equality up to condition order, and up to messages for listeners |
| GatewayReconciler.ListenersChanged | pkg/controller/gateway_controller.go:261-291 | the listener level of the diff |
| GatewayReconciler.ChangedAddress | pkg/controller/gateway_controller.go:252-260 | a changed address makes the diff write; an absent and an empty type are alike |
| GatewayReconciler.ChangedListener | pkg/controller/gateway_controller.go:261-291 | a changed name, count or condition of a listener, its message apart, makes the diff write |
| GatewayReconciler.ChangedGatewayCondition | pkg/controller/gateway_controller.go:230-251 | a changed condition of the gateway makes the diff write |
| GatewayReconciler.ComputedStatusFields | pkg/controller/gateway_controller.go:154-228 | all conditions true for this generation, the given address, and each listener's name and count in order |
| GatewayReconciler.GatewayReconcileQuiet | pkg/controller/gateway_controller.go:178-305 | after a reconcile that wrote a status or found it in sync, a second one with the same routes in any order finds nothing to write |
| GatewayReconciler.GatewayReconciler.ComputeStatus | pkg/controller/gateway_controller.go:154-228 | conditions, address and one status per listener with its count |
| GatewayReconciler.GatewayReconciler.ReconcileManaged | pkg/controller/gateway_controller.go:154-313 | the reconcile of a managed gateway with an address: write attempted iff out of sync, state and proxy afterwards |
| GatewayReconciler.GatewayReconciler.Reconcile | pkg/controller/gateway_controller.go:114-314 | early exits, status write, state and proxy for every outcome |
| PolicyReconciler.ValidateCACerts | pkg/controller/backendtlspolicy_controller.go:67-98 | the loop collects the names of the references that do not resolve to a certificate, in order |
| PolicyReconciler.AllResolveIff | pkg/controller/backendtlspolicy_controller.go:67-98 | none is unresolved iff every reference is to a ConfigMap that holds a certificate |
| PolicyReconciler.ResolvesIff | pkg/controller/backendtlspolicy_controller.go:70-96 | a reference resolves iff it is to a core ConfigMap of the policy's namespace whose text under `ca.crt`, text data first, is a certificate |
| PolicyReconciler.PolicyAcceptedIff | pkg/controller/backendtlspolicy_controller.go:100-116 | both conditions, for this generation, are true iff every reference resolves; reasons and message of either case |
| PolicyReconciler.ValidatedCertsAreServed | pkg/state/gateway.go:443-455 | when none is unresolved the table trusts exactly the validated certificate of each reference, in order |
| PolicyReconciler.SearchRoutes | pkg/controller/backendtlspolicy_controller.go:121-145 | the flag-and-break loops compute the existential over routes, rules and backendRefs |
| PolicyReconciler.FindAncestors | pkg/controller/backendtlspolicy_controller.go:118-176 | one ancestor per gateway that uses the service, in listing order |
| PolicyReconciler.RefersToServiceIff | pkg/controller/backendtlspolicy_controller.go:125-134 | the tests of a backendRef in terms of its kind, name and namespace |
| PolicyReconciler.UsesServiceIff | pkg/controller/backendtlspolicy_controller.go:121-145 | only routes whose status says the gateway accepts them are searched |
| PolicyReconciler.AncestorFields | pkg/controller/backendtlspolicy_controller.go:147-176 | an ancestor names its gateway and namespace and is signed by this controller |
| PolicyReconciler.ListedIffUses | pkg/controller/backendtlspolicy_controller.go:118-176 | a gateway is listed exactly when the search finds the service behind it |
| PolicyReconciler.DecoratedRefSearchedIff | pkg/controller/backendtlspolicy_controller.go:61-65 | the search recognises a decorated backendRef iff the policy's first target is its service |
| PolicyReconciler.DataPlaneImpliesAncestor | pkg/controller/backendtlspolicy_controller.go:118-176 | a gateway whose table uses TLS settings of a policy that targets the backend's service first is listed, with statuses in sync |
| PolicyReconciler.OtherTargetNotSearched | pkg/controller/backendtlspolicy_controller.go:61-65 | for any policy with a service target not named as its first: a gateway and a route in sync whose table forwards with the policy's TLS settings, and no ancestor is listed |
| PolicyReconciler.SecondTargetNotSearched | pkg/controller/backendtlspolicy_controller.go:61-65 | a concrete policy with two targets of which that is so |
| PolicyReconciler.DecoratedIsListedIff | pkg/controller/backendtlspolicy_controller.go:61-176 | for all objects with statuses in sync, each gateway that its name finds and that serves the policy's TLS settings is listed, iff every service the policy targets has the name of its first target |
| PolicyReconciler.SecondReconcileQuietIffOneAffected | pkg/controller/backendtlspolicy_controller.go:178-219 | after a reconcile that wrote a status or found it in sync, for all listings of the held gateways and routes a second one writes nothing, iff the policy affects at most one held gateway |
| PolicyReconciler.ConditionsIgnoreStatus | pkg/controller/backendtlspolicy_controller.go:67-116 | the conditions computed for a policy do not depend on the status it has |
| PolicyReconciler.BackendTLSPolicyReconciler.StatusChanged | pkg/controller/backendtlspolicy_controller.go:118-211 | changed iff the stored ancestors differ from the computed ones, conditions in any order |
| PolicyReconciler.BackendTLSPolicyReconciler.ReconcileFound | pkg/controller/backendtlspolicy_controller.go:56-228 | the reconcile of a policy that exists: certificates validated, write attempted iff the ancestors changed, state and proxy afterwards |
| PolicyReconciler.BackendTLSPolicyReconciler.Reconcile | pkg/controller/backendtlspolicy_controller.go:45-228 | the answers of the get, and state, write and proxy for every outcome |

## Left out

- Fields the code does not read: HTTP method and query-parameter matches, backend weights, allowed routes, parentRef group, kind and port, and listener TLS settings.
- RegularExpression path matches are modelled as the code has them, unchecked; hostname-specificity precedence and age-based tie-breaking are not in the code.
- Scheme, host and port of a redirect location, `forward` and its transports, and PEM and x509 parsing: whether a text is a certificate is an arbitrary predicate.
- Timestamps, log lines, the SupportedKinds of a listener status (never compared), and the 32-bit width of AttachedRoutes.
- Kubernetes watches, the client calls themselves (their answers are parameters), leader election and the entry point.
- `GatewayClassReconciler`, `ServiceReconciler` and `ConfigMapReconciler`: the same condition diff and thin upserts; their mutations are steps of the step system.
- `GatewayState.GetHTTPRoutes`: a filter by `MatchesGateway` that nothing calls.
- Unsynchronised access: reconcilers share objects by reference; the one alias that matters, the stored route seeing its new status before the write, is made an explicit update of the map.
- Publishing.FreshStaysCurrent: a table that is not fresh can still equal one of the current objects, when what changed does not reach the table.
