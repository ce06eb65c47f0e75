/** What every compiled table satisfies: where its routes come from, what its rules
    can answer, how it agrees with route status, and what it does not depend on. */
module Outcomes {
  import opened Common
  import opened GatewayApi
  import opened Hostnames
  import opened Matching
  import opened Precedence
  import opened RouteStatus
  import opened Compiler
  import opened Meaning

  // ----- origin of the table's routes

  /** The listener contributes an internal route for the route. */
  ghost predicate EmitsFor(lib: Lib, g: Gateway, l: Listener, r: HTTPRoute) {
    l in g.listeners && Attached(lib, g, l, r) && HostsMeet(r, l)
  }

  lemma TableOrigin(lib: Lib, gateways: seq<Gateway>, routes: seq<HTTPRoute>, cluster: Cluster, ir: InternalRoute)
    ensures ir in Table(lib, gateways, routes, cluster) <==>
            exists g, l, r :: g in gateways && r in routes && EmitsFor(lib, g, l, r) &&
                              ir == CompiledRoute(lib, l, r, cluster)
  {
    FlatMapMember(GatewayRoutes(lib, routes, cluster), gateways, ir);
    forall g: Gateway
      ensures ir in GatewayRoutes(lib, routes, cluster)(g) <==>
              exists l, r :: r in routes && EmitsFor(lib, g, l, r) && ir == CompiledRoute(lib, l, r, cluster)
    {
      GatewayOrigin(lib, g, routes, cluster, ir);
    }
  }

  lemma GatewayOrigin(lib: Lib, g: Gateway, routes: seq<HTTPRoute>, cluster: Cluster, ir: InternalRoute)
    ensures ir in GatewayRoutes(lib, routes, cluster)(g) <==>
            exists l, r :: r in routes && EmitsFor(lib, g, l, r) && ir == CompiledRoute(lib, l, r, cluster)
  {
    FlatMapMember(ListenerRoutes(lib, g, routes, cluster), g.listeners, ir);
    forall l | l in g.listeners
      ensures ir in ListenerRoutes(lib, g, routes, cluster)(l) <==>
              exists r :: r in routes && EmitsFor(lib, g, l, r) && ir == CompiledRoute(lib, l, r, cluster)
    {
      FlatMapMember(Emitted(lib, g, l, cluster), routes, ir);
      forall r: HTTPRoute ensures ServesHTTP(l) ==>
        (ir in Emitted(lib, g, l, cluster)(r) <==> EmitsFor(lib, g, l, r) && ir == CompiledRoute(lib, l, r, cluster))
      {
        if ServesHTTP(l) {
          EmittedIff(lib, g, l, r);
        }
      }
    }
  }

  /** No emitted route has an empty hostname list, so the empty-means-all case of
      MatchHostname never fires on a compiled table. */
  lemma HostnamesNeverEmpty(lib: Lib, gateways: seq<Gateway>, routes: seq<HTTPRoute>, cluster: Cluster,
                            ir: InternalRoute)
    requires ir in Table(lib, gateways, routes, cluster)
    ensures ir.hostnames != []
  {
    TableOrigin(lib, gateways, routes, cluster, ir);
    var g, l, r :| g in gateways && r in routes && EmitsFor(lib, g, l, r) && ir == CompiledRoute(lib, l, r, cluster);
    NoOverlapMeansNoHost(r.hostnames, ValueOf(l.hostname, ""));
  }

  ghost predicate RegexpHeld(lib: Lib, hm: InternalHeaderMatch) {
    hm.kind == HeaderRegularExpression ==> hm.regexp == Some(hm.exactValue) && lib.compileError(hm.exactValue).None?
  }

  lemma ValidRuleHoldsRegexps(lib: Lib, l: Listener, r: HTTPRoute, cluster: Cluster, i: nat, j: nat, k: nat)
    requires Valid(lib, r)
    requires i < |r.rules| && j < |r.rules[i].matches| && k < |r.rules[i].matches[j].headers|
    ensures RegexpHeld(lib, CompiledRoute(lib, l, r, cluster).rules[i].matches[j].headers[k])
  {
    var h := r.rules[i].matches[j].headers[k];
    assert CompiledRoute(lib, l, r, cluster).rules[i].matches[j].headers[k] == CompiledHeader(lib)(h);
    assert Compiles(lib, h);
    assert CompiledHeader(lib)(h).kind == HeaderRegularExpression ==> h.kind == Some(HeaderRegularExpression);
  }

  /** Every regular-expression header match of a compiled table holds its compiled
      expression: the compile error the compiler ignores cannot occur. */
  lemma NoNilRegexp(lib: Lib, gateways: seq<Gateway>, routes: seq<HTTPRoute>, cluster: Cluster,
                    ir: InternalRoute, i: nat, j: nat, k: nat)
    requires ir in Table(lib, gateways, routes, cluster)
    requires i < |ir.rules| && j < |ir.rules[i].matches| && k < |ir.rules[i].matches[j].headers|
    ensures RegexpHeld(lib, ir.rules[i].matches[j].headers[k])
  {
    TableOrigin(lib, gateways, routes, cluster, ir);
    var g, l, r :| g in gateways && r in routes && EmitsFor(lib, g, l, r) && ir == CompiledRoute(lib, l, r, cluster);
    ValidRuleHoldsRegexps(lib, l, r, cluster, i, j, k);
  }

  // ----- more objects

  lemma RankedRoute(lib: Lib, l: Listener, r: HTTPRoute, cluster: Cluster, i: nat, j: nat)
    requires NoRegexPaths([r])
    requires i < |r.rules| && j < |r.rules[i].matches|
    ensures MatchRanked(CompiledRoute(lib, l, r, cluster).rules[i].matches[j])
  {
  }

  lemma RankedEntry(lib: Lib, gateways: seq<Gateway>, routes: seq<HTTPRoute>, cluster: Cluster,
                    ir: InternalRoute, i: nat, j: nat)
    requires NoRegexPaths(routes) && ir in Table(lib, gateways, routes, cluster)
    requires i < |ir.rules| && j < |ir.rules[i].matches|
    ensures MatchRanked(ir.rules[i].matches[j])
  {
    TableOrigin(lib, gateways, routes, cluster, ir);
    var g, l, r :| g in gateways && r in routes && EmitsFor(lib, g, l, r) && ir == CompiledRoute(lib, l, r, cluster);
    RankedRoute(lib, l, r, cluster, i, j);
  }

  lemma RankedSources(lib: Lib, gateways: seq<Gateway>, routes: seq<HTTPRoute>, cluster: Cluster)
    requires NoRegexPaths(routes)
    ensures TableRanked(Table(lib, gateways, routes, cluster))
  {
    var table := Table(lib, gateways, routes, cluster);
    forall ir, rule, im | ir in table && rule in ir.rules && im in rule.matches ensures MatchRanked(im) {
      var i :| 0 <= i < |ir.rules| && ir.rules[i] == rule;
      var j :| 0 <= j < |rule.matches| && rule.matches[j] == im;
      RankedEntry(lib, gateways, routes, cluster, ir, i, j);
    }
  }

  /** Adding gateways or routes never turns a match into no match, and lowers the winning
      rank of a request only when the larger table sinks, which no table of routes without
      regular-expression paths does. */
  lemma MoreObjectsNeverWorse(lib: Lib, gs1: seq<Gateway>, rs1: seq<HTTPRoute>, gs2: seq<Gateway>, rs2: seq<HTTPRoute>,
                              cluster: Cluster, req: Request)
    requires (forall g :: g in gs1 ==> g in gs2) && (forall r :: r in rs1 ==> r in rs2)
    ensures var cs1 := Candidates(lib, Table(lib, gs1, rs1, cluster), req);
            var cs2 := Candidates(lib, Table(lib, gs2, rs2, cluster), req);
            cs1 != [] ==>
              && cs2 != []
              && (!Less(WinningRank(cs2).value, WinningRank(cs1).value) <==> !(cs1[0].Matchless? && Sinks(cs2)))
              && (NoRegexPaths(rs2) ==> !Sinks(cs2))
  {
    var t1, t2 := Table(lib, gs1, rs1, cluster), Table(lib, gs2, rs2, cluster);
    forall ir | ir in t1 ensures ir in t2 {
      TableOrigin(lib, gs1, rs1, cluster, ir);
      TableOrigin(lib, gs2, rs2, cluster, ir);
    }
    if Candidates(lib, t1, req) != [] {
      MoreRoutesNeverWorseIff(lib, t1, t2, req);
    }
    if NoRegexPaths(rs2) {
      RankedSources(lib, gs2, rs2, cluster);
      RankedNeverSinks(lib, t2, req);
    }
  }

  // ----- status and data plane agree

  /** Some parentRef that names gateway `g` and its namespace fits gateway `h`. */
  ghost predicate FitsVia(r: HTTPRoute, g: Gateway, h: Gateway) {
    exists p :: p in r.parentRefs && NamesGateway(p, g) && Fits(r, p, h)
  }

  /** The status computed under a listing of the gateways says that `g` accepts `r`: some
      parentRef with its name and a compatible namespace is accepted. */
  ghost predicate StatusSays(lib: Lib, r: HTTPRoute, g: Gateway, gateways: seq<Gateway>) {
    exists p :: p in r.parentRefs && NamesGateway(p, g) &&
                AcceptedCondition(lib, r, p, gateways).status == ConditionTrue
  }

  lemma StatusSaysIff(lib: Lib, r: HTTPRoute, g: Gateway, gateways: seq<Gateway>)
    ensures StatusSays(lib, r, g, gateways) <==>
            Valid(lib, r) && LookupGateway(gateways, g.name).Some? &&
            FitsVia(r, g, LookupGateway(gateways, g.name).value)
  {
    forall p: ParentReference | p.name == g.name
      ensures AcceptedCondition(lib, r, p, gateways).status == ConditionTrue <==>
              Valid(lib, r) && LookupGateway(gateways, g.name).Some? &&
              Fits(r, p, LookupGateway(gateways, g.name).value)
    {
      AcceptedIff(lib, r, p, gateways);
    }
  }

  lemma EmitsIffFits(lib: Lib, g: Gateway, r: HTTPRoute)
    ensures (exists l :: EmitsFor(lib, g, l, r)) <==> Valid(lib, r) && FitsVia(r, g, g)
  {
    if l :| EmitsFor(lib, g, l, r) {
      var p :| p in r.parentRefs && RefersTo(p, g, l);
      assert Fits(r, p, g);
    }
    if Valid(lib, r) && FitsVia(r, g, g) {
      var p :| p in r.parentRefs && NamesGateway(p, g) && Fits(r, p, g);
      var l :| l in g.listeners && ServesHTTP(l) && NamesSection(p, l) && HostsMeet(r, l);
      assert EmitsFor(lib, g, l, r);
    }
  }

  lemma EmitsSomething(lib: Lib, g: Gateway, r: HTTPRoute, cluster: Cluster)
    ensures GatewayRoutes(lib, [r], cluster)(g) != [] <==> exists l :: EmitsFor(lib, g, l, r)
  {
    var out := GatewayRoutes(lib, [r], cluster)(g);
    if out != [] {
      assert out[0] in out;
      GatewayOrigin(lib, g, [r], cluster, out[0]);
    }
    if l :| EmitsFor(lib, g, l, r) {
      assert r in [r];
      GatewayOrigin(lib, g, [r], cluster, CompiledRoute(lib, l, r, cluster));
    }
  }

  /** A gateway that lookups by its name find emits something for a route exactly when the
      status says so. */
  lemma EmissionIffAccepted(lib: Lib, gateways: seq<Gateway>, g: Gateway, r: HTTPRoute, cluster: Cluster)
    requires LookupGateway(gateways, g.name) == Some(g)
    ensures GatewayRoutes(lib, [r], cluster)(g) != [] <==> StatusSays(lib, r, g, gateways)
  {
    EmitsSomething(lib, g, r, cluster);
    EmitsIffFits(lib, g, r);
    StatusSaysIff(lib, r, g, gateways);
  }

  /** The held gateways named as the `k`-th fit the route alike, for the parentRefs that
      name the `k`-th. */
  ghost predicate NamesakesFitLike(r: HTTPRoute, held: map<NamespacedName, Gateway>, k: NamespacedName)
    requires k in held
  {
    forall n :: HeldAs(held, n, held[k].name) ==>
      (FitsVia(r, held[k], held[n]) <==> FitsVia(r, held[k], held[k]))
  }

  /** Status and data plane agree on a held gateway and a route, for every listing of the
      held gateways, exactly when the route is invalid or the gateways that share the name
      fit it alike. */
  lemma StatusAgreesIff(lib: Lib, held: map<NamespacedName, Gateway>, k: NamespacedName, r: HTTPRoute, cluster: Cluster)
    requires k in held
    ensures (forall gateways :: Enumerates(gateways, held) ==>
              (GatewayRoutes(lib, [r], cluster)(held[k]) != [] <==> StatusSays(lib, r, held[k], gateways))) <==>
            (Valid(lib, r) ==> NamesakesFitLike(r, held, k))
  {
    var g := held[k];
    EmitsSomething(lib, g, r, cluster);
    EmitsIffFits(lib, g, r);
    if Valid(lib, r) ==> NamesakesFitLike(r, held, k) {
      forall gateways | Enumerates(gateways, held)
        ensures GatewayRoutes(lib, [r], cluster)(g) != [] <==> StatusSays(lib, r, g, gateways)
      {
        StatusSaysIff(lib, r, g, gateways);
        assert HeldAs(held, k, g.name);
        LookupHeld(gateways, held, g.name);
      }
    } else {
      var n :| HeldAs(held, n, g.name) && !(FitsVia(r, g, held[n]) <==> FitsVia(r, g, g));
      var gateways := LookupCanFind(held, n);
      StatusSaysIff(lib, r, g, gateways);
    }
  }

  /** The status computed under a listing accepts some parentRef with the gateway's name,
      whatever its namespace: what the object's status shows for that parentRef. */
  ghost predicate StatusSaysByName(lib: Lib, r: HTTPRoute, g: Gateway, gateways: seq<Gateway>) {
    exists p :: p in r.parentRefs && p.name == g.name &&
                AcceptedCondition(lib, r, p, gateways).status == ConditionTrue
  }

  /** Some parentRef with the name of gateway `g` fits gateway `h`. */
  ghost predicate FitsByName(r: HTTPRoute, g: Gateway, h: Gateway) {
    exists p :: p in r.parentRefs && p.name == g.name && Fits(r, p, h)
  }

  lemma StatusSaysByNameIff(lib: Lib, r: HTTPRoute, g: Gateway, gateways: seq<Gateway>)
    ensures StatusSaysByName(lib, r, g, gateways) <==>
            Valid(lib, r) && LookupGateway(gateways, g.name).Some? &&
            FitsByName(r, g, LookupGateway(gateways, g.name).value)
  {
    forall p: ParentReference | p.name == g.name
      ensures AcceptedCondition(lib, r, p, gateways).status == ConditionTrue <==>
              Valid(lib, r) && LookupGateway(gateways, g.name).Some? &&
              Fits(r, p, LookupGateway(gateways, g.name).value)
    {
      AcceptedIff(lib, r, p, gateways);
    }
  }

  /** For a gateway that lookups by its name find: being reported accepted means that
      something is emitted exactly when some fitting parentRef of that name also has a
      compatible namespace, or the route is invalid or does not fit at all. The converse
      always holds. */
  lemma AcceptedByNameEmitsIff(lib: Lib, gateways: seq<Gateway>, g: Gateway, r: HTTPRoute, cluster: Cluster)
    requires LookupGateway(gateways, g.name) == Some(g)
    ensures (StatusSaysByName(lib, r, g, gateways) ==> GatewayRoutes(lib, [r], cluster)(g) != []) <==>
            (Valid(lib, r) && FitsByName(r, g, g) ==> FitsVia(r, g, g))
    ensures GatewayRoutes(lib, [r], cluster)(g) != [] ==> StatusSaysByName(lib, r, g, gateways)
  {
    EmitsSomething(lib, g, r, cluster);
    EmitsIffFits(lib, g, r);
    StatusSaysByNameIff(lib, r, g, gateways);
  }

  /** The held gateways named as the `k`-th fit the route for some parentRef of that name
      just when the `k`-th fits it for one that names its namespace too. */
  ghost predicate NameDecides(r: HTTPRoute, held: map<NamespacedName, Gateway>, k: NamespacedName)
    requires k in held
  {
    forall n :: HeldAs(held, n, held[k].name) ==>
      (FitsByName(r, held[k], held[n]) <==> FitsVia(r, held[k], held[k]))
  }

  /** What is reported for a gateway's name and what the gateway emits agree, for every
      listing of the held gateways, exactly when the route is invalid or the name decides. */
  lemma StatusByNameAgreesIff(lib: Lib, held: map<NamespacedName, Gateway>, k: NamespacedName, r: HTTPRoute,
                              cluster: Cluster)
    requires k in held
    ensures (forall gateways :: Enumerates(gateways, held) ==>
              (GatewayRoutes(lib, [r], cluster)(held[k]) != [] <==> StatusSaysByName(lib, r, held[k], gateways))) <==>
            (Valid(lib, r) ==> NameDecides(r, held, k))
  {
    var g := held[k];
    EmitsSomething(lib, g, r, cluster);
    EmitsIffFits(lib, g, r);
    if Valid(lib, r) ==> NameDecides(r, held, k) {
      forall gateways | Enumerates(gateways, held)
        ensures GatewayRoutes(lib, [r], cluster)(g) != [] <==> StatusSaysByName(lib, r, g, gateways)
      {
        StatusSaysByNameIff(lib, r, g, gateways);
        assert HeldAs(held, k, g.name);
        LookupHeld(gateways, held, g.name);
      }
    } else {
      var n :| HeldAs(held, n, g.name) && !(FitsByName(r, g, held[n]) <==> FitsVia(r, g, g));
      var gateways := LookupCanFind(held, n);
      StatusSaysByNameIff(lib, r, g, gateways);
    }
  }

  const NO_STATUS := GatewayStatus([], [], [])
  const OPEN_GATEWAY := Gateway("prod", "gw", 1, [Listener("http", HTTP, None)], NO_STATUS)
  const BARE_GATEWAY := Gateway("dev", "gw", 1, [], NO_STATUS)

  function PlainRef(namespace: Option<string>): ParentReference {
    ParentReference(None, None, namespace, "gw", None, None)
  }

  function PlainRoute(namespace: Option<string>): HTTPRoute {
    HTTPRoute("prod", "r", 1, [PlainRef(namespace)], [], [], [])
  }

  /** Acceptance ignores the parentRef's namespace, the compiler does not: this route
      is reported accepted by a gateway that emits nothing for it. */
  lemma AcceptedWithoutEmission(lib: Lib, cluster: Cluster)
    ensures var p, r := PlainRef(Some("staging")), PlainRoute(Some("staging"));
            && AcceptedCondition(lib, r, p, [OPEN_GATEWAY]).status == ConditionTrue
            && GatewayRoutes(lib, [r], cluster)(OPEN_GATEWAY) == []
  {
    var p, r := PlainRef(Some("staging")), PlainRoute(Some("staging"));
    AcceptedIff(lib, r, p, [OPEN_GATEWAY]);
    assert OPEN_GATEWAY.listeners[0] in OPEN_GATEWAY.listeners;
    EmitsSomething(lib, OPEN_GATEWAY, r, cluster);
    assert "staging"[0] != "prod"[0];
  }

  /** Lookup is by name only: a gateway of the same name in another namespace, found
      first, makes this route look rejected while its own gateway emits for it. */
  lemma EmissionWithoutAcceptance(lib: Lib, cluster: Cluster)
    ensures var p, r := PlainRef(None), PlainRoute(None);
            && AcceptedCondition(lib, r, p, [BARE_GATEWAY, OPEN_GATEWAY]).status == ConditionFalse
            && GatewayRoutes(lib, [r], cluster)(OPEN_GATEWAY) != []
  {
    var p, r := PlainRef(None), PlainRoute(None);
    AcceptedIff(lib, r, p, [BARE_GATEWAY, OPEN_GATEWAY]);
    EmitsSomething(lib, OPEN_GATEWAY, r, cluster);
    var l := OPEN_GATEWAY.listeners[0];
    assert l in OPEN_GATEWAY.listeners && p in r.parentRefs && RefersTo(p, OPEN_GATEWAY, l);
    assert EmitsFor(lib, OPEN_GATEWAY, l, r);
  }

  const TWO_LISTENERS := Gateway(
    "prod", "gw", 1, [Listener("http", HTTP, None), Listener("https", HTTPS, None)], NO_STATUS)
  const SECTION_ROUTE := PlainRoute(None).(parentRefs := [PlainRef(None).(sectionName := Some("https"))])

  lemma SectionBinds(lib: Lib, r: HTTPRoute)
    requires r == SECTION_ROUTE.(parents := r.parents)
    ensures !EmitsFor(lib, TWO_LISTENERS, TWO_LISTENERS.listeners[0], r)
    ensures EmitsFor(lib, TWO_LISTENERS, TWO_LISTENERS.listeners[1], r)
  {
    var l := TWO_LISTENERS.listeners[1];
    assert |"http"| != |"https"|;
    RefersToIff(r.parentRefs[0], TWO_LISTENERS, TWO_LISTENERS.listeners[0]);
    RefersToIff(r.parentRefs[0], TWO_LISTENERS, l);
    assert l in TWO_LISTENERS.listeners && r.parentRefs[0] in r.parentRefs;
  }

  /** A parentRef with a section name attaches the route to that listener alone: it is
      accepted, and emitted for `https` and not for `http`. */
  lemma SectionSelectsListener(lib: Lib, cluster: Cluster)
    ensures var g, r := TWO_LISTENERS, SECTION_ROUTE;
            && AcceptedCondition(lib, r, r.parentRefs[0], [g]).status == ConditionTrue
            && ListenerRoutes(lib, g, [r], cluster)(g.listeners[0]) == []
            && ListenerRoutes(lib, g, [r], cluster)(g.listeners[1]) == [CompiledRoute(lib, g.listeners[1], r, cluster)]
  {
    var g, r := TWO_LISTENERS, SECTION_ROUTE;
    SectionBinds(lib, r);
    EmittedIff(lib, g, g.listeners[0], r);
    EmittedIff(lib, g, g.listeners[1], r);
    FlatMapOne(Emitted(lib, g, g.listeners[0], cluster), r);
    FlatMapOne(Emitted(lib, g, g.listeners[1], cluster), r);
    AcceptedIff(lib, r, r.parentRefs[0], [g]);
    FitsIff(r, r.parentRefs[0], g);
    assert g.listeners[1] in g.listeners;
  }

  // ----- what a compiled rule answers

  predicate HasPort(ref: HTTPBackendRef) {
    ref.port != None
  }

  /** Position of the first backendRef with a port. */
  function FirstPort(refs: seq<HTTPBackendRef>): (i: nat)
    ensures i <= |refs|
    ensures forall j :: 0 <= j < i ==> !HasPort(refs[j])
    ensures i < |refs| ==> HasPort(refs[i])
  {
    if refs == [] then 0
    else if HasPort(refs[0]) then 0
    else FirstPort(refs[1..]) + 1
  }

  /** When all kinds are supported, the loop over backendRefs takes the first one with
      a port and its unsupported-kind branch is never reached. */
  lemma {:induction false} SupportedBackend(route: HTTPRoute, refs: seq<HTTPBackendRef>, cluster: Cluster)
    requires forall b :: b in refs ==> KindSupported(b)
    ensures var i := FirstPort(refs);
            BackendOf(route, refs, cluster, None) ==
            BackendOutcome(
              if i < |refs| then Some(CompiledBackend(route, refs[i], refs[i].port.value, cluster)) else None, None)
    decreases |refs|
  {
    if refs == [] {
    } else {
      assert KindSupported(refs[0]);
      if !HasPort(refs[0]) {
        SupportedBackend(route, refs[1..], cluster);
      }
    }
  }

  ghost predicate KindsSupported(route: HTTPRoute) {
    forall rule, b :: rule in route.rules && b in rule.backendRefs ==> KindSupported(b)
  }

  datatype Answer =
    | Redirecting(redirect: InternalRedirect)
    | Failing(status: int)
    | Forwarding(backend: InternalBackend)
    | NotFound

  /** What a source rule should answer: its redirect; else a server error if any rule of
      its route names an unsupported kind; else its first backend with a port; else not
      found. */
  ghost function SourceAnswer(route: HTTPRoute, rule: HTTPRouteRule, cluster: Cluster): Answer {
    var i := FirstPort(rule.backendRefs);
    if RuleRedirect(rule).Some? then Redirecting(RuleRedirect(rule).value)
    else if !KindsSupported(route) then Failing(500)
    else if i < |rule.backendRefs| then
      Forwarding(CompiledBackend(route, rule.backendRefs[i], rule.backendRefs[i].port.value, cluster))
    else NotFound
  }

  /** A backend excludes a redirect and an error; all rules of a route carry the error
      of the route or none does; and the rule's fields are those its source asks for. */
  lemma RuleOutcome(lib: Lib, route: HTTPRoute, rule: HTTPRouteRule, cluster: Cluster)
    requires rule in route.rules
    ensures var ir := CompiledRule(lib, route, cluster)(rule);
            && (ir.backend.Some? ==> ir.redirect.None? && ir.error.None?)
            && (ir.error.Some? <==> !KindsSupported(route))
            && (ir.error.Some? ==> ir.error == RouteError(route) && ir.error.value.httpStatusCode == 500)
            && ir.redirect == RuleRedirect(rule)
            && (ir.backend.Some? <==> SourceAnswer(route, rule, cluster).Forwarding?)
            && (ir.backend.Some? ==> SourceAnswer(route, rule, cluster) == Forwarding(ir.backend.value))
  {
    ResolvedRefsIff(route);
    if KindsSupported(route) {
      SupportedBackend(route, rule.backendRefs, cluster);
    }
  }

  lemma {:induction false} FirstRedirectIs(filters: seq<HTTPRouteFilter>, i: nat)
    requires i < |filters| && filters[i].RequestRedirect?
    requires forall j :: 0 <= j < i ==> !filters[j].RequestRedirect?
    ensures FirstRedirect(filters) == Some(filters[i].redirect)
    decreases i
  {
    if i == 0 {
    } else {
      FirstRedirectIs(filters[1..], i - 1);
    }
  }

  /** A rule redirects by its first redirect filter, field by field; the path value is
      the replacement that belongs to the path modifier's type. */
  lemma RedirectMeaning(rule: HTTPRouteRule, i: nat)
    requires i < |rule.filters| && rule.filters[i].RequestRedirect?
    requires forall j :: 0 <= j < i ==> !rule.filters[j].RequestRedirect?
    ensures RuleRedirect(rule).Some?
    ensures var source, r := rule.filters[i].redirect, RuleRedirect(rule).value;
            && r.scheme == source.scheme && r.hostname == source.hostname && r.port == source.port
            && r.statusCode == source.statusCode
            && (r.path.Some? <==> source.path.Some?)
            && (r.path.Some? ==> r.path.value.kind == source.path.value.kind)
            && (r.path.Some? ==>
                 var value := match r.path.value.kind
                   case FullPath => source.path.value.replaceFullPath
                   case PrefixMatch => source.path.value.replacePrefixMatch
                   case OtherPathModifier(_) => None;
                 r.path.value.value == if value.Some? then value.value else "")
  {
    FirstRedirectIs(rule.filters, i);
  }

  lemma {:induction false} NoRedirect(filters: seq<HTTPRouteFilter>)
    ensures FirstRedirect(filters).None? <==> forall f :: f in filters ==> !f.RequestRedirect?
    decreases |filters|
  {
    if filters == [] {
    } else {
      NoRedirect(filters[1..]);
      assert forall f :: f in filters <==> f == filters[0] || f in filters[1..];
    }
  }

  /** A rule redirects exactly when it has a redirect filter. */
  lemma RedirectsIff(rule: HTTPRouteRule)
    ensures RuleRedirect(rule).Some? <==> exists f :: f in rule.filters && f.RequestRedirect?
  {
    NoRedirect(rule.filters);
  }

  lemma {:induction false} SelectedTargets(policies: seq<BackendTLSPolicy>, service: NamespacedName)
    ensures var selected := SelectedPolicy(policies, service);
            selected.Some? ==> selected.value in policies && Targets(selected.value, service)
    ensures SelectedPolicy(policies, service).None? ==> forall p :: p in policies ==> !Targets(p, service)
    decreases |policies|
  {
    if policies == [] {
    } else {
      SelectedTargets(policies[..|policies| - 1], service);
      assert forall p :: p in policies <==> p in policies[..|policies| - 1] || p == policies[|policies| - 1];
    }
  }

  /** Of several policies that target a service, the last one listed decides. */
  lemma {:induction false} LastPolicyDecides(policies: seq<BackendTLSPolicy>, service: NamespacedName, i: nat)
    requires i < |policies| && Targets(policies[i], service)
    requires forall j :: i < j < |policies| ==> !Targets(policies[j], service)
    ensures SelectedPolicy(policies, service) == Some(policies[i])
    decreases |policies|
  {
    if i == |policies| - 1 {
    } else {
      LastPolicyDecides(policies[..|policies| - 1], service, i);
    }
  }

  /** The protocol of a service's port is that of the first port entry with its number. */
  lemma {:induction false} FirstPortDecides(ports: seq<ServicePort>, i: nat)
    requires i < |ports| && forall j :: 0 <= j < i ==> ports[j].port != ports[i].port
    ensures PortProtocol(ports, ports[i].port) == ports[i].appProtocol
    decreases i
  {
    if i == 0 {
    } else {
      FirstPortDecides(ports[1..], i - 1);
    }
  }

  lemma {:induction false} NoPortNoProtocol(ports: seq<ServicePort>, port: int)
    requires forall p :: p in ports ==> p.port != port
    ensures PortProtocol(ports, port) == None
    decreases |ports|
  {
    if ports == [] {
    } else {
      NoPortNoProtocol(ports[1..], port);
    }
  }

  /** A certificate is collected exactly when some ConfigMap reference of the policy
      resolves to it: from the text data, or else from the binary data. */
  lemma CACertMeaning(policy: BackendTLSPolicy, configMaps: map<NamespacedName, ConfigMap>, cert: string)
    ensures cert in PolicyTLS(policy, configMaps).caCerts <==>
            exists ref :: ref in policy.caCertificateRefs && ref.group == "" && ref.kind == "ConfigMap" &&
              var name := NamespacedName(policy.namespace, ref.name);
              name in configMaps &&
              (("ca.crt" in configMaps[name].data && configMaps[name].data["ca.crt"] == cert) ||
               ("ca.crt" !in configMaps[name].data && "ca.crt" in configMaps[name].binaryData &&
                configMaps[name].binaryData["ca.crt"] == cert))
  {
    FlatMapMember(CACert(policy, configMaps), policy.caCertificateRefs, cert);
  }

  /** The backend of a service carries TLS settings exactly when some policy targets the
      service, and then its protocol is https. */
  lemma BackendMeaning(route: HTTPRoute, ref: HTTPBackendRef, port: int, cluster: Cluster)
    ensures var b := CompiledBackend(route, ref, port, cluster);
            var service := ServiceName(route, ref);
            && b.port == port
            && (b.tlsConfig.Some? <==> exists p :: p in cluster.policies && Targets(p, service))
            && (b.tlsConfig.Some? ==> b.appProtocol == Some("https"))
            && (b.tlsConfig.None? && service !in cluster.services ==> b.appProtocol.None?)
  {
    SelectedTargets(cluster.policies, ServiceName(route, ref));
  }

  /** The policy lists the service among its targets and lives in its namespace. */
  predicate PolicyTargets(p: BackendTLSPolicy, namespace: string, name: string) {
    p.namespace == namespace &&
    exists t :: t in p.targetRefs && t.group == "" && t.kind == "Service" && t.name == name
  }

  lemma PolicyTargetsIff(p: BackendTLSPolicy, namespace: string, name: string)
    ensures Targets(p, NamespacedName(namespace, name)) <==> PolicyTargets(p, namespace, name)
  {
    if t :| t in p.targetRefs && t.group == "" && t.kind == "Service" && t.name == name {
      assert TargetsService(t, name);
    }
    if t :| t in p.targetRefs && TargetsService(t, name) {
      assert t.group == "" && t.kind == "Service" && t.name == name;
    }
  }

  /** The backend that a backendRef of a route in `routeNamespace` asks for: the cluster
      name of its service, in the ref's namespace or else the route's, and its port. */
  predicate IsBackendOf(b: InternalBackend, ref: HTTPBackendRef, routeNamespace: string) {
    var namespace := match ref.namespace case None => routeNamespace case Some(n) => n;
    b.host == ref.name + "." + namespace + ".svc.cluster.local" && ref.port == Some(b.port)
  }

  /** The i-th entry is the first of that port number. */
  predicate FirstEntry(ports: seq<ServicePort>, port: int, i: nat)
    requires i < |ports|
  {
    ports[i].port == port && forall j :: 0 <= j < i ==> ports[j].port != port
  }

  /** With no policy for the service, the backend has no TLS settings and the protocol of
      the service's first port entry of that number, if there is one. */
  ghost predicate PlainProtocol(b: InternalBackend, services: map<NamespacedName, Service>, service: NamespacedName) {
    && b.tlsConfig == None
    && (service !in services ==> b.appProtocol == None)
    && (service in services ==>
          var ports := services[service].ports;
          && ((forall p :: p in ports ==> p.port != b.port) ==> b.appProtocol == None)
          && (forall i :: 0 <= i < |ports| && FirstEntry(ports, b.port, i) ==> b.appProtocol == ports[i].appProtocol))
  }

  lemma PlainBackend(route: HTTPRoute, ref: HTTPBackendRef, port: int, cluster: Cluster)
    requires var namespace := match ref.namespace case None => route.namespace case Some(n) => n;
             forall p :: p in cluster.policies ==> !PolicyTargets(p, namespace, ref.name)
    ensures var namespace := match ref.namespace case None => route.namespace case Some(n) => n;
            PlainProtocol(CompiledBackend(route, ref, port, cluster), cluster.services,
                          NamespacedName(namespace, ref.name))
  {
    var namespace := match ref.namespace case None => route.namespace case Some(n) => n;
    var service := NamespacedName(namespace, ref.name);
    SelectedTargets(cluster.policies, service);
    forall p ensures Targets(p, service) <==> PolicyTargets(p, namespace, ref.name) {
      PolicyTargetsIff(p, namespace, ref.name);
    }
    if service in cluster.services {
      var ports := cluster.services[service].ports;
      if forall p :: p in ports ==> p.port != port {
        NoPortNoProtocol(ports, port);
      }
      forall i | 0 <= i < |ports| && FirstEntry(ports, port, i)
        ensures PortProtocol(ports, port) == ports[i].appProtocol
      {
        FirstPortDecides(ports, i);
      }
    }
  }

  /** With the `n`-th policy the last for the service, the backend speaks https and is
      verified against that policy's hostname. */
  lemma SecuredBackend(route: HTTPRoute, ref: HTTPBackendRef, port: int, cluster: Cluster, n: nat)
    requires n < |cluster.policies|
    requires var namespace := match ref.namespace case None => route.namespace case Some(n) => n;
             && PolicyTargets(cluster.policies[n], namespace, ref.name)
             && forall m :: n < m < |cluster.policies| ==> !PolicyTargets(cluster.policies[m], namespace, ref.name)
    ensures var b := CompiledBackend(route, ref, port, cluster);
            && b.appProtocol == Some("https") && b.tlsConfig.Some?
            && b.tlsConfig.value.hostname == cluster.policies[n].hostname
            && b.tlsConfig.value.caCerts == PolicyTLS(cluster.policies[n], cluster.configMaps).caCerts
  {
    var namespace := match ref.namespace case None => route.namespace case Some(n) => n;
    forall p ensures Targets(p, NamespacedName(namespace, ref.name)) <==> PolicyTargets(p, namespace, ref.name) {
      PolicyTargetsIff(p, namespace, ref.name);
    }
    LastPolicyDecides(cluster.policies, NamespacedName(namespace, ref.name), n);
  }

  /** A rule that forwards does so to the backend that its first backendRef with a port
      asks for. */
  lemma ForwardingMeaning(lib: Lib, route: HTTPRoute, rule: HTTPRouteRule, cluster: Cluster, b: InternalBackend)
    returns (i: nat)
    requires rule in route.rules
    requires CompiledRule(lib, route, cluster)(rule).backend == Some(b) ||
             SourceAnswer(route, rule, cluster) == Forwarding(b)
    ensures CompiledRule(lib, route, cluster)(rule).backend == Some(b)
    ensures SourceAnswer(route, rule, cluster) == Forwarding(b)
    ensures i < |rule.backendRefs| && (forall j :: 0 <= j < i ==> rule.backendRefs[j].port == None)
    ensures IsBackendOf(b, rule.backendRefs[i], route.namespace)
    ensures b == CompiledBackend(route, rule.backendRefs[i], b.port, cluster)
  {
    RuleOutcome(lib, route, rule, cluster);
    i := FirstPort(rule.backendRefs);
    forall j | 0 <= j < i ensures rule.backendRefs[j].port == None {
      assert !HasPort(rule.backendRefs[j]);
    }
  }

  // ----- services, policies and config maps only decorate backends

  function Undecorated(): InternalRule -> InternalRule {
    (rule: InternalRule) =>
      match rule.backend
      case None => rule
      case Some(b) => rule.(backend := Some(b.(appProtocol := None, tlsConfig := None)))
  }

  function UndecoratedRoute(): InternalRoute -> InternalRoute {
    (ir: InternalRoute) => ir.(rules := MapSeq(Undecorated(), ir.rules))
  }

  lemma {:induction false} BackendUndecorated(route: HTTPRoute, refs: seq<HTTPBackendRef>, c1: Cluster, c2: Cluster,
                                              error: Option<ErrorState>)
    ensures var o1, o2 := BackendOf(route, refs, c1, error), BackendOf(route, refs, c2, error);
            o1.error == o2.error && (o1.backend.None? <==> o2.backend.None?) &&
            (o1.backend.Some? ==>
              && o1.backend.value.host == o2.backend.value.host
              && o1.backend.value.port == o2.backend.value.port)
    decreases |refs|
  {
    if refs == [] {
    } else {
      var kind := if ValueOf(refs[0].kind, "") == "" then SERVICE else refs[0].kind.value;
      BackendUndecorated(route, refs[1..], c1, c2, Some(KindError(kind)));
      BackendUndecorated(route, refs[1..], c1, c2, error);
    }
  }

  lemma RuleUndecorated(lib: Lib, route: HTTPRoute, rule: HTTPRouteRule, c1: Cluster, c2: Cluster)
    ensures Undecorated()(CompiledRule(lib, route, c1)(rule)) == Undecorated()(CompiledRule(lib, route, c2)(rule))
  {
    BackendUndecorated(route, rule.backendRefs, c1, c2, None);
  }

  lemma RouteUndecorated(lib: Lib, l: Listener, route: HTTPRoute, c1: Cluster, c2: Cluster)
    ensures UndecoratedRoute()(CompiledRoute(lib, l, route, c1)) == UndecoratedRoute()(CompiledRoute(lib, l, route, c2))
  {
    forall i | 0 <= i < |route.rules|
      ensures Undecorated()(CompiledRule(lib, route, c1)(route.rules[i])) ==
              Undecorated()(CompiledRule(lib, route, c2)(route.rules[i]))
    {
      RuleUndecorated(lib, route, route.rules[i], c1, c2);
    }
  }

  /** Changing services, policies or config maps leaves the table as it is, up to the
      application protocol and TLS settings of its backends. */
  lemma TableUndecorated(lib: Lib, gateways: seq<Gateway>, routes: seq<HTTPRoute>, c1: Cluster, c2: Cluster)
    ensures MapSeq(UndecoratedRoute(), Table(lib, gateways, routes, c1)) ==
            MapSeq(UndecoratedRoute(), Table(lib, gateways, routes, c2))
  {
    forall g | g in gateways
      ensures MapSeq(UndecoratedRoute(), GatewayRoutes(lib, routes, c1)(g)) ==
              MapSeq(UndecoratedRoute(), GatewayRoutes(lib, routes, c2)(g))
    {
      GatewayUndecorated(lib, g, routes, c1, c2);
    }
    MapFlatMapAgree(UndecoratedRoute(), GatewayRoutes(lib, routes, c1), GatewayRoutes(lib, routes, c2), gateways);
  }

  lemma GatewayUndecorated(lib: Lib, g: Gateway, routes: seq<HTTPRoute>, c1: Cluster, c2: Cluster)
    ensures MapSeq(UndecoratedRoute(), GatewayRoutes(lib, routes, c1)(g)) ==
            MapSeq(UndecoratedRoute(), GatewayRoutes(lib, routes, c2)(g))
  {
    forall l | l in g.listeners
      ensures MapSeq(UndecoratedRoute(), ListenerRoutes(lib, g, routes, c1)(l)) ==
              MapSeq(UndecoratedRoute(), ListenerRoutes(lib, g, routes, c2)(l))
    {
      forall r | r in routes
        ensures MapSeq(UndecoratedRoute(), Emitted(lib, g, l, c1)(r)) ==
                MapSeq(UndecoratedRoute(), Emitted(lib, g, l, c2)(r))
      {
        RouteUndecorated(lib, l, r, c1, c2);
      }
      MapFlatMapAgree(UndecoratedRoute(), Emitted(lib, g, l, c1), Emitted(lib, g, l, c2), routes);
    }
    MapFlatMapAgree(UndecoratedRoute(), ListenerRoutes(lib, g, routes, c1), ListenerRoutes(lib, g, routes, c2),
                    g.listeners);
  }

  function UndecoratedCandidate(): Candidate -> Candidate {
    (c: Candidate) => c.(rule := Undecorated()(c.rule))
  }

  lemma RuleCandidatesUndecorated(lib: Lib, rule: InternalRule, req: Request)
    ensures RuleCandidates(lib, req)(Undecorated()(rule)) ==
            MapSeq(UndecoratedCandidate(), RuleCandidates(lib, req)(rule))
  {
    var rule' := Undecorated()(rule);
    if rule.matches != [] {
      MatchCandidatesUndecorated(lib, rule, rule.matches, req);
    }
  }

  lemma {:induction false} MatchCandidatesUndecorated(lib: Lib, rule: InternalRule, ms: seq<InternalMatch>,
                                                      req: Request)
    ensures FlatMap(MatchCandidates(lib, Undecorated()(rule), req), ms) ==
            MapSeq(UndecoratedCandidate(), FlatMap(MatchCandidates(lib, rule, req), ms))
    decreases |ms|
  {
    if ms == [] {
    } else {
      var n := |ms| - 1;
      MatchCandidatesUndecorated(lib, rule, ms[..n], req);
      MapSeqAppend(UndecoratedCandidate(), FlatMap(MatchCandidates(lib, rule, req), ms[..n]),
                   MatchCandidates(lib, rule, req)(ms[n]));
    }
  }

  lemma RulesUndecorated(lib: Lib, rules: seq<InternalRule>, req: Request)
    ensures FlatMap(RuleCandidates(lib, req), MapSeq(Undecorated(), rules)) ==
            MapSeq(UndecoratedCandidate(), FlatMap(RuleCandidates(lib, req), rules))
  {
    forall rule | rule in rules
      ensures RuleCandidates(lib, req)(Undecorated()(rule)) ==
              MapSeq(UndecoratedCandidate(), RuleCandidates(lib, req)(rule))
    {
      RuleCandidatesUndecorated(lib, rule, req);
    }
    MirrorMap(RuleCandidates(lib, req), Undecorated(), UndecoratedCandidate(), RuleCandidates(lib, req), rules);
  }

  lemma CandidatesUndecorated(lib: Lib, table: seq<InternalRoute>, req: Request)
    ensures Candidates(lib, MapSeq(UndecoratedRoute(), table), req) ==
            MapSeq(UndecoratedCandidate(), Candidates(lib, table, req))
  {
    forall ir | ir in table
      ensures RouteCandidates(lib, req)(UndecoratedRoute()(ir)) ==
              MapSeq(UndecoratedCandidate(), RouteCandidates(lib, req)(ir))
    {
      RulesUndecorated(lib, ir.rules, req);
    }
    MirrorMap(RouteCandidates(lib, req), UndecoratedRoute(), UndecoratedCandidate(), RouteCandidates(lib, req), table);
  }

  lemma {:induction false} WinnerUndecorated(cs: seq<Candidate>)
    ensures Winner(MapSeq(UndecoratedCandidate(), cs)) == Winner(cs)
    decreases |cs|
  {
    var ds := MapSeq(UndecoratedCandidate(), cs);
    if cs == [] {
    } else {
      var n := |cs| - 1;
      WinnerUndecorated(cs[..n]);
      assert ds[..n] == MapSeq(UndecoratedCandidate(), cs[..n]);
    }
  }

  /** Tables equal up to decoration have, for every request, the same candidates up to
      decoration, and the matcher ends on the same position. */
  lemma SameUndecoratedSameWinner(lib: Lib, t1: seq<InternalRoute>, t2: seq<InternalRoute>, req: Request)
    requires MapSeq(UndecoratedRoute(), t1) == MapSeq(UndecoratedRoute(), t2)
    ensures var cs1, cs2 := Candidates(lib, t1, req), Candidates(lib, t2, req);
            && |cs1| == |cs2|
            && MapSeq(UndecoratedCandidate(), cs1) == MapSeq(UndecoratedCandidate(), cs2)
            && Winner(cs1) == Winner(cs2)
  {
    var cs1, cs2 := Candidates(lib, t1, req), Candidates(lib, t2, req);
    CandidatesUndecorated(lib, t1, req);
    CandidatesUndecorated(lib, t2, req);
    WinnerUndecorated(cs1);
    WinnerUndecorated(cs2);
    assert |MapSeq(UndecoratedCandidate(), cs1)| == |MapSeq(UndecoratedCandidate(), cs2)|;
  }

  lemma MapSeqPrefix<A, B>(m: A -> B, s: seq<A>, k: nat)
    requires k <= |s|
    ensures MapSeq(m, s[..k]) == MapSeq(m, s)[..k]
  {
  }

  /** Within two rule lists equal up to decoration, every prefix has as many candidates,
      and the rules have the same matches. */
  lemma SameUndecoratedSameRules(lib: Lib, rules1: seq<InternalRule>, rules2: seq<InternalRule>, req: Request, j: nat)
    requires MapSeq(Undecorated(), rules1) == MapSeq(Undecorated(), rules2) && j <= |rules1|
    ensures |rules1| == |rules2|
    ensures |FlatMap(RuleCandidates(lib, req), rules1[..j])| == |FlatMap(RuleCandidates(lib, req), rules2[..j])|
    ensures j < |rules1| ==> rules1[j].matches == rules2[j].matches
  {
    assert |rules1| == |MapSeq(Undecorated(), rules1)| == |MapSeq(Undecorated(), rules2)|;
    RulesUndecorated(lib, rules1[..j], req);
    RulesUndecorated(lib, rules2[..j], req);
    MapSeqPrefix(Undecorated(), rules1, j);
    MapSeqPrefix(Undecorated(), rules2, j);
    assert |MapSeq(UndecoratedCandidate(), FlatMap(RuleCandidates(lib, req), rules1[..j]))| ==
           |MapSeq(UndecoratedCandidate(), FlatMap(RuleCandidates(lib, req), rules2[..j]))|;
    if j < |rules1| {
      assert MapSeq(Undecorated(), rules1)[j] == MapSeq(Undecorated(), rules2)[j];
    }
  }

  /** In the k-th routes of the two tables, the first j rules have as many candidates, and
      the j-th rules have the same matches. */
  lemma ClusterKeepsRuleAndMatch(lib: Lib, gateways: seq<Gateway>, routes: seq<HTTPRoute>, c1: Cluster, c2: Cluster,
                                 req: Request, k: nat, j: nat)
    requires k < |Table(lib, gateways, routes, c1)| && j <= |Table(lib, gateways, routes, c1)[k].rules|
    ensures k < |Table(lib, gateways, routes, c2)|
    ensures var r1, r2 := Table(lib, gateways, routes, c1)[k], Table(lib, gateways, routes, c2)[k];
            && r1.hostnames == r2.hostnames && |r1.rules| == |r2.rules|
            && |FlatMap(RuleCandidates(lib, req), r1.rules[..j])| == |FlatMap(RuleCandidates(lib, req), r2.rules[..j])|
            && (j < |r1.rules| ==> r1.rules[j].matches == r2.rules[j].matches)
  {
    var t1, t2 := Table(lib, gateways, routes, c1), Table(lib, gateways, routes, c2);
    TableUndecorated(lib, gateways, routes, c1, c2);
    assert |t1| == |MapSeq(UndecoratedRoute(), t1)| == |MapSeq(UndecoratedRoute(), t2)|;
    assert MapSeq(UndecoratedRoute(), t1)[k] == MapSeq(UndecoratedRoute(), t2)[k];
    assert UndecoratedRoute()(t1[k]).rules == UndecoratedRoute()(t2[k]).rules;
    SameUndecoratedSameRules(lib, t1[k].rules, t2[k].rules, req, j);
  }

  /** For every request, two tables built from the same gateways and routes have the
      same candidates up to decoration, position by position, and the matcher ends on
      the same one; their first k routes have as many, so the winner lies in the same
      route. */
  lemma ClusterDoesNotInterfere(lib: Lib, gateways: seq<Gateway>, routes: seq<HTTPRoute>, c1: Cluster, c2: Cluster,
                                req: Request, k: nat)
    requires k <= |Table(lib, gateways, routes, c1)|
    ensures var t1, t2 := Table(lib, gateways, routes, c1), Table(lib, gateways, routes, c2);
            var cs1, cs2 := Candidates(lib, t1, req), Candidates(lib, t2, req);
            && |t1| == |t2|
            && Winner(cs1) == Winner(cs2)
            && MapSeq(UndecoratedCandidate(), cs1) == MapSeq(UndecoratedCandidate(), cs2)
            && |Candidates(lib, t1[..k], req)| == |Candidates(lib, t2[..k], req)|
  {
    var t1, t2 := Table(lib, gateways, routes, c1), Table(lib, gateways, routes, c2);
    TableUndecorated(lib, gateways, routes, c1, c2);
    assert |t1| == |MapSeq(UndecoratedRoute(), t1)| == |MapSeq(UndecoratedRoute(), t2)|;
    SameUndecoratedSameWinner(lib, t1, t2, req);
    MapSeqPrefix(UndecoratedRoute(), t1, k);
    MapSeqPrefix(UndecoratedRoute(), t2, k);
    SameUndecoratedSameWinner(lib, t1[..k], t2[..k], req);
  }
}
