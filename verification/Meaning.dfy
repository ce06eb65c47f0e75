/** The route compiler preserves meaning: matching a request against the compiled
    table is interpreting the Gateway API objects directly. */
module Meaning {
  import opened Common
  import opened GatewayApi
  import opened Hostnames
  import opened Paths
  import opened Matching
  import opened RouteStatus
  import opened Compiler

  // ----- the source objects, read directly

  /** An HTTPRouteMatch read directly: an absent path type is a prefix, an absent
      header type is an exact value. */
  predicate SourceTakesPath(m: HTTPRouteMatch, path: string) {
    match m.path
    case None => true
    case Some(p) =>
      match p.kind
      case Some(Exact) => path == ValueOf(p.value, "")
      case Some(RegularExpression) => true
      case _ => HasPathPrefix(path, ValueOf(p.value, ""))
  }

  predicate SourceTakesHeader(lib: Lib, h: HTTPHeaderMatch, req: Request) {
    var key := lib.canonicalHeaderKey(h.name);
    key in req.header &&
    exists i :: 0 <= i < |req.header[key]| &&
      if h.kind == Some(HeaderRegularExpression)
      then lib.compileError(h.value).None? && lib.matchString(h.value, req.header[key][i])
      else req.header[key][i] == h.value
  }

  predicate SourceTakesMatch(lib: Lib, m: HTTPRouteMatch, req: Request) {
    SourceTakesPath(m, req.path) && forall h :: h in m.headers ==> SourceTakesHeader(lib, h, req)
  }

  /** The listener serves HTTP, the route is valid, and one of its parentRefs names
      the gateway and the listener. */
  ghost predicate Attached(lib: Lib, gateway: Gateway, listener: Listener, route: HTTPRoute) {
    (listener.protocol == HTTP || listener.protocol == HTTPS) && Valid(lib, route) &&
    exists p :: p in route.parentRefs && RefersTo(p, gateway, listener)
  }

  ghost predicate SourceTakesHost(lib: Lib, listener: Listener, route: HTTPRoute, req: Request) {
    var host := match lib.splitHost(req.host) case None => req.host case Some(h) => h;
    SourceTakes(route.hostnames, ValueOf(listener.hostname, ""), host)
  }

  datatype SourceCandidate = SourceCandidate(
    gateway: Gateway, listener: Listener, route: HTTPRoute, rule: HTTPRouteRule, m: Option<HTTPRouteMatch>)

  /** The objects take the request in the way `sc` says. */
  ghost predicate SourceTakesBy(lib: Lib, gateways: seq<Gateway>, routes: seq<HTTPRoute>, req: Request,
                                sc: SourceCandidate) {
    && sc.gateway in gateways && sc.listener in sc.gateway.listeners
    && sc.route in routes && Attached(lib, sc.gateway, sc.listener, sc.route)
    && SourceTakesHost(lib, sc.listener, sc.route, req)
    && sc.rule in sc.route.rules
    && match sc.m
       case None => sc.rule.matches == []
       case Some(m) => m in sc.rule.matches && SourceTakesMatch(lib, m, req)
  }

  // ----- the same, in document order

  ghost function SourceOfMatch(lib: Lib, g: Gateway, l: Listener, r: HTTPRoute, rule: HTTPRouteRule,
                               req: Request): HTTPRouteMatch -> seq<SourceCandidate> {
    (m: HTTPRouteMatch) => if SourceTakesMatch(lib, m, req) then [SourceCandidate(g, l, r, rule, Some(m))] else []
  }

  ghost function SourceOfRule(lib: Lib, g: Gateway, l: Listener, r: HTTPRoute,
                              req: Request): HTTPRouteRule -> seq<SourceCandidate> {
    (rule: HTTPRouteRule) =>
      if rule.matches == [] then [SourceCandidate(g, l, r, rule, None)]
      else FlatMap(SourceOfMatch(lib, g, l, r, rule, req), rule.matches)
  }

  ghost function SourceOfRoute(lib: Lib, g: Gateway, l: Listener, req: Request): HTTPRoute -> seq<SourceCandidate> {
    (r: HTTPRoute) =>
      if Attached(lib, g, l, r) && SourceTakesHost(lib, l, r, req)
      then FlatMap(SourceOfRule(lib, g, l, r, req), r.rules) else []
  }

  ghost function SourceOfListener(lib: Lib, g: Gateway, routes: seq<HTTPRoute>,
                                  req: Request): Listener -> seq<SourceCandidate> {
    (l: Listener) => FlatMap(SourceOfRoute(lib, g, l, req), routes)
  }

  ghost function SourceOfGateway(lib: Lib, routes: seq<HTTPRoute>, req: Request): Gateway -> seq<SourceCandidate> {
    (g: Gateway) => FlatMap(SourceOfListener(lib, g, routes, req), g.listeners)
  }

  ghost function SourceCandidates(lib: Lib, gateways: seq<Gateway>, routes: seq<HTTPRoute>,
                                  req: Request): seq<SourceCandidate> {
    FlatMap(SourceOfGateway(lib, routes, req), gateways)
  }

  lemma SourceOfRuleMember(lib: Lib, g: Gateway, l: Listener, r: HTTPRoute, req: Request, rule: HTTPRouteRule,
                           sc: SourceCandidate)
    ensures sc in SourceOfRule(lib, g, l, r, req)(rule) <==>
            && sc.gateway == g && sc.listener == l && sc.route == r && sc.rule == rule
            && match sc.m
               case None => rule.matches == []
               case Some(m) => m in rule.matches && SourceTakesMatch(lib, m, req)
  {
    FlatMapMember(SourceOfMatch(lib, g, l, r, rule, req), rule.matches, sc);
  }

  lemma SourceOfRouteMember(lib: Lib, g: Gateway, l: Listener, req: Request, r: HTTPRoute, sc: SourceCandidate)
    ensures sc in SourceOfRoute(lib, g, l, req)(r) <==>
            && Attached(lib, g, l, r) && SourceTakesHost(lib, l, r, req)
            && exists rule :: rule in r.rules && sc in SourceOfRule(lib, g, l, r, req)(rule)
  {
    FlatMapMember(SourceOfRule(lib, g, l, r, req), r.rules, sc);
  }

  /** The ordered list holds exactly the ways the objects take the request. */
  lemma SourceCandidatesComplete(lib: Lib, gateways: seq<Gateway>, routes: seq<HTTPRoute>, req: Request,
                                 sc: SourceCandidate)
    ensures sc in SourceCandidates(lib, gateways, routes, req) <==> SourceTakesBy(lib, gateways, routes, req, sc)
  {
    FlatMapMember(SourceOfGateway(lib, routes, req), gateways, sc);
    if sc in SourceCandidates(lib, gateways, routes, req) {
      var g :| g in gateways && sc in SourceOfGateway(lib, routes, req)(g);
      FlatMapMember(SourceOfListener(lib, g, routes, req), g.listeners, sc);
      var l :| l in g.listeners && sc in SourceOfListener(lib, g, routes, req)(l);
      FlatMapMember(SourceOfRoute(lib, g, l, req), routes, sc);
      var r :| r in routes && sc in SourceOfRoute(lib, g, l, req)(r);
      SourceOfRouteMember(lib, g, l, req, r, sc);
      var rule :| rule in r.rules && sc in SourceOfRule(lib, g, l, r, req)(rule);
      SourceOfRuleMember(lib, g, l, r, req, rule, sc);
    }
    if SourceTakesBy(lib, gateways, routes, req, sc) {
      var g, l, r := sc.gateway, sc.listener, sc.route;
      SourceOfRuleMember(lib, g, l, r, req, sc.rule, sc);
      SourceOfRouteMember(lib, g, l, req, r, sc);
      FlatMapMember(SourceOfRoute(lib, g, l, req), routes, sc);
      FlatMapMember(SourceOfListener(lib, g, routes, req), g.listeners, sc);
    }
  }

  // ----- compiled pieces mean what their sources mean

  /** Per listener, emission is: an HTTP(S) listener, a valid route, a parentRef naming
      both, and a shared host; the listener itself witnesses acceptance. */
  lemma EmittedIff(lib: Lib, g: Gateway, l: Listener, r: HTTPRoute)
    requires l in g.listeners && ServesHTTP(l)
    ensures Bound(lib, g, l, r) && Overlaps(r, l) <==> Attached(lib, g, l, r) && HostsMeet(r, l)
  {
    OverlapsIffHostsMeet(r, l);
    forall p | RefersTo(p, g, l) && Overlaps(r, l)
      ensures Binds(lib, g, l, r, p) <==> Valid(lib, r)
    {
      AcceptedIff(lib, r, p, [g]);
    }
  }

  lemma CompiledHeaderMeaning(lib: Lib, h: HTTPHeaderMatch, req: Request)
    ensures AcceptsHeader(lib, CompiledHeader(lib)(h), req.header) <==> SourceTakesHeader(lib, h, req)
  {
    AcceptsHeaderIff(lib, CompiledHeader(lib)(h), req.header);
  }

  lemma CompiledMatchMeaning(lib: Lib, m: HTTPRouteMatch, req: Request)
    ensures MatchAccepts(lib, CompiledMatch(lib)(m), req.path, req.header) <==> SourceTakesMatch(lib, m, req)
  {
    var im := CompiledMatch(lib)(m);
    forall h ensures AcceptsHeader(lib, CompiledHeader(lib)(h), req.header) <==> SourceTakesHeader(lib, h, req) {
      CompiledHeaderMeaning(lib, h, req);
    }
    assert forall i :: 0 <= i < |m.headers| ==> im.headers[i] == CompiledHeader(lib)(m.headers[i]);
    if forall h :: h in m.headers ==> SourceTakesHeader(lib, h, req) {
      assert forall hm :: hm in im.headers ==> AcceptsHeader(lib, hm, req.header);
    }
    if forall hm :: hm in im.headers ==> AcceptsHeader(lib, hm, req.header) {
      forall h | h in m.headers ensures SourceTakesHeader(lib, h, req) {
        var i :| 0 <= i < |m.headers| && m.headers[i] == h;
        assert im.headers[i] in im.headers;
      }
    }
  }

  /** The compiled form of a source candidate. */
  function Compiled(lib: Lib, cluster: Cluster): SourceCandidate -> Candidate {
    (sc: SourceCandidate) =>
      var rule := CompiledRule(lib, sc.route, cluster)(sc.rule);
      match sc.m case None => Matchless(rule) case Some(m) => ByMatch(rule, CompiledMatch(lib)(m))
  }

  lemma RuleMirrors(lib: Lib, g: Gateway, l: Listener, r: HTTPRoute, rule: HTTPRouteRule, req: Request,
                    cluster: Cluster)
    ensures RuleCandidates(lib, req)(CompiledRule(lib, r, cluster)(rule)) ==
            MapSeq(Compiled(lib, cluster), SourceOfRule(lib, g, l, r, req)(rule))
  {
    var iRule := CompiledRule(lib, r, cluster)(rule);
    if rule.matches != [] {
      forall m | m in rule.matches
        ensures MatchCandidates(lib, iRule, req)(CompiledMatch(lib)(m)) ==
                MapSeq(Compiled(lib, cluster), SourceOfMatch(lib, g, l, r, rule, req)(m))
      {
        CompiledMatchMeaning(lib, m, req);
      }
      MirrorMap(MatchCandidates(lib, iRule, req), CompiledMatch(lib), Compiled(lib, cluster),
                SourceOfMatch(lib, g, l, r, rule, req), rule.matches);
    }
  }

  /** The emitted hostnames accept the request's host just when listener and route do. */
  lemma HostMirrors(lib: Lib, l: Listener, r: HTTPRoute, req: Request)
    requires Overlaps(r, l) && !EmptyHostnameLeaks(r.hostnames, ValueOf(l.hostname, ""))
    ensures TakesHost(lib, EffectiveHostnames(r, l), req) <==> SourceTakesHost(lib, l, r, req)
  {
    HostnamesExact(r.hostnames, ValueOf(l.hostname, ""));
  }

  lemma RulesMirror(lib: Lib, g: Gateway, l: Listener, r: HTTPRoute, req: Request, cluster: Cluster)
    ensures FlatMap(RuleCandidates(lib, req), MapSeq(CompiledRule(lib, r, cluster), r.rules)) ==
            MapSeq(Compiled(lib, cluster), FlatMap(SourceOfRule(lib, g, l, r, req), r.rules))
  {
    forall rule | rule in r.rules
      ensures RuleCandidates(lib, req)(CompiledRule(lib, r, cluster)(rule)) ==
              MapSeq(Compiled(lib, cluster), SourceOfRule(lib, g, l, r, req)(rule))
    {
      RuleMirrors(lib, g, l, r, rule, req, cluster);
    }
    MirrorMap(RuleCandidates(lib, req), CompiledRule(lib, r, cluster), Compiled(lib, cluster),
              SourceOfRule(lib, g, l, r, req), r.rules);
  }

  lemma RouteMirrors(lib: Lib, g: Gateway, l: Listener, r: HTTPRoute, req: Request, cluster: Cluster)
    requires l in g.listeners && ServesHTTP(l)
    requires Attached(lib, g, l, r) ==> !EmptyHostnameLeaks(r.hostnames, ValueOf(l.hostname, ""))
    ensures FlatMap(RouteCandidates(lib, req), Emitted(lib, g, l, cluster)(r)) ==
            MapSeq(Compiled(lib, cluster), SourceOfRoute(lib, g, l, req)(r))
  {
    EmittedIff(lib, g, l, r);
    if Bound(lib, g, l, r) && Overlaps(r, l) {
      FlatMapOne(RouteCandidates(lib, req), CompiledRoute(lib, l, r, cluster));
      HostMirrors(lib, l, r, req);
      RulesMirror(lib, g, l, r, req, cluster);
    } else if Attached(lib, g, l, r) {
      NoHostNoSource(lib, l, r, req);
    }
  }

  lemma NoHostNoSource(lib: Lib, l: Listener, r: HTTPRoute, req: Request)
    requires !HostsMeet(r, l)
    ensures !SourceTakesHost(lib, l, r, req)
  {
  }

  /** No listener passes an empty hostname of a route attached to it through. */
  ghost predicate HostnamesReadable(lib: Lib, gateways: seq<Gateway>, routes: seq<HTTPRoute>) {
    forall g, l, r :: g in gateways && l in g.listeners && r in routes && Attached(lib, g, l, r) ==>
      !EmptyHostnameLeaks(r.hostnames, ValueOf(l.hostname, ""))
  }

  lemma ListenerMirrors(lib: Lib, g: Gateway, l: Listener, routes: seq<HTTPRoute>, req: Request, cluster: Cluster)
    requires l in g.listeners && HostnamesReadable(lib, [g], routes)
    ensures FlatMap(RouteCandidates(lib, req), ListenerRoutes(lib, g, routes, cluster)(l)) ==
            MapSeq(Compiled(lib, cluster), SourceOfListener(lib, g, routes, req)(l))
  {
    assert g in [g];
    if ServesHTTP(l) {
      forall r | r in routes
        ensures FlatMap(RouteCandidates(lib, req), Emitted(lib, g, l, cluster)(r)) ==
                MapSeq(Compiled(lib, cluster), SourceOfRoute(lib, g, l, req)(r))
      {
        RouteMirrors(lib, g, l, r, req, cluster);
      }
      MirrorFlatMap(RouteCandidates(lib, req), Emitted(lib, g, l, cluster), Compiled(lib, cluster),
                    SourceOfRoute(lib, g, l, req), routes);
    } else {
      NothingAttached(lib, g, l, routes, req);
    }
  }

  lemma {:induction false} NothingAttached(lib: Lib, g: Gateway, l: Listener, routes: seq<HTTPRoute>, req: Request)
    requires !ServesHTTP(l)
    ensures FlatMap(SourceOfRoute(lib, g, l, req), routes) == []
    decreases |routes|
  {
    if routes == [] {
    } else {
      NothingAttached(lib, g, l, routes[..|routes| - 1], req);
    }
  }

  lemma GatewayMirrors(lib: Lib, g: Gateway, routes: seq<HTTPRoute>, req: Request, cluster: Cluster)
    requires HostnamesReadable(lib, [g], routes)
    ensures FlatMap(RouteCandidates(lib, req), GatewayRoutes(lib, routes, cluster)(g)) ==
            MapSeq(Compiled(lib, cluster), SourceOfGateway(lib, routes, req)(g))
  {
    forall l | l in g.listeners
      ensures FlatMap(RouteCandidates(lib, req), ListenerRoutes(lib, g, routes, cluster)(l)) ==
              MapSeq(Compiled(lib, cluster), SourceOfListener(lib, g, routes, req)(l))
    {
      ListenerMirrors(lib, g, l, routes, req, cluster);
    }
    MirrorFlatMap(RouteCandidates(lib, req), ListenerRoutes(lib, g, routes, cluster), Compiled(lib, cluster),
                  SourceOfListener(lib, g, routes, req), g.listeners);
  }

  /** For every set of objects, cluster and request: the candidates the matcher sees in
      the compiled table are, one by one and in order, the compiled forms of the ways
      the source objects take the request. */
  lemma CompilationPreservesMeaning(lib: Lib, gateways: seq<Gateway>, routes: seq<HTTPRoute>, cluster: Cluster,
                                    req: Request)
    requires HostnamesReadable(lib, gateways, routes)
    ensures Candidates(lib, Table(lib, gateways, routes, cluster), req) ==
            MapSeq(Compiled(lib, cluster), SourceCandidates(lib, gateways, routes, req))
  {
    forall g | g in gateways
      ensures FlatMap(RouteCandidates(lib, req), GatewayRoutes(lib, routes, cluster)(g)) ==
              MapSeq(Compiled(lib, cluster), SourceOfGateway(lib, routes, req)(g))
    {
      GatewayMirrors(lib, g, routes, req, cluster);
    }
    MirrorFlatMap(RouteCandidates(lib, req), GatewayRoutes(lib, routes, cluster), Compiled(lib, cluster),
                  SourceOfGateway(lib, routes, req), gateways);
  }

  // ----- the winner, in terms of the source

  /** Rank read off the source match. */
  function SourceRank(sc: SourceCandidate): Rank {
    match sc.m
    case None => MATCHLESS_RANK
    case Some(m) =>
      match m.path
      case None => Rank(1, 0, |m.headers|)
      case Some(p) =>
        var weight := match p.kind case Some(Exact) => 3 case Some(RegularExpression) => 0 case _ => 2;
        Rank(weight, |ValueOf(p.value, "")|, |m.headers|)
  }

  ghost predicate NoRegexPaths(routes: seq<HTTPRoute>) {
    forall r, rule, m :: r in routes && rule in r.rules && m in rule.matches ==>
      m.path.None? || m.path.value.kind != Some(RegularExpression)
  }

  ghost predicate IsFirstBestSource(ss: seq<SourceCandidate>, w: nat) {
    && w < |ss|
    && (forall j :: 0 <= j < w ==> Less(SourceRank(ss[j]), SourceRank(ss[w])))
    && (forall j :: 0 <= j < |ss| ==> !Less(SourceRank(ss[w]), SourceRank(ss[j])))
  }

  lemma CompiledRank(lib: Lib, cluster: Cluster, sc: SourceCandidate)
    ensures Compiled(lib, cluster)(sc).Rank() == SourceRank(sc)
  {
    match sc.m
    case None =>
    case Some(m) =>
      var im := CompiledMatch(lib)(m);
      assert Compiled(lib, cluster)(sc).Match() == im && |im.headers| == |m.headers|;
  }

  /** A rule without matches arrives while only regular-expression paths have taken the
      request, and nothing later outranks it. */
  ghost predicate SourceShadowedAt(ss: seq<SourceCandidate>, i: nat) {
    && 0 < i < |ss| && ss[i].m.None?
    && (forall j :: 0 <= j < i ==> SourceRank(ss[j]).weight == 0)
    && (forall k :: i < k < |ss| ==> !Less(MATCHLESS_RANK, SourceRank(ss[k])))
  }

  ghost predicate SourceShadowed(ss: seq<SourceCandidate>) {
    exists i: nat :: SourceShadowedAt(ss, i)
  }

  /** The first of greatest rank, not counting rules without matches that come later than
      the first place. */
  ghost predicate IsFirstEligibleSource(ss: seq<SourceCandidate>, w: nat) {
    && w < |ss| && (w == 0 || ss[w].m.Some?)
    && (forall j :: 0 <= j < w && (j == 0 || ss[j].m.Some?) ==> Less(SourceRank(ss[j]), SourceRank(ss[w])))
    && (forall j :: w < j < |ss| && ss[j].m.Some? ==> !Less(SourceRank(ss[w]), SourceRank(ss[j])))
  }

  lemma ShadowsMirror(cs: seq<Candidate>, ss: seq<SourceCandidate>, i: nat)
    requires |cs| == |ss|
    requires forall j: nat :: j < |ss| ==> cs[j].Rank() == SourceRank(ss[j]) && (cs[j].Matchless? <==> ss[j].m.None?)
    ensures ShadowedAt(cs, i) <==> SourceShadowedAt(ss, i)
  {
  }

  lemma WinnerMirrorsSource(lib: Lib, cluster: Cluster, cs: seq<Candidate>, ss: seq<SourceCandidate>)
    requires cs == MapSeq(Compiled(lib, cluster), ss) && cs != []
    ensures IsFirstEligibleSource(ss, Winner(cs).value)
    ensures IsFirstBestSource(ss, Winner(cs).value) <==> !SourceShadowed(ss)
  {
    forall i: nat | i < |ss| ensures cs[i].Rank() == SourceRank(ss[i]) && (cs[i].Matchless? <==> ss[i].m.None?) {
      CompiledRank(lib, cluster, ss[i]);
    }
    EligibleMirrorsSource(cs, ss);
    forall i: nat ensures ShadowedAt(cs, i) <==> SourceShadowedAt(ss, i) {
      ShadowsMirror(cs, ss, i);
    }
    WinnerIsFirstMaxIff(cs);
  }

  lemma EligibleMirrorsSource(cs: seq<Candidate>, ss: seq<SourceCandidate>)
    requires |cs| == |ss| && cs != []
    requires forall j: nat :: j < |ss| ==> cs[j].Rank() == SourceRank(ss[j]) && (cs[j].Matchless? <==> ss[j].m.None?)
    ensures IsFirstEligibleSource(ss, Winner(cs).value)
  {
    WinnerIsFirstEligibleMax(cs);
    assert forall j: nat :: j < |cs| ==> (Eligible(cs, j) <==> j == 0 || ss[j].m.Some?);
  }

  /** MatchRoute on the published table finds a rule exactly when the objects take the
      request in some way. */
  lemma RuleFoundIff(lib: Lib, gateways: seq<Gateway>, routes: seq<HTTPRoute>, cluster: Cluster, req: Request)
    requires HostnamesReadable(lib, gateways, routes)
    ensures Winner(Candidates(lib, Table(lib, gateways, routes, cluster), req)).Some? <==>
            exists sc :: SourceTakesBy(lib, gateways, routes, req, sc)
  {
    var ss := SourceCandidates(lib, gateways, routes, req);
    CompilationPreservesMeaning(lib, gateways, routes, cluster, req);
    if ss != [] {
      SourceCandidatesComplete(lib, gateways, routes, req, ss[0]);
    }
    forall sc | SourceTakesBy(lib, gateways, routes, req, sc) ensures ss != [] {
      SourceCandidatesComplete(lib, gateways, routes, req, sc);
    }
  }

  /** When a rule is found, it is the compiled form of a source candidate, and the match
      returned is its match. That candidate is the first of greatest rank among those
      eligible, and the first of greatest rank among all exactly when the list of source
      candidates is not shadowed. */
  lemma WinnerIsBestSource(lib: Lib, gateways: seq<Gateway>, routes: seq<HTTPRoute>, cluster: Cluster, req: Request)
    requires HostnamesReadable(lib, gateways, routes)
    ensures var cs := Candidates(lib, Table(lib, gateways, routes, cluster), req);
            var ss, w := SourceCandidates(lib, gateways, routes, req), Winner(cs);
            w.Some? ==>
              && IsFirstEligibleSource(ss, w.value)
              && (IsFirstBestSource(ss, w.value) <==> !SourceShadowed(ss))
              && WinningRule(cs, w) == Some(CompiledRule(lib, ss[w.value].route, cluster)(ss[w.value].rule))
              && WinningMatch(cs, w) == Some(Compiled(lib, cluster)(ss[w.value]).Match())
  {
    var cs := Candidates(lib, Table(lib, gateways, routes, cluster), req);
    var ss := SourceCandidates(lib, gateways, routes, req);
    CompilationPreservesMeaning(lib, gateways, routes, cluster, req);
    if cs != [] {
      WinnerMirrorsSource(lib, cluster, cs, ss);
    }
  }

  lemma NoRegexWeight(routes: seq<HTTPRoute>, sc: SourceCandidate)
    requires NoRegexPaths(routes) && sc.route in routes && sc.rule in sc.route.rules
    requires sc.m.Some? ==> sc.m.value in sc.rule.matches
    ensures SourceRank(sc).weight >= 1
  {
  }

  lemma FirstWeightNotShadowed(ss: seq<SourceCandidate>)
    requires ss != [] ==> SourceRank(ss[0]).weight >= 1
    ensures !SourceShadowed(ss)
  {
  }

  /** Routes without regular-expression paths are never shadowed. */
  lemma NoRegexNotShadowed(lib: Lib, gateways: seq<Gateway>, routes: seq<HTTPRoute>, req: Request)
    requires NoRegexPaths(routes)
    ensures !SourceShadowed(SourceCandidates(lib, gateways, routes, req))
  {
    var ss := SourceCandidates(lib, gateways, routes, req);
    if ss != [] {
      assert ss[0] in ss;
      SourceCandidatesComplete(lib, gateways, routes, req, ss[0]);
      NoRegexWeight(routes, ss[0]);
    }
    FirstWeightNotShadowed(ss);
  }
}
