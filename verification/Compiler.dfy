/** GatewayState.BuildInternalRoutes of pkg/state/gateway.go: the loops, and the
    functions that say what each of them computes. */
module Compiler {
  import opened Common
  import opened GatewayApi
  import opened Hostnames
  import opened Matching
  import opened RouteStatus

  // ----- attachment to one listener

  /** The three tests a parentRef must pass before acceptance is computed. */
  predicate RefersTo(parentRef: ParentReference, gateway: Gateway, listener: Listener) {
    && NamesGateway(parentRef, gateway)
    && NamesSection(parentRef, listener)
  }

  predicate NamesGateway(parentRef: ParentReference, gateway: Gateway) {
    var ns := ValueOf(parentRef.namespace, "");
    parentRef.name == gateway.name && (ns == "" || ns == gateway.namespace)
  }

  /** In terms of the fields: the gateway's name, no or its own namespace, and no or the
      listener's section. */
  lemma RefersToIff(p: ParentReference, gateway: Gateway, listener: Listener)
    ensures RefersTo(p, gateway, listener) <==>
            && p.name == gateway.name
            && p.namespace in {None, Some(""), Some(gateway.namespace)}
            && p.sectionName in {None, Some(""), Some(listener.name)}
  {
  }

  predicate Binds(lib: Lib, gateway: Gateway, listener: Listener, route: HTTPRoute, parentRef: ParentReference) {
    RefersTo(parentRef, gateway, listener) &&
    AcceptedCondition(lib, route, parentRef, [gateway]).status == ConditionTrue
  }

  predicate Bound(lib: Lib, gateway: Gateway, listener: Listener, route: HTTPRoute) {
    exists p :: p in route.parentRefs && Binds(lib, gateway, listener, route, p)
  }

  method FindBound(lib: Lib, gateway: Gateway, listener: Listener, route: HTTPRoute) returns (bound: bool)
    ensures bound <==> Bound(lib, gateway, listener, route)
  {
    bound := false;
    for i := 0 to |route.parentRefs|
      invariant !bound && forall j :: 0 <= j < i ==> !Binds(lib, gateway, listener, route, route.parentRefs[j])
    {
      var parentRef := route.parentRefs[i];
      if parentRef.name != gateway.name {
        continue;
      }
      var ns := ValueOf(parentRef.namespace, "");
      if ns != "" && ns != gateway.namespace {
        continue;
      }
      var sn := ValueOf(parentRef.sectionName, "");
      if sn != "" && sn != listener.name {
        continue;
      }
      var cond := ComputeAcceptedCondition(lib, route, parentRef, [gateway]);
      if cond.status == ConditionTrue {
        bound := true;
        assert parentRef in route.parentRefs;
        break;
      }
    }
  }

  // ----- redirects

  function FirstRedirect(filters: seq<HTTPRouteFilter>): Option<HTTPRequestRedirect> {
    if filters == [] then None
    else if filters[0].RequestRedirect? then Some(filters[0].redirect)
    else FirstRedirect(filters[1..])
  }

  function CompiledRedirect(r: HTTPRequestRedirect): InternalRedirect {
    var path := match r.path
      case None => None
      case Some(p) =>
        var value := match p.kind
          case FullPath => ValueOf(p.replaceFullPath, "")
          case PrefixMatch => ValueOf(p.replacePrefixMatch, "")
          case OtherPathModifier(_) => "";
        Some(InternalPathRedirect(p.kind, value));
    InternalRedirect(r.scheme, r.hostname, path, r.port, r.statusCode)
  }

  function RuleRedirect(rule: HTTPRouteRule): Option<InternalRedirect> {
    match FirstRedirect(rule.filters) case None => None case Some(r) => Some(CompiledRedirect(r))
  }

  method FindRedirect(rule: HTTPRouteRule) returns (redirect: Option<InternalRedirect>)
    ensures redirect == RuleRedirect(rule)
  {
    redirect := None;
    assert rule.filters[0..] == rule.filters;
    for i := 0 to |rule.filters|
      invariant redirect == None && FirstRedirect(rule.filters[i..]) == FirstRedirect(rule.filters)
    {
      if rule.filters[i].RequestRedirect? {
        var r := rule.filters[i].redirect;
        var path: Option<InternalPathRedirect> := None;
        if r.path.Some? {
          var pathValue := "";
          if r.path.value.kind == FullPath {
            pathValue := ValueOf(r.path.value.replaceFullPath, "");
          } else if r.path.value.kind == PrefixMatch {
            pathValue := ValueOf(r.path.value.replacePrefixMatch, "");
          }
          path := Some(InternalPathRedirect(r.path.value.kind, pathValue));
        }
        redirect := Some(InternalRedirect(r.scheme, r.hostname, path, r.port, r.statusCode));
        break;
      }
    }
  }

  // ----- backends

  function PortProtocol(ports: seq<ServicePort>, port: int): Option<string> {
    if ports == [] then None
    else if ports[0].port == port then ports[0].appProtocol
    else PortProtocol(ports[1..], port)
  }

  function BackendNamespace(route: HTTPRoute, ref: HTTPBackendRef): string {
    ValueOf(ref.namespace, route.namespace)
  }

  function ServiceProtocol(services: map<NamespacedName, Service>, name: NamespacedName, port: int): Option<string> {
    if name in services then PortProtocol(services[name].ports, port) else None
  }

  method FindAppProtocol(services: map<NamespacedName, Service>, name: NamespacedName, port: int)
    returns (appProtocol: Option<string>)
    ensures appProtocol == ServiceProtocol(services, name, port)
  {
    appProtocol := None;
    if name in services {
      var ports := services[name].ports;
      assert ports[0..] == ports;
      for i := 0 to |ports|
        invariant appProtocol == None && PortProtocol(ports[i..], port) == PortProtocol(ports, port)
      {
        if ports[i].port == port {
          appProtocol := ports[i].appProtocol;
          break;
        }
      }
    }
  }

  predicate TargetsService(t: ObjectRef, name: string) {
    t.group == "" && t.kind == SERVICE && t.name == name
  }

  /** A targetRef of the policy is this service. */
  predicate Targets(policy: BackendTLSPolicy, service: NamespacedName) {
    policy.namespace == service.namespace &&
    exists t :: t in policy.targetRefs && TargetsService(t, service.name)
  }

  /** The last policy that targets the service: only the loop over targetRefs is left
      when one is found. */
  function SelectedPolicy(policies: seq<BackendTLSPolicy>, service: NamespacedName): Option<BackendTLSPolicy> {
    if policies == [] then None
    else if Targets(policies[|policies| - 1], service) then Some(policies[|policies| - 1])
    else SelectedPolicy(policies[..|policies| - 1], service)
  }

  function CACert(policy: BackendTLSPolicy, configMaps: map<NamespacedName, ConfigMap>): ObjectRef -> seq<string> {
    (caRef: ObjectRef) =>
      var name := NamespacedName(policy.namespace, caRef.name);
      if caRef.group == "" && caRef.kind == "ConfigMap" && name in configMaps then
        if "ca.crt" in configMaps[name].data then [configMaps[name].data["ca.crt"]]
        else if "ca.crt" in configMaps[name].binaryData then [configMaps[name].binaryData["ca.crt"]]
        else []
      else []
  }

  function PolicyTLS(policy: BackendTLSPolicy, configMaps: map<NamespacedName, ConfigMap>): InternalTLSConfig {
    InternalTLSConfig(policy.hostname, FlatMap(CACert(policy, configMaps), policy.caCertificateRefs))
  }

  method CollectCACerts(policy: BackendTLSPolicy, configMaps: map<NamespacedName, ConfigMap>)
    returns (caCerts: seq<string>)
    ensures caCerts == FlatMap(CACert(policy, configMaps), policy.caCertificateRefs)
  {
    caCerts := [];
    var refs := policy.caCertificateRefs;
    for i := 0 to |refs|
      invariant caCerts == FlatMap(CACert(policy, configMaps), refs[..i])
    {
      FlatMapStep(CACert(policy, configMaps), refs, i);
      if refs[i].group == "" && refs[i].kind == "ConfigMap" {
        var cmName := NamespacedName(policy.namespace, refs[i].name);
        if cmName in configMaps {
          var cm := configMaps[cmName];
          if "ca.crt" in cm.data {
            caCerts := caCerts + [cm.data["ca.crt"]];
          } else if "ca.crt" in cm.binaryData {
            caCerts := caCerts + [cm.binaryData["ca.crt"]];
          }
        }
      }
    }
    assert refs[..|refs|] == refs;
  }

  method FindTLS(policies: seq<BackendTLSPolicy>, configMaps: map<NamespacedName, ConfigMap>, service: NamespacedName,
                 appProtocol0: Option<string>)
    returns (appProtocol: Option<string>, tlsConfig: Option<InternalTLSConfig>)
    ensures match SelectedPolicy(policies, service)
            case None => appProtocol == appProtocol0 && tlsConfig == None
            case Some(p) => appProtocol == Some("https") && tlsConfig == Some(PolicyTLS(p, configMaps))
  {
    appProtocol, tlsConfig := appProtocol0, None;
    for i := 0 to |policies|
      invariant match SelectedPolicy(policies[..i], service)
                case None => appProtocol == appProtocol0 && tlsConfig == None
                case Some(p) => appProtocol == Some("https") && tlsConfig == Some(PolicyTLS(p, configMaps))
    {
      var policy := policies[i];
      assert policies[..i + 1][..i] == policies[..i];
      ghost var found := false;
      for j := 0 to |policy.targetRefs|
        invariant !found && forall k :: 0 <= k < j ==>
          !(TargetsService(policy.targetRefs[k], service.name) && policy.namespace == service.namespace)
        invariant match SelectedPolicy(policies[..i], service)
                  case None => appProtocol == appProtocol0 && tlsConfig == None
                  case Some(p) => appProtocol == Some("https") && tlsConfig == Some(PolicyTLS(p, configMaps))
      {
        var t := policy.targetRefs[j];
        if t.group == "" && t.kind == SERVICE && t.name == service.name && policy.namespace == service.namespace {
          appProtocol := Some("https");
          var caCerts := CollectCACerts(policy, configMaps);
          tlsConfig := Some(InternalTLSConfig(policy.hostname, caCerts));
          found := true;
          assert t in policy.targetRefs;
          break;
        }
      }
      assert found <==> Targets(policy, service);
    }
    assert policies[..|policies|] == policies;
  }

  function ServiceName(route: HTTPRoute, ref: HTTPBackendRef): NamespacedName {
    NamespacedName(BackendNamespace(route, ref), ref.name)
  }

  function CompiledBackend(route: HTTPRoute, ref: HTTPBackendRef, port: int, cluster: Cluster): InternalBackend {
    var service := ServiceName(route, ref);
    var policy := SelectedPolicy(cluster.policies, service);
    InternalBackend(
      ref.name + "." + service.namespace + ".svc.cluster.local", port,
      if policy.Some? then Some("https") else ServiceProtocol(cluster.services, service, port),
      if policy.Some? then Some(PolicyTLS(policy.value, cluster.configMaps)) else None)
  }

  function KindError(kind: string): ErrorState {
    var message := "Unsupported backend kind: " + kind;
    ErrorState(Condition(RESOLVED_REFS, ConditionFalse, 0, "InvalidKind", message), 500, message)
  }

  datatype BackendOutcome = BackendOutcome(backend: Option<InternalBackend>, error: Option<ErrorState>)

  /** The loop over backendRefs: the first one with a supported kind and a port wins
      and clears the error left by the unsupported kinds before it. */
  function BackendOf(route: HTTPRoute, refs: seq<HTTPBackendRef>, cluster: Cluster,
                     error: Option<ErrorState>): BackendOutcome {
    if refs == [] then BackendOutcome(None, error)
    else
      var ref := refs[0];
      var kind := if ValueOf(ref.kind, "") == "" then SERVICE else ref.kind.value;
      if kind != SERVICE then BackendOf(route, refs[1..], cluster, Some(KindError(kind)))
      else match ref.port
        case None => BackendOf(route, refs[1..], cluster, error)
        case Some(port) => BackendOutcome(Some(CompiledBackend(route, ref, port, cluster)), None)
  }

  method FindBackend(route: HTTPRoute, refs: seq<HTTPBackendRef>, cluster: Cluster)
    returns (backend: Option<InternalBackend>, error: Option<ErrorState>)
    ensures BackendOutcome(backend, error) == BackendOf(route, refs, cluster, None)
  {
    backend, error := None, None;
    assert refs[0..] == refs;
    for i := 0 to |refs|
      invariant backend == None && BackendOf(route, refs[i..], cluster, error) == BackendOf(route, refs, cluster, None)
    {
      var ref := refs[i];
      var kind := ValueOf(ref.kind, "");
      if kind == "" {
        kind := SERVICE;
      }
      if kind != SERVICE {
        error := Some(KindError(kind));
        continue;
      }
      if ref.port.None? {
        continue;
      }
      var backendSvcNamespace := route.namespace;
      if ref.namespace.Some? {
        backendSvcNamespace := ref.namespace.value;
      }
      var backendSvcName := NamespacedName(backendSvcNamespace, ref.name);
      var appProtocol := FindAppProtocol(cluster.services, backendSvcName, ref.port.value);
      var tlsConfig;
      appProtocol, tlsConfig := FindTLS(cluster.policies, cluster.configMaps, backendSvcName, appProtocol);
      backend := Some(InternalBackend(
        ref.name + "." + backendSvcNamespace + ".svc.cluster.local", ref.port.value, appProtocol, tlsConfig));
      error := None;
      break;
    }
  }

  // ----- matches

  function CompiledHeader(lib: Lib): HTTPHeaderMatch -> InternalHeaderMatch {
    (h: HTTPHeaderMatch) =>
      var kind := ValueOf(h.kind, NoHeaderType);
      var kind' := if kind == NoHeaderType then HeaderExact else kind;
      InternalHeaderMatch(kind', h.name, h.value,
        if kind' == HeaderRegularExpression && lib.compileError(h.value).None? then Some(h.value) else None)
  }

  function CompiledPath(p: HTTPPathMatch): InternalPathMatch {
    var kind := ValueOf(p.kind, NoPathType);
    InternalPathMatch(if kind == NoPathType then PathPrefix else kind, ValueOf(p.value, ""))
  }

  function CompiledMatch(lib: Lib): HTTPRouteMatch -> InternalMatch {
    (m: HTTPRouteMatch) =>
      InternalMatch(
        match m.path case None => None case Some(p) => Some(CompiledPath(p)),
        MapSeq(CompiledHeader(lib), m.headers))
  }

  method CompileMatch(lib: Lib, m: HTTPRouteMatch) returns (iMatch: InternalMatch)
    ensures iMatch == CompiledMatch(lib)(m)
  {
    iMatch := InternalMatch(None, []);
    if m.path.Some? {
      var kind := ValueOf(m.path.value.kind, NoPathType);
      iMatch := iMatch.(path := Some(InternalPathMatch(kind, ValueOf(m.path.value.value, ""))));
      if kind == NoPathType {
        iMatch := iMatch.(path := Some(iMatch.path.value.(kind := PathPrefix)));
      }
    }
    for i := 0 to |m.headers|
      invariant iMatch.path == CompiledMatch(lib)(m).path
      invariant iMatch.headers == MapSeq(CompiledHeader(lib), m.headers[..i])
    {
      MapSeqStep(CompiledHeader(lib), m.headers, i);
      var header := m.headers[i];
      var headerType := ValueOf(header.kind, NoHeaderType);
      if headerType == NoHeaderType {
        headerType := HeaderExact;
      }
      var hm := InternalHeaderMatch(headerType, header.name, header.value, None);
      if headerType == HeaderRegularExpression {
        if lib.compileError(header.value).None? {
          hm := hm.(regexp := Some(header.value));
        }
      }
      iMatch := iMatch.(headers := iMatch.headers + [hm]);
    }
    assert m.headers[..|m.headers|] == m.headers;
  }

  // ----- rules

  function RouteError(route: HTTPRoute): Option<ErrorState> {
    var cond := ResolvedRefsCondition(route);
    if cond.status == ConditionFalse then Some(ErrorState(cond, 500, cond.message)) else None
  }

  function CompiledRule(lib: Lib, route: HTTPRoute, cluster: Cluster): HTTPRouteRule -> InternalRule {
    (rule: HTTPRouteRule) =>
      var redirect := RuleRedirect(rule);
      var outcome :=
        if RouteError(route).Some? then BackendOutcome(None, RouteError(route))
        else if redirect.None? then BackendOf(route, rule.backendRefs, cluster, None)
        else BackendOutcome(None, None);
      InternalRule(MapSeq(CompiledMatch(lib), rule.matches), outcome.backend, redirect, outcome.error)
  }

  method CompileRule(lib: Lib, route: HTTPRoute, resolvedRefsCond: Condition, rule: HTTPRouteRule, cluster: Cluster)
    returns (iRule: InternalRule)
    requires resolvedRefsCond == ResolvedRefsCondition(route)
    ensures iRule == CompiledRule(lib, route, cluster)(rule)
  {
    var redirect := FindRedirect(rule);
    iRule := InternalRule([], None, redirect, None);
    if resolvedRefsCond.status == ConditionFalse {
      iRule := iRule.(error := Some(ErrorState(resolvedRefsCond, 500, resolvedRefsCond.message)));
    } else if redirect.None? {
      var backend, error := FindBackend(route, rule.backendRefs, cluster);
      iRule := iRule.(backend := backend, error := error);
    }
    for i := 0 to |rule.matches|
      invariant iRule == CompiledRule(lib, route, cluster)(rule).(
        matches := MapSeq(CompiledMatch(lib), rule.matches[..i]))
    {
      MapSeqStep(CompiledMatch(lib), rule.matches, i);
      var iMatch := CompileMatch(lib, rule.matches[i]);
      iRule := iRule.(matches := iRule.matches + [iMatch]);
    }
    assert rule.matches[..|rule.matches|] == rule.matches;
  }

  // ----- routes, listeners, gateways

  function CompiledRoute(lib: Lib, listener: Listener, route: HTTPRoute, cluster: Cluster): InternalRoute {
    InternalRoute(EffectiveHostnames(route, listener), MapSeq(CompiledRule(lib, route, cluster), route.rules))
  }

  /** What one listener contributes for one route: one internal route or none. */
  function Emitted(lib: Lib, gateway: Gateway, listener: Listener, cluster: Cluster): HTTPRoute -> seq<InternalRoute> {
    (route: HTTPRoute) =>
      if Bound(lib, gateway, listener, route) && Overlaps(route, listener)
      then [CompiledRoute(lib, listener, route, cluster)] else []
  }

  function ListenerRoutes(lib: Lib, gateway: Gateway, routes: seq<HTTPRoute>,
                          cluster: Cluster): Listener -> seq<InternalRoute> {
    (listener: Listener) =>
      if ServesHTTP(listener) then FlatMap(Emitted(lib, gateway, listener, cluster), routes) else []
  }

  function GatewayRoutes(lib: Lib, routes: seq<HTTPRoute>, cluster: Cluster): Gateway -> seq<InternalRoute> {
    (gateway: Gateway) => FlatMap(ListenerRoutes(lib, gateway, routes, cluster), gateway.listeners)
  }

  /** The table updateProxy publishes. */
  function Table(lib: Lib, gateways: seq<Gateway>, routes: seq<HTTPRoute>, cluster: Cluster): seq<InternalRoute> {
    FlatMap(GatewayRoutes(lib, routes, cluster), gateways)
  }

  method CompileRoute(lib: Lib, listener: Listener, route: HTTPRoute, cluster: Cluster, effectiveHostnames: seq<string>)
    returns (ir: InternalRoute)
    requires effectiveHostnames == EffectiveHostnames(route, listener)
    ensures ir == CompiledRoute(lib, listener, route, cluster)
  {
    ir := InternalRoute(effectiveHostnames, []);
    var resolvedRefsCond := ComputeResolvedRefsCondition(route);
    for i := 0 to |route.rules|
      invariant ir.hostnames == effectiveHostnames
      invariant ir.rules == MapSeq(CompiledRule(lib, route, cluster), route.rules[..i])
    {
      MapSeqStep(CompiledRule(lib, route, cluster), route.rules, i);
      var iRule := CompileRule(lib, route, resolvedRefsCond, route.rules[i], cluster);
      ir := ir.(rules := ir.rules + [iRule]);
    }
    assert route.rules[..|route.rules|] == route.rules;
  }

  /** The loop of BuildInternalRoutes over the routes, for one HTTP(S) listener. */
  method BuildListenerRoutes(lib: Lib, gateway: Gateway, listener: Listener, routes: seq<HTTPRoute>, cluster: Cluster)
    returns (internalRoutes: seq<InternalRoute>)
    ensures internalRoutes == FlatMap(Emitted(lib, gateway, listener, cluster), routes)
  {
    internalRoutes := [];
    for j := 0 to |routes|
      invariant internalRoutes == FlatMap(Emitted(lib, gateway, listener, cluster), routes[..j])
    {
      var route := routes[j];
      FlatMapStep(Emitted(lib, gateway, listener, cluster), routes, j);
      var bound := FindBound(lib, gateway, listener, route);
      if !bound {
        continue;
      }
      var effectiveHostnames := IntersectHostnames(route.hostnames, ValueOf(listener.hostname, ""));
      if |effectiveHostnames| == 0 && |route.hostnames| > 0 {
        continue;
      }
      var ir := CompileRoute(lib, listener, route, cluster, effectiveHostnames);
      internalRoutes := internalRoutes + [ir];
    }
    assert routes[..|routes|] == routes;
  }

  method BuildInternalRoutes(lib: Lib, gateway: Gateway, routes: seq<HTTPRoute>, cluster: Cluster)
    returns (internalRoutes: seq<InternalRoute>)
    ensures internalRoutes == GatewayRoutes(lib, routes, cluster)(gateway)
  {
    internalRoutes := [];
    for i := 0 to |gateway.listeners|
      invariant internalRoutes == FlatMap(ListenerRoutes(lib, gateway, routes, cluster), gateway.listeners[..i])
    {
      var listener := gateway.listeners[i];
      FlatMapStep(ListenerRoutes(lib, gateway, routes, cluster), gateway.listeners, i);
      if listener.protocol != HTTP && listener.protocol != HTTPS {
        continue;
      }
      var emitted := BuildListenerRoutes(lib, gateway, listener, routes, cluster);
      internalRoutes := internalRoutes + emitted;
    }
    assert gateway.listeners[..|gateway.listeners|] == gateway.listeners;
  }
}
