/** BackendTLSPolicyReconciler.Reconcile of
    pkg/controller/backendtlspolicy_controller.go: the search for the gateways a policy
    affects, and the status diff. */
module PolicyReconciler {
  import opened Common
  import opened GatewayApi
  import opened Conditions
  import opened RouteStatus
  import opened Compiler
  import opened Outcomes
  import opened RouteReconciler
  import opened GatewayReconciler
  import opened Serving
  import opened Store

  // ----- the ancestor search

  predicate RefersToService(route: HTTPRoute, ref: HTTPBackendRef, service: NamespacedName) {
    (ValueOf(ref.kind, "") == SERVICE || ValueOf(ref.kind, "") == "") && ServiceName(route, ref) == service
  }

  predicate RuleUses(route: HTTPRoute, rule: HTTPRouteRule, service: NamespacedName) {
    exists b :: b in rule.backendRefs && RefersToService(route, b, service)
  }

  predicate RouteUses(gateway: Gateway, route: HTTPRoute, service: NamespacedName) {
    StoredMatches(route, gateway, CONTROLLER_NAME) &&
    exists rule :: rule in route.rules && RuleUses(route, rule, service)
  }

  /** Some route whose stored status names the gateway has a backendRef to the service. */
  predicate UsesService(gateway: Gateway, routes: seq<HTTPRoute>, service: NamespacedName) {
    exists r :: r in routes && RouteUses(gateway, r, service)
  }

  /** In terms of the fields: no kind or kind Service, the service's name, and its namespace
      or none while the route has it. */
  lemma RefersToServiceIff(r: HTTPRoute, b: HTTPBackendRef, service: NamespacedName)
    ensures RefersToService(r, b, service) <==>
            && b.kind in {None, Some(""), Some("Service")} && b.name == service.name
            && (b.namespace == Some(service.namespace) || (b.namespace == None && r.namespace == service.namespace))
  {
  }

  /** A gateway uses a service through a backendRef of a route whose status says that this
      gateway accepts it. */
  lemma UsesServiceIff(gateway: Gateway, routes: seq<HTTPRoute>, service: NamespacedName)
    ensures UsesService(gateway, routes, service) <==>
            exists r, rule, b :: r in routes && StoredMatches(r, gateway, CONTROLLER_NAME) && rule in r.rules &&
                                 b in rule.backendRefs && RefersToService(r, b, service)
  {
    if UsesService(gateway, routes, service) {
      var r :| r in routes && RouteUses(gateway, r, service);
      var rule :| rule in r.rules && RuleUses(r, rule, service);
      var b :| b in rule.backendRefs && RefersToService(r, b, service);
    }
    forall r, rule, b | r in routes && StoredMatches(r, gateway, CONTROLLER_NAME) && rule in r.rules &&
                        b in rule.backendRefs && RefersToService(r, b, service)
      ensures UsesService(gateway, routes, service)
    {
      assert RuleUses(r, rule, service);
      assert RouteUses(gateway, r, service);
    }
  }

  /** The flag and the three breaks of the search compute the existential. */
  method SearchRoutes(gateway: Gateway, routes: seq<HTTPRoute>, service: NamespacedName) returns (usesService: bool)
    ensures usesService <==> UsesService(gateway, routes, service)
  {
    usesService := false;
    for i := 0 to |routes|
      invariant !usesService && forall j :: 0 <= j < i ==> !RouteUses(gateway, routes[j], service)
    {
      var route := routes[i];
      var matches := MatchesGateway(route, gateway, CONTROLLER_NAME);
      if matches {
        for j := 0 to |route.rules|
          invariant !usesService && forall k :: 0 <= k < j ==> !RuleUses(route, route.rules[k], service)
        {
          var rule := route.rules[j];
          for k := 0 to |rule.backendRefs|
            invariant !usesService && forall m :: 0 <= m < k ==> !RefersToService(route, rule.backendRefs[m], service)
          {
            var backendRef := rule.backendRefs[k];
            if ValueOf(backendRef.kind, "") == SERVICE || ValueOf(backendRef.kind, "") == "" {
              var ns := route.namespace;
              if backendRef.namespace.Some? {
                ns := backendRef.namespace.value;
              }
              if ns == service.namespace && backendRef.name == service.name {
                usesService := true;
                assert backendRef in rule.backendRefs && RefersToService(route, backendRef, service);
                break;
              }
            }
          }
          if usesService {
            assert rule in route.rules && RuleUses(route, rule, service);
            break;
          }
        }
      }
      if usesService {
        assert route in routes && RouteUses(gateway, route, service);
        break;
      }
    }
  }

  // ----- certificate validation

  /** The text under ca.crt of the ConfigMap a reference names, text data first; empty if
      there is none. */
  function CertText(policy: BackendTLSPolicy, configMaps: map<NamespacedName, ConfigMap>): ObjectRef -> string {
    (ref: ObjectRef) =>
      var name := NamespacedName(policy.namespace, ref.name);
      if name !in configMaps then ""
      else if "ca.crt" in configMaps[name].data then configMaps[name].data["ca.crt"]
      else if "ca.crt" in configMaps[name].binaryData then configMaps[name].binaryData["ca.crt"]
      else ""
  }

  /** A reference is good if it names a ConfigMap that holds a certificate. */
  predicate Resolves(lib: Lib, policy: BackendTLSPolicy, configMaps: map<NamespacedName, ConfigMap>, ref: ObjectRef) {
    var text := CertText(policy, configMaps)(ref);
    ref.group == "" && ref.kind == "ConfigMap" && text != "" && lib.isCertificate(text)
  }

  /** The text that a reference's ConfigMap has under ca.crt, text data before binary. */
  predicate HoldsText(policy: BackendTLSPolicy, configMaps: map<NamespacedName, ConfigMap>, ref: ObjectRef,
                      text: string) {
    exists n :: n in configMaps && n.namespace == policy.namespace && n.name == ref.name &&
      (("ca.crt" in configMaps[n].data && configMaps[n].data["ca.crt"] == text) ||
       ("ca.crt" !in configMaps[n].data && "ca.crt" in configMaps[n].binaryData &&
        configMaps[n].binaryData["ca.crt"] == text))
  }

  /** In terms of the fields: a core ConfigMap of the policy's namespace, with a certificate
      as its text. */
  lemma ResolvesIff(lib: Lib, policy: BackendTLSPolicy, configMaps: map<NamespacedName, ConfigMap>, ref: ObjectRef)
    ensures Resolves(lib, policy, configMaps, ref) <==>
            && ref.group == "" && ref.kind == "ConfigMap"
            && exists text :: text != "" && lib.isCertificate(text) && HoldsText(policy, configMaps, ref, text)
  {
    var name, text := NamespacedName(policy.namespace, ref.name), CertText(policy, configMaps)(ref);
    if text != "" {
      assert name in configMaps;
      assert HoldsText(policy, configMaps, ref, text);
    }
    forall t | HoldsText(policy, configMaps, ref, t) ensures t == text {
      var n :| n in configMaps && n.namespace == policy.namespace && n.name == ref.name;
      assert n == name;
    }
  }

  function UnresolvedName(lib: Lib, policy: BackendTLSPolicy,
                          configMaps: map<NamespacedName, ConfigMap>): ObjectRef -> seq<string> {
    (ref: ObjectRef) => if Resolves(lib, policy, configMaps, ref) then [] else [ref.name]
  }

  function UnresolvedRefs(lib: Lib, policy: BackendTLSPolicy, configMaps: map<NamespacedName, ConfigMap>): seq<string> {
    FlatMap(UnresolvedName(lib, policy, configMaps), policy.caCertificateRefs)
  }

  /** The validation loop, reading config maps from the API server. */
  method ValidateCACerts(lib: Lib, policy: BackendTLSPolicy, configMaps: map<NamespacedName, ConfigMap>)
    returns (unresolvedRefs: seq<string>)
    ensures unresolvedRefs == UnresolvedRefs(lib, policy, configMaps)
  {
    unresolvedRefs := [];
    var refs := policy.caCertificateRefs;
    for i := 0 to |refs|
      invariant unresolvedRefs == FlatMap(UnresolvedName(lib, policy, configMaps), refs[..i])
    {
      var caRef := refs[i];
      FlatMapStep(UnresolvedName(lib, policy, configMaps), refs, i);
      if caRef.group == "" && caRef.kind == "ConfigMap" {
        var name := NamespacedName(policy.namespace, caRef.name);
        if name !in configMaps {
          unresolvedRefs := unresolvedRefs + [caRef.name];
        } else {
          var cm := configMaps[name];
          var data := "";
          if "ca.crt" in cm.data {
            data := cm.data["ca.crt"];
          } else if "ca.crt" in cm.binaryData {
            data := cm.binaryData["ca.crt"];
          }
          if |data| == 0 {
            unresolvedRefs := unresolvedRefs + [caRef.name];
          } else if !lib.isCertificate(data) {
            unresolvedRefs := unresolvedRefs + [caRef.name];
          }
        }
      } else {
        unresolvedRefs := unresolvedRefs + [caRef.name];
      }
    }
    assert refs[..|refs|] == refs;
  }

  lemma AllResolveIff(lib: Lib, policy: BackendTLSPolicy, configMaps: map<NamespacedName, ConfigMap>)
    ensures UnresolvedRefs(lib, policy, configMaps) == [] <==>
            forall ref :: ref in policy.caCertificateRefs ==> Resolves(lib, policy, configMaps, ref)
  {
    var names := UnresolvedRefs(lib, policy, configMaps);
    if names != [] {
      FlatMapMember(UnresolvedName(lib, policy, configMaps), policy.caCertificateRefs, names[0]);
    }
    forall ref | ref in policy.caCertificateRefs && !Resolves(lib, policy, configMaps, ref) ensures names != [] {
      FlatMapMember(UnresolvedName(lib, policy, configMaps), policy.caCertificateRefs, ref.name);
    }
  }

  /** When nothing is unresolved, the proxy's TLS settings, built from the same config maps,
      trust exactly one certificate for each reference, the one validated, in order. */
  lemma ValidatedCertsAreServed(lib: Lib, policy: BackendTLSPolicy, configMaps: map<NamespacedName, ConfigMap>)
    requires UnresolvedRefs(lib, policy, configMaps) == []
    ensures PolicyTLS(policy, configMaps).caCerts == MapSeq(CertText(policy, configMaps), policy.caCertificateRefs)
    ensures forall cert :: cert in PolicyTLS(policy, configMaps).caCerts ==> lib.isCertificate(cert)
  {
    AllResolveIff(lib, policy, configMaps);
    forall ref | ref in policy.caCertificateRefs
      ensures CACert(policy, configMaps)(ref) == [CertText(policy, configMaps)(ref)]
    {
      assert Resolves(lib, policy, configMaps, ref);
    }
    FlatMapSingles(CACert(policy, configMaps), CertText(policy, configMaps), policy.caCertificateRefs);
  }

  // ----- the computed status

  function PolicyConditions(lib: Lib, policy: BackendTLSPolicy, unresolvedRefs: seq<string>): seq<Condition> {
    var message := "Unresolved or invalid CA certificate references: " + lib.printNames(unresolvedRefs);
    if |unresolvedRefs| > 0 then
      [Condition(ACCEPTED, ConditionFalse, policy.generation, "NoValidCACertificate", message),
       Condition(RESOLVED_REFS, ConditionFalse, policy.generation, "InvalidCACertificateRef", message)]
    else
      [Condition(ACCEPTED, ConditionTrue, policy.generation, "Accepted", "Policy accepted"),
       Condition(RESOLVED_REFS, ConditionTrue, policy.generation, "ResolvedRefs", "All references resolved")]
  }

  /** Accepted and ResolvedRefs, for this generation, are true exactly when every
      certificate reference resolves, and false otherwise. */
  lemma PolicyAcceptedIff(lib: Lib, policy: BackendTLSPolicy, configMaps: map<NamespacedName, ConfigMap>)
    ensures var cs := PolicyConditions(lib, policy, UnresolvedRefs(lib, policy, configMaps));
            var resolved := forall ref :: ref in policy.caCertificateRefs ==> Resolves(lib, policy, configMaps, ref);
            && |cs| == 2 && cs[0].kind == "Accepted" && cs[1].kind == "ResolvedRefs"
            && (cs[0].reason == if resolved then "Accepted" else "NoValidCACertificate")
            && (cs[1].reason == if resolved then "ResolvedRefs" else "InvalidCACertificateRef")
            && (!resolved ==> forall c :: c in cs ==>
                  c.message == "Unresolved or invalid CA certificate references: " +
                               lib.printNames(UnresolvedRefs(lib, policy, configMaps)))
            && forall c :: c in cs ==>
                 && c.observedGeneration == policy.generation
                 && (c.status == if resolved then ConditionTrue else ConditionFalse)
  {
    AllResolveIff(lib, policy, configMaps);
  }

  lemma PolicyConditionsDistinct(lib: Lib, policy: BackendTLSPolicy, unresolvedRefs: seq<string>)
    ensures DistinctKinds(PolicyConditions(lib, policy, unresolvedRefs))
  {
    KindsDiffer();
  }

  function AncestorRef(gateway: Gateway): ParentReference {
    ParentReference(
      Some("gateway.networking.k8s.io"), Some("Gateway"), Some(gateway.namespace), gateway.name, None, None)
  }

  /** The service of the first targetRef: the only one the search looks at. */
  function SearchedService(policy: BackendTLSPolicy): NamespacedName
    requires policy.targetRefs != []
  {
    NamespacedName(policy.namespace, policy.targetRefs[0].name)
  }

  function AncestorStatus(gateway: Gateway, conditions: seq<Condition>): PolicyAncestorStatus {
    RouteParentStatus(AncestorRef(gateway), CONTROLLER_NAME, conditions)
  }

  function AncestorOf(policy: BackendTLSPolicy, conditions: seq<Condition>, routes: seq<HTTPRoute>)
    : Gateway -> seq<PolicyAncestorStatus>
    requires policy.targetRefs != []
  {
    (g: Gateway) =>
      if UsesService(g, routes, SearchedService(policy)) then [AncestorStatus(g, conditions)] else []
  }

  function ComputedAncestors(policy: BackendTLSPolicy, conditions: seq<Condition>, gateways: seq<Gateway>,
                             routes: seq<HTTPRoute>)
    : seq<PolicyAncestorStatus>
    requires policy.targetRefs != []
  {
    FlatMap(AncestorOf(policy, conditions, routes), gateways)
  }

  method FindAncestors(policy: BackendTLSPolicy, conditions: seq<Condition>, gateways: seq<Gateway>,
                       routes: seq<HTTPRoute>)
    returns (ancestors: seq<PolicyAncestorStatus>)
    requires policy.targetRefs != []
    ensures ancestors == ComputedAncestors(policy, conditions, gateways, routes)
  {
    ancestors := [];
    for i := 0 to |gateways|
      invariant ancestors == FlatMap(AncestorOf(policy, conditions, routes), gateways[..i])
    {
      FlatMapStep(AncestorOf(policy, conditions, routes), gateways, i);
      var usesService := SearchRoutes(gateways[i], routes, SearchedService(policy));
      if usesService {
        ancestors := ancestors + [AncestorStatus(gateways[i], conditions)];
      }
    }
    assert gateways[..|gateways|] == gateways;
  }

  lemma AncestorConditions(policy: BackendTLSPolicy, conditions: seq<Condition>, gateways: seq<Gateway>,
                           routes: seq<HTTPRoute>, a: PolicyAncestorStatus)
    requires policy.targetRefs != [] && a in ComputedAncestors(policy, conditions, gateways, routes)
    ensures a.conditions == conditions
  {
    FlatMapMember(AncestorOf(policy, conditions, routes), gateways, a);
  }

  /** Every ancestor names a listed gateway that uses the searched service, by its own name
      and namespace, and is signed by this controller. */
  lemma AncestorFields(policy: BackendTLSPolicy, conditions: seq<Condition>, gateways: seq<Gateway>,
                       routes: seq<HTTPRoute>, a: PolicyAncestorStatus) returns (g: Gateway)
    requires policy.targetRefs != [] && a in ComputedAncestors(policy, conditions, gateways, routes)
    ensures g in gateways
    ensures UsesService(g, routes, NamespacedName(policy.namespace, policy.targetRefs[0].name))
    ensures a.parentRef.name == g.name && a.parentRef.namespace == Some(g.namespace)
    ensures a.parentRef.group == Some("gateway.networking.k8s.io") && a.parentRef.kind == Some("Gateway")
    ensures a.parentRef.sectionName == None && a.parentRef.port == None && a.conditions == conditions
    ensures a.controllerName == "github.com/gke-labs/gateway-api-reference-implementation"
  {
    var f := AncestorOf(policy, conditions, routes);
    FlatMapMember(f, gateways, a);
    g :| g in gateways && a in f(g);
  }

  /** A gateway is listed exactly when the search finds the service behind it. */
  lemma ListedIffUses(policy: BackendTLSPolicy, conditions: seq<Condition>, gateways: seq<Gateway>,
                      routes: seq<HTTPRoute>, g: Gateway)
    requires policy.targetRefs != [] && g in gateways
    ensures (exists a :: a in ComputedAncestors(policy, conditions, gateways, routes) && a.parentRef == AncestorRef(g))
            <==> UsesService(g, routes, SearchedService(policy))
  {
    var f := AncestorOf(policy, conditions, routes);
    if a :| a in ComputedAncestors(policy, conditions, gateways, routes) && a.parentRef == AncestorRef(g) {
      FlatMapMember(f, gateways, a);
      var h :| h in gateways && a in f(h);
      var r :| r in routes && RouteUses(h, r, SearchedService(policy));
      assert RouteUses(g, r, SearchedService(policy));
    }
    if UsesService(g, routes, SearchedService(policy)) {
      FlatMapMember(f, gateways, AncestorStatus(g, conditions));
    }
  }

  // ----- the search against the data plane

  /** The gateway's table forwards for this rule to a backend whose TLS settings come
      from the policy. */
  ghost predicate TLSFrom(lib: Lib, g: Gateway, l: Listener, r: HTTPRoute, rule: HTTPRouteRule, cluster: Cluster,
                          policy: BackendTLSPolicy)
  {
    && EmitsFor(lib, g, l, r) && rule in r.rules
    && CompiledRule(lib, r, cluster)(rule).backend.Some?
    && var i := FirstPort(rule.backendRefs);
       i < |rule.backendRefs| && SelectedPolicy(cluster.policies, ServiceName(r, rule.backendRefs[i])) == Some(policy)
  }

  /** A route in sync that a gateway emits for names the gateway in its status. */
  lemma EmittingMatchesGateway(lib: Lib, gateways: seq<Gateway>, g: Gateway, l: Listener, r: HTTPRoute)
    requires LookupGateway(gateways, g.name) == Some(g)
    requires StatusInSync(lib, r, gateways) && EmitsFor(lib, g, l, r)
    ensures StoredMatches(r, g, CONTROLLER_NAME)
  {
    var p := EmittingIsAccepted(lib, gateways, g, l, r);
    InSyncAccepted(lib, r, gateways, p);
  }

  /** The backendRef a rule forwards to. */
  function ForwardedRef(rule: HTTPRouteRule): HTTPBackendRef
    requires FirstPort(rule.backendRefs) < |rule.backendRefs|
  {
    rule.backendRefs[FirstPort(rule.backendRefs)]
  }

  /** The search recognises a backendRef decorated by a policy exactly when the policy's
      first target is that service. */
  lemma DecoratedRefSearchedIff(lib: Lib, l: Listener, g: Gateway, r: HTTPRoute, rule: HTTPRouteRule, cluster: Cluster,
                                policy: BackendTLSPolicy)
    requires TLSFrom(lib, g, l, r, rule, cluster, policy)
    ensures policy.targetRefs != []
    ensures RefersToService(r, ForwardedRef(rule), SearchedService(policy)) <==>
            policy.targetRefs[0].name == ForwardedRef(rule).name
  {
    var b := ForwardedRef(rule);
    RuleOutcome(lib, r, rule, cluster);
    assert KindSupported(b);
    SelectedTargets(cluster.policies, ServiceName(r, b));
  }

  lemma SingleTargetIsFirst(lib: Lib, l: Listener, g: Gateway, r: HTTPRoute, rule: HTTPRouteRule, cluster: Cluster,
                            policy: BackendTLSPolicy)
    requires TLSFrom(lib, g, l, r, rule, cluster, policy) && |policy.targetRefs| == 1
    ensures policy.targetRefs[0].name == ForwardedRef(rule).name
  {
    SelectedTargets(cluster.policies, ServiceName(r, ForwardedRef(rule)));
  }

  /** With route statuses in sync: if the table built for a gateway forwards to a backend
      whose TLS settings come from a policy that targets the service first, in particular
      from a policy with a single target, the ancestor search lists that gateway. */
  lemma DataPlaneImpliesAncestor(lib: Lib, gateways: seq<Gateway>, g: Gateway, l: Listener, routes: seq<HTTPRoute>,
                                 r: HTTPRoute, rule: HTTPRouteRule, cluster: Cluster, policy: BackendTLSPolicy,
                                 conditions: seq<Condition>)
    requires g in gateways && LookupGateway(gateways, g.name) == Some(g)
    requires r in routes && StatusInSync(lib, r, gateways)
    requires TLSFrom(lib, g, l, r, rule, cluster, policy) && policy.targetRefs != []
    requires |policy.targetRefs| == 1 || policy.targetRefs[0].name == ForwardedRef(rule).name
    ensures exists a :: a in ComputedAncestors(policy, conditions, gateways, routes) && a.parentRef == AncestorRef(g)
  {
    if |policy.targetRefs| == 1 {
      SingleTargetIsFirst(lib, l, g, r, rule, cluster, policy);
    }
    EmittingMatchesGateway(lib, gateways, g, l, r);
    DecoratedRefSearchedIff(lib, l, g, r, rule, cluster, policy);
    assert RuleUses(r, rule, SearchedService(policy));
    assert RouteUses(g, r, SearchedService(policy));
    ListedIffUses(policy, conditions, gateways, routes, g);
  }

  function ForwardingRule(service: NamespacedName): HTTPRouteRule {
    HTTPRouteRule([], [], [HTTPBackendRef(None, Some(service.namespace), service.name, Some(80))])
  }

  /** A route that forwards everything to the service. */
  function ForwardingRoute(service: NamespacedName): HTTPRoute {
    PlainRoute(None).(rules := [ForwardingRule(service)])
  }

  lemma ForwardingEmits(lib: Lib, cluster: Cluster, r: HTTPRoute, service: NamespacedName)
    requires r == ForwardingRoute(service).(parents := r.parents)
    ensures EmitsFor(lib, OPEN_GATEWAY, OPEN_GATEWAY.listeners[0], r) && ForwardingRule(service) in r.rules
    ensures CompiledRule(lib, r, cluster)(ForwardingRule(service)).backend.Some?
  {
    var l, p := OPEN_GATEWAY.listeners[0], PlainRef(None);
    assert l in OPEN_GATEWAY.listeners && p in r.parentRefs && RefersTo(p, OPEN_GATEWAY, l);
    assert ForwardingRule(service) in r.rules;
    assert KindsSupported(r);
    RuleOutcome(lib, r, ForwardingRule(service), cluster);
  }

  lemma OtherTargetSelected(policy: BackendTLSPolicy, t: ObjectRef, r: HTTPRoute)
    requires t in policy.targetRefs && TargetsService(t, t.name) && t.name != policy.targetRefs[0].name
    requires r == ForwardingRoute(NamespacedName(policy.namespace, t.name)).(parents := r.parents)
    ensures SelectedPolicy([policy], NamespacedName(policy.namespace, t.name)) == Some(policy)
    ensures !UsesService(OPEN_GATEWAY, [r], SearchedService(policy))
  {
    var service := NamespacedName(policy.namespace, t.name);
    assert r.rules == [ForwardingRule(service)];
    assert ServiceName(r, ForwardingRule(service).backendRefs[0]) == service != SearchedService(policy);
  }

  /** A policy's target whose name is not the first one's breaks it: with the status in
      sync, a table forwards with the policy's TLS settings, and no ancestor is listed. */
  lemma OtherTargetNotSearched(lib: Lib, services: map<NamespacedName, Service>,
                               configMaps: map<NamespacedName, ConfigMap>, conditions: seq<Condition>,
                               policy: BackendTLSPolicy, t: ObjectRef)
    requires t in policy.targetRefs && TargetsService(t, t.name) && t.name != policy.targetRefs[0].name
    ensures var g, cluster := OPEN_GATEWAY, Cluster(services, [policy], configMaps);
            var service := NamespacedName(policy.namespace, t.name);
            var r := Reconciled(lib, ForwardingRoute(service), [g]);
            && StatusInSync(lib, r, [g])
            && TLSFrom(lib, g, g.listeners[0], r, ForwardingRule(service), cluster, policy)
            && ComputedAncestors(policy, conditions, [g], [r]) == []
  {
    var g, cluster := OPEN_GATEWAY, Cluster(services, [policy], configMaps);
    var service := NamespacedName(policy.namespace, t.name);
    var r := Reconciled(lib, ForwardingRoute(service), [g]);
    ReconciledInSync(lib, ForwardingRoute(service), [g]);
    ForwardingEmits(lib, cluster, r, service);
    OtherTargetSelected(policy, t, r);
    FlatMapOne(AncestorOf(policy, conditions, [r]), g);
  }

  const TWO_TARGETS := BackendTLSPolicy(
    "prod", "p", 1, [ObjectRef("", SERVICE, "a"), ObjectRef("", SERVICE, "b")], [], "", [])

  /** For example, a policy with two targets. */
  lemma SecondTargetNotSearched(lib: Lib, services: map<NamespacedName, Service>,
                                configMaps: map<NamespacedName, ConfigMap>, conditions: seq<Condition>)
    ensures var g, cluster := OPEN_GATEWAY, Cluster(services, [TWO_TARGETS], configMaps);
            var service := NamespacedName("prod", "b");
            var r := Reconciled(lib, ForwardingRoute(service), [g]);
            && StatusInSync(lib, r, [g])
            && TLSFrom(lib, g, g.listeners[0], r, ForwardingRule(service), cluster, TWO_TARGETS)
            && ComputedAncestors(TWO_TARGETS, conditions, [g], [r]) == []
  {
    var t := TWO_TARGETS.targetRefs[1];
    assert t in TWO_TARGETS.targetRefs && TargetsService(t, t.name);
    assert "a"[0] != "b"[0];
    OtherTargetNotSearched(lib, services, configMaps, conditions, TWO_TARGETS, t);
  }

  /** With route statuses in sync, the table of a gateway that lookups by name find
      forwards to a backend whose TLS settings come from the policy. */
  ghost predicate Decorates(lib: Lib, gateways: seq<Gateway>, g: Gateway, l: Listener, routes: seq<HTTPRoute>,
                            r: HTTPRoute, rule: HTTPRouteRule, cluster: Cluster, policy: BackendTLSPolicy)
  {
    && g in gateways && LookupGateway(gateways, g.name) == Some(g)
    && r in routes && StatusInSync(lib, r, gateways)
    && TLSFrom(lib, g, l, r, rule, cluster, policy)
  }

  ghost predicate Listed(policy: BackendTLSPolicy, conditions: seq<Condition>, gateways: seq<Gateway>,
                         routes: seq<HTTPRoute>, g: Gateway)
    requires policy.targetRefs != []
  {
    exists a :: a in ComputedAncestors(policy, conditions, gateways, routes) && a.parentRef == AncestorRef(g)
  }

  /** Every service the policy targets has the name of its first target. */
  predicate TargetsOneName(policy: BackendTLSPolicy)
    requires policy.targetRefs != []
  {
    forall t :: t in policy.targetRefs && TargetsService(t, t.name) ==> t.name == policy.targetRefs[0].name
  }

  lemma OneNameIsListed(lib: Lib, gateways: seq<Gateway>, g: Gateway, l: Listener, routes: seq<HTTPRoute>,
                        r: HTTPRoute, rule: HTTPRouteRule, cluster: Cluster, policy: BackendTLSPolicy,
                        conditions: seq<Condition>)
    requires policy.targetRefs != [] && TargetsOneName(policy)
    requires Decorates(lib, gateways, g, l, routes, r, rule, cluster, policy)
    ensures Listed(policy, conditions, gateways, routes, g)
  {
    var service := ServiceName(r, ForwardedRef(rule));
    SelectedTargets(cluster.policies, service);
    var t :| t in policy.targetRefs && TargetsService(t, service.name);
    assert TargetsService(t, t.name);
    DataPlaneImpliesAncestor(lib, gateways, g, l, routes, r, rule, cluster, policy, conditions);
  }

  lemma OtherTargetNotListed(lib: Lib, policy: BackendTLSPolicy, conditions: seq<Condition>, t: ObjectRef)
    returns (r: HTTPRoute, rule: HTTPRouteRule, cluster: Cluster)
    requires t in policy.targetRefs && TargetsService(t, t.name) && t.name != policy.targetRefs[0].name
    ensures var g := OPEN_GATEWAY;
            && Decorates(lib, [g], g, g.listeners[0], [r], r, rule, cluster, policy)
            && !Listed(policy, conditions, [g], [r], g)
  {
    var g, service := OPEN_GATEWAY, NamespacedName(policy.namespace, t.name);
    OtherTargetNotSearched(lib, map[], map[], conditions, policy, t);
    r, rule := Reconciled(lib, ForwardingRoute(service), [g]), ForwardingRule(service);
    cluster := Cluster(map[], [policy], map[]);
    assert LookupGateway([g], g.name) == Some(g);
  }

  /** Whatever the objects, each gateway that serves a policy's TLS settings is listed as
      its ancestor, exactly when the services the policy targets have one name. */
  lemma DecoratedIsListedIff(lib: Lib, policy: BackendTLSPolicy, conditions: seq<Condition>)
    requires policy.targetRefs != []
    ensures (forall gateways, g, l, routes, r, rule, cluster ::
               Decorates(lib, gateways, g, l, routes, r, rule, cluster, policy) ==>
                 Listed(policy, conditions, gateways, routes, g))
            <==> TargetsOneName(policy)
  {
    if TargetsOneName(policy) {
      forall gateways, g, l, routes, r, rule, cluster |
        Decorates(lib, gateways, g, l, routes, r, rule, cluster, policy)
        ensures Listed(policy, conditions, gateways, routes, g)
      {
        OneNameIsListed(lib, gateways, g, l, routes, r, rule, cluster, policy, conditions);
      }
    } else {
      var t :| t in policy.targetRefs && TargetsService(t, t.name) && t.name != policy.targetRefs[0].name;
      var r, rule, cluster := OtherTargetNotListed(lib, policy, conditions, t);
    }
  }

  // ----- a second reconcile

  /** Some held route uses the service behind the gateway. */
  ghost predicate UsesHeld(g: Gateway, held: map<NamespacedName, HTTPRoute>, service: NamespacedName) {
    exists n :: n in held && RouteUses(g, held[n], service)
  }

  lemma UsesInAnyOrder(g: Gateway, routes: seq<HTTPRoute>, held: map<NamespacedName, HTTPRoute>,
                       service: NamespacedName)
    requires Enumerates(routes, held)
    ensures UsesService(g, routes, service) <==> UsesHeld(g, held, service)
  {
    forall r ensures r in routes <==> exists n :: n in held && held[n] == r {
      EnumerationValues(routes, held, r);
    }
    if n :| n in held && RouteUses(g, held[n], service) {
      assert held[n] in routes;
    }
  }

  /** The held gateway uses the service the search looks for. */
  ghost predicate Affected(policy: BackendTLSPolicy, gateways: map<NamespacedName, Gateway>,
                           routes: map<NamespacedName, HTTPRoute>, n: NamespacedName)
    requires policy.targetRefs != []
  {
    n in gateways && UsesHeld(gateways[n], routes, SearchedService(policy))
  }

  ghost predicate AtMostOneAffected(policy: BackendTLSPolicy, gateways: map<NamespacedName, Gateway>,
                                    routes: map<NamespacedName, HTTPRoute>)
    requires policy.targetRefs != []
  {
    forall n, k :: Affected(policy, gateways, routes, n) && Affected(policy, gateways, routes, k) ==> n == k
  }

  /** What the search appends for the i-th listed gateway. */
  lemma AppendsIffAffected(policy: BackendTLSPolicy, conditions: seq<Condition>, gateways: map<NamespacedName, Gateway>,
                           routes: map<NamespacedName, HTTPRoute>, gs: seq<Gateway>, ks: seq<NamespacedName>,
                           rs: seq<HTTPRoute>, i: nat)
    requires policy.targetRefs != [] && EnumeratesVia(gs, gateways, ks) && Enumerates(rs, routes) && i < |gs|
    ensures AncestorOf(policy, conditions, rs)(gs[i]) ==
            if Affected(policy, gateways, routes, ks[i]) then [AncestorStatus(gateways[ks[i]], conditions)] else []
  {
    assert ks[i] in ks;
    UsesInAnyOrder(gs[i], rs, routes, SearchedService(policy));
  }

  /** With one affected gateway the computed ancestors do not depend on any order. */
  lemma AncestorsOfOne(policy: BackendTLSPolicy, conditions: seq<Condition>, gateways: map<NamespacedName, Gateway>,
                       routes: map<NamespacedName, HTTPRoute>, gs: seq<Gateway>, rs: seq<HTTPRoute>, n: NamespacedName)
    requires policy.targetRefs != [] && Enumerates(gs, gateways) && Enumerates(rs, routes)
    requires AtMostOneAffected(policy, gateways, routes) && Affected(policy, gateways, routes, n)
    ensures ComputedAncestors(policy, conditions, gs, rs) == [AncestorStatus(gateways[n], conditions)]
  {
    var f := AncestorOf(policy, conditions, rs);
    var ks :| EnumeratesVia(gs, gateways, ks);
    assert n in ks;
    var i: nat :| i < |ks| && ks[i] == n;
    forall j: nat | j < |gs| && j != i ensures f(gs[j]) == [] {
      AppendsIffAffected(policy, conditions, gateways, routes, gs, ks, rs, j);
    }
    AppendsIffAffected(policy, conditions, gateways, routes, gs, ks, rs, i);
    FlatMapAlone(f, gs, i);
  }

  lemma AncestorsOfNone(policy: BackendTLSPolicy, conditions: seq<Condition>, gateways: map<NamespacedName, Gateway>,
                        routes: map<NamespacedName, HTTPRoute>, gs: seq<Gateway>, rs: seq<HTTPRoute>)
    requires policy.targetRefs != [] && Enumerates(gs, gateways) && Enumerates(rs, routes)
    requires forall n :: !Affected(policy, gateways, routes, n)
    ensures ComputedAncestors(policy, conditions, gs, rs) == []
  {
    var f := AncestorOf(policy, conditions, rs);
    var ks :| EnumeratesVia(gs, gateways, ks);
    forall i: nat | i < |gs| ensures f(gs[i]) == [] {
      AppendsIffAffected(policy, conditions, gateways, routes, gs, ks, rs, i);
    }
    FlatMapNone(f, gs);
  }

  /** A listing that starts with an affected gateway puts it first among the ancestors. */
  lemma AffectedFirst(policy: BackendTLSPolicy, conditions: seq<Condition>, gateways: map<NamespacedName, Gateway>,
                      routes: map<NamespacedName, HTTPRoute>, rs: seq<HTTPRoute>, n: NamespacedName)
    returns (gs: seq<Gateway>)
    requires policy.targetRefs != [] && Enumerates(rs, routes) && Affected(policy, gateways, routes, n)
    ensures Enumerates(gs, gateways)
    ensures var a := ComputedAncestors(policy, conditions, gs, rs);
            a != [] && a[0] == AncestorStatus(gateways[n], conditions)
  {
    gs := ListingFrom(gateways, n);
    UsesInAnyOrder(gs[0], rs, routes, SearchedService(policy));
    FlatMapFirst(AncestorOf(policy, conditions, rs), gs, 0);
  }

  /** The policy after a reconcile whose write, if it needs one, succeeds. */
  ghost function ReconciledPolicy(policy: BackendTLSPolicy, conditions: seq<Condition>, gateways: seq<Gateway>,
                                  routes: seq<HTTPRoute>): BackendTLSPolicy
    requires policy.targetRefs != []
  {
    var ancestors := ComputedAncestors(policy, conditions, gateways, routes);
    if EntriesInSync(policy.ancestors, ancestors) then policy else policy.(ancestors := ancestors)
  }

  lemma AncestorsIgnoreStatus(policy: BackendTLSPolicy, ancestors: seq<PolicyAncestorStatus>,
                              conditions: seq<Condition>, gateways: seq<Gateway>, routes: seq<HTTPRoute>)
    requires policy.targetRefs != []
    ensures ComputedAncestors(policy.(ancestors := ancestors), conditions, gateways, routes) ==
            ComputedAncestors(policy, conditions, gateways, routes)
  {
    var other := policy.(ancestors := ancestors);
    FlatMapAgree(AncestorOf(other, conditions, routes), AncestorOf(policy, conditions, routes), gateways);
  }

  /** The conditions computed for a policy do not depend on the status it has. */
  lemma ConditionsIgnoreStatus(lib: Lib, policy: BackendTLSPolicy, ancestors: seq<PolicyAncestorStatus>,
                               live: map<NamespacedName, ConfigMap>)
    ensures var other := policy.(ancestors := ancestors);
            PolicyConditions(lib, other, UnresolvedRefs(lib, other, live)) ==
            PolicyConditions(lib, policy, UnresolvedRefs(lib, policy, live))
  {
    var other := policy.(ancestors := ancestors);
    FlatMapAgree(UnresolvedName(lib, other, live), UnresolvedName(lib, policy, live), policy.caCertificateRefs);
  }

  /** What a reconcile with one pair of listings left, whether it wrote or not, another
      pair finds in sync. */
  ghost predicate QuietFor(policy: BackendTLSPolicy, conditions: seq<Condition>, gs1: seq<Gateway>, rs1: seq<HTTPRoute>,
                           gs2: seq<Gateway>, rs2: seq<HTTPRoute>)
    requires policy.targetRefs != []
  {
    var after := ReconciledPolicy(policy, conditions, gs1, rs1);
    EntriesInSync(after.ancestors, ComputedAncestors(after, conditions, gs2, rs2))
  }

  lemma QuietIffSameAncestors(policy: BackendTLSPolicy, conditions: seq<Condition>, gs1: seq<Gateway>,
                              rs1: seq<HTTPRoute>, gs2: seq<Gateway>, rs2: seq<HTTPRoute>)
    requires policy.targetRefs != []
    ensures QuietFor(policy, conditions, gs1, rs1, gs2, rs2) <==>
            EntriesInSync(ComputedAncestors(policy, conditions, gs1, rs1),
                          ComputedAncestors(policy, conditions, gs2, rs2))
  {
    var after := ReconciledPolicy(policy, conditions, gs1, rs1);
    var a1, a2 := ComputedAncestors(policy, conditions, gs1, rs1), ComputedAncestors(policy, conditions, gs2, rs2);
    assert after == policy.(ancestors := after.ancestors);
    AncestorsIgnoreStatus(policy, after.ancestors, conditions, gs2, rs2);
    EntriesInSyncReflexive(a1);
    EntriesInSyncAlike(after.ancestors, a1, a2);
  }

  lemma TwoAffectedWrite(policy: BackendTLSPolicy, conditions: seq<Condition>, gateways: map<NamespacedName, Gateway>,
                         routes: map<NamespacedName, HTTPRoute>, n: NamespacedName, k: NamespacedName)
    returns (gs1: seq<Gateway>, gs2: seq<Gateway>, rs: seq<HTTPRoute>)
    requires policy.targetRefs != [] && GatewaysKeyed(gateways) && n != k
    requires Affected(policy, gateways, routes, n) && Affected(policy, gateways, routes, k)
    ensures Enumerates(gs1, gateways) && Enumerates(gs2, gateways) && Enumerates(rs, routes)
    ensures !QuietFor(policy, conditions, gs1, rs, gs2, rs)
  {
    var ks;
    rs, ks := SomeListing(routes);
    gs1 := AffectedFirst(policy, conditions, gateways, routes, rs, n);
    gs2 := AffectedFirst(policy, conditions, gateways, routes, rs, k);
    assert AncestorRef(gateways[n]) != AncestorRef(gateways[k]);
    QuietIffSameAncestors(policy, conditions, gs1, rs, gs2, rs);
  }

  /** The ancestors follow the order in which the gateways were listed, and the diff
      compares them in order. After a reconcile, which may have written a status or found
      it in sync, a second one with the same objects writes nothing, whatever the orders of
      the listings, exactly when the policy affects at most one of
      the held gateways. */
  lemma SecondReconcileQuietIffOneAffected(policy: BackendTLSPolicy, conditions: seq<Condition>,
                                           gateways: map<NamespacedName, Gateway>,
                                           routes: map<NamespacedName, HTTPRoute>)
    requires policy.targetRefs != [] && GatewaysKeyed(gateways)
    ensures (forall gs1, gs2, rs1, rs2 ::
               (Enumerates(gs1, gateways) && Enumerates(gs2, gateways) &&
                Enumerates(rs1, routes) && Enumerates(rs2, routes)) ==>
                 QuietFor(policy, conditions, gs1, rs1, gs2, rs2))
            <==> AtMostOneAffected(policy, gateways, routes)
  {
    if AtMostOneAffected(policy, gateways, routes) {
      forall gs1, gs2, rs1, rs2 |
        Enumerates(gs1, gateways) && Enumerates(gs2, gateways) && Enumerates(rs1, routes) && Enumerates(rs2, routes)
        ensures QuietFor(policy, conditions, gs1, rs1, gs2, rs2)
      {
        if n :| Affected(policy, gateways, routes, n) {
          AncestorsOfOne(policy, conditions, gateways, routes, gs1, rs1, n);
          AncestorsOfOne(policy, conditions, gateways, routes, gs2, rs2, n);
        } else {
          AncestorsOfNone(policy, conditions, gateways, routes, gs1, rs1);
          AncestorsOfNone(policy, conditions, gateways, routes, gs2, rs2);
        }
        QuietIffSameAncestors(policy, conditions, gs1, rs1, gs2, rs2);
      }
    } else {
      var n, k :| Affected(policy, gateways, routes, n) && Affected(policy, gateways, routes, k) && n != k;
      var gs1, gs2, rs := TwoAffectedWrite(policy, conditions, gateways, routes, n, k);
    }
  }

  // ----- Reconcile

  class BackendTLSPolicyReconciler {
    const st: State
    const proxy: Proxy

    constructor (st: State, proxy: Proxy)
      ensures this.st == st && this.proxy == proxy
    {
      this.st, this.proxy := st, proxy;
    }

    method StatusChanged(lib: Lib, policy: BackendTLSPolicy, unresolvedRefs: seq<string>, gateways: seq<Gateway>,
                         routes: seq<HTTPRoute>)
      returns (updated: bool, ancestors: seq<PolicyAncestorStatus>)
      requires policy.targetRefs != []
      ensures ancestors == ComputedAncestors(policy, PolicyConditions(lib, policy, unresolvedRefs), gateways, routes)
      ensures updated <==> !EntriesInSync(policy.ancestors, ancestors)
    {
      var conditions := PolicyConditions(lib, policy, unresolvedRefs);
      ancestors := FindAncestors(policy, conditions, gateways, routes);
      PolicyConditionsDistinct(lib, policy, unresolvedRefs);
      forall a | a in ancestors ensures DistinctKinds(a.conditions) {
        AncestorConditions(policy, conditions, gateways, routes, a);
      }
      updated := EntriesChanged(policy.ancestors, ancestors);
    }

    /** The reconcile of a policy that exists; `live` is what the API server holds. The API
        guarantees at least one targetRef; the code indexes the first. */
    method ReconcileFound(lib: Lib, found: BackendTLSPolicy, live: map<NamespacedName, ConfigMap>, statusWrites: bool)
      returns (written: bool, failed: bool, ghost gateways: seq<Gateway>, ghost routes: seq<HTTPRoute>)
      requires found.targetRefs != []
      modifies st, proxy
      ensures Enumerates(gateways, old(st.View()).gateways) && Enumerates(routes, old(st.View()).httpRoutes)
      ensures var conditions := PolicyConditions(lib, found, UnresolvedRefs(lib, found, live));
              var ancestors := ComputedAncestors(found, conditions, gateways, routes);
              && (written <==> !EntriesInSync(found.ancestors, ancestors))
              && (!failed ==> st.View() == Apply(old(st.View()), UpsertPolicy(
                   ReconciledPolicy(found, conditions, gateways, routes))))
      ensures failed <==> written && !statusWrites
      ensures failed ==> st.View() == old(st.View()) && proxy.routes == old(proxy.routes)
      ensures !failed ==> IsTableOf(lib, st.View(), proxy.routes)
    {
      written, failed := false, false;
      var policy := found;
      var gws := st.GetGateways();
      var rs := st.GetHTTPRoutes();
      gateways, routes := gws, rs;
      var unresolvedRefs := ValidateCACerts(lib, policy, live);
      var updated, ancestors := StatusChanged(lib, policy, unresolvedRefs, gws, rs);
      if updated {
        policy := policy.(ancestors := ancestors);
        written := true;
        if !statusWrites {
          failed := true;
          return;
        }
      }
      st.UpsertBackendTLSPolicy(policy);
      UpdateProxy(lib, st, proxy);
    }

    method Reconcile(lib: Lib, name: NamespacedName, got: GetResult<BackendTLSPolicy>,
                     live: map<NamespacedName, ConfigMap>, statusWrites: bool)
      returns (written: bool, failed: bool, ghost gateways: seq<Gateway>, ghost routes: seq<HTTPRoute>)
      requires got.Found? ==> got.value.targetRefs != []
      modifies st, proxy
      ensures got.IsNotFound? ==>
        && st.View() == Apply(old(st.View()), DeletePolicy(name))
        && IsTableOf(lib, st.View(), proxy.routes) && !written && !failed
      ensures got.OtherError? ==>
        st.View() == old(st.View()) && proxy.routes == old(proxy.routes) && !written && failed
      ensures got.Found? ==>
        && Enumerates(gateways, old(st.View()).gateways) && Enumerates(routes, old(st.View()).httpRoutes)
        && var conditions := PolicyConditions(lib, got.value, UnresolvedRefs(lib, got.value, live));
           var ancestors := ComputedAncestors(got.value, conditions, gateways, routes);
           && (written <==> !EntriesInSync(got.value.ancestors, ancestors))
           && (failed <==> written && !statusWrites)
           && (failed ==> st.View() == old(st.View()) && proxy.routes == old(proxy.routes))
           && (!failed ==>
                && st.View() == Apply(old(st.View()), UpsertPolicy(
                     ReconciledPolicy(got.value, conditions, gateways, routes)))
                && IsTableOf(lib, st.View(), proxy.routes))
    {
      written, failed, gateways, routes := false, false, [], [];
      match got {
        case IsNotFound =>
          st.DeleteBackendTLSPolicy(name);
          UpdateProxy(lib, st, proxy);
        case OtherError =>
          failed := true;
        case Found(found) =>
          written, failed, gateways, routes := ReconcileFound(lib, found, live, statusWrites);
      }
    }
  }
}
