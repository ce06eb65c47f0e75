/** pkg/state/state.go, the last-observed objects, and updateProxy of
    pkg/controller/utils.go run without interference. */
module Store {
  import opened Common
  import opened GatewayApi
  import opened Matching
  import opened RouteStatus
  import opened Compiler
  import opened Serving

  /** The five maps. */
  datatype Objects = Objects(
    gateways: map<NamespacedName, Gateway>, httpRoutes: map<NamespacedName, HTTPRoute>,
    policies: map<NamespacedName, BackendTLSPolicy>, services: map<NamespacedName, Service>,
    configMaps: map<NamespacedName, ConfigMap>)

  const NO_OBJECTS := Objects(map[], map[], map[], map[], map[])

  datatype Mutation =
    | UpsertGateway(gateway: Gateway) | DeleteGateway(name: NamespacedName)
    | UpsertHTTPRoute(route: HTTPRoute) | DeleteHTTPRoute(name: NamespacedName)
    | UpsertPolicy(policy: BackendTLSPolicy) | DeletePolicy(name: NamespacedName)
    | UpsertService(service: Service) | DeleteService(name: NamespacedName)
    | UpsertConfigMap(configMap: ConfigMap) | DeleteConfigMap(name: NamespacedName)

  function Apply(o: Objects, m: Mutation): Objects {
    match m
    case UpsertGateway(g) => o.(gateways := o.gateways[NamespacedName(g.namespace, g.name) := g])
    case DeleteGateway(n) => o.(gateways := o.gateways - {n})
    case UpsertHTTPRoute(r) => o.(httpRoutes := o.httpRoutes[NamespacedName(r.namespace, r.name) := r])
    case DeleteHTTPRoute(n) => o.(httpRoutes := o.httpRoutes - {n})
    case UpsertPolicy(p) => o.(policies := o.policies[NamespacedName(p.namespace, p.name) := p])
    case DeletePolicy(n) => o.(policies := o.policies - {n})
    case UpsertService(s) => o.(services := o.services[NamespacedName(s.namespace, s.name) := s])
    case DeleteService(n) => o.(services := o.services - {n})
    case UpsertConfigMap(c) => o.(configMaps := o.configMaps[NamespacedName(c.namespace, c.name) := c])
    case DeleteConfigMap(n) => o.(configMaps := o.configMaps - {n})
  }

  /** Every object is held under its own name. */
  ghost predicate Keyed(o: Objects) {
    && GatewaysKeyed(o.gateways)
    && (forall n :: n in o.httpRoutes ==> n == NamespacedName(o.httpRoutes[n].namespace, o.httpRoutes[n].name))
    && (forall n :: n in o.policies ==> n == NamespacedName(o.policies[n].namespace, o.policies[n].name))
    && (forall n :: n in o.services ==> n == NamespacedName(o.services[n].namespace, o.services[n].name))
    && (forall n :: n in o.configMaps ==> n == NamespacedName(o.configMaps[n].namespace, o.configMaps[n].name))
  }

  ghost predicate GatewaysKeyed(held: map<NamespacedName, Gateway>) {
    forall n :: n in held ==> n == NamespacedName(held[n].namespace, held[n].name)
  }

  /** The entry `n` is gone and every other one is as before. */
  ghost predicate Removed<V>(before: map<NamespacedName, V>, after: map<NamespacedName, V>, n: NamespacedName) {
    && n !in after
    && (forall k :: k in before && k != n ==> k in after && after[k] == before[k])
    && (forall k :: k in after ==> k in before)
  }

  /** The entry `n` is `v` and every other one is as before. */
  ghost predicate Stored<V>(before: map<NamespacedName, V>, after: map<NamespacedName, V>, n: NamespacedName, v: V) {
    && n in after && after[n] == v
    && (forall k :: k in before && k != n ==> k in after && after[k] == before[k])
    && (forall k :: k in after ==> k == n || k in before)
  }

  /** Each mutation sets or removes the one entry it names, and leaves every other entry
      and the other four maps alone. */
  lemma ApplyPerKey(o: Objects, m: Mutation)
    ensures var t := Apply(o, m);
            match m
            case UpsertGateway(g) =>
              Stored(o.gateways, t.gateways, NamespacedName(g.namespace, g.name), g) &&
              t == o.(gateways := t.gateways)
            case DeleteGateway(n) =>
              Removed(o.gateways, t.gateways, n) && t == o.(gateways := t.gateways)
            case UpsertHTTPRoute(r) =>
              Stored(o.httpRoutes, t.httpRoutes, NamespacedName(r.namespace, r.name), r) &&
              t == o.(httpRoutes := t.httpRoutes)
            case DeleteHTTPRoute(n) =>
              Removed(o.httpRoutes, t.httpRoutes, n) && t == o.(httpRoutes := t.httpRoutes)
            case UpsertPolicy(p) =>
              Stored(o.policies, t.policies, NamespacedName(p.namespace, p.name), p) &&
              t == o.(policies := t.policies)
            case DeletePolicy(n) =>
              Removed(o.policies, t.policies, n) && t == o.(policies := t.policies)
            case UpsertService(s) =>
              Stored(o.services, t.services, NamespacedName(s.namespace, s.name), s) &&
              t == o.(services := t.services)
            case DeleteService(n) =>
              Removed(o.services, t.services, n) && t == o.(services := t.services)
            case UpsertConfigMap(c) =>
              Stored(o.configMaps, t.configMaps, NamespacedName(c.namespace, c.name), c) &&
              t == o.(configMaps := t.configMaps)
            case DeleteConfigMap(n) =>
              Removed(o.configMaps, t.configMaps, n) && t == o.(configMaps := t.configMaps)
  {
  }

  /** A deleted object is in no table: the compiler is given the held objects only. */
  lemma DeletedIsNotListed(o: Objects, n: NamespacedName, rs: seq<HTTPRoute>, r: HTTPRoute)
    requires Keyed(o) && Enumerates(rs, Apply(o, DeleteHTTPRoute(n)).httpRoutes)
    requires n == NamespacedName(r.namespace, r.name)
    ensures r !in rs
  {
    ApplyPerKey(o, DeleteHTTPRoute(n));
    ApplyKeepsKeyed(o, DeleteHTTPRoute(n));
    EnumerationValues(rs, Apply(o, DeleteHTTPRoute(n)).httpRoutes, r);
  }

  /** Every mutation keeps objects under their own names. */
  lemma ApplyKeepsKeyed(o: Objects, m: Mutation)
    requires Keyed(o)
    ensures Keyed(Apply(o, m))
  {
  }

  /** The Accepted condition UpsertHTTPRoute returns: validation only. */
  function UpsertCondition(lib: Lib, route: HTTPRoute): Condition {
    var err := ValidationError(lib, route);
    if err.Some? then AcceptedWith(route, ConditionFalse, "UnsupportedValue", "Invalid route: " + err.value)
    else AcceptedWith(route, ConditionTrue, "Accepted", "Route accepted by reference implementation")
  }

  /** Every field of that condition: it is true exactly when the route is valid. */
  lemma UpsertConditionFields(lib: Lib, route: HTTPRoute)
    ensures var c := UpsertCondition(lib, route);
            && c.kind == "Accepted" && c.observedGeneration == route.generation
            && c.status == (if Valid(lib, route) then ConditionTrue else ConditionFalse)
            && c.reason == (if Valid(lib, route) then "Accepted" else "UnsupportedValue")
            && (!Valid(lib, route) ==>
                  ValidationError(lib, route).Some? &&
                  c.message == "Invalid route: " + ValidationError(lib, route).value)
  {
    ValidateDecidesValid(lib, route);
  }

  /** Ranging over a map: the values in some order. */
  method ListValues<K(!new, ==), V>(m: map<K, V>) returns (s: seq<V>)
    ensures Enumerates(s, m)
  {
    s := [];
    var remaining := m.Keys;
    ghost var ks: seq<K> := [];
    while remaining != {}
      invariant remaining <= m.Keys
      invariant |ks| == |s|
      invariant forall i, j :: 0 <= i < j < |ks| ==> ks[i] != ks[j]
      invariant forall k :: k in ks <==> k in m && k !in remaining
      invariant forall i :: 0 <= i < |s| ==> s[i] == m[ks[i]]
      decreases |remaining|
    {
      var k :| k in remaining;
      s := s + [m[k]];
      ks := ks + [k];
      remaining := remaining - {k};
    }
    assert EnumeratesVia(s, m, ks);
  }

  /** Copying a map key by key. */
  method CopyMap<K(==), V>(m: map<K, V>) returns (copy: map<K, V>)
    ensures copy == m
  {
    copy := map[];
    var remaining := m.Keys;
    while remaining != {}
      invariant remaining <= m.Keys
      invariant copy.Keys == m.Keys - remaining
      invariant forall k :: k in copy ==> copy[k] == m[k]
      decreases |remaining|
    {
      var k :| k in remaining;
      copy := copy[k := m[k]];
      remaining := remaining - {k};
    }
  }

  /** Each method runs under the lock, so it is one step. */
  class State {
    var gateways: map<NamespacedName, Gateway>
    var httpRoutes: map<NamespacedName, HTTPRoute>
    var backendTLSPolicies: map<NamespacedName, BackendTLSPolicy>
    var services: map<NamespacedName, Service>
    var configMaps: map<NamespacedName, ConfigMap>

    ghost function View(): Objects
      reads this
    {
      Objects(gateways, httpRoutes, backendTLSPolicies, services, configMaps)
    }

    constructor ()
      ensures View() == NO_OBJECTS
    {
      gateways, httpRoutes, backendTLSPolicies, services, configMaps := map[], map[], map[], map[], map[];
    }

    method UpsertConfigMap(cm: ConfigMap)
      modifies this
      ensures View() == Apply(old(View()), Mutation.UpsertConfigMap(cm))
      ensures Stored(old(configMaps), configMaps, NamespacedName(cm.namespace, cm.name), cm)
      ensures View() == old(View()).(configMaps := configMaps)
    {
      configMaps := configMaps[NamespacedName(cm.namespace, cm.name) := cm];
    }

    method DeleteConfigMap(name: NamespacedName)
      modifies this
      ensures View() == Apply(old(View()), Mutation.DeleteConfigMap(name))
      ensures Removed(old(configMaps), configMaps, name)
      ensures View() == old(View()).(configMaps := configMaps)
    {
      configMaps := configMaps - {name};
    }

    method GetConfigMaps() returns (cms: map<NamespacedName, ConfigMap>)
      ensures cms == configMaps
    {
      cms := CopyMap(configMaps);
    }

    method UpsertService(svc: Service)
      modifies this
      ensures View() == Apply(old(View()), Mutation.UpsertService(svc))
      ensures Stored(old(services), services, NamespacedName(svc.namespace, svc.name), svc)
      ensures View() == old(View()).(services := services)
    {
      services := services[NamespacedName(svc.namespace, svc.name) := svc];
    }

    method DeleteService(name: NamespacedName)
      modifies this
      ensures View() == Apply(old(View()), Mutation.DeleteService(name))
      ensures Removed(old(services), services, name)
      ensures View() == old(View()).(services := services)
    {
      services := services - {name};
    }

    method UpsertGateway(gw: Gateway)
      modifies this
      ensures View() == Apply(old(View()), Mutation.UpsertGateway(gw))
      ensures Stored(old(gateways), gateways, NamespacedName(gw.namespace, gw.name), gw)
      ensures View() == old(View()).(gateways := gateways)
    {
      gateways := gateways[NamespacedName(gw.namespace, gw.name) := gw];
    }

    method DeleteGateway(name: NamespacedName)
      modifies this
      ensures View() == Apply(old(View()), Mutation.DeleteGateway(name))
      ensures Removed(old(gateways), gateways, name)
      ensures View() == old(View()).(gateways := gateways)
    {
      gateways := gateways - {name};
    }

    method UpsertHTTPRoute(lib: Lib, route: HTTPRoute) returns (c: Condition)
      modifies this
      ensures View() == Apply(old(View()), Mutation.UpsertHTTPRoute(route))
      ensures c == UpsertCondition(lib, route)
      ensures Stored(old(httpRoutes), httpRoutes, NamespacedName(route.namespace, route.name), route)
      ensures View() == old(View()).(httpRoutes := httpRoutes)
    {
      var status := ConditionTrue;
      var reason := "Accepted";
      var message := "Route accepted by reference implementation";
      var err := Validate(lib, route);
      if err.Some? {
        status := ConditionFalse;
        reason := "UnsupportedValue";
        message := "Invalid route: " + err.value;
      }
      httpRoutes := httpRoutes[NamespacedName(route.namespace, route.name) := route];
      return Condition(ACCEPTED, status, route.generation, reason, message);
    }

    method DeleteHTTPRoute(name: NamespacedName)
      modifies this
      ensures View() == Apply(old(View()), Mutation.DeleteHTTPRoute(name))
      ensures Removed(old(httpRoutes), httpRoutes, name)
      ensures View() == old(View()).(httpRoutes := httpRoutes)
    {
      httpRoutes := httpRoutes - {name};
    }

    method UpsertBackendTLSPolicy(policy: BackendTLSPolicy)
      modifies this
      ensures View() == Apply(old(View()), Mutation.UpsertPolicy(policy))
      ensures Stored(old(backendTLSPolicies), backendTLSPolicies, NamespacedName(policy.namespace, policy.name), policy)
      ensures View() == old(View()).(policies := backendTLSPolicies)
    {
      backendTLSPolicies := backendTLSPolicies[NamespacedName(policy.namespace, policy.name) := policy];
    }

    method DeleteBackendTLSPolicy(name: NamespacedName)
      modifies this
      ensures View() == Apply(old(View()), Mutation.DeletePolicy(name))
      ensures Removed(old(backendTLSPolicies), backendTLSPolicies, name)
      ensures View() == old(View()).(policies := backendTLSPolicies)
    {
      backendTLSPolicies := backendTLSPolicies - {name};
    }

    method GetGateways() returns (r: seq<Gateway>)
      ensures Enumerates(r, gateways)
    {
      r := ListValues(gateways);
    }

    method GetHTTPRoutes() returns (r: seq<HTTPRoute>)
      ensures Enumerates(r, httpRoutes)
    {
      r := ListValues(httpRoutes);
    }

    method GetBackendTLSPolicies() returns (r: seq<BackendTLSPolicy>)
      ensures Enumerates(r, backendTLSPolicies)
    {
      r := ListValues(backendTLSPolicies);
    }

    method GetServices() returns (r: map<NamespacedName, Service>)
      ensures r == services
    {
      r := CopyMap(services);
    }
  }

  /** A table built from the objects, for some order of each map. */
  ghost predicate IsTableOf(lib: Lib, o: Objects, table: seq<InternalRoute>) {
    exists gs, rs, ps :: IsTableVia(lib, o, table, gs, rs, ps)
  }

  ghost predicate IsTableVia(lib: Lib, o: Objects, table: seq<InternalRoute>,
                             gs: seq<Gateway>, rs: seq<HTTPRoute>, ps: seq<BackendTLSPolicy>) {
    && Enumerates(gs, o.gateways) && Enumerates(rs, o.httpRoutes) && Enumerates(ps, o.policies)
    && table == Table(lib, gs, rs, Cluster(o.services, ps, o.configMaps))
  }

  method UpdateProxy(lib: Lib, st: State, p: Proxy)
    modifies p
    ensures IsTableOf(lib, st.View(), p.routes)
  {
    var gateways := st.GetGateways();
    var routes := st.GetHTTPRoutes();
    var services := st.GetServices();
    var backendTLSPolicies := st.GetBackendTLSPolicies();
    var configMaps := st.GetConfigMaps();
    var cluster := Cluster(services, backendTLSPolicies, configMaps);
    var proxyRoutes := [];
    for i := 0 to |gateways|
      invariant proxyRoutes == FlatMap(GatewayRoutes(lib, routes, cluster), gateways[..i])
    {
      FlatMapStep(GatewayRoutes(lib, routes, cluster), gateways, i);
      var built := BuildInternalRoutes(lib, gateways[i], routes, cluster);
      proxyRoutes := proxyRoutes + built;
    }
    assert gateways[..|gateways|] == gateways;
    p.UpdateRoutes(proxyRoutes);
    assert IsTableVia(lib, st.View(), p.routes, gateways, routes, backendTLSPolicies);
  }
}
