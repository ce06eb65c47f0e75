/** GatewayReconciler.Reconcile of pkg/controller/gateway_controller.go: counting the
    attached routes of each listener and the three-level status diff. */
module GatewayReconciler {
  import opened Common
  import opened GatewayApi
  import opened Conditions
  import opened Hostnames
  import opened RouteStatus
  import opened Compiler
  import opened Meaning
  import opened Outcomes
  import opened RouteReconciler
  import opened Serving
  import opened Store

  // ----- attached routes

  predicate NamesListener(p: ParentReference, gateway: Gateway, listener: Listener) {
    p.name == gateway.name && NamesSection(p, listener)
  }

  predicate CountsFor(gateway: Gateway, listener: Listener, route: HTTPRoute) {
    (exists p :: p in route.parentRefs && NamesListener(p, gateway, listener)) &&
    StoredAccepted(route, CONTROLLER_NAME)
  }

  /** In terms of the fields. */
  lemma NamesListenerIff(p: ParentReference, gateway: Gateway, listener: Listener)
    ensures NamesListener(p, gateway, listener) <==>
            p.name == gateway.name && p.sectionName in {None, Some(""), Some(listener.name)}
  {
  }

  function Counts(gateway: Gateway, listener: Listener): HTTPRoute -> bool {
    (route: HTTPRoute) => CountsFor(gateway, listener, route)
  }

  /** Each route once: the loop over parentRefs is left at the first that counts. */
  method CountAttached(gateway: Gateway, listener: Listener, routes: seq<HTTPRoute>) returns (attachedRoutes: nat)
    ensures attachedRoutes == Count(Counts(gateway, listener), routes)
  {
    attachedRoutes := 0;
    for i := 0 to |routes|
      invariant attachedRoutes == Count(Counts(gateway, listener), routes[..i])
    {
      var route := routes[i];
      CountStep(Counts(gateway, listener), routes, i);
      ghost var before := attachedRoutes;
      for j := 0 to |route.parentRefs|
        invariant attachedRoutes == before
        invariant forall k :: 0 <= k < j ==>
          !(NamesListener(route.parentRefs[k], gateway, listener) && StoredAccepted(route, CONTROLLER_NAME))
      {
        var parentRef := route.parentRefs[j];
        if parentRef.name == gateway.name {
          var sn := ValueOf(parentRef.sectionName, "");
          if sn == "" || sn == listener.name {
            var accepted := IsAccepted(route, CONTROLLER_NAME);
            if accepted {
              attachedRoutes := attachedRoutes + 1;
              assert parentRef in route.parentRefs && NamesListener(parentRef, gateway, listener);
              break;
            }
          }
        }
      }
    }
    assert routes[..|routes|] == routes;
  }

  /** The count does not depend on the order in which the routes are listed. */
  lemma CountIndependentOfOrder(gateway: Gateway, listener: Listener, routes1: seq<HTTPRoute>, routes2: seq<HTTPRoute>,
                                held: map<NamespacedName, HTTPRoute>)
    requires Enumerates(routes1, held) && Enumerates(routes2, held)
    ensures Count(Counts(gateway, listener), routes1) == Count(Counts(gateway, listener), routes2)
  {
    EnumerationsPermute(routes1, routes2, held);
    CountPermutation(Counts(gateway, listener), routes1, routes2);
  }

  // ----- the count against the data plane

  lemma EntryAccepts(stored: RouteParentStatus, computed: RouteParentStatus, c: Condition)
    requires EntryInSync(stored, computed) && computed.controllerName == CONTROLLER_NAME
    requires c in computed.conditions && SaysAccepted(c)
    ensures ParentAccepts(stored, CONTROLLER_NAME)
  {
    InSyncMember(stored.conditions, computed.conditions, c);
  }

  lemma SyncedEntry(lib: Lib, route: HTTPRoute, gateways: seq<Gateway>, i: nat)
    requires StatusInSync(lib, route, gateways) && i < |route.parentRefs|
    ensures i < |route.parents|
    ensures EntryInSync(route.parents[i], ComputedParent(lib, route, gateways)(route.parentRefs[i]))
  {
  }

  lemma AcceptedEntry(lib: Lib, route: HTTPRoute, gateways: seq<Gateway>, p: ParentReference, stored: RouteParentStatus)
    requires AcceptedCondition(lib, route, p, gateways).status == ConditionTrue
    requires EntryInSync(stored, ComputedParent(lib, route, gateways)(p))
    ensures stored.parentRef == p && ParentAccepts(stored, CONTROLLER_NAME)
  {
    var computed := ComputedParent(lib, route, gateways)(p);
    EntryAccepts(stored, computed, computed.conditions[0]);
  }

  /** The stored status of a route in sync accepts every parentRef that is accepted. */
  lemma InSyncAccepted(lib: Lib, route: HTTPRoute, gateways: seq<Gateway>, p: ParentReference)
    requires StatusInSync(lib, route, gateways)
    requires p in route.parentRefs && AcceptedCondition(lib, route, p, gateways).status == ConditionTrue
    ensures exists ps :: ps in route.parents && ps.parentRef == p && ParentAccepts(ps, CONTROLLER_NAME)
  {
    var i :| 0 <= i < |route.parentRefs| && route.parentRefs[i] == p;
    SyncedEntry(lib, route, gateways, i);
    AcceptedEntry(lib, route, gateways, p, route.parents[i]);
    assert route.parents[i] in route.parents;
  }

  /** A listener that emits for a route in sync accepts it by some parentRef that names
      the gateway, its namespace and the listener. */
  lemma EmittingIsAccepted(lib: Lib, gateways: seq<Gateway>, g: Gateway, l: Listener, route: HTTPRoute)
    returns (p: ParentReference)
    requires LookupGateway(gateways, g.name) == Some(g) && EmitsFor(lib, g, l, route)
    ensures p in route.parentRefs && RefersTo(p, g, l)
    ensures AcceptedCondition(lib, route, p, gateways).status == ConditionTrue
  {
    p :| p in route.parentRefs && RefersTo(p, g, l);
    AcceptedIff(lib, route, p, gateways);
  }

  lemma EmittingCounts(lib: Lib, gateways: seq<Gateway>, g: Gateway, l: Listener, route: HTTPRoute)
    requires LookupGateway(gateways, g.name) == Some(g)
    requires StatusInSync(lib, route, gateways) && EmitsFor(lib, g, l, route)
    ensures CountsFor(g, l, route)
  {
    var p := EmittingIsAccepted(lib, gateways, g, l, route);
    InSyncAccepted(lib, route, gateways, p);
    assert NamesListener(p, g, l);
  }

  function Emits(lib: Lib, gateway: Gateway, listener: Listener): HTTPRoute -> bool {
    (route: HTTPRoute) => Bound(lib, gateway, listener, route) && Overlaps(route, listener)
  }

  lemma {:induction false} EmittedLength(lib: Lib, g: Gateway, l: Listener, cluster: Cluster, routes: seq<HTTPRoute>)
    ensures |FlatMap(Emitted(lib, g, l, cluster), routes)| == Count(Emits(lib, g, l), routes)
    decreases |routes|
  {
    if routes == [] {
    } else {
      EmittedLength(lib, g, l, cluster, routes[..|routes| - 1]);
    }
  }

  /** Read off the specs: the route is valid, some parentRef names gateway and section, and
      some parentRef, not necessarily that one, fits the gateway it is looked up to. */
  ghost predicate ShouldCount(lib: Lib, gateways: seq<Gateway>, g: Gateway, l: Listener, route: HTTPRoute) {
    && Valid(lib, route)
    && (exists p :: p in route.parentRefs && NamesListener(p, g, l))
    && exists p :: p in route.parentRefs && LookupGateway(gateways, p.name).Some? &&
                   Fits(route, p, LookupGateway(gateways, p.name).value)
  }

  /** A route in sync counts exactly when its spec says so. */
  lemma CountsForIff(lib: Lib, gateways: seq<Gateway>, g: Gateway, l: Listener, route: HTTPRoute)
    requires StatusInSync(lib, route, gateways)
    ensures CountsFor(g, l, route) <==> ShouldCount(lib, gateways, g, l, route)
  {
    StoredAcceptedIff(lib, gateways, route);
    forall p: ParentReference
      ensures AcceptedCondition(lib, route, p, gateways).status == ConditionTrue <==>
              Valid(lib, route) && LookupGateway(gateways, p.name).Some? &&
              Fits(route, p, LookupGateway(gateways, p.name).value)
    {
      AcceptedIff(lib, route, p, gateways);
    }
  }

  lemma StoredAcceptedIff(lib: Lib, gateways: seq<Gateway>, route: HTTPRoute)
    requires StatusInSync(lib, route, gateways)
    ensures StoredAccepted(route, CONTROLLER_NAME) <==>
            exists p :: p in route.parentRefs && AcceptedCondition(lib, route, p, gateways).status == ConditionTrue
  {
    if StoredAccepted(route, CONTROLLER_NAME) {
      var ps :| ps in route.parents && ParentAccepts(ps, CONTROLLER_NAME);
      var i: nat :| i < |route.parents| && route.parents[i] == ps;
      SyncedEntry(lib, route, gateways, i);
      AcceptingEntry(lib, route, gateways, route.parentRefs[i], ps);
      assert route.parentRefs[i] in route.parentRefs;
    }
    if p :| p in route.parentRefs && AcceptedCondition(lib, route, p, gateways).status == ConditionTrue {
      InSyncAccepted(lib, route, gateways, p);
    }
  }

  lemma AcceptingEntry(lib: Lib, route: HTTPRoute, gateways: seq<Gateway>, p: ParentReference,
                       stored: RouteParentStatus)
    requires EntryInSync(stored, ComputedParent(lib, route, gateways)(p)) && ParentAccepts(stored, CONTROLLER_NAME)
    ensures AcceptedCondition(lib, route, p, gateways).status == ConditionTrue
  {
    var computed := ComputedParent(lib, route, gateways)(p);
    var c :| c in stored.conditions && SaysAccepted(c);
    InSyncMember(stored.conditions, computed.conditions, c);
    KindsDiffer();
  }

  lemma EmittedAreCounted(lib: Lib, gateways: seq<Gateway>, g: Gateway, l: Listener, routes: seq<HTTPRoute>,
                          r: HTTPRoute)
    requires LookupGateway(gateways, g.name) == Some(g) && l in g.listeners && ServesHTTP(l)
    requires StatusInSync(lib, r, gateways)
    ensures Emits(lib, g, l)(r) <==> EmitsFor(lib, g, l, r)
    ensures Emits(lib, g, l)(r) ==> Counts(g, l)(r)
  {
    EmittedIff(lib, g, l, r);
    if EmitsFor(lib, g, l, r) {
      EmittingCounts(lib, gateways, g, l, r);
    }
  }

  /** When route statuses are in sync, the reported count is at least the number of
      internal routes the listener emits, and equal to it exactly when every counted
      route is one the listener emits for. */
  lemma CountCoversEmitted(lib: Lib, gateways: seq<Gateway>, g: Gateway, l: Listener, routes: seq<HTTPRoute>,
                           cluster: Cluster)
    requires LookupGateway(gateways, g.name) == Some(g) && l in g.listeners
    requires forall r :: r in routes ==> StatusInSync(lib, r, gateways)
    ensures |ListenerRoutes(lib, g, routes, cluster)(l)| <= Count(Counts(g, l), routes)
    ensures |ListenerRoutes(lib, g, routes, cluster)(l)| == Count(Counts(g, l), routes) <==>
            forall r :: r in routes && CountsFor(g, l, r) ==> EmitsFor(lib, g, l, r)
  {
    if ServesHTTP(l) {
      forall r | r in routes
        ensures Emits(lib, g, l)(r) <==> EmitsFor(lib, g, l, r)
        ensures Emits(lib, g, l)(r) ==> Counts(g, l)(r)
      {
        EmittedAreCounted(lib, gateways, g, l, routes, r);
      }
      CountMonotone(Emits(lib, g, l), Counts(g, l), routes);
      CountEqualIff(Emits(lib, g, l), Counts(g, l), routes);
      EmittedLength(lib, g, l, cluster, routes);
    } else {
      NoneCounted(g, l, routes);
    }
  }

  /** When route statuses are in sync, the reported count equals the number of internal
      routes the listener emits exactly when every route that should count is attached to
      the listener, namespace included, and shares a host with it. */
  lemma CountEqualsEmittedIff(lib: Lib, gateways: seq<Gateway>, g: Gateway, l: Listener, routes: seq<HTTPRoute>,
                              cluster: Cluster)
    requires LookupGateway(gateways, g.name) == Some(g) && l in g.listeners
    requires forall r :: r in routes ==> StatusInSync(lib, r, gateways)
    ensures Count(Counts(g, l), routes) == |ListenerRoutes(lib, g, routes, cluster)(l)| <==>
            forall r :: r in routes && ShouldCount(lib, gateways, g, l, r) ==>
              ServesHTTP(l) && HostsMeet(r, l) && exists p :: p in r.parentRefs && RefersTo(p, g, l)
  {
    CountCoversEmitted(lib, gateways, g, l, routes, cluster);
    forall r | r in routes
      ensures CountsFor(g, l, r) <==> ShouldCount(lib, gateways, g, l, r)
    {
      CountsForIff(lib, gateways, g, l, r);
    }
  }

  lemma {:induction false} NoneCounted(g: Gateway, l: Listener, routes: seq<HTTPRoute>)
    ensures Count(Counts(g, l), routes) == 0 <==> forall r :: r in routes ==> !CountsFor(g, l, r)
    decreases |routes|
  {
    if routes == [] {
    } else {
      var n := |routes| - 1;
      NoneCounted(g, l, routes[..n]);
      assert forall r :: r in routes <==> r in routes[..n] || r == routes[n];
    }
  }

  lemma ReconciledInSync(lib: Lib, route: HTTPRoute, gateways: seq<Gateway>)
    ensures StatusInSync(lib, Reconciled(lib, route, gateways), gateways)
  {
    QuietIffSameAcceptance(lib, route, gateways, gateways);
  }

  /** What a route's reconciled status counts for, and is emitted for, does not depend on
      the status it had. */
  lemma ReconciledCounts(lib: Lib, gateways: seq<Gateway>, g: Gateway, l: Listener, route: HTTPRoute)
    requires exists p :: p in route.parentRefs && NamesListener(p, g, l)
    requires exists p :: p in route.parentRefs && AcceptedCondition(lib, route, p, gateways).status == ConditionTrue
    ensures CountsFor(g, l, Reconciled(lib, route, gateways))
  {
    var r := Reconciled(lib, route, gateways);
    ReconciledStatus(lib, route, gateways);
    ReconciledInSync(lib, route, gateways);
    var p :| p in route.parentRefs && AcceptedCondition(lib, route, p, gateways).status == ConditionTrue;
    AcceptedIgnoresStatus(lib, route, r.parents, p, gateways);
    InSyncAccepted(lib, r, gateways, p);
  }

  lemma ReconciledEmits(lib: Lib, gateways: seq<Gateway>, g: Gateway, l: Listener, route: HTTPRoute)
    ensures EmitsFor(lib, g, l, Reconciled(lib, route, gateways)) <==> EmitsFor(lib, g, l, route)
  {
    ReconciledStatus(lib, route, gateways);
  }

  /** A route that counts and is not emitted for makes the count larger. */
  lemma CountedButNotEmitted(lib: Lib, g: Gateway, l: Listener, route: HTTPRoute, gateways: seq<Gateway>,
                             cluster: Cluster)
    requires LookupGateway(gateways, g.name) == Some(g) && l in g.listeners
    requires CountsFor(g, l, Reconciled(lib, route, gateways)) && !EmitsFor(lib, g, l, route)
    ensures var r := Reconciled(lib, route, gateways);
            && StatusInSync(lib, r, gateways) && Count(Counts(g, l), [r]) == 1
            && ListenerRoutes(lib, g, [r], cluster)(l) == []
  {
    var r := Reconciled(lib, route, gateways);
    ReconciledInSync(lib, route, gateways);
    ReconciledEmits(lib, gateways, g, l, route);
    CountStep(Counts(g, l), [r], 0);
    assert [r][..1] == [r] && [r][..0] == [];
    CountCoversEmitted(lib, gateways, g, l, [r], cluster);
    assert r in [r];
  }

  /** One cause: the parentRef names another namespace, which acceptance does not check. */
  lemma CountIgnoresNamespace(lib: Lib, cluster: Cluster)
    ensures var g, r := OPEN_GATEWAY, Reconciled(lib, PlainRoute(Some("staging")), [OPEN_GATEWAY]);
            && StatusInSync(lib, r, [g])
            && Count(Counts(g, g.listeners[0]), [r]) == 1
            && ListenerRoutes(lib, g, [r], cluster)(g.listeners[0]) == []
  {
    var g, l := OPEN_GATEWAY, OPEN_GATEWAY.listeners[0];
    var p, route := PlainRef(Some("staging")), PlainRoute(Some("staging"));
    assert l in g.listeners && p in route.parentRefs && NamesListener(p, g, l);
    AcceptedWithoutEmission(lib, cluster);
    ReconciledCounts(lib, [g], g, l, route);
    assert "staging"[0] != "prod"[0];
    CountedButNotEmitted(lib, g, l, route, [g], cluster);
  }

  const CLOSED_GATEWAY := Gateway("prod", "gw", 1, [Listener("http", HTTP, Some("b.org"))], NO_STATUS)
  const OTHER_GATEWAY := Gateway("prod", "other", 1, [Listener("http", HTTP, None)], NO_STATUS)
  const TWO_PARENTS := HTTPRoute(
    "prod", "r", 1, [PlainRef(None), PlainRef(None).(name := "other")], ["a.org"], [], [])

  lemma TwoParentsFit()
    ensures !HostsMeet(TWO_PARENTS, CLOSED_GATEWAY.listeners[0])
    ensures !Fits(TWO_PARENTS, TWO_PARENTS.parentRefs[0], CLOSED_GATEWAY)
    ensures Fits(TWO_PARENTS, TWO_PARENTS.parentRefs[1], OTHER_GATEWAY)
  {
    assert "a.org"[0] != "b.org"[0] && "a.org"[0] != '*' && "b.org"[0] != '*';
    IntersectSomeIffShare("a.org", "b.org");
    assert Means("a.org", "a.org") && Means("", "a.org") && ShareHost("a.org", "");
    assert TWO_PARENTS.hostnames[0] in TWO_PARENTS.hostnames;
    assert HostsMeet(TWO_PARENTS, OTHER_GATEWAY.listeners[0]);
    assert OTHER_GATEWAY.listeners[0] in OTHER_GATEWAY.listeners;
  }

  lemma TwoParentsAccepted(lib: Lib)
    ensures var gateways := [CLOSED_GATEWAY, OTHER_GATEWAY];
            && LookupGateway(gateways, "gw") == Some(CLOSED_GATEWAY)
            && AcceptedCondition(lib, TWO_PARENTS, TWO_PARENTS.parentRefs[0], gateways).status == ConditionFalse
            && AcceptedCondition(lib, TWO_PARENTS, TWO_PARENTS.parentRefs[1], gateways).status == ConditionTrue
  {
    var gateways := [CLOSED_GATEWAY, OTHER_GATEWAY];
    TwoParentsFit();
    assert |"gw"| != |"other"| && gateways[1..] == [OTHER_GATEWAY];
    assert LookupGateway(gateways, "other") == Some(OTHER_GATEWAY);
    AcceptedIff(lib, TWO_PARENTS, TWO_PARENTS.parentRefs[0], gateways);
    AcceptedIff(lib, TWO_PARENTS, TWO_PARENTS.parentRefs[1], gateways);
  }

  /** The other cause: being accepted by any parent counts. This route is rejected by the
      gateway, shares no host with it, and is counted for it, because another gateway
      accepts the route. */
  lemma CountIgnoresAcceptingParent(lib: Lib, cluster: Cluster)
    ensures var g, gateways := CLOSED_GATEWAY, [CLOSED_GATEWAY, OTHER_GATEWAY];
            var r := Reconciled(lib, TWO_PARENTS, gateways);
            && StatusInSync(lib, r, gateways)
            && AcceptedCondition(lib, TWO_PARENTS, TWO_PARENTS.parentRefs[0], gateways).status == ConditionFalse
            && Count(Counts(g, g.listeners[0]), [r]) == 1
            && ListenerRoutes(lib, g, [r], cluster)(g.listeners[0]) == []
  {
    var g, l, gateways := CLOSED_GATEWAY, CLOSED_GATEWAY.listeners[0], [CLOSED_GATEWAY, OTHER_GATEWAY];
    TwoParentsAccepted(lib);
    TwoParentsFit();
    assert TWO_PARENTS.parentRefs[0] in TWO_PARENTS.parentRefs && NamesListener(TWO_PARENTS.parentRefs[0], g, l);
    assert TWO_PARENTS.parentRefs[1] in TWO_PARENTS.parentRefs;
    ReconciledCounts(lib, gateways, g, l, TWO_PARENTS);
    CountedButNotEmitted(lib, g, l, TWO_PARENTS, gateways, cluster);
  }

  /** A route that names the section `https` is counted on that listener alone. */
  lemma SectionSelectsCount(lib: Lib)
    ensures var g, r := TWO_LISTENERS, Reconciled(lib, SECTION_ROUTE, [TWO_LISTENERS]);
            && !Counts(g, g.listeners[0])(r) && Counts(g, g.listeners[1])(r)
            && Count(Counts(g, g.listeners[0]), [r]) == 0 && Count(Counts(g, g.listeners[1]), [r]) == 1
  {
    var g, r := TWO_LISTENERS, Reconciled(lib, SECTION_ROUTE, [TWO_LISTENERS]);
    ReconciledInSync(lib, SECTION_ROUTE, [g]);
    ReconciledStatus(lib, SECTION_ROUTE, [g]);
    SectionBinds(lib, r);
    assert LookupGateway([g], g.name) == Some(g);
    EmittingCounts(lib, [g], g, g.listeners[1], r);
    assert |"http"| != |"https"|;
    NamesListenerIff(r.parentRefs[0], g, g.listeners[0]);
    NamesListenerIff(r.parentRefs[0], g, g.listeners[1]);
    CountOne(Counts(g, g.listeners[0]), r);
    CountOne(Counts(g, g.listeners[1]), r);
  }

  // ----- status

  function TrueCondition(gateway: Gateway, kind: string, reason: string, message: string): Condition {
    Condition(kind, ConditionTrue, gateway.generation, reason, message)
  }

  function ListenerConditions(gateway: Gateway): seq<Condition> {
    [TrueCondition(gateway, PROGRAMMED, "Programmed", "Listener programmed"),
     TrueCondition(gateway, ACCEPTED, "Accepted", "Listener accepted"),
     TrueCondition(gateway, RESOLVED_REFS, "ResolvedRefs", "All references resolved")]
  }

  function ComputedListener(gateway: Gateway, routes: seq<HTTPRoute>): Listener -> ListenerStatus {
    (l: Listener) => ListenerStatus(l.name, Count(Counts(gateway, l), routes), ListenerConditions(gateway))
  }

  function ComputedStatus(gateway: Gateway, ip: string, routes: seq<HTTPRoute>): GatewayStatus {
    GatewayStatus(
      [TrueCondition(gateway, PROGRAMMED, "Programmed", "Gateway programmed by reference implementation"),
       TrueCondition(gateway, ACCEPTED, "Accepted", "Gateway accepted by reference implementation")],
      [GatewayAddress(Some("IPAddress"), ip)],
      MapSeq(ComputedListener(gateway, routes), gateway.listeners))
  }

  predicate AllTrue(cs: seq<Condition>, generation: int) {
    forall c :: c in cs ==>
      c.status == ConditionTrue && c.observedGeneration == generation &&
      c.reason == c.kind
  }

  /** Every condition is true for this generation, the address is the one given, and each
      listener, in order, has its name and its count. */
  lemma ComputedStatusFields(gateway: Gateway, ip: string, routes: seq<HTTPRoute>)
    ensures var status := ComputedStatus(gateway, ip, routes);
            && AllTrue(status.conditions, gateway.generation)
            && |status.conditions| == 2 && status.conditions[0].kind == "Programmed"
            && status.conditions[1].kind == "Accepted"
            && |status.addresses| == 1 && status.addresses[0].value == ip
            && status.addresses[0].addressType == Some("IPAddress")
            && |status.listeners| == |gateway.listeners|
            && forall i :: 0 <= i < |gateway.listeners| ==>
                 var l := status.listeners[i];
                 && l.name == gateway.listeners[i].name
                 && l.attachedRoutes == Count(Counts(gateway, gateway.listeners[i]), routes)
                 && AllTrue(l.conditions, gateway.generation) && |l.conditions| == 3
                 && l.conditions[0].kind == "Programmed" && l.conditions[1].kind == "Accepted"
                 && l.conditions[2].kind == "ResolvedRefs"
  {
  }

  predicate SameAddress(stored: GatewayAddress, computed: GatewayAddress) {
    ValueOf(stored.addressType, "") == ValueOf(computed.addressType, "") && stored.value == computed.value
  }

  /** Listener conditions are compared without their messages. */
  ghost predicate ListenerInSync(stored: ListenerStatus, computed: ListenerStatus) {
    && stored.name == computed.name && stored.attachedRoutes == computed.attachedRoutes
    && SameConditions(stored.conditions, computed.conditions, false)
  }

  ghost predicate GatewayInSync(stored: GatewayStatus, computed: GatewayStatus) {
    && SameConditions(stored.conditions, computed.conditions, true)
    && |stored.addresses| == |computed.addresses|
    && (forall i :: 0 <= i < |computed.addresses| ==> SameAddress(stored.addresses[i], computed.addresses[i]))
    && |stored.listeners| == |computed.listeners|
    && (forall i :: 0 <= i < |computed.listeners| ==> ListenerInSync(stored.listeners[i], computed.listeners[i]))
  }

  predicate Absent(s: Option<string>) {
    s in {None, Some("")}
  }

  /** A changed address makes the diff write; an absent type and an empty one are alike. */
  lemma ChangedAddress(stored: GatewayStatus, computed: GatewayStatus, i: nat)
    requires i < |computed.addresses|
    requires |stored.addresses| != |computed.addresses| ||
             var a, b := stored.addresses[i], computed.addresses[i];
             a.value != b.value || (a.addressType != b.addressType && !(Absent(a.addressType) && Absent(b.addressType)))
    ensures !GatewayInSync(stored, computed)
  {
  }

  /** So does a changed name, count or condition of a listener, its message apart. */
  lemma ChangedListener(stored: GatewayStatus, computed: GatewayStatus, i: nat)
    requires i < |computed.listeners|
    requires |stored.listeners| != |computed.listeners| ||
             var a, b := stored.listeners[i], computed.listeners[i];
             a.name != b.name || a.attachedRoutes != b.attachedRoutes ||
             exists c :: c in b.conditions && forall d :: d in a.conditions ==> !SameFields(d, c, false)
    ensures !GatewayInSync(stored, computed)
  {
    if |stored.listeners| == |computed.listeners| && ListenerInSync(stored.listeners[i], computed.listeners[i]) {
      var a, b := stored.listeners[i], computed.listeners[i];
      var c :| c in b.conditions && forall d :: d in a.conditions ==> !SameFields(d, c, false);
      ChangedCondition(a.conditions, b.conditions, false, c);
    }
  }

  /** And a changed condition of the gateway, its message included. */
  lemma ChangedGatewayCondition(stored: GatewayStatus, computed: GatewayStatus, c: Condition)
    requires c in computed.conditions && forall d :: d in stored.conditions ==> !SameFields(d, c, true)
    ensures !GatewayInSync(stored, computed)
  {
    ChangedCondition(stored.conditions, computed.conditions, true, c);
  }

  method ListenersChanged(stored: seq<ListenerStatus>, computed: seq<ListenerStatus>) returns (updated: bool)
    requires |stored| == |computed| && forall l :: l in computed ==> DistinctKinds(l.conditions)
    ensures updated <==> exists i :: 0 <= i < |computed| && !ListenerInSync(stored[i], computed[i])
  {
    updated := false;
    for i := 0 to |computed|
      invariant !updated && forall j :: 0 <= j < i ==> ListenerInSync(stored[j], computed[j])
    {
      assert computed[i] in computed;
      if SameConditions(stored[i].conditions, computed[i].conditions, false) {
        SameConditionsSameLength(stored[i].conditions, computed[i].conditions, false);
      }
      if stored[i].name != computed[i].name || stored[i].attachedRoutes != computed[i].attachedRoutes ||
         |stored[i].conditions| != |computed[i].conditions| {
        updated := true;
        break;
      }
      NoChangeIffPermutation(stored[i].conditions, computed[i].conditions, false);
      updated := ConditionsChanged(stored[i].conditions, computed[i].conditions, false);
      if updated {
        break;
      }
    }
  }

  /** The three-level diff: conditions, addresses, listeners. */
  method StatusDiffers(stored: GatewayStatus, computed: GatewayStatus) returns (updated: bool)
    requires DistinctKinds(computed.conditions)
    requires forall l :: l in computed.listeners ==> DistinctKinds(l.conditions)
    ensures updated <==> !GatewayInSync(stored, computed)
  {
    updated := false;
    if SameConditions(stored.conditions, computed.conditions, true) {
      SameConditionsSameLength(stored.conditions, computed.conditions, true);
    }
    if |stored.conditions| != |computed.conditions| || |stored.addresses| != |computed.addresses| ||
       |stored.listeners| != |computed.listeners| {
      updated := true;
    } else {
      NoChangeIffPermutation(stored.conditions, computed.conditions, true);
      updated := ConditionsChanged(stored.conditions, computed.conditions, true);
      if !updated {
        for i := 0 to |computed.addresses|
          invariant !updated && forall j :: 0 <= j < i ==> SameAddress(stored.addresses[j], computed.addresses[j])
        {
          if ValueOf(stored.addresses[i].addressType, "") != ValueOf(computed.addresses[i].addressType, "") ||
             stored.addresses[i].value != computed.addresses[i].value {
            updated := true;
            break;
          }
        }
      }
      if !updated {
        updated := ListenersChanged(stored.listeners, computed.listeners);
      }
    }
  }

  lemma KindsDiffer()
    ensures ACCEPTED != RESOLVED_REFS && ACCEPTED != PROGRAMMED && RESOLVED_REFS != PROGRAMMED
  {
  }

  /** The gateway after a reconcile whose write, if it needs one, succeeds. */
  ghost function ReconciledGateway(gateway: Gateway, ip: string, routes: seq<HTTPRoute>): Gateway {
    var status := ComputedStatus(gateway, ip, routes);
    if GatewayInSync(gateway.status, status) then gateway else gateway.(status := status)
  }

  lemma ComputedIgnoresGatewayStatus(gateway: Gateway, status: GatewayStatus, ip: string, routes1: seq<HTTPRoute>,
                                     routes2: seq<HTTPRoute>, held: map<NamespacedName, HTTPRoute>)
    requires Enumerates(routes1, held) && Enumerates(routes2, held)
    ensures ComputedStatus(gateway.(status := status), ip, routes2) == ComputedStatus(gateway, ip, routes1)
  {
    var other := gateway.(status := status);
    forall l: Listener ensures ComputedListener(gateway, routes1)(l) == ComputedListener(other, routes2)(l) {
      CountIndependentOfOrder(gateway, l, routes1, routes2, held);
      assert forall r :: Counts(gateway, l)(r) == Counts(other, l)(r);
      CountSame(Counts(gateway, l), Counts(other, l), routes2);
    }
  }

  /** After a reconcile, which may have written a status or found it in sync, a second one
      with the same spec and routes, listed in any order, writes nothing. */
  lemma GatewayReconcileQuiet(gateway: Gateway, ip: string, routes1: seq<HTTPRoute>, routes2: seq<HTTPRoute>,
                              held: map<NamespacedName, HTTPRoute>)
    requires Enumerates(routes1, held) && Enumerates(routes2, held)
    ensures var after := ReconciledGateway(gateway, ip, routes1);
            GatewayInSync(after.status, ComputedStatus(after, ip, routes2))
  {
    var after := ReconciledGateway(gateway, ip, routes1);
    ComputedIgnoresGatewayStatus(gateway, after.status, ip, routes1, routes2, held);
    assert after == gateway.(status := after.status);
  }

  lemma CountOne<A>(p: A -> bool, x: A)
    ensures Count(p, [x]) == if p(x) then 1 else 0
  {
    CountStep(p, [x], 0);
    assert [x][..1] == [x] && [x][..0] == [];
  }

  lemma CountSame<A(!new)>(p: A -> bool, q: A -> bool, s: seq<A>)
    requires forall x :: p(x) == q(x)
    ensures Count(p, s) == Count(q, s)
  {
  }

  // ----- Reconcile

  class GatewayReconciler {
    const st: State
    const proxy: Proxy

    constructor (st: State, proxy: Proxy)
      ensures this.st == st && this.proxy == proxy
    {
      this.st, this.proxy := st, proxy;
    }

    method ComputeStatus(gateway: Gateway, ip: string, routes: seq<HTTPRoute>) returns (status: GatewayStatus)
      ensures status == ComputedStatus(gateway, ip, routes)
    {
      var listeners := [];
      for i := 0 to |gateway.listeners|
        invariant listeners == MapSeq(ComputedListener(gateway, routes), gateway.listeners[..i])
      {
        var l := gateway.listeners[i];
        MapSeqStep(ComputedListener(gateway, routes), gateway.listeners, i);
        var attachedRoutes := CountAttached(gateway, l, routes);
        listeners := listeners + [ListenerStatus(l.name, attachedRoutes, ListenerConditions(gateway))];
      }
      assert gateway.listeners[..|gateway.listeners|] == gateway.listeners;
      status := GatewayStatus(
        [TrueCondition(gateway, PROGRAMMED, "Programmed", "Gateway programmed by reference implementation"),
         TrueCondition(gateway, ACCEPTED, "Accepted", "Gateway accepted by reference implementation")],
        [GatewayAddress(Some("IPAddress"), ip)], listeners);
    }

    method StatusChanged(gateway: Gateway, ip: string,
                         routes: seq<HTTPRoute>) returns (updated: bool, status: GatewayStatus)
      ensures status == ComputedStatus(gateway, ip, routes)
      ensures updated <==> !GatewayInSync(gateway.status, status)
    {
      status := ComputeStatus(gateway, ip, routes);
      KindsDiffer();
      updated := StatusDiffers(gateway.status, status);
    }

    /** From the point where the gateway is known to exist, to be of our class, and to
        have the address `ip`. */
    method ReconcileManaged(lib: Lib, gw: Gateway, ip: string, statusWrites: bool)
      returns (written: bool, failed: bool, ghost routes: seq<HTTPRoute>)
      modifies st, proxy
      ensures Enumerates(routes, old(st.View()).httpRoutes)
      ensures written <==> !GatewayInSync(gw.status, ComputedStatus(gw, ip, routes))
      ensures failed <==> written && !statusWrites
      ensures failed ==> st.View() == old(st.View()) && proxy.routes == old(proxy.routes)
      ensures !failed ==>
        && st.View() == Apply(old(st.View()), UpsertGateway(ReconciledGateway(gw, ip, routes)))
        && IsTableOf(lib, st.View(), proxy.routes)
    {
      written, failed := false, false;
      var rs := st.GetHTTPRoutes();
      routes := rs;
      var gateway := gw;
      var updated, status := StatusChanged(gateway, ip, rs);
      if updated {
        gateway := gateway.(status := status);
        written := true;
        if !statusWrites {
          failed := true;
          return;
        }
      }
      st.UpsertGateway(gateway);
      UpdateProxy(lib, st, proxy);
    }

    /** The early exits: a deleted gateway is dropped and the proxy rebuilt; a gateway of
        another class, or without an address yet, is left alone. */
    method Reconcile(lib: Lib, name: NamespacedName, got: GetResult<Gateway>, controllerOfClass: GetResult<string>,
                     address: GetResult<string>, statusWrites: bool)
      returns (written: bool, failed: bool, requeue: bool, ghost routes: seq<HTTPRoute>)
      modifies st, proxy
      ensures got.IsNotFound? ==>
        && st.View() == Apply(old(st.View()), DeleteGateway(name))
        && IsTableOf(lib, st.View(), proxy.routes) && !written && !failed && !requeue
      ensures var managed := got.Found? && controllerOfClass == Found(CONTROLLER_NAME);
              var ready := managed && address.Found? && address.value != "";
              && (!got.IsNotFound? && !ready ==>
                   && st.View() == old(st.View()) && proxy.routes == old(proxy.routes) && !written
                   && (requeue <==> managed && address == Found(""))
                   && (failed <==> got.OtherError? || (got.Found? && controllerOfClass.OtherError?) ||
                                   (managed && !address.Found?)))
              && (ready ==>
                   && Enumerates(routes, old(st.View()).httpRoutes)
                   && (written <==> !GatewayInSync(got.value.status, ComputedStatus(got.value, address.value, routes)))
                   && (failed <==> written && !statusWrites) && !requeue
                   && (failed ==> st.View() == old(st.View()) && proxy.routes == old(proxy.routes))
                   && (!failed ==>
                        && st.View() == Apply(old(st.View()), UpsertGateway(
                             ReconciledGateway(got.value, address.value, routes)))
                        && IsTableOf(lib, st.View(), proxy.routes)))
    {
      written, failed, requeue, routes := false, false, false, [];
      match got {
        case IsNotFound =>
          st.DeleteGateway(name);
          UpdateProxy(lib, st, proxy);
        case OtherError =>
          failed := true;
        case Found(gw) =>
          if !controllerOfClass.Found? {
            failed := controllerOfClass.OtherError?;
            return;
          }
          if controllerOfClass.value != CONTROLLER_NAME {
            return;
          }
          if !address.Found? {
            failed := true;
            return;
          }
          if address.value == "" {
            requeue := true;
            return;
          }
          written, failed, routes := ReconcileManaged(lib, gw, address.value, statusWrites);
      }
    }
  }
}
