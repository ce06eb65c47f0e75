/** HTTPRouteReconciler.Reconcile of pkg/controller/httproute_controller.go. */
module RouteReconciler {
  import opened Common
  import opened GatewayApi
  import opened Conditions
  import opened RouteStatus
  import opened Outcomes
  import opened Serving
  import opened Store

  function ComputedParent(lib: Lib, route: HTTPRoute, gateways: seq<Gateway>): ParentReference -> RouteParentStatus {
    (p: ParentReference) =>
      RouteParentStatus(p, CONTROLLER_NAME,
        [AcceptedCondition(lib, route, p, gateways), ResolvedRefsCondition(route)])
  }

  /** The status Reconcile computes, one entry for each parentRef. */
  function ComputedParents(lib: Lib, route: HTTPRoute, gateways: seq<Gateway>): seq<RouteParentStatus> {
    MapSeq(ComputedParent(lib, route, gateways), route.parentRefs)
  }

  /** One entry for each parentRef, in order, signed by this controller, with the two
      conditions. */
  lemma ComputedParentsFields(lib: Lib, route: HTTPRoute, gateways: seq<Gateway>, i: nat)
    requires i < |route.parentRefs|
    ensures |ComputedParents(lib, route, gateways)| == |route.parentRefs|
    ensures var ps := ComputedParents(lib, route, gateways)[i];
            && ps.parentRef == route.parentRefs[i]
            && ps.controllerName == "github.com/gke-labs/gateway-api-reference-implementation"
            && ps.conditions ==
                 [AcceptedCondition(lib, route, route.parentRefs[i], gateways), ResolvedRefsCondition(route)]
  {
  }

  /** The stored status says what would be computed now, up to order and timestamps. */
  ghost predicate StatusInSync(lib: Lib, route: HTTPRoute, gateways: seq<Gateway>) {
    EntriesInSync(route.parents, ComputedParents(lib, route, gateways))
  }

  /** The route after a reconcile whose write, if it needs one, succeeds. */
  ghost function Reconciled(lib: Lib, route: HTTPRoute, gateways: seq<Gateway>): HTTPRoute {
    if StatusInSync(lib, route, gateways) then route
    else route.(parents := ComputedParents(lib, route, gateways))
  }

  /** Validation alone already decides a failed acceptance. */
  lemma ValidationFirst(lib: Lib, route: HTTPRoute, p: ParentReference, gateways: seq<Gateway>)
    ensures UpsertCondition(lib, route).status != ConditionTrue ==>
              UpsertCondition(lib, route) == AcceptedCondition(lib, route, p, gateways)
  {
  }

  lemma ComputedDistinct(lib: Lib, route: HTTPRoute, gateways: seq<Gateway>, p: RouteParentStatus)
    requires p in ComputedParents(lib, route, gateways)
    ensures DistinctKinds(p.conditions)
  {
  }

  function Name(route: HTTPRoute): NamespacedName {
    NamespacedName(route.namespace, route.name)
  }

  lemma UpsertTwice(o: Objects, r1: HTTPRoute, r2: HTTPRoute)
    requires Name(r1) == Name(r2)
    ensures Apply(Apply(o, UpsertHTTPRoute(r1)), UpsertHTTPRoute(r2)) == Apply(o, UpsertHTTPRoute(r2))
  {
  }

  class HTTPRouteReconciler {
    const st: State
    const proxy: Proxy

    constructor (st: State, proxy: Proxy)
      ensures this.st == st && this.proxy == proxy
    {
      this.st, this.proxy := st, proxy;
    }

    method ComputeParents(lib: Lib, route: HTTPRoute, validationCondition: Condition, gateways: seq<Gateway>)
      returns (newParents: seq<RouteParentStatus>)
      requires validationCondition == UpsertCondition(lib, route)
      ensures newParents == ComputedParents(lib, route, gateways)
    {
      newParents := [];
      for i := 0 to |route.parentRefs|
        invariant newParents == MapSeq(ComputedParent(lib, route, gateways), route.parentRefs[..i])
      {
        var parentRef := route.parentRefs[i];
        MapSeqStep(ComputedParent(lib, route, gateways), route.parentRefs, i);
        ValidationFirst(lib, route, parentRef, gateways);
        var acceptedCondition := validationCondition;
        if acceptedCondition.status == ConditionTrue {
          acceptedCondition := ComputeAcceptedCondition(lib, route, parentRef, gateways);
        }
        var resolved := ComputeResolvedRefsCondition(route);
        newParents := newParents + [RouteParentStatus(parentRef, CONTROLLER_NAME, [acceptedCondition, resolved])];
      }
      assert route.parentRefs[..|route.parentRefs|] == route.parentRefs;
    }

    method StatusChanged(lib: Lib, route: HTTPRoute, gateways: seq<Gateway>, newParents: seq<RouteParentStatus>)
      returns (updated: bool)
      requires newParents == ComputedParents(lib, route, gateways)
      ensures updated <==> !StatusInSync(lib, route, gateways)
    {
      forall p | p in newParents ensures DistinctKinds(p.conditions) {
        ComputedDistinct(lib, route, gateways, p);
      }
      updated := EntriesChanged(route.parents, newParents);
    }

    /** The reconcile of a route that exists. `statusWrites` is the outcome of the status
        update, if one is attempted; `written` says whether one is. */
    method ReconcileFound(lib: Lib, found: HTTPRoute, statusWrites: bool)
      returns (written: bool, failed: bool, ghost gateways: seq<Gateway>)
      modifies st, proxy
      ensures Enumerates(gateways, old(st.View()).gateways)
      ensures written <==> !StatusInSync(lib, found, gateways)
      ensures failed <==> written && !statusWrites
      ensures st.View() == Apply(old(st.View()), UpsertHTTPRoute(Reconciled(lib, found, gateways)))
      ensures if failed then proxy.routes == old(proxy.routes) else IsTableOf(lib, st.View(), proxy.routes)
    {
      written, failed := false, false;
      var route := found;
      var validationCondition := st.UpsertHTTPRoute(lib, route);
      var gws := st.GetGateways();
      gateways := gws;
      var newParents := ComputeParents(lib, route, validationCondition, gws);
      var updated := StatusChanged(lib, route, gws, newParents);
      if updated {
        route := route.(parents := newParents);
        UpsertTwice(old(st.View()), found, route);
        // The state holds a reference to this route, so it sees the new status even when
        // the write below fails.
        st.httpRoutes := st.httpRoutes[Name(route) := route];
        written := true;
        if !statusWrites {
          failed := true;
          return;
        }
      }
      UpsertTwice(old(st.View()), route, route);
      var _ := st.UpsertHTTPRoute(lib, route);
      UpdateProxy(lib, st, proxy);
    }

    method Reconcile(lib: Lib, name: NamespacedName, got: GetResult<HTTPRoute>, statusWrites: bool)
      returns (written: bool, failed: bool, ghost gateways: seq<Gateway>)
      modifies st, proxy
      ensures got.IsNotFound? ==>
        && st.View() == Apply(old(st.View()), DeleteHTTPRoute(name))
        && IsTableOf(lib, st.View(), proxy.routes) && !written && !failed
      ensures got.OtherError? ==>
        st.View() == old(st.View()) && proxy.routes == old(proxy.routes) && !written && failed
      ensures got.Found? ==>
        && Enumerates(gateways, old(st.View()).gateways)
        && (written <==> !StatusInSync(lib, got.value, gateways))
        && (failed <==> written && !statusWrites)
        && st.View() == Apply(old(st.View()), UpsertHTTPRoute(Reconciled(lib, got.value, gateways)))
        && (if failed then proxy.routes == old(proxy.routes) else IsTableOf(lib, st.View(), proxy.routes))
    {
      written, failed, gateways := false, false, [];
      match got {
        case IsNotFound =>
          st.DeleteHTTPRoute(name);
          UpdateProxy(lib, st, proxy);
        case OtherError =>
          failed := true;
        case Found(route) =>
          written, failed, gateways := ReconcileFound(lib, route, statusWrites);
      }
    }
  }

  // ----- a second reconcile

  lemma AcceptedIgnoresStatus(lib: Lib, route: HTTPRoute, parents: seq<RouteParentStatus>, p: ParentReference,
                              gateways: seq<Gateway>)
    ensures AcceptedCondition(lib, route.(parents := parents), p, gateways) ==
            AcceptedCondition(lib, route, p, gateways)
  {
    var r := route.(parents := parents);
    assert ValidationError(lib, r) == ValidationError(lib, route);
    assert forall l :: ListenerFits(r, p, l) <==> ListenerFits(route, p, l);
  }

  lemma ComputedIgnoresStatus(lib: Lib, route: HTTPRoute, parents: seq<RouteParentStatus>, gateways: seq<Gateway>)
    ensures ComputedParents(lib, route.(parents := parents), gateways) == ComputedParents(lib, route, gateways)
  {
    forall p: ParentReference
      ensures AcceptedCondition(lib, route.(parents := parents), p, gateways) ==
              AcceptedCondition(lib, route, p, gateways)
    {
      AcceptedIgnoresStatus(lib, route, parents, p, gateways);
    }
  }

  lemma ComputedInSyncIff(lib: Lib, route: HTTPRoute, gs1: seq<Gateway>, gs2: seq<Gateway>)
    ensures EntriesInSync(ComputedParents(lib, route, gs1), ComputedParents(lib, route, gs2)) <==>
            forall p :: p in route.parentRefs ==>
              AcceptedCondition(lib, route, p, gs1) == AcceptedCondition(lib, route, p, gs2)
  {
    var c1, c2 := ComputedParents(lib, route, gs1), ComputedParents(lib, route, gs2);
    forall i | 0 <= i < |route.parentRefs|
      ensures EntryInSync(c1[i], c2[i]) <==>
              AcceptedCondition(lib, route, route.parentRefs[i], gs1) ==
              AcceptedCondition(lib, route, route.parentRefs[i], gs2)
    {
      SameEntryIff(lib, route, route.parentRefs[i], gs1, gs2);
    }
    assert forall i :: 0 <= i < |route.parentRefs| ==> route.parentRefs[i] in route.parentRefs;
  }

  /** Whether it wrote or not, a reconcile leaves a status in sync with what it computed,
      and only the status can differ. */
  lemma ReconciledStatus(lib: Lib, route: HTTPRoute, gateways: seq<Gateway>)
    ensures var r := Reconciled(lib, route, gateways);
            && r == route.(parents := r.parents)
            && EntriesInSync(r.parents, ComputedParents(lib, route, gateways))
  {
    EntriesInSyncReflexive(ComputedParents(lib, route, gateways));
  }

  /** After a reconcile with one listing of the gateways, whether it wrote a status or
      found it in sync, a second one with another listing writes nothing exactly when every
      parentRef gets the same acceptance from both listings. */
  lemma QuietIffSameAcceptance(lib: Lib, route: HTTPRoute, gs1: seq<Gateway>, gs2: seq<Gateway>)
    ensures StatusInSync(lib, Reconciled(lib, route, gs1), gs2) <==>
            forall p :: p in route.parentRefs ==>
              AcceptedCondition(lib, route, p, gs1) == AcceptedCondition(lib, route, p, gs2)
  {
    var r := Reconciled(lib, route, gs1);
    ReconciledStatus(lib, route, gs1);
    ComputedIgnoresStatus(lib, route, r.parents, gs2);
    EntriesInSyncAlike(r.parents, ComputedParents(lib, route, gs1), ComputedParents(lib, route, gs2));
    ComputedInSyncIff(lib, route, gs1, gs2);
  }

  lemma SameEntryIff(lib: Lib, route: HTTPRoute, p: ParentReference, gs1: seq<Gateway>, gs2: seq<Gateway>)
    ensures EntryInSync(ComputedParent(lib, route, gs1)(p), ComputedParent(lib, route, gs2)(p)) <==>
            AcceptedCondition(lib, route, p, gs1) == AcceptedCondition(lib, route, p, gs2)
  {
    var e1, e2 := ComputedParent(lib, route, gs1)(p), ComputedParent(lib, route, gs2)(p);
    var a1, r := AcceptedCondition(lib, route, p, gs1), ResolvedRefsCondition(route);
    if EntryInSync(e1, e2) {
      InSyncMember(e1.conditions, e2.conditions, a1);
      assert a1 in e1.conditions;
      assert a1.kind != r.kind by {
        assert |ACCEPTED| != |RESOLVED_REFS|;
      }
    }
  }

  /** Held gateways that share a name named by the route all fit it or none does. */
  ghost predicate NamesakesFitAlike(route: HTTPRoute, held: map<NamespacedName, Gateway>) {
    forall p, n, k :: p in route.parentRefs && HeldAs(held, n, p.name) && HeldAs(held, k, p.name) ==>
      (Fits(route, p, held[n]) <==> Fits(route, p, held[k]))
  }

  lemma NamesakesAcceptAlike(lib: Lib, route: HTTPRoute, p: ParentReference, held: map<NamespacedName, Gateway>,
                             gs1: seq<Gateway>, gs2: seq<Gateway>)
    requires Enumerates(gs1, held) && Enumerates(gs2, held) && p in route.parentRefs
    requires Valid(lib, route) ==> NamesakesFitAlike(route, held)
    ensures AcceptedCondition(lib, route, p, gs1) == AcceptedCondition(lib, route, p, gs2)
  {
    ValidateDecidesValid(lib, route);
    LookupHeld(gs1, held, p.name);
    LookupHeld(gs2, held, p.name);
    AcceptedIff(lib, route, p, gs1);
    AcceptedIff(lib, route, p, gs2);
  }

  lemma UnlikeNamesakesWrite(lib: Lib, route: HTTPRoute, p: ParentReference, held: map<NamespacedName, Gateway>,
                             n: NamespacedName, k: NamespacedName) returns (gs1: seq<Gateway>, gs2: seq<Gateway>)
    requires Valid(lib, route) && p in route.parentRefs && HeldAs(held, n, p.name) && HeldAs(held, k, p.name)
    requires Fits(route, p, held[n]) && !Fits(route, p, held[k])
    ensures Enumerates(gs1, held) && Enumerates(gs2, held)
    ensures !StatusInSync(lib, Reconciled(lib, route, gs1), gs2)
  {
    gs1 := LookupCanFind(held, n);
    gs2 := LookupCanFind(held, k);
    AcceptedIff(lib, route, p, gs1);
    AcceptedIff(lib, route, p, gs2);
    QuietIffSameAcceptance(lib, route, gs1, gs2);
  }

  /** After a reconcile, which may have written a status or found it in sync, a second one
      with the same spec and the same gateways writes nothing, whatever the order of the two
      listings, exactly when the route is invalid or all held gateways of each name it
      refers to fit it alike. */
  lemma SecondReconcileQuietIff(lib: Lib, route: HTTPRoute, held: map<NamespacedName, Gateway>)
    ensures (forall gs1, gs2 :: Enumerates(gs1, held) && Enumerates(gs2, held) ==>
              StatusInSync(lib, Reconciled(lib, route, gs1), gs2)) <==>
            (Valid(lib, route) ==> NamesakesFitAlike(route, held))
  {
    if Valid(lib, route) ==> NamesakesFitAlike(route, held) {
      forall gs1, gs2 | Enumerates(gs1, held) && Enumerates(gs2, held)
        ensures StatusInSync(lib, Reconciled(lib, route, gs1), gs2)
      {
        forall p | p in route.parentRefs
          ensures AcceptedCondition(lib, route, p, gs1) == AcceptedCondition(lib, route, p, gs2)
        {
          NamesakesAcceptAlike(lib, route, p, held, gs1, gs2);
        }
        QuietIffSameAcceptance(lib, route, gs1, gs2);
      }
    } else {
      var p, n, k :| p in route.parentRefs && HeldAs(held, n, p.name) && HeldAs(held, k, p.name) &&
                     Fits(route, p, held[n]) && !Fits(route, p, held[k]);
      var gs1, gs2 := UnlikeNamesakesWrite(lib, route, p, held, n, k);
    }
  }

  /** In particular, with unique gateway names a second reconcile performs no write. */
  lemma SecondReconcileQuiet(lib: Lib, route: HTTPRoute, held: map<NamespacedName, Gateway>,
                             gs1: seq<Gateway>, gs2: seq<Gateway>)
    requires forall n, k :: n in held && k in held && held[n].name == held[k].name ==> n == k
    requires Enumerates(gs1, held) && Enumerates(gs2, held)
    ensures StatusInSync(lib, Reconciled(lib, route, gs1), gs2)
  {
    assert NamesakesFitAlike(route, held);
    SecondReconcileQuietIff(lib, route, held);
  }

  /** Two gateways of one name make the status depend on map order: whatever status this
      route has, after a reconcile with either listing of the same gateways the other
      listing forces a write, so reconciles keep writing. */
  lemma SharedNameFlaps(lib: Lib, parents: seq<RouteParentStatus>)
    ensures var r := PlainRoute(None).(parents := parents);
            var gs1, gs2 := [BARE_GATEWAY, OPEN_GATEWAY], [OPEN_GATEWAY, BARE_GATEWAY];
            && !StatusInSync(lib, Reconciled(lib, r, gs1), gs2)
            && !StatusInSync(lib, Reconciled(lib, r, gs2), gs1)
  {
    var r, p := PlainRoute(None).(parents := parents), PlainRef(None);
    var gs1, gs2 := [BARE_GATEWAY, OPEN_GATEWAY], [OPEN_GATEWAY, BARE_GATEWAY];
    AcceptedIff(lib, r, p, gs1);
    AcceptedIff(lib, r, p, gs2);
    assert OPEN_GATEWAY.listeners[0] in OPEN_GATEWAY.listeners;
    assert p in r.parentRefs;
    QuietIffSameAcceptance(lib, r, gs1, gs2);
    QuietIffSameAcceptance(lib, r, gs2, gs1);
  }
}
