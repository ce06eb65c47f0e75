/** Several reconcilers mutate State and run updateProxy at once. Each lock-protected
    operation is one step; the five reads of a call and its publication are six
    separate steps, and every map is listed in an arbitrary order. */
module Publishing {
  import opened Common
  import opened GatewayApi
  import opened Hostnames
  import opened Matching
  import opened Precedence
  import opened Compiler
  import opened Meaning
  import opened Outcomes
  import opened Serving
  import opened Store

  /** An updateProxy call in flight: what it has read, and, for the proofs only, the
      number of mutations that had happened at each read. */
  datatype Call = Call(
    at: seq<nat>, gateways: seq<Gateway>, routes: seq<HTTPRoute>, services: map<NamespacedName, Service>,
    policies: seq<BackendTLSPolicy>, configMaps: map<NamespacedName, ConfigMap>)

  /** A published table, with what its call had read and when it was published. */
  datatype Publication = Publication(read: Call, last: nat, table: seq<InternalRoute>)

  /** `history` holds the objects after each mutation, the current ones last. */
  datatype System = System(history: seq<Objects>, calls: map<nat, Call>, published: seq<Publication>) {
    function Now(): nat
      requires history != []
    {
      |history| - 1
    }

    function Current(): Objects
      requires history != []
    {
      history[|history| - 1]
    }

    function Served(): seq<InternalRoute> {
      if published == [] then [] else published[|published| - 1].table
    }
  }

  const INITIAL := System([NO_OBJECTS], map[], [])

  datatype Step =
    | Mutate(m: Mutation)
    | ReadGateways(id: nat, gateways: seq<Gateway>)
    | ReadRoutes(id: nat, routes: seq<HTTPRoute>)
    | ReadServices(id: nat)
    | ReadPolicies(id: nat, policies: seq<BackendTLSPolicy>)
    | ReadConfigMaps(id: nat)
    | Publish(id: nat)

  predicate AtRead(s: System, id: nat, n: nat) {
    id in s.calls && |s.calls[id].at| == n
  }

  ghost predicate Enabled(s: System, step: Step) {
    s.history != [] &&
    match step
    case Mutate(_) => true
    case ReadGateways(id, gs) => id !in s.calls && Enumerates(gs, s.Current().gateways)
    case ReadRoutes(id, rs) => AtRead(s, id, 1) && Enumerates(rs, s.Current().httpRoutes)
    case ReadServices(id) => AtRead(s, id, 2)
    case ReadPolicies(id, ps) => AtRead(s, id, 3) && Enumerates(ps, s.Current().policies)
    case ReadConfigMaps(id) => AtRead(s, id, 4)
    case Publish(id) => AtRead(s, id, 5)
  }

  function Built(lib: Lib, c: Call): seq<InternalRoute> {
    Table(lib, c.gateways, c.routes, Cluster(c.services, c.policies, c.configMaps))
  }

  ghost function Do(lib: Lib, s: System, step: Step): System
    requires Enabled(s, step)
  {
    var now := s.Now();
    match step
    case Mutate(m) => s.(history := s.history + [Apply(s.Current(), m)])
    case ReadGateways(id, gs) => s.(calls := s.calls[id := Call([now], gs, [], map[], [], map[])])
    case ReadRoutes(id, rs) =>
      var c := s.calls[id];
      s.(calls := s.calls[id := c.(at := c.at + [now], routes := rs)])
    case ReadServices(id) =>
      var c := s.calls[id];
      s.(calls := s.calls[id := c.(at := c.at + [now], services := s.Current().services)])
    case ReadPolicies(id, ps) =>
      var c := s.calls[id];
      s.(calls := s.calls[id := c.(at := c.at + [now], policies := ps)])
    case ReadConfigMaps(id) =>
      var c := s.calls[id];
      s.(calls := s.calls[id := c.(at := c.at + [now], configMaps := s.Current().configMaps)])
    case Publish(id) =>
      var c := s.calls[id];
      s.(calls := s.calls - {id}, published := s.published + [Publication(c, now, Built(lib, c))])
  }

  /** `steps` leads from `s` to `t`. */
  ghost predicate Run(lib: Lib, s: System, steps: seq<Step>, t: System)
    decreases |steps|
  {
    if steps == [] then s == t
    else Enabled(s, steps[0]) && Run(lib, Do(lib, s, steps[0]), steps[1..], t)
  }

  // ----- what every run keeps

  /** The call's reads so far are of maps that were current at its recorded times, and
      the times do not decrease. */
  ghost predicate CallHolds(history: seq<Objects>, c: Call) {
    && 1 <= |c.at| <= 5
    && (forall i :: 0 <= i < |c.at| ==> c.at[i] < |history|)
    && (forall i, j :: 0 <= i < j < |c.at| ==> c.at[i] <= c.at[j])
    && Enumerates(c.gateways, history[c.at[0]].gateways)
    && (|c.at| > 1 ==> Enumerates(c.routes, history[c.at[1]].httpRoutes))
    && (|c.at| > 2 ==> c.services == history[c.at[2]].services)
    && (|c.at| > 3 ==> Enumerates(c.policies, history[c.at[3]].policies))
    && (|c.at| > 4 ==> c.configMaps == history[c.at[4]].configMaps)
  }

  /** The table is a build over five maps that State held, in reading order, before it
      was published. */
  ghost predicate BuiltFromHeld(lib: Lib, history: seq<Objects>, p: Publication) {
    && CallHolds(history, p.read) && |p.read.at| == 5
    && p.read.at[4] <= p.last < |history|
    && p.table == Built(lib, p.read)
  }

  ghost predicate CallsHold(history: seq<Objects>, calls: map<nat, Call>) {
    forall id :: id in calls ==> CallHolds(history, calls[id])
  }

  ghost predicate AllBuiltFromHeld(lib: Lib, history: seq<Objects>, published: seq<Publication>) {
    forall i :: 0 <= i < |published| ==> BuiltFromHeld(lib, history, published[i])
  }

  ghost predicate AllKeyed(history: seq<Objects>) {
    forall i :: 0 <= i < |history| ==> Keyed(history[i])
  }

  ghost predicate Inv(lib: Lib, s: System) {
    && s.history != []
    && CallsHold(s.history, s.calls)
    && AllBuiltFromHeld(lib, s.history, s.published)
    && AllKeyed(s.history)
  }

  lemma CallsHoldLater(history: seq<Objects>, later: seq<Objects>, calls: map<nat, Call>)
    requires CallsHold(history, calls) && history <= later
    ensures CallsHold(later, calls)
  {
  }

  lemma AllBuiltFromHeldLater(lib: Lib, history: seq<Objects>, later: seq<Objects>, published: seq<Publication>)
    requires AllBuiltFromHeld(lib, history, published) && history <= later
    ensures AllBuiltFromHeld(lib, later, published)
  {
  }

  lemma AllKeyedLater(history: seq<Objects>, o: Objects)
    requires AllKeyed(history) && Keyed(o)
    ensures AllKeyed(history + [o])
  {
  }

  lemma InvLater(lib: Lib, s: System, o: Objects)
    requires Inv(lib, s) && Keyed(o)
    ensures Inv(lib, s.(history := s.history + [o]))
  {
    var later := s.history + [o];
    CallsHoldLater(s.history, later, s.calls);
    AllBuiltFromHeldLater(lib, s.history, later, s.published);
    AllKeyedLater(s.history, o);
  }

  lemma MutateKeepsInv(lib: Lib, s: System, m: Mutation)
    requires Inv(lib, s)
    ensures Inv(lib, Do(lib, s, Mutate(m)))
  {
    ApplyKeepsKeyed(s.Current(), m);
    InvLater(lib, s, Apply(s.Current(), m));
  }

  lemma CallKeepsInv(lib: Lib, s: System, id: nat, c: Call)
    requires Inv(lib, s) && CallHolds(s.history, c)
    ensures Inv(lib, s.(calls := s.calls[id := c]))
  {
  }

  /** Another read, at the current moment, keeps the earlier ones. */
  lemma ReadHolds(s: System, c: Call, d: Call)
    requires s.history != [] && CallHolds(s.history, c) && |c.at| < 5
    requires d.at == c.at + [s.Now()] && d.gateways == c.gateways
    requires if |c.at| == 1 then Enumerates(d.routes, s.Current().httpRoutes) else d.routes == c.routes
    requires if |c.at| == 2 then d.services == s.Current().services else d.services == c.services
    requires if |c.at| == 3 then Enumerates(d.policies, s.Current().policies) else d.policies == c.policies
    requires if |c.at| == 4 then d.configMaps == s.Current().configMaps else d.configMaps == c.configMaps
    ensures CallHolds(s.history, d)
  {
  }

  lemma ReadKeepsInv(lib: Lib, s: System, step: Step)
    requires Inv(lib, s) && Enabled(s, step) && !step.Mutate? && !step.Publish?
    ensures Inv(lib, Do(lib, s, step))
  {
    var d := Do(lib, s, step).calls[step.id];
    if !step.ReadGateways? {
      ReadHolds(s, s.calls[step.id], d);
    }
    CallKeepsInv(lib, s, step.id, d);
  }

  lemma PublishKeepsInv(lib: Lib, s: System, id: nat)
    requires Inv(lib, s) && Enabled(s, Publish(id))
    ensures Inv(lib, Do(lib, s, Publish(id)))
  {
    var c := s.calls[id];
    assert BuiltFromHeld(lib, s.history, Publication(c, s.Now(), Built(lib, c)));
  }

  lemma StepKeepsInv(lib: Lib, s: System, step: Step)
    requires Inv(lib, s) && Enabled(s, step)
    ensures Inv(lib, Do(lib, s, step))
  {
    match step
    case Mutate(m) => MutateKeepsInv(lib, s, m);
    case Publish(id) => PublishKeepsInv(lib, s, id);
    case _ => ReadKeepsInv(lib, s, step);
  }

  lemma {:induction false} RunsKeepInv(lib: Lib, s: System, steps: seq<Step>, t: System)
    requires Inv(lib, s) && Run(lib, s, steps, t)
    ensures Inv(lib, t)
    decreases |steps|
  {
    if steps == [] {
    } else {
      StepKeepsInv(lib, s, steps[0]);
      RunsKeepInv(lib, Do(lib, s, steps[0]), steps[1..], t);
    }
  }

  ghost predicate Reachable(lib: Lib, s: System) {
    exists steps :: Run(lib, INITIAL, steps, s)
  }

  lemma ReachableInv(lib: Lib, s: System)
    requires Reachable(lib, s)
    ensures Inv(lib, s)
  {
    var steps :| Run(lib, INITIAL, steps, s);
    RunsKeepInv(lib, INITIAL, steps, s);
  }

  /** Over every interleaving: each published table is a build over five maps that
      State really held, each at the time it was read and in reading order. */
  lemma EveryPublicationHeld(lib: Lib, s: System, i: nat)
    requires Reachable(lib, s) && i < |s.published|
    ensures BuiltFromHeld(lib, s.history, s.published[i])
  {
    ReachableInv(lib, s);
  }

  // ----- composing runs

  lemma RunCons(lib: Lib, s: System, step: Step, rest: seq<Step>, u: System)
    requires Enabled(s, step) && Run(lib, Do(lib, s, step), rest, u)
    ensures Run(lib, s, [step] + rest, u)
  {
  }

  lemma RunHead(lib: Lib, s: System, steps: seq<Step>, t: System)
    requires Run(lib, s, steps, t) && steps != []
    ensures Enabled(s, steps[0]) && Run(lib, Do(lib, s, steps[0]), steps[1..], t)
  {
  }

  lemma HeadTail<A>(a: seq<A>, b: seq<A>)
    requires a != []
    ensures a + b == [a[0]] + (a[1..] + b)
  {
  }

  lemma {:induction false} RunAppend(lib: Lib, s: System, a: seq<Step>, t: System, b: seq<Step>, u: System)
    requires Run(lib, s, a, t) && Run(lib, t, b, u)
    ensures Run(lib, s, a + b, u)
    decreases |a|
  {
    if a == [] {
      assert a + b == b;
    } else {
      RunHead(lib, s, a, t);
      var s' := Do(lib, s, a[0]);
      RunAppend(lib, s', a[1..], t, b, u);
      RunCons(lib, s, a[0], a[1..] + b, u);
      HeadTail(a, b);
    }
  }

  lemma RunStep(lib: Lib, s: System, step: Step)
    requires Enabled(s, step)
    ensures Run(lib, s, [step], Do(lib, s, step))
  {
  }

  lemma ExecutesThen(lib: Lib, s: System, steps: seq<Step>, t: System, step: Step)
    requires Run(lib, s, steps, t) && Enabled(t, step)
    ensures Run(lib, s, steps + [step], Do(lib, t, step))
  {
    RunStep(lib, t, step);
    RunAppend(lib, s, steps, t, [step], Do(lib, t, step));
  }

  // ----- freshness

  /** Each of the five maps is now what it was when it was read. */
  ghost predicate UpToDate(history: seq<Objects>, at: seq<nat>) {
    && history != [] && |at| == 5 && (forall i :: 0 <= i < 5 ==> at[i] < |history|)
    && var now := history[|history| - 1];
    && history[at[0]].gateways == now.gateways
    && history[at[1]].httpRoutes == now.httpRoutes
    && history[at[2]].services == now.services
    && history[at[3]].policies == now.policies
    && history[at[4]].configMaps == now.configMaps
  }

  /** What the call read lists the given maps. */
  ghost predicate Lists(c: Call, o: Objects) {
    && Enumerates(c.gateways, o.gateways) && Enumerates(c.routes, o.httpRoutes)
    && c.services == o.services && Enumerates(c.policies, o.policies) && c.configMaps == o.configMaps
  }

  lemma ListedUnderItsName<V>(s: seq<V>, m1: map<NamespacedName, V>, m2: map<NamespacedName, V>,
                              name: V -> NamespacedName, n: NamespacedName)
    requires Enumerates(s, m1) && Enumerates(s, m2)
    requires n in m1 && n == name(m1[n]) && forall k :: k in m2 ==> k == name(m2[k])
    ensures n in m2 && m2[n] == m1[n]
  {
    EnumerationValues(s, m1, m1[n]);
    EnumerationValues(s, m2, m1[n]);
  }

  /** A listing determines the map, when values are held under their own names. */
  lemma ListingDeterminesMap<V>(s: seq<V>, m1: map<NamespacedName, V>, m2: map<NamespacedName, V>,
                                name: V -> NamespacedName)
    requires Enumerates(s, m1) && Enumerates(s, m2)
    requires (forall n :: n in m1 ==> n == name(m1[n])) && (forall n :: n in m2 ==> n == name(m2[n]))
    ensures m1 == m2
  {
    forall n | n in m1 ensures n in m2 && m2[n] == m1[n] {
      ListedUnderItsName(s, m1, m2, name, n);
    }
    forall n | n in m2 ensures n in m1 {
      ListedUnderItsName(s, m2, m1, name, n);
    }
  }

  /** What a completed call read lists the current maps exactly when it is up to date. */
  lemma ListsIffUpToDate(history: seq<Objects>, c: Call)
    requires CallHolds(history, c) && |c.at| == 5 && AllKeyed(history)
    ensures Lists(c, history[|history| - 1]) <==> UpToDate(history, c.at)
  {
    var now := history[|history| - 1];
    if Lists(c, now) {
      ListingDeterminesMap(c.gateways, history[c.at[0]].gateways, now.gateways,
                           (g: Gateway) => NamespacedName(g.namespace, g.name));
      ListingDeterminesMap(c.routes, history[c.at[1]].httpRoutes, now.httpRoutes,
                           (r: HTTPRoute) => NamespacedName(r.namespace, r.name));
      ListingDeterminesMap(c.policies, history[c.at[3]].policies, now.policies,
                           (p: BackendTLSPolicy) => NamespacedName(p.namespace, p.name));
    }
  }

  /** The served table comes from a call that is up to date. */
  ghost predicate Fresh(s: System) {
    s.published != [] && UpToDate(s.history, s.published[|s.published| - 1].read.at)
  }

  /** Each publication's call had read the current maps exactly when it is up to date. */
  ghost predicate CurrentIffUpToDate(history: seq<Objects>, published: seq<Publication>)
    requires history != []
  {
    forall i :: 0 <= i < |published| ==>
      (UpToDate(history, published[i].read.at) <==> Lists(published[i].read, history[|history| - 1]))
  }

  lemma HeldListsIffUpToDate(lib: Lib, history: seq<Objects>, published: seq<Publication>)
    requires AllBuiltFromHeld(lib, history, published) && AllKeyed(history) && history != []
    ensures CurrentIffUpToDate(history, published)
  {
    forall i | 0 <= i < |published|
      ensures UpToDate(history, published[i].read.at) <==> Lists(published[i].read, history[|history| - 1])
    {
      ListsIffUpToDate(history, published[i].read);
    }
  }

  lemma InvCurrentIffUpToDate(lib: Lib, s: System)
    requires Inv(lib, s)
    ensures CurrentIffUpToDate(s.history, s.published)
  {
    HeldListsIffUpToDate(lib, s.history, s.published);
  }

  /** In every reachable state. */
  lemma EveryPublicationCurrentIff(lib: Lib, s: System)
    requires Reachable(lib, s) && s.history != []
    ensures CurrentIffUpToDate(s.history, s.published)
  {
    ReachableInv(lib, s);
    InvCurrentIffUpToDate(lib, s);
  }

  /** Each publication that is up to date holds a table of the current objects. */
  ghost predicate UpToDateTables(lib: Lib, history: seq<Objects>, published: seq<Publication>)
    requires history != []
  {
    forall i :: 0 <= i < |published| && UpToDate(history, published[i].read.at) ==>
      IsTableOf(lib, history[|history| - 1], published[i].table)
  }

  lemma HeldUpToDateTables(lib: Lib, history: seq<Objects>, published: seq<Publication>)
    requires AllBuiltFromHeld(lib, history, published) && history != []
    ensures UpToDateTables(lib, history, published)
  {
    forall i | 0 <= i < |published| && UpToDate(history, published[i].read.at)
      ensures IsTableOf(lib, history[|history| - 1], published[i].table)
    {
      var p := published[i];
      assert IsTableVia(lib, history[|history| - 1], p.table, p.read.gateways, p.read.routes, p.read.policies);
    }
  }

  lemma InvUpToDateTables(lib: Lib, s: System)
    requires Inv(lib, s)
    ensures UpToDateTables(lib, s.history, s.published)
  {
    HeldUpToDateTables(lib, s.history, s.published);
  }

  lemma ReachableUpToDateTables(lib: Lib, s: System)
    requires Reachable(lib, s) && s.history != []
    ensures UpToDateTables(lib, s.history, s.published)
  {
    ReachableInv(lib, s);
    InvUpToDateTables(lib, s);
  }

  lemma FreshTable(lib: Lib, s: System)
    requires Fresh(s) && UpToDateTables(lib, s.history, s.published)
    ensures IsTableOf(lib, s.Current(), s.Served())
  {
  }

  /** A fresh table is a table of the current objects. */
  lemma FreshIsCurrent(lib: Lib, s: System)
    requires Reachable(lib, s) && Fresh(s)
    ensures IsTableOf(lib, s.Current(), s.Served())
  {
    ReachableUpToDateTables(lib, s);
    FreshTable(lib, s);
  }

  /** No mutation that changes a map, and only calls that are up to date publish. */
  ghost predicate Undisturbed(s: System, step: Step)
    requires Enabled(s, step)
  {
    match step
    case Mutate(m) => Apply(s.Current(), m) == s.Current()
    case Publish(id) => UpToDate(s.history, s.calls[id].at)
    case _ => true
  }

  lemma MutationKeepsUpToDateIff(history: seq<Objects>, at: seq<nat>, o: Objects)
    requires UpToDate(history, at)
    ensures UpToDate(history + [o], at) <==> o == history[|history| - 1]
  {
    forall i | 0 <= i < 5 ensures (history + [o])[at[i]] == history[at[i]] {
    }
  }

  /** The undisturbed steps are exactly those after which a fresh table is still fresh. */
  lemma StaysFreshIff(lib: Lib, s: System, step: Step)
    requires Enabled(s, step) && Fresh(s)
    ensures var t := Do(lib, s, step);
            && (Fresh(t) <==> Undisturbed(s, step))
            && (Undisturbed(s, step) ==> t.Current() == s.Current())
  {
    if step.Mutate? {
      MutationKeepsUpToDateIff(s.history, s.published[|s.published| - 1].read.at, Apply(s.Current(), step.m));
    }
  }

  /** A run of undisturbed steps. */
  ghost predicate UndisturbedRun(lib: Lib, s: System, steps: seq<Step>, t: System)
    decreases |steps|
  {
    if steps == [] then s == t
    else Enabled(s, steps[0]) && Undisturbed(s, steps[0]) && UndisturbedRun(lib, Do(lib, s, steps[0]), steps[1..], t)
  }

  lemma {:induction false} UndisturbedRunFresh(lib: Lib, s: System, steps: seq<Step>, t: System)
    requires UndisturbedRun(lib, s, steps, t) && Fresh(s)
    ensures Run(lib, s, steps, t) && Fresh(t) && t.Current() == s.Current()
    decreases |steps|
  {
    if steps == [] {
    } else {
      StaysFreshIff(lib, s, steps[0]);
      UndisturbedRunFresh(lib, Do(lib, s, steps[0]), steps[1..], t);
    }
  }

  lemma ReachableRun(lib: Lib, s: System, steps: seq<Step>, t: System)
    requires Reachable(lib, s) && Run(lib, s, steps, t)
    ensures Reachable(lib, t)
  {
    var before :| Run(lib, INITIAL, before, s);
    RunAppend(lib, INITIAL, before, s, steps, t);
  }

  /** A fresh table is current, and stays served and current until a map changes or a
      call that is not up to date publishes. */
  lemma FreshStaysCurrent(lib: Lib, s: System, steps: seq<Step>, t: System)
    requires Reachable(lib, s) && UndisturbedRun(lib, s, steps, t) && Fresh(s)
    ensures t.history != [] && t.Current() == s.Current() && IsTableOf(lib, s.Current(), t.Served())
  {
    UndisturbedRunFresh(lib, s, steps, t);
    ReachableRun(lib, s, steps, t);
    FreshIsCurrent(lib, t);
  }

  /** Publishing makes the served table fresh exactly when the call is up to date,
      whatever ran in between. */
  lemma PublishingMakesFreshIff(lib: Lib, s: System, id: nat)
    requires Enabled(s, Publish(id))
    ensures Fresh(Do(lib, s, Publish(id))) <==> UpToDate(s.history, s.calls[id].at)
  {
  }

  /** And then the served table is one of the current objects. */
  lemma PublishingMakesCurrent(lib: Lib, s: System, id: nat)
    requires Reachable(lib, s) && Enabled(s, Publish(id)) && UpToDate(s.history, s.calls[id].at)
    ensures IsTableOf(lib, s.Current(), Do(lib, s, Publish(id)).Served())
  {
    var t := Do(lib, s, Publish(id));
    RunStep(lib, s, Publish(id));
    ReachableRun(lib, s, [Publish(id)], t);
    PublishingMakesFreshIff(lib, s, id);
    FreshIsCurrent(lib, t);
  }

  lemma NowIsUpToDate(history: seq<Objects>, c: Call)
    requires CallHolds(history, c) && |c.at| == 5 && c.at[0] == |history| - 1
    ensures UpToDate(history, c.at)
  {
    var now := |history| - 1;
    assert c.at[1] == now && c.at[2] == now && c.at[3] == now && c.at[4] == now;
  }

  /** A call that begins after the last mutation is up to date. */
  lemma LateCallIsUpToDate(lib: Lib, s: System, id: nat)
    requires Reachable(lib, s) && Enabled(s, Publish(id)) && s.calls[id].at[0] == s.Now()
    ensures UpToDate(s.history, s.calls[id].at)
  {
    ReachableInv(lib, s);
    NowIsUpToDate(s.history, s.calls[id]);
  }

  // ----- from a run to an answer

  /** No listener passes an empty hostname of a held route attached to it through. */
  ghost predicate ReadableObjects(lib: Lib, o: Objects) {
    forall n, l, k :: n in o.gateways && l in o.gateways[n].listeners && k in o.httpRoutes &&
                      Attached(lib, o.gateways[n], l, o.httpRoutes[k]) ==>
      !EmptyHostnameLeaks(o.httpRoutes[k].hostnames, ValueOf(l.hostname, ""))
  }

  lemma ReadableListing(lib: Lib, o: Objects, gs: seq<Gateway>, rs: seq<HTTPRoute>)
    requires ReadableObjects(lib, o) && Enumerates(gs, o.gateways) && Enumerates(rs, o.httpRoutes)
    ensures HostnamesReadable(lib, gs, rs)
  {
    forall g, l, r | g in gs && l in g.listeners && r in rs && Attached(lib, g, l, r)
      ensures !EmptyHostnameLeaks(r.hostnames, ValueOf(l.hostname, ""))
    {
      EnumerationValues(gs, o.gateways, g);
      EnumerationValues(rs, o.httpRoutes, r);
    }
  }

  /** The response is what the objects, listed that way, say: the answer of the first
      eligible way of greatest rank to take the request, or 404 when there is none. */
  ghost predicate AnsweredAs(lib: Lib, gs: seq<Gateway>, rs: seq<HTTPRoute>, cluster: Cluster, req: Request,
                             resp: Response)
  {
    var ss := SourceCandidates(lib, gs, rs, req);
    if ss == [] then resp == ErrorResponse(404, "No route for host " + req.host + " and path " + req.path)
    else exists i: nat :: IsFirstEligibleSource(ss, i) && resp == SourceResponse(lib, ss[i], cluster, req)
  }

  lemma TableAnswers(lib: Lib, gs: seq<Gateway>, rs: seq<HTTPRoute>, cluster: Cluster, req: Request)
    requires HostnamesReadable(lib, gs, rs)
    ensures AnsweredAs(lib, gs, rs, cluster, req, Served(lib, Table(lib, gs, rs, cluster), req))
  {
    var ss := SourceCandidates(lib, gs, rs, req);
    if sc :| SourceTakesBy(lib, gs, rs, req, sc) {
      SourceCandidatesComplete(lib, gs, rs, req, sc);
      var i := ServedAsTheObjectsSay(lib, gs, rs, cluster, req, sc);
    } else {
      if ss != [] {
        SourceCandidatesComplete(lib, gs, rs, req, ss[0]);
      }
      NotTakenIsNotFound(lib, gs, rs, cluster, req);
    }
  }

  lemma CurrentTableAnswers(lib: Lib, o: Objects, table: seq<InternalRoute>, req: Request)
    returns (gs: seq<Gateway>, rs: seq<HTTPRoute>, ps: seq<BackendTLSPolicy>)
    requires IsTableOf(lib, o, table) && ReadableObjects(lib, o)
    ensures Enumerates(gs, o.gateways) && Enumerates(rs, o.httpRoutes) && Enumerates(ps, o.policies)
    ensures AnsweredAs(lib, gs, rs, Cluster(o.services, ps, o.configMaps), req, Served(lib, table, req))
  {
    gs, rs, ps :| IsTableVia(lib, o, table, gs, rs, ps);
    ReadableListing(lib, o, gs, rs);
    TableAnswers(lib, gs, rs, Cluster(o.services, ps, o.configMaps), req);
  }

  /** From any interleaving to the answer: while the served table is fresh, every request
      is answered as the current objects say, over some listing of them. */
  lemma FreshAnswersAsCurrent(lib: Lib, s: System, req: Request)
    returns (gs: seq<Gateway>, rs: seq<HTTPRoute>, ps: seq<BackendTLSPolicy>)
    requires Reachable(lib, s) && Fresh(s) && ReadableObjects(lib, s.Current())
    ensures var o := s.Current();
            && Enumerates(gs, o.gateways) && Enumerates(rs, o.httpRoutes) && Enumerates(ps, o.policies)
            && AnsweredAs(lib, gs, rs, Cluster(o.services, ps, o.configMaps), req, Served(lib, s.Served(), req))
  {
    FreshIsCurrent(lib, s);
    gs, rs, ps := CurrentTableAnswers(lib, s.Current(), s.Served(), req);
  }

  // ----- a complete call

  lemma EnumeratesNone<V>(m: map<NamespacedName, V>)
    requires m == map[]
    ensures Enumerates([], m)
  {
    assert EnumeratesVia([], m, []);
  }

  lemma EnumeratesOne<V>(n: NamespacedName, v: V)
    ensures Enumerates([v], map[n := v])
  {
    assert EnumeratesVia([v], map[n := v], [n]);
  }

  /** The steps of one call that reads the given lists, while there are no policies. */
  function CallSteps(id: nat, gs: seq<Gateway>, rs: seq<HTTPRoute>): seq<Step> {
    [ReadGateways(id, gs)] + [ReadRoutes(id, rs)] + [ReadServices(id)] + [ReadPolicies(id, [])] + [ReadConfigMaps(id)]
  }

  function CompleteCall(s: System, gs: seq<Gateway>, rs: seq<HTTPRoute>): Call
    requires s.history != []
  {
    var now := s.Now();
    Call([now, now, now, now, now], gs, rs, s.Current().services, [], s.Current().configMaps)
  }

  function With(s: System, id: nat, c: Call): System {
    s.(calls := s.calls[id := c])
  }

  lemma ReadsRoutes(lib: Lib, s: System, id: nat, c: Call, rs: seq<HTTPRoute>)
    requires s.history != [] && |c.at| == 1 && Enumerates(rs, s.Current().httpRoutes)
    ensures Enabled(With(s, id, c), ReadRoutes(id, rs))
    ensures Do(lib, With(s, id, c), ReadRoutes(id, rs)) == With(s, id, c.(at := c.at + [s.Now()], routes := rs))
  {
  }

  lemma ReadsServices(lib: Lib, s: System, id: nat, c: Call)
    requires s.history != [] && |c.at| == 2
    ensures Enabled(With(s, id, c), ReadServices(id))
    ensures Do(lib, With(s, id, c), ReadServices(id)) ==
            With(s, id, c.(at := c.at + [s.Now()], services := s.Current().services))
  {
  }

  lemma ReadsPolicies(lib: Lib, s: System, id: nat, c: Call, ps: seq<BackendTLSPolicy>)
    requires s.history != [] && |c.at| == 3 && Enumerates(ps, s.Current().policies)
    ensures Enabled(With(s, id, c), ReadPolicies(id, ps))
    ensures Do(lib, With(s, id, c), ReadPolicies(id, ps)) == With(s, id, c.(at := c.at + [s.Now()], policies := ps))
  {
  }

  lemma ReadsConfigMaps(lib: Lib, s: System, id: nat, c: Call)
    requires s.history != [] && |c.at| == 4
    ensures Enabled(With(s, id, c), ReadConfigMaps(id))
    ensures Do(lib, With(s, id, c), ReadConfigMaps(id)) ==
            With(s, id, c.(at := c.at + [s.Now()], configMaps := s.Current().configMaps))
  {
  }

  lemma CallReads(lib: Lib, s: System, id: nat, gs: seq<Gateway>, rs: seq<HTTPRoute>)
    requires s.history != [] && id !in s.calls
    requires Enumerates(gs, s.Current().gateways) && Enumerates(rs, s.Current().httpRoutes)
    requires s.Current().policies == map[]
    ensures Run(lib, s, CallSteps(id, gs, rs), With(s, id, CompleteCall(s, gs, rs)))
  {
    EnumeratesNone(s.Current().policies);
    var now, o := s.Now(), s.Current();
    var c1 := Call([now], gs, [], map[], [], map[]);
    var c2 := c1.(at := c1.at + [now], routes := rs);
    var c3 := c2.(at := c2.at + [now], services := o.services);
    var c4 := c3.(at := c3.at + [now], policies := []);
    var steps := [ReadGateways(id, gs)];
    RunStep(lib, s, steps[0]);
    ReadsRoutes(lib, s, id, c1, rs);
    ExecutesThen(lib, s, steps, With(s, id, c1), ReadRoutes(id, rs));
    steps := steps + [ReadRoutes(id, rs)];
    ReadsServices(lib, s, id, c2);
    ExecutesThen(lib, s, steps, With(s, id, c2), ReadServices(id));
    steps := steps + [ReadServices(id)];
    ReadsPolicies(lib, s, id, c3, []);
    ExecutesThen(lib, s, steps, With(s, id, c3), ReadPolicies(id, []));
    steps := steps + [ReadPolicies(id, [])];
    ReadsConfigMaps(lib, s, id, c4);
    ExecutesThen(lib, s, steps, With(s, id, c4), ReadConfigMaps(id));
    steps := steps + [ReadConfigMaps(id)];
    assert c4.at + [now] == [now, now, now, now, now];
  }

  // ----- an older call can publish last

  const GATEWAY_NAME := NamespacedName("prod", "gw")
  const ROUTE_NAME := NamespacedName("prod", "r")

  function OneRoute(): Objects {
    NO_OBJECTS.(gateways := map[GATEWAY_NAME := OPEN_GATEWAY], httpRoutes := map[ROUTE_NAME := PlainRoute(None)])
  }

  lemma OneRouteEmits(lib: Lib)
    ensures EmitsFor(lib, OPEN_GATEWAY, OPEN_GATEWAY.listeners[0], PlainRoute(None))
  {
    var l, p := OPEN_GATEWAY.listeners[0], PlainRef(None);
    assert l in OPEN_GATEWAY.listeners && p in PlainRoute(None).parentRefs && RefersTo(p, OPEN_GATEWAY, l);
  }

  /** Every table of these objects holds a route. */
  lemma OneRouteTable(lib: Lib, table: seq<InternalRoute>)
    requires IsTableOf(lib, OneRoute(), table)
    ensures table != []
  {
    var gs, rs, ps :| IsTableVia(lib, OneRoute(), table, gs, rs, ps);
    var g, r, cluster := OPEN_GATEWAY, PlainRoute(None), Cluster(map[], ps, map[]);
    EnumeratesOne(GATEWAY_NAME, g);
    EnumeratesOne(ROUTE_NAME, r);
    EnumerationsAgree([g], gs, OneRoute().gateways);
    EnumerationsAgree([r], rs, OneRoute().httpRoutes);
    assert g in [g] && r in [r];
    OneRouteEmits(lib);
    var ir := CompiledRoute(lib, g.listeners[0], r, cluster);
    TableOrigin(lib, gs, rs, cluster, ir);
    assert ir in table;
  }

  /** Call 1 has read the empty maps; then the two objects were upserted. */
  ghost function OldCallWaits(): System {
    var o1 := NO_OBJECTS.(gateways := map[GATEWAY_NAME := OPEN_GATEWAY]);
    System([NO_OBJECTS, o1, OneRoute()], map[1 := CompleteCall(INITIAL, [], [])], [])
  }

  /** Call 2 has read the objects after that. */
  ghost function BothRead(): System {
    With(OldCallWaits(), 2, CompleteCall(OldCallWaits(), [OPEN_GATEWAY], [PlainRoute(None)]))
  }

  lemma OldCallWaitsReachable(lib: Lib) returns (steps: seq<Step>)
    ensures Run(lib, INITIAL, steps, OldCallWaits())
  {
    EnumeratesNone(NO_OBJECTS.gateways);
    EnumeratesNone(NO_OBJECTS.httpRoutes);
    CallReads(lib, INITIAL, 1, [], []);
    var s1 := With(INITIAL, 1, CompleteCall(INITIAL, [], []));
    var m1, m2 := Mutate(UpsertGateway(OPEN_GATEWAY)), Mutate(UpsertHTTPRoute(PlainRoute(None)));
    ExecutesThen(lib, INITIAL, CallSteps(1, [], []), s1, m1);
    steps := CallSteps(1, [], []) + [m1];
    ExecutesThen(lib, INITIAL, steps, Do(lib, s1, m1), m2);
    steps := steps + [m2];
    assert Do(lib, Do(lib, s1, m1), m2) == OldCallWaits();
  }

  lemma BothReadReachable(lib: Lib) returns (steps: seq<Step>)
    ensures Run(lib, INITIAL, steps, BothRead())
  {
    steps := OldCallWaitsReachable(lib);
    var s, gs, rs := OldCallWaits(), [OPEN_GATEWAY], [PlainRoute(None)];
    EnumeratesOne(GATEWAY_NAME, OPEN_GATEWAY);
    EnumeratesOne(ROUTE_NAME, PlainRoute(None));
    CallReads(lib, s, 2, gs, rs);
    RunAppend(lib, INITIAL, steps, s, CallSteps(2, gs, rs), BothRead());
    steps := steps + CallSteps(2, gs, rs);
  }

  lemma PublishNewerFirst(lib: Lib) returns (u: System, t: System)
    ensures Enabled(BothRead(), Publish(2)) && u == Do(lib, BothRead(), Publish(2))
    ensures Enabled(u, Publish(1)) && t == Do(lib, u, Publish(1))
    ensures t.calls == map[] && |t.published| == 2 && t.history == BothRead().history
    ensures t.published[0] == u.published[0] && t.published[0].read.at[0] == 2 && t.Served() == []
  {
    u := Do(lib, BothRead(), Publish(2));
    t := Do(lib, u, Publish(1));
    assert u.calls[1].gateways == [];
  }

  /** The exception in FreshStaysCurrent is real: there is a run after which no call is
      in flight, every mutation was followed by a complete call, and the served table is
      not a table of the current objects, because an older call published last. */
  lemma OlderCallLeavesStaleTable(lib: Lib) returns (steps: seq<Step>, t: System)
    ensures Run(lib, INITIAL, steps, t)
    ensures t.calls == map[] && |t.published| == 2 && t.history != []
    ensures UpToDate(t.history, t.published[0].read.at) && IsTableOf(lib, t.Current(), t.published[0].table)
    ensures !IsTableOf(lib, t.Current(), t.Served())
  {
    var u;
    u, t := PublishNewerFirst(lib);
    steps := BothReadReachable(lib);
    assert Reachable(lib, BothRead());
    ExecutesThen(lib, INITIAL, steps, BothRead(), Publish(2));
    steps := steps + [Publish(2)];
    ExecutesThen(lib, INITIAL, steps, u, Publish(1));
    steps := steps + [Publish(1)];
    LateCallIsUpToDate(lib, BothRead(), 2);
    PublishingMakesCurrent(lib, BothRead(), 2);
    if IsTableOf(lib, t.Current(), t.Served()) {
      OneRouteTable(lib, t.Served());
    }
  }

  // ----- tables of one state agree

  lemma SameSourcesSameRoutes(lib: Lib, gs1: seq<Gateway>, rs1: seq<HTTPRoute>, gs2: seq<Gateway>, rs2: seq<HTTPRoute>,
                              cluster: Cluster, ir: InternalRoute)
    requires forall g :: g in gs1 <==> g in gs2
    requires forall r :: r in rs1 <==> r in rs2
    ensures ir in Table(lib, gs1, rs1, cluster) <==> ir in Table(lib, gs2, rs2, cluster)
  {
    TableOrigin(lib, gs1, rs1, cluster, ir);
    TableOrigin(lib, gs2, rs2, cluster, ir);
  }

  /** Decoration changes neither ranks nor which candidates are matchless. */
  lemma UndecoratedOrder(cs1: seq<Candidate>, cs2: seq<Candidate>, cs: seq<Candidate>)
    requires MapSeq(UndecoratedCandidate(), cs1) == MapSeq(UndecoratedCandidate(), cs2)
    requires |cs1| == |cs2| && Winner(cs1) == Winner(cs2)
    ensures WinningRank(cs1) == WinningRank(cs2)
    ensures OrderIrrelevant(cs1, cs) <==> OrderIrrelevant(cs2, cs)
  {
    forall i | 0 <= i < |cs1|
      ensures cs1[i].Matchless? == cs2[i].Matchless? && cs1[i].Rank() == cs2[i].Rank()
    {
      assert MapSeq(UndecoratedCandidate(), cs1)[i] == MapSeq(UndecoratedCandidate(), cs2)[i];
    }
    assert OnlyRegexMatches(cs1) <==> OnlyRegexMatches(cs2);
  }

  /** Two tables of the same objects, however the maps were ordered, give a request the
      same winning rank exactly when the order of its candidates is irrelevant. */
  lemma TablesOfOneStateAgree(lib: Lib, o: Objects, t1: seq<InternalRoute>, t2: seq<InternalRoute>, req: Request)
    requires IsTableOf(lib, o, t1) && IsTableOf(lib, o, t2)
    ensures var cs1, cs2 := Candidates(lib, t1, req), Candidates(lib, t2, req);
            WinningRank(cs1) == WinningRank(cs2) <==> OrderIrrelevant(cs1, cs2)
  {
    var gs1, rs1, ps1 :| IsTableVia(lib, o, t1, gs1, rs1, ps1);
    var gs2, rs2, ps2 :| IsTableVia(lib, o, t2, gs2, rs2, ps2);
    var c1, c2 := Cluster(o.services, ps1, o.configMaps), Cluster(o.services, ps2, o.configMaps);
    EnumerationsAgree(gs1, gs2, o.gateways);
    EnumerationsAgree(rs1, rs2, o.httpRoutes);
    var t := Table(lib, gs1, rs1, c2);
    ClusterDoesNotInterfere(lib, gs1, rs1, c1, c2, req, 0);
    UndecoratedOrder(Candidates(lib, t1, req), Candidates(lib, t, req), Candidates(lib, t2, req));
    forall ir ensures ir in t <==> ir in t2 {
      SameSourcesSameRoutes(lib, gs1, rs1, gs2, rs2, c2, ir);
    }
    RouteOrderIrrelevantIff(lib, t, t2, req);
  }
}
