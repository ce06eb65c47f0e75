/** pkg/state/httproute.go: validation of a route, its Accepted and ResolvedRefs
    conditions, and the reading of its stored status. */
module RouteStatus {
  import opened Common
  import opened GatewayApi
  import opened Hostnames

  // ----- Validate

  predicate IsRegex(h: HTTPHeaderMatch) {
    ValueOf(h.kind, NoHeaderType) == HeaderRegularExpression
  }

  function HeaderErrors(lib: Lib): HTTPHeaderMatch -> seq<string> {
    (h: HTTPHeaderMatch) =>
      if IsRegex(h) && lib.compileError(h.value).Some? then [lib.compileError(h.value).value] else []
  }

  function MatchErrors(lib: Lib): HTTPRouteMatch -> seq<string> {
    (m: HTTPRouteMatch) => FlatMap(HeaderErrors(lib), m.headers)
  }

  function RuleErrors(lib: Lib): HTTPRouteRule -> seq<string> {
    (rule: HTTPRouteRule) => FlatMap(MatchErrors(lib), rule.matches)
  }

  /** The first failing regular expression in document order. */
  function ValidationError(lib: Lib, route: HTTPRoute): Option<string> {
    var errors := FlatMap(RuleErrors(lib), route.rules);
    if errors == [] then None else Some("invalid regular expression in header match: " + errors[0])
  }

  method Validate(lib: Lib, route: HTTPRoute) returns (err: Option<string>)
    ensures err == ValidationError(lib, route)
  {
    for i := 0 to |route.rules|
      invariant FlatMap(RuleErrors(lib), route.rules[..i]) == []
    {
      FlatMapStep(RuleErrors(lib), route.rules, i);
      var e := ValidateRule(lib, route.rules[i]);
      if e.Some? {
        FlatMapFirst(RuleErrors(lib), route.rules, i);
        return Some("invalid regular expression in header match: " + e.value);
      }
    }
    assert route.rules[..|route.rules|] == route.rules;
    return None;
  }

  /** The loop of Validate over the matches of one rule. */
  method ValidateRule(lib: Lib, rule: HTTPRouteRule) returns (err: Option<string>)
    ensures var errors := RuleErrors(lib)(rule);
            if errors == [] then err == None else err == Some(errors[0])
  {
    for j := 0 to |rule.matches|
      invariant FlatMap(MatchErrors(lib), rule.matches[..j]) == []
    {
      FlatMapStep(MatchErrors(lib), rule.matches, j);
      var e := ValidateMatch(lib, rule.matches[j]);
      if e.Some? {
        FlatMapFirst(MatchErrors(lib), rule.matches, j);
        return e;
      }
    }
    assert rule.matches[..|rule.matches|] == rule.matches;
    return None;
  }

  /** The loop of Validate over the headers of one match. */
  method ValidateMatch(lib: Lib, m: HTTPRouteMatch) returns (err: Option<string>)
    ensures var errors := MatchErrors(lib)(m);
            if errors == [] then err == None else err == Some(errors[0])
  {
    for k := 0 to |m.headers|
      invariant FlatMap(HeaderErrors(lib), m.headers[..k]) == []
    {
      var header := m.headers[k];
      FlatMapStep(HeaderErrors(lib), m.headers, k);
      if ValueOf(header.kind, NoHeaderType) == HeaderRegularExpression {
        var e := lib.compileError(header.value);
        if e.Some? {
          FlatMapFirst(HeaderErrors(lib), m.headers, k);
          return e;
        }
        assert lib.compileError(header.value).None?;
        assert HeaderErrors(lib)(header) == [];
      } else {
        assert !IsRegex(header);
        assert HeaderErrors(lib)(header) == [];
      }
    }
    assert m.headers[..|m.headers|] == m.headers;
    return None;
  }

  ghost predicate Compiles(lib: Lib, h: HTTPHeaderMatch) {
    h.kind == Some(HeaderRegularExpression) ==> lib.compileError(h.value).None?
  }

  ghost predicate Valid(lib: Lib, route: HTTPRoute) {
    forall rule, m, h :: rule in route.rules && m in rule.matches && h in m.headers ==> Compiles(lib, h)
  }

  lemma HeaderErrorsIff(lib: Lib, h: HTTPHeaderMatch)
    ensures HeaderErrors(lib)(h) == if Compiles(lib, h) then [] else [lib.compileError(h.value).value]
  {
  }

  lemma ErrorOrigin(lib: Lib, route: HTTPRoute, e: string)
    ensures e in FlatMap(RuleErrors(lib), route.rules) <==>
            exists rule, m, h :: rule in route.rules && m in rule.matches && h in m.headers && !Compiles(lib, h) &&
                                 lib.compileError(h.value) == Some(e)
  {
    FlatMapMember(RuleErrors(lib), route.rules, e);
    forall rule: HTTPRouteRule ensures e in RuleErrors(lib)(rule) <==>
      exists m, h :: m in rule.matches && h in m.headers && !Compiles(lib, h) && lib.compileError(h.value) == Some(e)
    {
      FlatMapMember(MatchErrors(lib), rule.matches, e);
      forall m: HTTPRouteMatch ensures e in MatchErrors(lib)(m) <==>
        exists h :: h in m.headers && !Compiles(lib, h) && lib.compileError(h.value) == Some(e)
      {
        FlatMapMember(HeaderErrors(lib), m.headers, e);
        forall h ensures e in HeaderErrors(lib)(h) <==> !Compiles(lib, h) && lib.compileError(h.value) == Some(e) {
          HeaderErrorsIff(lib, h);
        }
      }
    }
  }

  /** Validation passes exactly when every regular expression of every header match
      of every rule compiles. */
  lemma ValidateDecidesValid(lib: Lib, route: HTTPRoute)
    ensures ValidationError(lib, route).None? <==> Valid(lib, route)
  {
    var errors := FlatMap(RuleErrors(lib), route.rules);
    if errors != [] {
      ErrorOrigin(lib, route, errors[0]);
    }
    if !Valid(lib, route) {
      var rule, m, h :| rule in route.rules && m in rule.matches && h in m.headers && !Compiles(lib, h);
      ErrorOrigin(lib, route, lib.compileError(h.value).value);
    }
  }

  lemma NoRuleErrors(lib: Lib, rule: HTTPRouteRule)
    requires forall m, h :: m in rule.matches && h in m.headers ==> Compiles(lib, h)
    ensures RuleErrors(lib)(rule) == []
  {
    forall m | m in rule.matches ensures MatchErrors(lib)(m) == [] {
      NoMatchErrors(lib, m);
    }
    FlatMapNone(MatchErrors(lib), rule.matches);
  }

  lemma NoMatchErrors(lib: Lib, m: HTTPRouteMatch)
    requires forall h :: h in m.headers ==> Compiles(lib, h)
    ensures MatchErrors(lib)(m) == []
  {
    forall h | h in m.headers ensures HeaderErrors(lib)(h) == [] {
      HeaderErrorsIff(lib, h);
    }
    FlatMapNone(HeaderErrors(lib), m.headers);
  }

  lemma MatchFirstError(lib: Lib, m: HTTPRouteMatch, k: nat)
    requires k < |m.headers| && !Compiles(lib, m.headers[k])
    requires forall h :: h in m.headers[..k] ==> Compiles(lib, h)
    ensures MatchErrors(lib)(m) != [] && MatchErrors(lib)(m)[0] == lib.compileError(m.headers[k].value).value
  {
    NoMatchErrors(lib, m.(headers := m.headers[..k]));
    HeaderErrorsIff(lib, m.headers[k]);
    FlatMapFirst(HeaderErrors(lib), m.headers, k);
  }

  lemma RuleFirstError(lib: Lib, rule: HTTPRouteRule, j: nat, k: nat)
    requires j < |rule.matches| && k < |rule.matches[j].headers| && !Compiles(lib, rule.matches[j].headers[k])
    requires forall m, h :: m in rule.matches[..j] && h in m.headers ==> Compiles(lib, h)
    requires forall h :: h in rule.matches[j].headers[..k] ==> Compiles(lib, h)
    ensures RuleErrors(lib)(rule) != []
    ensures RuleErrors(lib)(rule)[0] == lib.compileError(rule.matches[j].headers[k].value).value
  {
    NoRuleErrors(lib, rule.(matches := rule.matches[..j]));
    MatchFirstError(lib, rule.matches[j], k);
    FlatMapFirst(MatchErrors(lib), rule.matches, j);
  }

  /** The first expression, in document order, that does not compile gives the message. */
  lemma FirstErrorDecides(lib: Lib, route: HTTPRoute, i: nat, j: nat, k: nat)
    requires i < |route.rules| && j < |route.rules[i].matches| && k < |route.rules[i].matches[j].headers|
    requires !Compiles(lib, route.rules[i].matches[j].headers[k])
    requires forall rule, m, h :: rule in route.rules[..i] && m in rule.matches && h in m.headers ==> Compiles(lib, h)
    requires forall m, h :: m in route.rules[i].matches[..j] && h in m.headers ==> Compiles(lib, h)
    requires forall h :: h in route.rules[i].matches[j].headers[..k] ==> Compiles(lib, h)
    ensures ValidationError(lib, route) ==
            Some("invalid regular expression in header match: " +
                 lib.compileError(route.rules[i].matches[j].headers[k].value).value)
  {
    forall rule | rule in route.rules[..i] ensures RuleErrors(lib)(rule) == [] {
      NoRuleErrors(lib, rule);
    }
    FlatMapNone(RuleErrors(lib), route.rules[..i]);
    RuleFirstError(lib, route.rules[i], j, k);
    FlatMapFirst(RuleErrors(lib), route.rules, i);
  }

  // ----- ComputeAcceptedCondition

  function LookupGateway(gateways: seq<Gateway>, name: string): Option<Gateway> {
    if gateways == [] then None
    else if gateways[0].name == name then Some(gateways[0])
    else LookupGateway(gateways[1..], name)
  }

  predicate ServesHTTP(listener: Listener) {
    listener.protocol == HTTP || listener.protocol == HTTPS
  }

  predicate NamesSection(parentRef: ParentReference, listener: Listener) {
    var sectionName := ValueOf(parentRef.sectionName, "");
    sectionName == "" || sectionName == listener.name
  }

  function EffectiveHostnames(route: HTTPRoute, listener: Listener): seq<string> {
    IntersectAll(route.hostnames, ValueOf(listener.hostname, ""))
  }

  /** The hostname test of acceptance. */
  predicate Overlaps(route: HTTPRoute, listener: Listener) {
    |EffectiveHostnames(route, listener)| > 0 || |route.hostnames| == 0
  }

  predicate ListenerFits(route: HTTPRoute, parentRef: ParentReference, listener: Listener) {
    ServesHTTP(listener) && NamesSection(parentRef, listener) && Overlaps(route, listener)
  }

  function AcceptedWith(route: HTTPRoute, status: ConditionStatus, reason: string, message: string): Condition {
    Condition(ACCEPTED, status, route.generation, reason, message)
  }

  function AcceptedCondition(lib: Lib, route: HTTPRoute, parentRef: ParentReference,
                             gateways: seq<Gateway>): Condition {
    var err, gw := ValidationError(lib, route), LookupGateway(gateways, parentRef.name);
    if err.Some? then
      AcceptedWith(route, ConditionFalse, "UnsupportedValue", "Invalid route: " + err.value)
    else if gw.None? then
      AcceptedWith(route, ConditionFalse, "NoMatchingParent", "Gateway not found")
    else if exists l :: l in gw.value.listeners && ListenerFits(route, parentRef, l) then
      AcceptedWith(route, ConditionTrue, "Accepted", "Route accepted by reference implementation")
    else
      AcceptedWith(route, ConditionFalse, "NoMatchingListenerHostname", "No matching listener hostname")
  }

  method ComputeAcceptedCondition(lib: Lib, route: HTTPRoute, parentRef: ParentReference, gateways: seq<Gateway>)
    returns (c: Condition)
    ensures c == AcceptedCondition(lib, route, parentRef, gateways)
  {
    var acceptedStatus := ConditionTrue;
    var acceptedReason := "Accepted";
    var acceptedMessage := "Route accepted by reference implementation";
    var err := Validate(lib, route);
    if err.Some? {
      acceptedStatus := ConditionFalse;
      acceptedReason := "UnsupportedValue";
      acceptedMessage := "Invalid route: " + err.value;
    } else {
      var gw: Option<Gateway> := None;
      assert gateways[0..] == gateways;
      for i := 0 to |gateways|
        invariant gw == None && LookupGateway(gateways[i..], parentRef.name) == LookupGateway(gateways, parentRef.name)
      {
        if gateways[i].name == parentRef.name {
          gw := Some(gateways[i]);
          break;
        }
      }
      assert gw == LookupGateway(gateways, parentRef.name);
      if gw.None? {
        acceptedStatus := ConditionFalse;
        acceptedReason := "NoMatchingParent";
        acceptedMessage := "Gateway not found";
      } else {
        var matched := false;
        var listeners := gw.value.listeners;
        for i := 0 to |listeners|
          invariant !matched && forall j :: 0 <= j < i ==> !ListenerFits(route, parentRef, listeners[j])
        {
          if listeners[i].protocol != HTTP && listeners[i].protocol != HTTPS {
            continue;
          }
          var sectionName := ValueOf(parentRef.sectionName, "");
          if sectionName != "" && sectionName != listeners[i].name {
            continue;
          }
          var effectiveHostnames := IntersectHostnames(route.hostnames, ValueOf(listeners[i].hostname, ""));
          if |effectiveHostnames| > 0 || |route.hostnames| == 0 {
            matched := true;
            assert listeners[i] in listeners && ListenerFits(route, parentRef, listeners[i]);
            break;
          }
        }
        if !matched {
          acceptedStatus := ConditionFalse;
          acceptedReason := "NoMatchingListenerHostname";
          acceptedMessage := "No matching listener hostname";
        }
      }
    }
    return Condition(ACCEPTED, acceptedStatus, route.generation, acceptedReason, acceptedMessage);
  }

  /** Some host is taken by the listener and by the route. */
  ghost predicate HostsMeet(route: HTTPRoute, listener: Listener) {
    route.hostnames == [] ||
    exists h :: h in route.hostnames && ShareHost(h, ValueOf(listener.hostname, ""))
  }

  lemma OverlapsIffHostsMeet(route: HTTPRoute, listener: Listener)
    ensures Overlaps(route, listener) <==> HostsMeet(route, listener)
  {
    NoOverlapMeansNoHost(route.hostnames, ValueOf(listener.hostname, ""));
  }

  /** The gateway has an HTTP(S) listener, of the named section if any, that shares a
      host with the route. */
  ghost predicate Fits(route: HTTPRoute, parentRef: ParentReference, gateway: Gateway) {
    exists l :: l in gateway.listeners && ServesHTTP(l) && NamesSection(parentRef, l) && HostsMeet(route, l)
  }

  /** A route is accepted by a parent exactly when it is valid and fits the first gateway
      of that name. */
  lemma AcceptedIff(lib: Lib, route: HTTPRoute, parentRef: ParentReference, gateways: seq<Gateway>)
    ensures AcceptedCondition(lib, route, parentRef, gateways).status == ConditionTrue <==>
            && Valid(lib, route)
            && LookupGateway(gateways, parentRef.name).Some?
            && Fits(route, parentRef, LookupGateway(gateways, parentRef.name).value)
  {
    ValidateDecidesValid(lib, route);
    forall l ensures Overlaps(route, l) <==> HostsMeet(route, l) {
      OverlapsIffHostsMeet(route, l);
    }
  }

  /** The same in terms of the fields: protocol, section name and hostnames. */
  lemma FitsIff(route: HTTPRoute, p: ParentReference, g: Gateway)
    ensures Fits(route, p, g) <==>
            exists l :: l in g.listeners && (l.protocol == HTTP || l.protocol == HTTPS) &&
                        p.sectionName in {None, Some(""), Some(l.name)} && HostsMeet(route, l)
  {
    forall l | l in g.listeners
      ensures ServesHTTP(l) && NamesSection(p, l) <==>
              (l.protocol == HTTP || l.protocol == HTTPS) && p.sectionName in {None, Some(""), Some(l.name)}
    {
    }
  }

  /** The i-th gateway is the first one of that name. */
  predicate FirstNamed(gateways: seq<Gateway>, name: string, i: nat)
    requires i < |gateways|
  {
    gateways[i].name == name && forall j :: 0 <= j < i ==> gateways[j].name != name
  }

  lemma {:induction false} LookupIsFirst(gateways: seq<Gateway>, name: string, i: nat)
    requires i < |gateways| && FirstNamed(gateways, name, i)
    ensures LookupGateway(gateways, name) == Some(gateways[i])
    decreases i
  {
    if i == 0 {
    } else {
      LookupIsFirst(gateways[1..], name, i - 1);
    }
  }

  /** Every field of the condition: for this route's generation, and with the reason of the
      first test that fails. */
  lemma AcceptedConditionFields(lib: Lib, route: HTTPRoute, p: ParentReference, gateways: seq<Gateway>)
    ensures var c := AcceptedCondition(lib, route, p, gateways);
            && c.kind == "Accepted" && c.observedGeneration == route.generation
            && (c.status == if c.reason == "Accepted" then ConditionTrue else ConditionFalse)
            && (c.reason == "UnsupportedValue" <==> !Valid(lib, route))
            && (c.reason == "NoMatchingParent" <==> Valid(lib, route) && forall g :: g in gateways ==> g.name != p.name)
            && (forall i :: 0 <= i < |gateways| && FirstNamed(gateways, p.name, i) && Valid(lib, route) ==>
                  c.reason == if Fits(route, p, gateways[i]) then "Accepted" else "NoMatchingListenerHostname")
  {
    ReasonsDiffer();
    ValidateDecidesValid(lib, route);
    LookupFinds(gateways, p.name);
    AcceptedIff(lib, route, p, gateways);
    forall i | 0 <= i < |gateways| && FirstNamed(gateways, p.name, i)
      ensures LookupGateway(gateways, p.name) == Some(gateways[i])
    {
      LookupIsFirst(gateways, p.name, i);
    }
  }

  /** The message belongs to the reason. */
  lemma AcceptedConditionMessage(lib: Lib, route: HTTPRoute, p: ParentReference, gateways: seq<Gateway>)
    ensures var c := AcceptedCondition(lib, route, p, gateways);
            && (c.reason == "Accepted" ==> c.message == "Route accepted by reference implementation")
            && (c.reason == "NoMatchingParent" ==> c.message == "Gateway not found")
            && (c.reason == "NoMatchingListenerHostname" ==> c.message == "No matching listener hostname")
            && (c.reason == "UnsupportedValue" ==>
                  ValidationError(lib, route).Some? &&
                  c.message == "Invalid route: " + ValidationError(lib, route).value)
  {
    ReasonsDiffer();
  }

  lemma ReasonsDiffer()
    ensures |"Accepted"| == 8 && |"UnsupportedValue"| == 16 && |"NoMatchingParent"| == 16
    ensures "UnsupportedValue" != "NoMatchingParent" && |"NoMatchingListenerHostname"| == 26
  {
    assert "UnsupportedValue"[0] != "NoMatchingParent"[0];
  }

  // ----- lookup by name over the listings of a map

  lemma {:induction false} LookupFinds(gateways: seq<Gateway>, name: string)
    ensures LookupGateway(gateways, name).Some? <==> exists g :: g in gateways && g.name == name
    ensures LookupGateway(gateways, name).Some? ==>
              LookupGateway(gateways, name).value in gateways && LookupGateway(gateways, name).value.name == name
    decreases |gateways|
  {
    if gateways == [] {
    } else {
      LookupFinds(gateways[1..], name);
      assert forall g :: g in gateways <==> g == gateways[0] || g in gateways[1..];
    }
  }

  ghost predicate HeldAs(held: map<NamespacedName, Gateway>, n: NamespacedName, name: string) {
    n in held && held[n].name == name
  }

  /** A lookup in any listing finds one of the held gateways of that name, if any. */
  lemma LookupHeld(gateways: seq<Gateway>, held: map<NamespacedName, Gateway>, name: string)
    requires Enumerates(gateways, held)
    ensures LookupGateway(gateways, name).Some? <==> exists n :: HeldAs(held, n, name)
    ensures LookupGateway(gateways, name).Some? ==>
              exists n :: HeldAs(held, n, name) && LookupGateway(gateways, name) == Some(held[n])
  {
    LookupFinds(gateways, name);
    forall g ensures g in gateways <==> exists n :: n in held && held[n] == g {
      EnumerationValues(gateways, held, g);
    }
    if n :| HeldAs(held, n, name) {
      assert held[n] in gateways;
    }
    if LookupGateway(gateways, name).Some? {
      var g := LookupGateway(gateways, name).value;
      var n :| n in held && held[n] == g;
      assert HeldAs(held, n, name);
    }
  }

  /** Some listing makes the lookup find a chosen held gateway. */
  lemma LookupCanFind(held: map<NamespacedName, Gateway>, n: NamespacedName) returns (gateways: seq<Gateway>)
    requires n in held
    ensures Enumerates(gateways, held) && LookupGateway(gateways, held[n].name) == Some(held[n])
  {
    gateways := ListingFrom(held, n);
  }

  // ----- ComputeResolvedRefsCondition

  function BadKinds(): HTTPBackendRef -> seq<string> {
    (b: HTTPBackendRef) => if b.kind.Some? && b.kind.value != SERVICE then [b.kind.value] else []
  }

  function RuleBadKinds(): HTTPRouteRule -> seq<string> {
    (rule: HTTPRouteRule) => FlatMap(BadKinds(), rule.backendRefs)
  }

  function ResolvedRefsCondition(route: HTTPRoute): Condition {
    var bad := FlatMap(RuleBadKinds(), route.rules);
    if bad == [] then
      Condition(RESOLVED_REFS, ConditionTrue, route.generation, "ResolvedRefs", "All references resolved")
    else
      Condition(RESOLVED_REFS, ConditionFalse, route.generation, "InvalidKind", "Unsupported backend kind: " + bad[0])
  }

  method ComputeResolvedRefsCondition(route: HTTPRoute) returns (c: Condition)
    ensures c == ResolvedRefsCondition(route)
  {
    var status := ConditionTrue;
    var reason := "ResolvedRefs";
    var message := "All references resolved";
    label done:
    for i := 0 to |route.rules|
      invariant status == ConditionTrue && reason == "ResolvedRefs" && message == "All references resolved"
      invariant FlatMap(RuleBadKinds(), route.rules[..i]) == []
    {
      var backendRefs := route.rules[i].backendRefs;
      FlatMapStep(RuleBadKinds(), route.rules, i);
      for j := 0 to |backendRefs|
        invariant status == ConditionTrue && reason == "ResolvedRefs" && message == "All references resolved"
        invariant FlatMap(BadKinds(), backendRefs[..j]) == []
      {
        FlatMapStep(BadKinds(), backendRefs, j);
        if backendRefs[j].kind.Some? && backendRefs[j].kind.value != SERVICE {
          status := ConditionFalse;
          reason := "InvalidKind";
          message := "Unsupported backend kind: " + backendRefs[j].kind.value;
          FlatMapFirst(BadKinds(), backendRefs, j);
          FlatMapFirst(RuleBadKinds(), route.rules, i);
          break done;
        }
      }
      assert backendRefs[..|backendRefs|] == backendRefs;
    }
    assert route.rules[..|route.rules|] == route.rules;
    return Condition(RESOLVED_REFS, status, route.generation, reason, message);
  }

  ghost predicate KindSupported(b: HTTPBackendRef) {
    b.kind in {None, Some("Service")}
  }

  lemma ResolvedRefsIff(route: HTTPRoute)
    ensures ResolvedRefsCondition(route).status == ConditionTrue <==>
            forall rule, b :: rule in route.rules && b in rule.backendRefs ==> KindSupported(b)
    ensures ResolvedRefsCondition(route).status in {ConditionTrue, ConditionFalse}
  {
    var bad := FlatMap(RuleBadKinds(), route.rules);
    if bad != [] {
      FlatMapMember(RuleBadKinds(), route.rules, bad[0]);
      var rule :| rule in route.rules && bad[0] in RuleBadKinds()(rule);
      FlatMapMember(BadKinds(), rule.backendRefs, bad[0]);
      var b :| b in rule.backendRefs && bad[0] in BadKinds()(b);
      assert !KindSupported(b);
    }
    forall rule, b | rule in route.rules && b in rule.backendRefs && !KindSupported(b) ensures bad != [] {
      FlatMapMember(BadKinds(), rule.backendRefs, b.kind.value);
      FlatMapMember(RuleBadKinds(), route.rules, b.kind.value);
    }
  }

  /** Every field of the condition: the message names the first unsupported kind. */
  lemma ResolvedRefsFields(route: HTTPRoute)
    ensures var c := ResolvedRefsCondition(route);
            && c.kind == "ResolvedRefs" && c.observedGeneration == route.generation
            && (c.status == ConditionTrue ==> c.reason == "ResolvedRefs" && c.message == "All references resolved")
            && (c.status == ConditionFalse ==> c.reason == "InvalidKind")
  {
  }

  lemma FirstBadKindDecides(route: HTTPRoute, i: nat, j: nat)
    requires i < |route.rules| && j < |route.rules[i].backendRefs|
    requires route.rules[i].backendRefs[j].kind !in {None, Some("Service")}
    requires forall m, n :: 0 <= m < |route.rules| && 0 <= n < |route.rules[m].backendRefs| &&
                            (m < i || (m == i && n < j)) ==>
                            route.rules[m].backendRefs[n].kind in {None, Some("Service")}
    ensures ResolvedRefsCondition(route).status == ConditionFalse
    ensures ResolvedRefsCondition(route).message ==
            "Unsupported backend kind: " + route.rules[i].backendRefs[j].kind.value
  {
    var refs := route.rules[i].backendRefs;
    forall b | b in refs[..j] ensures BadKinds()(b) == [] {
      var n :| 0 <= n < j && refs[n] == b;
    }
    FlatMapNone(BadKinds(), refs[..j]);
    FlatMapFirst(BadKinds(), refs, j);
    forall rule | rule in route.rules[..i] ensures RuleBadKinds()(rule) == [] {
      var m :| 0 <= m < i && route.rules[m] == rule;
      forall b | b in rule.backendRefs ensures BadKinds()(b) == [] {
        var n :| 0 <= n < |rule.backendRefs| && rule.backendRefs[n] == b;
        assert route.rules[m].backendRefs[n].kind in {None, Some("Service")};
      }
      FlatMapNone(BadKinds(), rule.backendRefs);
    }
    FlatMapNone(RuleBadKinds(), route.rules[..i]);
    FlatMapFirst(RuleBadKinds(), route.rules, i);
  }

  // ----- reading the stored status

  predicate SaysAccepted(c: Condition) {
    c.kind == ACCEPTED && c.status == ConditionTrue
  }

  predicate ParentAccepts(ps: RouteParentStatus, controllerName: string) {
    ps.controllerName == controllerName && exists c :: c in ps.conditions && SaysAccepted(c)
  }

  predicate StoredAccepted(route: HTTPRoute, controllerName: string) {
    exists ps :: ps in route.parents && ParentAccepts(ps, controllerName)
  }

  predicate StoredMatches(route: HTTPRoute, gateway: Gateway, controllerName: string) {
    exists ps :: ps in route.parents && ParentAccepts(ps, controllerName) && ps.parentRef.name == gateway.name
  }

  /** Only entries of the named controller count, and of those only an Accepted condition
      that is true. */
  lemma StoredAcceptedFields(route: HTTPRoute, controllerName: string)
    ensures StoredAccepted(route, controllerName) <==>
            exists ps, c :: ps in route.parents && c in ps.conditions && ps.controllerName == controllerName &&
                            c.kind == "Accepted" && c.status == ConditionTrue
  {
    if ps, c :| ps in route.parents && c in ps.conditions && ps.controllerName == controllerName &&
                c.kind == "Accepted" && c.status == ConditionTrue {
      assert SaysAccepted(c);
      assert ParentAccepts(ps, controllerName);
    }
    if StoredAccepted(route, controllerName) {
      var ps :| ps in route.parents && ParentAccepts(ps, controllerName);
      var c :| c in ps.conditions && SaysAccepted(c);
    }
  }

  lemma StoredMatchesFields(route: HTTPRoute, gateway: Gateway, controllerName: string)
    ensures StoredMatches(route, gateway, controllerName) <==>
            exists ps, c :: ps in route.parents && c in ps.conditions && ps.controllerName == controllerName &&
                            ps.parentRef.name == gateway.name && c.kind == "Accepted" && c.status == ConditionTrue
  {
    if ps, c :| ps in route.parents && c in ps.conditions && ps.controllerName == controllerName &&
                ps.parentRef.name == gateway.name && c.kind == "Accepted" && c.status == ConditionTrue {
      assert SaysAccepted(c);
      assert ParentAccepts(ps, controllerName);
    }
    if StoredMatches(route, gateway, controllerName) {
      var ps :| ps in route.parents && ParentAccepts(ps, controllerName) && ps.parentRef.name == gateway.name;
      var c :| c in ps.conditions && SaysAccepted(c);
    }
  }

  /** A status written by another controller alone is ignored. */
  lemma OtherControllersIgnored(route: HTTPRoute, gateway: Gateway)
    requires forall ps :: ps in route.parents ==>
               ps.controllerName != "github.com/gke-labs/gateway-api-reference-implementation"
    ensures !StoredAccepted(route, CONTROLLER_NAME) && !StoredMatches(route, gateway, CONTROLLER_NAME)
  {
  }

  method IsAccepted(route: HTTPRoute, controllerName: string) returns (r: bool)
    ensures r <==> StoredAccepted(route, controllerName)
  {
    for i := 0 to |route.parents|
      invariant forall j :: 0 <= j < i ==> !ParentAccepts(route.parents[j], controllerName)
    {
      var ps := route.parents[i];
      if ps.controllerName == controllerName {
        for k := 0 to |ps.conditions|
          invariant forall j :: 0 <= j < k ==> !SaysAccepted(ps.conditions[j])
        {
          if ps.conditions[k].kind == ACCEPTED && ps.conditions[k].status == ConditionTrue {
            assert ps in route.parents && SaysAccepted(ps.conditions[k]);
            return true;
          }
        }
      }
    }
    return false;
  }

  method MatchesGateway(route: HTTPRoute, gateway: Gateway, controllerName: string) returns (r: bool)
    ensures r <==> StoredMatches(route, gateway, controllerName)
  {
    for i := 0 to |route.parents|
      invariant forall j :: 0 <= j < i ==>
        !(ParentAccepts(route.parents[j], controllerName) && route.parents[j].parentRef.name == gateway.name)
    {
      var ps := route.parents[i];
      if ps.controllerName == controllerName {
        if ps.parentRef.name == gateway.name {
          for k := 0 to |ps.conditions|
            invariant forall j :: 0 <= j < k ==> !SaysAccepted(ps.conditions[j])
          {
            if ps.conditions[k].kind == ACCEPTED && ps.conditions[k].status == ConditionTrue {
              assert ps in route.parents && SaysAccepted(ps.conditions[k]);
              return true;
            }
          }
        }
      }
    }
    return false;
  }
}
