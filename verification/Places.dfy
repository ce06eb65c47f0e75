/** Where in a table a request's candidates sit: the route, the rule and the match that
    MatchRoute of pkg/state/gateway.go is left with, independent of what backends carry. */
module Places {
  import opened Common
  import opened GatewayApi
  import opened Matching
  import opened Compiler
  import opened Outcomes

  /** Positions from the outside in: route, rule and, in a rule that has matches, match. */
  type Place = seq<nat>

  function Inside(n: nat): Place -> Place {
    (p: Place) => [n] + p
  }

  /** The places inside each element, behind the position of that element. */
  function Tagged<A>(places: A -> seq<Place>, s: seq<A>): seq<Place>
    decreases |s|
  {
    if s == [] then []
    else
      var n := |s| - 1;
      Tagged(places, s[..n]) + MapSeq(Inside(n), places(s[n]))
  }

  function MatchPlaces(lib: Lib, req: Request): InternalMatch -> seq<Place> {
    (im: InternalMatch) => if MatchAccepts(lib, im, req.path, req.header) then [[]] else []
  }

  function RulePlaces(lib: Lib, req: Request): InternalRule -> seq<Place> {
    (rule: InternalRule) => if rule.matches == [] then [[]] else Tagged(MatchPlaces(lib, req), rule.matches)
  }

  function RoutePlaces(lib: Lib, req: Request): InternalRoute -> seq<Place> {
    (route: InternalRoute) =>
      if TakesHost(lib, route.hostnames, req) then Tagged(RulePlaces(lib, req), route.rules) else []
  }

  /** The places of a request's candidates, in the order of the candidates. */
  function CandidatePlaces(lib: Lib, table: seq<InternalRoute>, req: Request): seq<Place> {
    Tagged(RoutePlaces(lib, req), table)
  }

  // ----- places and candidates run in step

  lemma {:induction false} TaggedInStep<A, B>(places: A -> seq<Place>, f: A -> seq<B>, s: seq<A>)
    requires forall x :: x in s ==> |places(x)| == |f(x)|
    ensures |Tagged(places, s)| == |FlatMap(f, s)|
    decreases |s|
  {
    if s == [] {
    } else {
      TaggedInStep(places, f, s[..|s| - 1]);
    }
  }

  /** The i-th place and the i-th element come from one position inside one element. */
  lemma {:induction false} TaggedPoint<A, B>(places: A -> seq<Place>, f: A -> seq<B>, s: seq<A>, i: nat)
    returns (k: nat, m: nat)
    requires forall x :: x in s ==> |places(x)| == |f(x)|
    requires i < |FlatMap(f, s)| && i < |Tagged(places, s)|
    ensures k < |s| && m < |f(s[k])| && m < |places(s[k])|
    ensures Tagged(places, s)[i] == [k] + places(s[k])[m] && FlatMap(f, s)[i] == f(s[k])[m]
    decreases |s|
  {
    var n := |s| - 1;
    TaggedInStep(places, f, s[..n]);
    var before := |FlatMap(f, s[..n])|;
    if i < before {
      k, m := TaggedPoint(places, f, s[..n], i);
    } else {
      k, m := n, i - before;
    }
  }

  lemma RuleInStep(lib: Lib, rule: InternalRule, req: Request)
    ensures |RulePlaces(lib, req)(rule)| == |RuleCandidates(lib, req)(rule)|
  {
    TaggedInStep(MatchPlaces(lib, req), MatchCandidates(lib, rule, req), rule.matches);
  }

  lemma RouteInStep(lib: Lib, route: InternalRoute, req: Request)
    ensures |RoutePlaces(lib, req)(route)| == |RouteCandidates(lib, req)(route)|
  {
    forall rule | rule in route.rules ensures |RulePlaces(lib, req)(rule)| == |RuleCandidates(lib, req)(rule)| {
      RuleInStep(lib, rule, req);
    }
    TaggedInStep(RulePlaces(lib, req), RuleCandidates(lib, req), route.rules);
  }

  lemma TableInStep(lib: Lib, table: seq<InternalRoute>, req: Request)
    ensures |CandidatePlaces(lib, table, req)| == |Candidates(lib, table, req)|
  {
    forall route | route in table
      ensures |RoutePlaces(lib, req)(route)| == |RouteCandidates(lib, req)(route)|
    {
      RouteInStep(lib, route, req);
    }
    TaggedInStep(RoutePlaces(lib, req), RouteCandidates(lib, req), table);
  }

  // ----- what a place holds

  /** The place inside a rule holds the candidate's match. */
  predicate HoldsInRule(rule: InternalRule, p: Place, c: Candidate) {
    c.rule == rule &&
    match c
    case Matchless(_) => p == [] && rule.matches == []
    case ByMatch(_, im) => |p| == 1 && p[0] < |rule.matches| && rule.matches[p[0]] == im
  }

  predicate HoldsInRoute(route: InternalRoute, p: Place, c: Candidate) {
    p != [] && p[0] < |route.rules| && HoldsInRule(route.rules[p[0]], p[1..], c)
  }

  predicate Holds(table: seq<InternalRoute>, p: Place, c: Candidate) {
    p != [] && p[0] < |table| && HoldsInRoute(table[p[0]], p[1..], c)
  }

  lemma RulePlaceHolds(lib: Lib, rule: InternalRule, req: Request, i: nat)
    requires i < |RuleCandidates(lib, req)(rule)| && i < |RulePlaces(lib, req)(rule)|
    ensures HoldsInRule(rule, RulePlaces(lib, req)(rule)[i], RuleCandidates(lib, req)(rule)[i])
  {
    if rule.matches != [] {
      var k, m := TaggedPoint(MatchPlaces(lib, req), MatchCandidates(lib, rule, req), rule.matches, i);
    }
  }

  lemma RoutePlaceHolds(lib: Lib, route: InternalRoute, req: Request, i: nat)
    requires i < |RouteCandidates(lib, req)(route)| && i < |RoutePlaces(lib, req)(route)|
    ensures HoldsInRoute(route, RoutePlaces(lib, req)(route)[i], RouteCandidates(lib, req)(route)[i])
  {
    forall rule | rule in route.rules ensures |RulePlaces(lib, req)(rule)| == |RuleCandidates(lib, req)(rule)| {
      RuleInStep(lib, rule, req);
    }
    var k, m := TaggedPoint(RulePlaces(lib, req), RuleCandidates(lib, req), route.rules, i);
    RulePlaceHolds(lib, route.rules[k], req, m);
  }

  /** The i-th place holds the i-th candidate. */
  lemma PlaceHoldsCandidate(lib: Lib, table: seq<InternalRoute>, req: Request, i: nat)
    requires i < |Candidates(lib, table, req)|
    ensures i < |CandidatePlaces(lib, table, req)|
    ensures Holds(table, CandidatePlaces(lib, table, req)[i], Candidates(lib, table, req)[i])
  {
    TableInStep(lib, table, req);
    forall route | route in table
      ensures |RoutePlaces(lib, req)(route)| == |RouteCandidates(lib, req)(route)|
    {
      RouteInStep(lib, route, req);
    }
    var k, m := TaggedPoint(RoutePlaces(lib, req), RouteCandidates(lib, req), table, i);
    RoutePlaceHolds(lib, table[k], req, m);
  }

  // ----- no two candidates share a place

  predicate Distinct(ps: seq<Place>) {
    forall i, j :: 0 <= i < j < |ps| ==> ps[i] != ps[j]
  }

  lemma {:induction false} TaggedInside<A>(places: A -> seq<Place>, s: seq<A>, i: nat)
    requires i < |Tagged(places, s)|
    ensures Tagged(places, s)[i] != [] && Tagged(places, s)[i][0] < |s|
    decreases |s|
  {
    var n := |s| - 1;
    if i < |Tagged(places, s[..n])| {
      TaggedInside(places, s[..n], i);
    } else {
      var p := places(s[n])[i - |Tagged(places, s[..n])|];
      assert Tagged(places, s)[i] == [n] + p;
    }
  }

  lemma InsideDistinct(n: nat, ps: seq<Place>)
    requires Distinct(ps)
    ensures Distinct(MapSeq(Inside(n), ps))
  {
    forall i, j | 0 <= i < j < |ps| ensures Inside(n)(ps[i]) != Inside(n)(ps[j]) {
      assert ([n] + ps[i])[1..] == ps[i] && ([n] + ps[j])[1..] == ps[j];
    }
  }

  lemma {:induction false} TaggedDistinct<A>(places: A -> seq<Place>, s: seq<A>)
    requires forall x :: x in s ==> Distinct(places(x))
    ensures Distinct(Tagged(places, s))
    decreases |s|
  {
    if s == [] {
    } else {
      var n := |s| - 1;
      var before, last := Tagged(places, s[..n]), MapSeq(Inside(n), places(s[n]));
      TaggedDistinct(places, s[..n]);
      InsideDistinct(n, places(s[n]));
      forall i | 0 <= i < |before| ensures before[i] != [] && before[i][0] < n {
        TaggedInside(places, s[..n], i);
      }
      assert forall j :: 0 <= j < |last| ==> last[j] != [] && last[j][0] == n;
      assert Tagged(places, s) == before + last;
    }
  }

  lemma PlacesDistinct(lib: Lib, table: seq<InternalRoute>, req: Request)
    ensures Distinct(CandidatePlaces(lib, table, req))
  {
    forall route | route in table ensures Distinct(RoutePlaces(lib, req)(route)) {
      forall rule | rule in route.rules ensures Distinct(RulePlaces(lib, req)(rule)) {
        TaggedDistinct(MatchPlaces(lib, req), rule.matches);
      }
      TaggedDistinct(RulePlaces(lib, req), route.rules);
    }
    TaggedDistinct(RoutePlaces(lib, req), table);
  }

  // ----- decoration keeps places

  lemma {:induction false} TaggedMirror<A>(places: A -> seq<Place>, m: A -> A, s: seq<A>)
    requires forall x :: x in s ==> places(m(x)) == places(x)
    ensures Tagged(places, MapSeq(m, s)) == Tagged(places, s)
    decreases |s|
  {
    if s == [] {
    } else {
      var n := |s| - 1;
      TaggedMirror(places, m, s[..n]);
      assert MapSeq(m, s)[..n] == MapSeq(m, s[..n]);
    }
  }

  lemma UndecoratedPlaces(lib: Lib, table: seq<InternalRoute>, req: Request)
    ensures CandidatePlaces(lib, MapSeq(UndecoratedRoute(), table), req) == CandidatePlaces(lib, table, req)
  {
    forall route | route in table
      ensures RoutePlaces(lib, req)(UndecoratedRoute()(route)) == RoutePlaces(lib, req)(route)
    {
      TaggedMirror(RulePlaces(lib, req), Undecorated(), route.rules);
    }
    TaggedMirror(RoutePlaces(lib, req), UndecoratedRoute(), table);
  }

  /** The place of the candidate the matcher ends on. */
  ghost function WinningPlace(lib: Lib, table: seq<InternalRoute>, req: Request): Option<Place> {
    TableInStep(lib, table, req);
    match Winner(Candidates(lib, table, req))
    case None => None
    case Some(i) => Some(CandidatePlaces(lib, table, req)[i])
  }

  lemma WinningPlaceHolds(lib: Lib, table: seq<InternalRoute>, req: Request)
    ensures var cs := Candidates(lib, table, req);
            match WinningPlace(lib, table, req)
            case None => cs == []
            case Some(p) => cs != [] && Holds(table, p, cs[Winner(cs).value])
  {
    var cs := Candidates(lib, table, req);
    if cs != [] {
      PlaceHoldsCandidate(lib, table, req, Winner(cs).value);
    }
  }

  /** Services, policies and config maps change for no request which route, which rule and
      which match wins. */
  lemma ClusterKeepsWinningPlace(lib: Lib, gateways: seq<Gateway>, routes: seq<HTTPRoute>, c1: Cluster, c2: Cluster,
                                 req: Request)
    ensures var t1, t2 := Table(lib, gateways, routes, c1), Table(lib, gateways, routes, c2);
            && CandidatePlaces(lib, t1, req) == CandidatePlaces(lib, t2, req)
            && WinningPlace(lib, t1, req) == WinningPlace(lib, t2, req)
  {
    var t1, t2 := Table(lib, gateways, routes, c1), Table(lib, gateways, routes, c2);
    TableUndecorated(lib, gateways, routes, c1, c2);
    UndecoratedPlaces(lib, t1, req);
    UndecoratedPlaces(lib, t2, req);
    ClusterDoesNotInterfere(lib, gateways, routes, c1, c2, req, 0);
  }
}
