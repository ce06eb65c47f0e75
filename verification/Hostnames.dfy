/** pkg/state/utils.go and InternalRoute.MatchHostname: the wildcard pattern
    language of listener and route hostnames. */
module Hostnames {
  import opened Common
  import opened GatewayApi

  /** One iteration of MatchHostname: does pattern `h` accept `host`? */
  predicate Accepts(h: string, host: string) {
    h == "*" || h == host || (HasPrefix(h, "*.") && HasSuffix(host, h[1..]))
  }

  /** The reading shared by listener hostnames and Intersect: the empty string is a
      wildcard too. */
  predicate Means(h: string, host: string) {
    h == "" || Accepts(h, host)
  }

  predicate AnyAccepts(hs: seq<string>, host: string) {
    exists h :: h in hs && Accepts(h, host)
  }

  /** Intersect; None is Go's `"", false`. */
  function Intersect(h1: string, h2: string): Option<string> {
    if h1 == "*" || h1 == "" then Some(h2)
    else if h2 == "*" || h2 == "" then Some(h1)
    else if h1 == h2 then Some(h1)
    else
      var h1Wild, h2Wild := HasPrefix(h1, "*."), HasPrefix(h2, "*.");
      if h1Wild && !h2Wild then
        if HasSuffix(h2, h1[1..]) then Some(h2) else None
      else if !h1Wild && h2Wild then
        if HasSuffix(h1, h2[1..]) then Some(h1) else None
      else if h1Wild && h2Wild then
        if HasSuffix(h1, h2[1..]) then Some(h1)
        else if HasSuffix(h2, h1[1..]) then Some(h2)
        else None
      else None
  }

  function IntersectEach(listener: string): string -> seq<string> {
    (h: string) => match Intersect(h, listener) case None => [] case Some(x) => [x]
  }

  function IntersectAll(routes: seq<string>, listener: string): seq<string> {
    if listener == "" || listener == "*" then
      if routes == [] then ["*"] else routes
    else if routes == [] then [listener]
    else FlatMap(IntersectEach(listener), routes)
  }

  method IntersectHostnames(routeHostnames: seq<string>, listenerHostname: string) returns (result: seq<string>)
    ensures result == IntersectAll(routeHostnames, listenerHostname)
  {
    if listenerHostname == "" || listenerHostname == "*" {
      if |routeHostnames| == 0 {
        return ["*"];
      }
      return routeHostnames;
    }
    if |routeHostnames| == 0 {
      return [listenerHostname];
    }
    result := [];
    for i := 0 to |routeHostnames|
      invariant result == FlatMap(IntersectEach(listenerHostname), routeHostnames[..i])
    {
      FlatMapStep(IntersectEach(listenerHostname), routeHostnames, i);
      var intersection := Intersect(routeHostnames[i], listenerHostname);
      if intersection.Some? {
        result := result + [intersection.value];
      }
    }
    assert routeHostnames[..|routeHostnames|] == routeHostnames;
  }

  function StripPort(lib: Lib, host: string): string {
    ValueOf(lib.splitHost(host), host)
  }

  /** A pattern accepts every host, itself, or, as `*.` and a parent domain, every host
      that ends with a dot and the parent. */
  lemma AcceptsIff(h: string, host: string)
    ensures Accepts(h, host) <==>
            h == "*" || h == host || exists start, parent :: h == "*." + parent && host == start + "." + parent
  {
    HasPrefixIff(h, "*.");
    HasSuffixIff(host, h[if h == "" then 0 else 1..]);
    if parent :| h == "*." + parent {
      assert h[1..] == "." + parent;
      if HasSuffix(host, h[1..]) {
        var start :| host == start + h[1..];
        assert host == start + "." + parent;
      }
    }
    if start, parent :| h == "*." + parent && host == start + "." + parent {
      assert host == start + ("." + parent);
      assert h[1..] == "." + parent;
      HasSuffixIff(host, h[1..]);
    }
  }

  method MatchHostname(lib: Lib, hostnames: seq<string>, requestHost: string) returns (matched: bool)
    ensures var host := match lib.splitHost(requestHost) case None => requestHost case Some(h) => h;
            matched <==> hostnames == [] || exists h :: h in hostnames && Accepts(h, host)
  {
    var host := requestHost;
    var h := lib.splitHost(host);
    if h.Some? {
      host := h.value;
    }
    if |hostnames| == 0 {
      return true;
    }
    for i := 0 to |hostnames|
      invariant forall j :: 0 <= j < i ==> !Accepts(hostnames[j], host)
    {
      assert hostnames[i] in hostnames;
      if hostnames[i] == "*" {
        return true;
      }
      if hostnames[i] == host {
        return true;
      }
      if HasPrefix(hostnames[i], "*.") {
        var suffix := hostnames[i][1..];
        if HasSuffix(host, suffix) {
          return true;
        }
      }
    }
    return false;
  }

  // ----- Intersect computes the intersection of the accepted hosts

  lemma SuffixTransitive(a: string, b: string, c: string)
    requires HasSuffix(a, b) && HasSuffix(b, c)
    ensures HasSuffix(a, c)
  {
  }

  lemma SuffixesAreAChain(host: string, b: string, c: string)
    requires HasSuffix(host, b) && HasSuffix(host, c) && |c| <= |b|
    ensures HasSuffix(b, c)
  {
  }

  lemma WildcardsNest(h1: string, h2: string)
    requires HasPrefix(h1, "*.") && HasPrefix(h2, "*.")
    ensures HasSuffix(h1, h2[1..]) <==> HasSuffix(h1[1..], h2[1..])
  {
    if HasSuffix(h1, h2[1..]) {
      assert h1[0] == '*' && h2[1..][0] == '.';
      assert h1[|h1| - |h2[1..]|..] == h1[1..][|h1[1..]| - |h2[1..]|..];
    }
    if HasSuffix(h1[1..], h2[1..]) {
      assert h1[|h1| - |h2[1..]|..] == h1[1..][|h1[1..]| - |h2[1..]|..];
    }
  }

  /** For every host: both patterns accept it iff there is an intersection and the
      intersection accepts it. */
  lemma IntersectExact(h1: string, h2: string, host: string)
    ensures (Means(h1, host) && Means(h2, host)) <==>
            (Intersect(h1, h2).Some? && Means(Intersect(h1, h2).value, host))
  {
    if h1 != "*" && h1 != "" && h2 != "*" && h2 != "" && h1 != h2 {
      if HasPrefix(h1, "*.") && HasPrefix(h2, "*.") {
        WildcardsNest(h1, h2);
        WildcardsNest(h2, h1);
        if HasSuffix(host, h1[1..]) && HasSuffix(host, h2[1..]) {
          if |h2| <= |h1| {
            SuffixesAreAChain(host, h1[1..], h2[1..]);
          } else {
            SuffixesAreAChain(host, h2[1..], h1[1..]);
          }
        }
        WildcardImplied(h1, h2, host);
        WildcardImplied(h2, h1, host);
      }
    }
  }

  lemma WildcardImplied(h1: string, h2: string, host: string)
    requires HasPrefix(h1, "*.") && HasPrefix(h2, "*.")
    ensures HasSuffix(h1, h2[1..]) && Accepts(h1, host) ==> Accepts(h2, host)
  {
    WildcardsNest(h1, h2);
    if HasSuffix(h1, h2[1..]) && HasSuffix(host, h1[1..]) {
      SuffixTransitive(host, h1[1..], h2[1..]);
    }
  }

  // ----- Intersect is a partial meet

  lemma MutualAcceptance(x: string, y: string)
    requires x != "*" && y != "*" && Accepts(x, y) && Accepts(y, x)
    ensures x == y
  {
    if HasPrefix(x, "*.") && HasPrefix(y, "*.") {
      WildcardsNest(x, y);
      WildcardsNest(y, x);
      assert x == x[..1] + x[1..] && y == y[..1] + y[1..];
    }
  }

  /** Idempotent, `*` a unit on the left, and the result is one of the arguments. */
  lemma IntersectSelects(h1: string, h2: string)
    ensures Intersect(h1, h1) == Some(h1)
    ensures Intersect("*", h2) == Some(h2)
    ensures Intersect(h1, h2).Some? ==> Intersect(h1, h2).value in {h1, h2}
  {
  }

  /** Intersect commutes exactly when its arguments are not the two different
      spellings of the full wildcard. */
  lemma IntersectCommutes(h1: string, h2: string)
    ensures Intersect(h1, h2) == Intersect(h2, h1) <==> {h1, h2} != {"*", ""}
  {
    if h1 != h2 && HasPrefix(h1, "*.") && HasPrefix(h2, "*.") {
      if HasSuffix(h1, h2[1..]) && HasSuffix(h2, h1[1..]) {
        MutualAcceptance(h1, h2);
      }
    }
    if (h1 == "*" || h1 == "") && (h2 == "*" || h2 == "") && h1 != h2 {
      assert {h1, h2} == {"*", ""};
    }
    if {h1, h2} == {"*", ""} {
      assert h1 in {"*", ""} && h2 in {"*", ""};
      assert "*" in {h1, h2} && "" in {h1, h2};
    }
  }

  /** `*` is a unit on the right of everything but the empty pattern. */
  lemma IntersectRightUnit(h: string)
    ensures Intersect(h, "*") == Some(h) <==> h != ""
  {
  }

  function IntersectLeft(o: Option<string>, h: string): Option<string> {
    match o case None => None case Some(x) => Intersect(x, h)
  }

  function IntersectRight(h: string, o: Option<string>): Option<string> {
    match o case None => None case Some(x) => Intersect(h, x)
  }

  /** Associative on all strings, with failure absorbing. */
  lemma IntersectAssociates(a: string, b: string, c: string)
    ensures IntersectLeft(Intersect(a, b), c) == IntersectRight(a, Intersect(b, c))
  {
    if NotTop(a) && NotTop(b) && NotTop(c) {
      var l, r := IntersectLeft(Intersect(a, b), c), IntersectRight(a, Intersect(b, c));
      forall host ensures OptionMeans(l, host) <==> OptionMeans(r, host) {
        IntersectThreeWays(a, b, c, host);
      }
      NotTopSelected(a, b, c);
      MeaningDetermines(l, r);
    }
  }

  predicate NotTop(h: string) {
    h != "*" && h != ""
  }

  predicate OptionMeans(o: Option<string>, host: string) {
    o.Some? && Means(o.value, host)
  }

  lemma NotTopSelected(a: string, b: string, c: string)
    requires NotTop(a) && NotTop(b) && NotTop(c)
    ensures var l, r := IntersectLeft(Intersect(a, b), c), IntersectRight(a, Intersect(b, c));
            (l.Some? ==> NotTop(l.value)) && (r.Some? ==> NotTop(r.value))
  {
  }

  /** A pattern other than the full wildcard is determined by the hosts it accepts. */
  lemma MeaningDetermines(l: Option<string>, r: Option<string>)
    requires (l.Some? ==> NotTop(l.value)) && (r.Some? ==> NotTop(r.value))
    requires forall host :: OptionMeans(l, host) <==> OptionMeans(r, host)
    ensures l == r
  {
    assert l.Some? ==> OptionMeans(l, l.value);
    assert r.Some? ==> OptionMeans(r, r.value);
    if l.Some? {
      MutualAcceptance(l.value, r.value);
    }
  }

  lemma IntersectThreeWays(a: string, b: string, c: string, host: string)
    ensures OptionMeans(IntersectLeft(Intersect(a, b), c), host) <==>
            OptionMeans(IntersectRight(a, Intersect(b, c)), host)
  {
    IntersectExact(a, b, host);
    IntersectExact(b, c, host);
    if Intersect(a, b).Some? {
      IntersectExact(Intersect(a, b).value, c, host);
    }
    if Intersect(b, c).Some? {
      IntersectExact(a, Intersect(b, c).value, host);
    }
  }

  /** Every common lower bound of two patterns is below their intersection. */
  lemma IntersectGreatest(a: string, b: string, c: string)
    requires Intersect(c, a) == Some(c) && Intersect(c, b) == Some(c)
    ensures Intersect(a, b).Some? && Intersect(c, Intersect(a, b).value) == Some(c)
  {
  }

  // ----- the emitted hostname list

  /** What the source objects say about a host: the listener takes it and the route
      lists no hostname or takes it. */
  predicate SourceTakes(routes: seq<string>, listener: string, host: string) {
    Means(listener, host) && (routes == [] || exists h :: h in routes && Means(h, host))
  }

  /** Whether an empty-string route hostname is passed on as it is: Intersect and the
      listener read it as a wildcard, MatchHostname does not. */
  predicate EmptyHostnameLeaks(routes: seq<string>, listener: string) {
    (listener == "" || listener == "*") && "" in routes && "*" !in routes
  }

  lemma IntersectAllMember(routes: seq<string>, listener: string, x: string)
    requires listener != "" && listener != "*" && routes != []
    ensures x in IntersectAll(routes, listener) <==> exists h :: h in routes && Intersect(h, listener) == Some(x)
  {
    FlatMapMember(IntersectEach(listener), routes, x);
  }

  lemma EmittedSound(routes: seq<string>, listener: string, host: string)
    requires AnyAccepts(IntersectAll(routes, listener), host)
    ensures SourceTakes(routes, listener, host)
  {
    var x :| x in IntersectAll(routes, listener) && Accepts(x, host);
    if listener != "" && listener != "*" && routes != [] {
      IntersectAllMember(routes, listener, x);
      var h :| h in routes && Intersect(h, listener) == Some(x);
      IntersectExact(h, listener, host);
    }
  }

  lemma NonEmptyIntersection(h: string, listener: string)
    requires listener != ""
    ensures Intersect(h, listener) != Some("")
  {
  }

  lemma EmittedComplete(routes: seq<string>, listener: string, host: string)
    requires !EmptyHostnameLeaks(routes, listener) && SourceTakes(routes, listener, host)
    ensures AnyAccepts(IntersectAll(routes, listener), host)
  {
    var out := IntersectAll(routes, listener);
    if routes == [] {
      assert out[0] in out;
    } else {
      var h :| h in routes && Means(h, host);
      if listener == "" || listener == "*" {
        assert Accepts(if h == "" then "*" else h, host);
      } else {
        IntersectExact(h, listener, host);
        var x := Intersect(h, listener).value;
        IntersectAllMember(routes, listener, x);
        NonEmptyIntersection(h, listener);
        assert x in out && Accepts(x, host);
      }
    }
  }

  function As(n: nat): (s: string)
    ensures |s| == n
    ensures '.' !in s
  {
    seq(n, i => 'a')
  }

  function LongestLength(hs: seq<string>): (n: nat)
    ensures forall h :: h in hs ==> |h| <= n
  {
    if hs == [] then 0 else
      var n := LongestLength(hs[..|hs| - 1]);
      if |hs[|hs| - 1]| > n then |hs[|hs| - 1]| else n
  }

  /** No finite list of patterns without `*` covers every host. */
  lemma SomeHostRejected(hs: seq<string>) returns (host: string)
    requires "*" !in hs
    ensures !AnyAccepts(hs, host)
  {
    host := As(LongestLength(hs) + 1);
    forall h | h in hs ensures !Accepts(h, host) {
      if HasPrefix(h, "*.") && HasSuffix(host, h[1..]) {
        SuffixHead(host, h[1..]);
      }
    }
  }

  lemma SuffixHead(s: string, suffix: string)
    requires HasSuffix(s, suffix) && suffix != ""
    ensures suffix[0] in s
  {
  }

  /** The emitted list accepts, for every host, exactly what the listener and the
      route both take, if and only if no empty route hostname leaks through a
      wildcard listener. */
  lemma HostnamesExact(routes: seq<string>, listener: string)
    ensures (forall host :: AnyAccepts(IntersectAll(routes, listener), host) <==> SourceTakes(routes, listener, host))
            <==> !EmptyHostnameLeaks(routes, listener)
  {
    if EmptyHostnameLeaks(routes, listener) {
      var host := SomeHostRejected(routes);
      assert Means("", host);
      assert SourceTakes(routes, listener, host);
    } else {
      forall host ensures AnyAccepts(IntersectAll(routes, listener), host) <==> SourceTakes(routes, listener, host) {
        if AnyAccepts(IntersectAll(routes, listener), host) {
          EmittedSound(routes, listener, host);
        }
        if SourceTakes(routes, listener, host) {
          EmittedComplete(routes, listener, host);
        }
      }
    }
  }

  ghost predicate ShareHost(h1: string, h2: string) {
    exists host :: Means(h1, host) && Means(h2, host)
  }

  lemma IntersectSomeIffShare(h1: string, h2: string)
    ensures Intersect(h1, h2).Some? <==> ShareHost(h1, h2)
  {
    if Intersect(h1, h2).Some? {
      var x := Intersect(h1, h2).value;
      assert Means(x, x);
      IntersectExact(h1, h2, x);
    }
    if ShareHost(h1, h2) {
      var host :| Means(h1, host) && Means(h2, host);
      IntersectExact(h1, h2, host);
    }
  }

  /** An empty list is emitted exactly for a route with hostnames, none of which
      shares a host with the listener. */
  lemma NoOverlapMeansNoHost(routes: seq<string>, listener: string)
    ensures IntersectAll(routes, listener) == [] <==>
            routes != [] && forall h :: h in routes ==> !ShareHost(h, listener)
  {
    var out := IntersectAll(routes, listener);
    forall h | h in routes ensures Intersect(h, listener).Some? <==> ShareHost(h, listener) {
      IntersectSomeIffShare(h, listener);
    }
    if routes != [] {
      if listener == "" || listener == "*" {
        assert routes[0] in routes && Intersect(routes[0], listener).Some?;
      } else {
        forall x ensures x in out <==> exists h :: h in routes && Intersect(h, listener) == Some(x) {
          IntersectAllMember(routes, listener, x);
        }
        if out != [] {
          assert out[0] in out;
        }
        forall h | h in routes && Intersect(h, listener).Some? ensures out != [] {
          assert Intersect(h, listener).value in out;
        }
      }
    }
  }
}
