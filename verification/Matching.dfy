/** The compiled routing table and the request matcher: InternalMatch.Matches,
    isBetterMatch and MatchRoute of pkg/state/gateway.go. */
module Matching {
  import opened Common
  import opened GatewayApi
  import opened Hostnames
  import opened Paths

  datatype ErrorState = ErrorState(condition: Condition, httpStatusCode: int, httpMessage: string)

  datatype InternalTLSConfig = InternalTLSConfig(hostname: string, caCerts: seq<string>)

  datatype InternalBackend = InternalBackend(
    host: string, port: int, appProtocol: Option<string>, tlsConfig: Option<InternalTLSConfig>)

  datatype InternalPathRedirect = InternalPathRedirect(kind: PathModifierType, value: string)

  datatype InternalRedirect = InternalRedirect(
    scheme: Option<string>, hostname: Option<string>, path: Option<InternalPathRedirect>, port: Option<int>,
    statusCode: Option<int>)

  datatype InternalPathMatch = InternalPathMatch(kind: PathMatchType, value: string)

  /** A compiled regular expression is represented by its source text. */
  datatype InternalHeaderMatch = InternalHeaderMatch(
    kind: HeaderMatchType, name: string, exactValue: string, regexp: Option<string>)

  datatype InternalMatch = InternalMatch(path: Option<InternalPathMatch>, headers: seq<InternalHeaderMatch>)

  datatype InternalRule = InternalRule(
    matches: seq<InternalMatch>, backend: Option<InternalBackend>, redirect: Option<InternalRedirect>,
    error: Option<ErrorState>)

  datatype InternalRoute = InternalRoute(hostnames: seq<string>, rules: seq<InternalRule>)

  // ----- InternalMatch.Matches

  predicate AcceptsPath(im: InternalMatch, path: string) {
    match im.path
    case None => true
    case Some(p) =>
      match p.kind
      case Exact => path == p.value
      case PathPrefix => HasPathPrefix(path, p.value)
      case _ => true
  }

  predicate AcceptsHeaderValue(lib: Lib, hm: InternalHeaderMatch, v: string) {
    if hm.kind == HeaderRegularExpression then hm.regexp.Some? && lib.matchString(hm.regexp.value, v)
    else v == hm.exactValue
  }

  function HeaderValues(lib: Lib, header: map<string, seq<string>>, name: string): seq<string> {
    var key := lib.canonicalHeaderKey(name);
    if key in header then header[key] else []
  }

  predicate AcceptsHeader(lib: Lib, hm: InternalHeaderMatch, header: map<string, seq<string>>) {
    exists v :: v in HeaderValues(lib, header, hm.name) && AcceptsHeaderValue(lib, hm, v)
  }

  /** The values looked at are those under the canonical form of the header's name. */
  lemma AcceptsHeaderIff(lib: Lib, hm: InternalHeaderMatch, header: map<string, seq<string>>)
    ensures AcceptsHeader(lib, hm, header) <==>
            && lib.canonicalHeaderKey(hm.name) in header
            && exists i :: 0 <= i < |header[lib.canonicalHeaderKey(hm.name)]| &&
                           AcceptsHeaderValue(lib, hm, header[lib.canonicalHeaderKey(hm.name)][i])
  {
    var key := lib.canonicalHeaderKey(hm.name);
    if key in header {
      assert HeaderValues(lib, header, hm.name) == header[key];
      assert forall i :: 0 <= i < |header[key]| ==> header[key][i] in header[key];
    }
  }

  predicate MatchAccepts(lib: Lib, im: InternalMatch, path: string, header: map<string, seq<string>>) {
    AcceptsPath(im, path) && forall hm :: hm in im.headers ==> AcceptsHeader(lib, hm, header)
  }

  method Matches(lib: Lib, im: InternalMatch, path: string, header: map<string, seq<string>>) returns (r: bool)
    ensures r <==> MatchAccepts(lib, im, path, header)
  {
    if im.path.Some? {
      match im.path.value.kind {
        case Exact =>
          if path != im.path.value.value {
            return false;
          }
        case PathPrefix =>
          if !HasPathPrefix(path, im.path.value.value) {
            return false;
          }
        case _ =>
      }
    }
    for i := 0 to |im.headers|
      invariant forall j :: 0 <= j < i ==> AcceptsHeader(lib, im.headers[j], header)
    {
      var hm := im.headers[i];
      var key := lib.canonicalHeaderKey(hm.name);
      var values := if key in header then header[key] else [];
      assert values == HeaderValues(lib, header, hm.name);
      var matched := false;
      for k := 0 to |values|
        invariant !matched && forall j :: 0 <= j < k ==> !AcceptsHeaderValue(lib, hm, values[j])
      {
        assert values[k] in values;
        if hm.kind == HeaderRegularExpression {
          if hm.regexp.Some? && lib.matchString(hm.regexp.value, values[k]) {
            matched := true;
            break;
          }
        } else {
          if values[k] == hm.exactValue {
            matched := true;
            break;
          }
        }
      }
      if !matched {
        assert hm in im.headers;
        return false;
      }
    }
    return true;
  }

  // ----- precedence

  function GetPathMatchType(m: InternalMatch): PathMatchType {
    match m.path case None => NoPathType case Some(p) => p.kind
  }

  function GetPathMatchTypeWeight(t: PathMatchType): nat {
    match t
    case Exact => 3
    case PathPrefix => 2
    case NoPathType => 1
    case RegularExpression => 0
  }

  function GetPathLen(m: InternalMatch): nat {
    match m.path case None => 0 case Some(p) => |p.value|
  }

  predicate IsBetterMatch(current: InternalMatch, best: Option<InternalMatch>) {
    if best.None? then true
    else
      var currentType, bestType := GetPathMatchType(current), GetPathMatchType(best.value);
      if currentType != bestType then GetPathMatchTypeWeight(currentType) > GetPathMatchTypeWeight(bestType)
      else
        var currentPathLen, bestPathLen := GetPathLen(current), GetPathLen(best.value);
        if currentPathLen != bestPathLen then currentPathLen > bestPathLen
        else |current.headers| > |best.value.headers|
  }

  const EMPTY_MATCH := InternalMatch(None, [])

  datatype Rank = Rank(weight: nat, length: nat, headers: nat)

  /** Lexicographic order. */
  predicate Less(a: Rank, b: Rank) {
    a.weight < b.weight ||
    (a.weight == b.weight && (a.length < b.length || (a.length == b.length && a.headers < b.headers)))
  }

  function RankOf(m: InternalMatch): Rank {
    Rank(GetPathMatchTypeWeight(GetPathMatchType(m)), GetPathLen(m), |m.headers|)
  }

  /** isBetterMatch is the strict lexicographic order of ranks. */
  lemma BetterMeansHigherRank(current: InternalMatch, best: InternalMatch)
    ensures IsBetterMatch(current, Some(best)) <==> Less(RankOf(best), RankOf(current))
  {
  }

  predicate HasPathOf(m: InternalMatch, kind: PathMatchType, length: nat) {
    m.path.Some? && m.path.value.kind == kind && |m.path.value.value| == length
  }

  /** The rules of precedence, each by itself: exact before prefix before no path before
      regular expression; of one path type, the longer path; of one length, more headers. */
  lemma BetterMatchRules(a: InternalMatch, b: InternalMatch, m: nat, n: nat)
    ensures HasPathOf(a, Exact, m) && HasPathOf(b, PathPrefix, n) ==> IsBetterMatch(a, Some(b))
    ensures HasPathOf(a, PathPrefix, m) && b.path == None ==> IsBetterMatch(a, Some(b))
    ensures a.path == None && HasPathOf(b, RegularExpression, n) ==> IsBetterMatch(a, Some(b))
    ensures forall kind :: kind != NoPathType && HasPathOf(a, kind, m) && HasPathOf(b, kind, n) ==>
              (IsBetterMatch(a, Some(b)) <==> m > n || (m == n && |a.headers| > |b.headers|))
    ensures a.path == None == b.path ==> (IsBetterMatch(a, Some(b)) <==> |a.headers| > |b.headers|)
    ensures !(IsBetterMatch(a, Some(b)) && IsBetterMatch(b, Some(a)))
  {
  }

  // ----- the candidates of a request

  /** A way the table takes a request: through one match of a rule, or through a rule
      without matches. */
  datatype Candidate = ByMatch(rule: InternalRule, im: InternalMatch) | Matchless(rule: InternalRule) {
    function Match(): InternalMatch {
      match this case ByMatch(_, im) => im case Matchless(_) => EMPTY_MATCH
    }

    function Rank(): Rank {
      RankOf(Match())
    }
  }

  function MatchCandidates(lib: Lib, rule: InternalRule, req: Request): InternalMatch -> seq<Candidate> {
    (im: InternalMatch) => if MatchAccepts(lib, im, req.path, req.header) then [ByMatch(rule, im)] else []
  }

  function RuleCandidates(lib: Lib, req: Request): InternalRule -> seq<Candidate> {
    (rule: InternalRule) =>
      if rule.matches == [] then [Matchless(rule)] else FlatMap(MatchCandidates(lib, rule, req), rule.matches)
  }

  predicate TakesHost(lib: Lib, hostnames: seq<string>, req: Request) {
    hostnames == [] || AnyAccepts(hostnames, StripPort(lib, req.host))
  }

  function RouteCandidates(lib: Lib, req: Request): InternalRoute -> seq<Candidate> {
    (route: InternalRoute) =>
      if TakesHost(lib, route.hostnames, req) then FlatMap(RuleCandidates(lib, req), route.rules) else []
  }

  /** Every candidate of the request, in table order. */
  function Candidates(lib: Lib, table: seq<InternalRoute>, req: Request): seq<Candidate> {
    FlatMap(RouteCandidates(lib, req), table)
  }

  // ----- MatchRoute

  /** The matcher's replacement test, with its special case for rules without matches. */
  predicate Replaces(c: Candidate, best: Option<InternalMatch>) {
    if c.Matchless? then best.None? else IsBetterMatch(c.im, best)
  }

  /** Position, among the candidates, of the one the matcher is left with. */
  function Winner(cs: seq<Candidate>): (w: Option<nat>)
    ensures w.Some? <==> cs != []
    ensures w.Some? ==> w.value < |cs|
  {
    if cs == [] then None
    else
      var n := |cs| - 1;
      var w := Winner(cs[..n]);
      if Replaces(cs[n], WinningMatch(cs[..n], w)) then Some(n) else w
  }

  function WinningMatch(cs: seq<Candidate>, w: Option<nat>): Option<InternalMatch>
    requires w.Some? ==> w.value < |cs|
  {
    match w case None => None case Some(i) => Some(cs[i].Match())
  }

  function WinningRule(cs: seq<Candidate>, w: Option<nat>): Option<InternalRule>
    requires w.Some? ==> w.value < |cs|
  {
    match w case None => None case Some(i) => Some(cs[i].rule)
  }

  lemma WinnerStep(cs: seq<Candidate>, c: Candidate)
    ensures var w := Winner(cs);
            Winner(cs + [c]) == if Replaces(c, WinningMatch(cs, w)) then Some(|cs|) else w
  {
    var ds := cs + [c];
    assert ds[..|ds| - 1] == cs && ds[|ds| - 1] == c;
  }

  /** The matcher's two result variables, after the candidates `seen`. */
  predicate IsResult(seen: seq<Candidate>, bestRule: Option<InternalRule>, bestMatch: Option<InternalMatch>) {
    bestRule == WinningRule(seen, Winner(seen)) && bestMatch == WinningMatch(seen, Winner(seen))
  }

  lemma ResultStep(seen: seq<Candidate>, bestRule: Option<InternalRule>, bestMatch: Option<InternalMatch>, c: Candidate)
    requires IsResult(seen, bestRule, bestMatch)
    ensures bestRule.None? <==> bestMatch.None?
    ensures if Replaces(c, bestMatch) then IsResult(seen + [c], Some(c.rule), Some(c.Match()))
            else IsResult(seen + [c], bestRule, bestMatch)
  {
    WinnerStep(seen, c);
    var all, w := seen + [c], Winner(seen);
    if Replaces(c, bestMatch) {
      assert all[|seen|] == c;
    } else {
      assert w.Some? ==> all[w.value] == seen[w.value];
    }
  }

  method MatchRoute(lib: Lib, routes: seq<InternalRoute>, req: Request)
    returns (bestRule: Option<InternalRule>, bestMatch: Option<InternalMatch>)
    ensures IsResult(Candidates(lib, routes, req), bestRule, bestMatch)
  {
    bestRule, bestMatch := None, None;
    for i := 0 to |routes|
      invariant IsResult(FlatMap(RouteCandidates(lib, req), routes[..i]), bestRule, bestMatch)
    {
      FlatMapStep(RouteCandidates(lib, req), routes, i);
      ghost var before := FlatMap(RouteCandidates(lib, req), routes[..i]);
      var hostMatched := MatchHostname(lib, routes[i].hostnames, req.host);
      if !hostMatched {
        assert RouteCandidates(lib, req)(routes[i]) == [];
        assert before + [] == before;
        continue;
      }
      bestRule, bestMatch := MatchRules(lib, routes[i].rules, req, bestRule, bestMatch, before);
      assert RouteCandidates(lib, req)(routes[i]) == FlatMap(RuleCandidates(lib, req), routes[i].rules);
    }
    assert routes[..|routes|] == routes;
  }

  /** The loop of MatchRoute over the rules of one route. */
  method MatchRules(lib: Lib, rules: seq<InternalRule>, req: Request,
                    rule0: Option<InternalRule>, match0: Option<InternalMatch>, ghost before: seq<Candidate>)
    returns (bestRule: Option<InternalRule>, bestMatch: Option<InternalMatch>)
    requires IsResult(before, rule0, match0)
    ensures IsResult(before + FlatMap(RuleCandidates(lib, req), rules), bestRule, bestMatch)
  {
    bestRule, bestMatch := rule0, match0;
    ghost var seen := before;
    for j := 0 to |rules|
      invariant seen == before + FlatMap(RuleCandidates(lib, req), rules[..j])
      invariant IsResult(seen, bestRule, bestMatch)
    {
      bestRule, bestMatch := MatchRule(lib, rules[j], req, bestRule, bestMatch, seen);
      FlatMapStepAfter(before, RuleCandidates(lib, req), rules, j);
      seen := seen + RuleCandidates(lib, req)(rules[j]);
    }
    assert rules[..|rules|] == rules;
  }

  /** One iteration of that loop: the matches of one rule, and the special case for a
      rule that has none. */
  method MatchRule(lib: Lib, rule: InternalRule, req: Request,
                   rule0: Option<InternalRule>, match0: Option<InternalMatch>, ghost before: seq<Candidate>)
    returns (bestRule: Option<InternalRule>, bestMatch: Option<InternalMatch>)
    requires IsResult(before, rule0, match0)
    ensures IsResult(before + RuleCandidates(lib, req)(rule), bestRule, bestMatch)
  {
    bestRule, bestMatch := rule0, match0;
    ghost var seen := before;
    for k := 0 to |rule.matches|
      invariant seen == before + FlatMap(MatchCandidates(lib, rule, req), rule.matches[..k])
      invariant IsResult(seen, bestRule, bestMatch)
    {
      var im := rule.matches[k];
      var matched := Matches(lib, im, req.path, req.header);
      FlatMapStepAfter(before, MatchCandidates(lib, rule, req), rule.matches, k);
      if matched {
        ResultStep(seen, bestRule, bestMatch, ByMatch(rule, im));
        if IsBetterMatch(im, bestMatch) {
          bestMatch := Some(im);
          bestRule := Some(rule);
        }
      } else {
        assert seen + [] == seen;
      }
      seen := seen + MatchCandidates(lib, rule, req)(im);
    }
    assert rule.matches[..|rule.matches|] == rule.matches;
    if |rule.matches| == 0 {
      ResultStep(seen, bestRule, bestMatch, Matchless(rule));
      seen := seen + [Matchless(rule)];
      if bestRule.None? {
        bestRule := Some(rule);
        bestMatch := Some(EMPTY_MATCH);
      }
    }
    assert seen == before + RuleCandidates(lib, req)(rule);
  }

  // ----- what the winner is

  /** Position `i` holds the first candidate of greatest rank. */
  ghost predicate IsFirstMax(cs: seq<Candidate>, i: nat) {
    && i < |cs|
    && (forall j :: 0 <= j < i ==> Less(cs[j].Rank(), cs[i].Rank()))
    && (forall j :: i < j < |cs| ==> !Less(cs[i].Rank(), cs[j].Rank()))
  }

  /** The candidates the matcher can end on: a rule without matches only if it comes
      first. */
  ghost predicate Eligible(cs: seq<Candidate>, i: nat) {
    i < |cs| && (i == 0 || cs[i].ByMatch?)
  }

  ghost predicate IsFirstEligibleMax(cs: seq<Candidate>, i: nat) {
    && Eligible(cs, i)
    && (forall j :: 0 <= j < i && Eligible(cs, j) ==> Less(cs[j].Rank(), cs[i].Rank()))
    && (forall j :: i < j < |cs| && Eligible(cs, j) ==> !Less(cs[i].Rank(), cs[j].Rank()))
  }

  lemma {:induction false} WinnerIsFirstEligibleMax(cs: seq<Candidate>)
    requires cs != []
    ensures IsFirstEligibleMax(cs, Winner(cs).value)
    decreases |cs|
  {
    var n := |cs| - 1;
    if n == 0 {
      assert Winner(cs[..n]) == None;
    } else {
      WinnerIsFirstEligibleMax(cs[..n]);
      var w := Winner(cs[..n]).value;
      assert cs[..n][w] == cs[w];
      assert Winner(cs) == if Replaces(cs[n], Some(cs[w].Match())) then Some(n) else Some(w);
      assert forall j :: 0 <= j < n ==> (Eligible(cs[..n], j) <==> Eligible(cs, j));
    }
  }

  lemma FirstEligibleMaxUnique(cs: seq<Candidate>, i: nat, j: nat)
    requires IsFirstEligibleMax(cs, i) && IsFirstEligibleMax(cs, j)
    ensures i == j
  {
  }

  const MATCHLESS_RANK := Rank(1, 0, 0)

  /** A rule without matches arrives while only regular-expression paths have
      matched, and nothing later outranks it. */
  ghost predicate ShadowedAt(cs: seq<Candidate>, i: nat) {
    && 0 < i < |cs| && cs[i].Matchless?
    && (forall j :: 0 <= j < i ==> cs[j].Rank().weight == 0)
    && (forall k :: i < k < |cs| ==> !Less(MATCHLESS_RANK, cs[k].Rank()))
  }

  ghost predicate Shadowed(cs: seq<Candidate>) {
    exists i: nat :: ShadowedAt(cs, i)
  }

  lemma FirstMatchless(cs: seq<Candidate>, i: nat) returns (m: nat)
    requires 0 < i < |cs| && cs[i].Matchless?
    ensures 0 < m <= i && cs[m].Matchless?
    ensures forall j :: 0 < j < m ==> cs[j].ByMatch?
  {
    m := 1;
    while cs[m].ByMatch?
      invariant 0 < m <= i
      decreases i - m
      invariant forall j :: 0 < j < m ==> cs[j].ByMatch?
    {
      m := m + 1;
    }
  }

  lemma ShadowedWinner(cs: seq<Candidate>, i: nat)
    requires ShadowedAt(cs, i)
    ensures !IsFirstMax(cs, Winner(cs).value)
  {
  }

  /** A candidate that spoils the winner's claim is a rule without matches, and the
      first such rule is shadowed. */
  lemma SpoiledIsShadowed(cs: seq<Candidate>, w: nat, i: nat)
    requires IsFirstEligibleMax(cs, w)
    requires i < |cs| && !Eligible(cs, i)
    requires if i < w then !Less(cs[i].Rank(), cs[w].Rank()) else Less(cs[w].Rank(), cs[i].Rank())
    ensures Shadowed(cs)
  {
    var m := FirstMatchless(cs, i);
    assert cs[m].Rank() == cs[i].Rank() == MATCHLESS_RANK;
    forall j: nat | j < m ensures cs[j].Rank().weight == 0 {
      assert Eligible(cs, j);
    }
    forall k | m < k < |cs| ensures !Less(MATCHLESS_RANK, cs[k].Rank()) {
      assert cs[k].Matchless? || Eligible(cs, k);
    }
    assert ShadowedAt(cs, m);
  }

  /** On every list of candidates, MatchRoute ends on the first candidate of
      lexicographically greatest (path type, path length, header count), a rule
      without matches ranking (1, 0, 0), exactly when the list is not shadowed. */
  lemma WinnerIsFirstMaxIff(cs: seq<Candidate>)
    requires cs != []
    ensures IsFirstMax(cs, Winner(cs).value) <==> !Shadowed(cs)
  {
    var w := Winner(cs).value;
    WinnerIsFirstEligibleMax(cs);
    if Shadowed(cs) {
      var i: nat :| ShadowedAt(cs, i);
      ShadowedWinner(cs, i);
    } else {
      forall i: nat | i < |cs| && i != w
        ensures if i < w then Less(cs[i].Rank(), cs[w].Rank()) else !Less(cs[w].Rank(), cs[i].Rank())
      {
        if !Eligible(cs, i) &&
           (if i < w then !Less(cs[i].Rank(), cs[w].Rank()) else Less(cs[w].Rank(), cs[i].Rank())) {
          SpoiledIsShadowed(cs, w, i);
        }
      }
    }
  }
}
