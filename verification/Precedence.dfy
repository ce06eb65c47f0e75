/** What MatchRoute's precedence gives: composition of tables, independence of the
    order of routes, and specificity of the winner. */
module Precedence {
  import opened Common
  import opened GatewayApi
  import opened Paths
  import opened Matching

  // ----- tables without regular-expression paths

  ghost predicate MatchRanked(im: InternalMatch) {
    GetPathMatchType(im) != RegularExpression
  }

  ghost predicate TableRanked(table: seq<InternalRoute>) {
    forall route, rule, im ::
      route in table && rule in route.rules && im in rule.matches ==> MatchRanked(im)
  }

  /** Every candidate comes from a rule of a route of the table, and takes the
      request's path. */
  lemma CandidateOrigin(lib: Lib, table: seq<InternalRoute>, req: Request, c: Candidate)
    ensures c in Candidates(lib, table, req) <==>
            exists route :: route in table && c in RouteCandidates(lib, req)(route)
  {
    FlatMapMember(RouteCandidates(lib, req), table, c);
  }

  lemma RouteCandidateOrigin(lib: Lib, route: InternalRoute, req: Request, c: Candidate)
    ensures c in RouteCandidates(lib, req)(route) <==>
            TakesHost(lib, route.hostnames, req) && c.rule in route.rules &&
            match c
            case Matchless(rule) => rule.matches == []
            case ByMatch(rule, im) => im in rule.matches && MatchAccepts(lib, im, req.path, req.header)
  {
    FlatMapMember(RuleCandidates(lib, req), route.rules, c);
    forall rule ensures c in RuleCandidates(lib, req)(rule) <==>
      (c.rule == rule &&
       match c
       case Matchless(_) => rule.matches == []
       case ByMatch(_, im) => im in rule.matches && MatchAccepts(lib, im, req.path, req.header))
    {
      FlatMapMember(MatchCandidates(lib, rule, req), rule.matches, c);
    }
  }

  lemma RankedCandidate(lib: Lib, table: seq<InternalRoute>, req: Request, c: Candidate)
    requires TableRanked(table) && c in Candidates(lib, table, req)
    ensures c.Rank().weight >= 1
  {
    CandidateOrigin(lib, table, req, c);
    var route :| route in table && c in RouteCandidates(lib, req)(route);
    RouteCandidateOrigin(lib, route, req, c);
    assert c.ByMatch? ==> MatchRanked(c.im);
  }

  lemma RankedNotShadowed(cs: seq<Candidate>)
    requires cs != [] ==> cs[0].Rank().weight >= 1
    ensures !Shadowed(cs)
  {
  }

  /** The matcher ends on the first candidate of greatest rank on every table whose
      path matches are Exact, PathPrefix or absent. */
  lemma RankedWinner(lib: Lib, table: seq<InternalRoute>, req: Request)
    requires TableRanked(table)
    ensures var cs := Candidates(lib, table, req);
            cs != [] ==> IsFirstMax(cs, Winner(cs).value)
  {
    var cs := Candidates(lib, table, req);
    if cs != [] {
      RankedCandidate(lib, table, req, cs[0]);
      RankedNotShadowed(cs);
      WinnerIsFirstMaxIff(cs);
    }
  }

  const REGEX_RULE := InternalRule(
    [InternalMatch(Some(InternalPathMatch(RegularExpression, "/a")), [])], None, None, None)
  const DEFAULT_RULE := InternalRule([], None, None, None)
  const REGEX_TABLE := [InternalRoute(["*"], [REGEX_RULE, DEFAULT_RULE])]

  /** With a regular-expression path the rule fails: on this table, for every
      request, the rule without matches outranks the match before it, and the matcher
      keeps the earlier match. */
  lemma RegularExpressionKeepsLowerRank(lib: Lib, req: Request)
    ensures var cs := Candidates(lib, REGEX_TABLE, req);
            |cs| == 2 && Winner(cs) == Some(0) && Less(cs[0].Rank(), cs[1].Rank()) && !IsFirstMax(cs, 0)
  {
    var m, d := ByMatch(REGEX_RULE, REGEX_RULE.matches[0]), Matchless(DEFAULT_RULE);
    var route := REGEX_TABLE[0];
    assert route.hostnames[0] in route.hostnames;
    FlatMapOne(RouteCandidates(lib, req), route);
    FlatMapOne(MatchCandidates(lib, REGEX_RULE, req), REGEX_RULE.matches[0]);
    FlatMapOne(RuleCandidates(lib, req), REGEX_RULE);
    FlatMapOne(RuleCandidates(lib, req), DEFAULT_RULE);
    FlatMapAppend(RuleCandidates(lib, req), [REGEX_RULE], [DEFAULT_RULE]);
    assert route.rules == [REGEX_RULE] + [DEFAULT_RULE];
    assert Candidates(lib, REGEX_TABLE, req) == [m, d];
    assert [m, d] == [] + [m] + [d];
    WinnerStep([], m);
    WinnerStep([m], d);
  }

  // ----- concatenated tables

  /** The better of the two winners, the left one on a tie. */
  function Join(a: seq<Candidate>, b: seq<Candidate>): Option<nat> {
    if b == [] then Winner(a)
    else if a == [] then Winner(b)
    else
      var i, j := Winner(a).value, Winner(b).value;
      if Less(a[i].Rank(), b[j].Rank()) then Some(|a| + j) else Some(i)
  }

  /** Only a regular-expression winner on the left meeting a rule without matches as
      the winner on the right breaks the composition. */
  predicate Blocks(a: seq<Candidate>, b: seq<Candidate>) {
    && a != [] && b != []
    && b[0].Matchless? && Winner(b) == Some(0)
    && a[Winner(a).value].Rank().weight == 0
  }

  lemma WinnerAppend(a: seq<Candidate>, b: seq<Candidate>)
    ensures Winner(a + b) == Join(a, b) <==> !Blocks(a, b)
  {
    if a == [] || b == [] {
      assert a + b == if b == [] then a else b;
    } else {
      var ab, i, j := a + b, Winner(a).value, Winner(b).value;
      WinnerIsFirstEligibleMax(a);
      WinnerIsFirstEligibleMax(b);
      WinnerIsFirstEligibleMax(ab);
      forall k: nat | k < |a| ensures Eligible(ab, k) <==> Eligible(a, k) {
      }
      forall k: nat | k < |b| ensures Eligible(ab, |a| + k) <==> b[k].ByMatch? {
      }
      if Blocks(a, b) {
        assert Join(a, b) == Some(|a|);
        assert !Eligible(ab, |a|);
      } else {
        JoinIsFirstEligibleMax(a, b);
        FirstEligibleMaxUnique(ab, Winner(ab).value, Join(a, b).value);
      }
    }
  }

  lemma JoinIsFirstEligibleMax(a: seq<Candidate>, b: seq<Candidate>)
    requires a != [] && b != [] && !Blocks(a, b)
    ensures IsFirstEligibleMax(a + b, Join(a, b).value)
  {
    var ab, i, j := a + b, Winner(a).value, Winner(b).value;
    WinnerIsFirstEligibleMax(a);
    WinnerIsFirstEligibleMax(b);
    assert ab[i] == a[i] && ab[|a| + j] == b[j];
    forall k: nat | k < |ab| && Eligible(ab, k)
      ensures if k < |a| then Eligible(a, k) else Eligible(b, k - |a|)
    {
    }
  }

  /** MatchRoute on a concatenated table returns the better of its results on the two
      parts, the left one on a tie. */
  lemma MatchRouteConcatenates(lib: Lib, t1: seq<InternalRoute>, t2: seq<InternalRoute>, req: Request)
    ensures var a, b := Candidates(lib, t1, req), Candidates(lib, t2, req);
            Candidates(lib, t1 + t2, req) == a + b &&
            (Winner(Candidates(lib, t1 + t2, req)) == Join(a, b) <==> !Blocks(a, b))
  {
    FlatMapAppend(RouteCandidates(lib, req), t1, t2);
    WinnerAppend(Candidates(lib, t1, req), Candidates(lib, t2, req));
  }

  // ----- more routes, other orders

  ghost function WinningRank(cs: seq<Candidate>): Option<Rank> {
    match Winner(cs) case None => None case Some(i) => Some(cs[i].Rank())
  }

  lemma SubtableCandidates(lib: Lib, t1: seq<InternalRoute>, t2: seq<InternalRoute>, req: Request, c: Candidate)
    requires forall route :: route in t1 ==> route in t2
    requires c in Candidates(lib, t1, req)
    ensures c in Candidates(lib, t2, req)
  {
    CandidateOrigin(lib, t1, req, c);
    CandidateOrigin(lib, t2, req, c);
  }

  /** Adding routes anywhere never turns a match into no match, on any table. */
  lemma MatchNeverLost(lib: Lib, t1: seq<InternalRoute>, t2: seq<InternalRoute>, req: Request)
    requires forall route :: route in t1 ==> route in t2
    ensures Winner(Candidates(lib, t1, req)).Some? ==> Winner(Candidates(lib, t2, req)).Some?
  {
    var cs1 := Candidates(lib, t1, req);
    if cs1 != [] {
      SubtableCandidates(lib, t1, t2, req, cs1[0]);
    }
  }

  ghost predicate OnlyRegexMatches(cs: seq<Candidate>) {
    forall c :: c in cs && c.ByMatch? ==> c.Rank().weight == 0
  }

  /** A match comes first and every match is on a regular-expression path: then the
      winner stays below the rank of any rule without matches. */
  ghost predicate Sinks(cs: seq<Candidate>) {
    cs != [] && cs[0].ByMatch? && OnlyRegexMatches(cs)
  }

  lemma TopOfTheRest(cs: seq<Candidate>)
    requires cs != []
    ensures var w := cs[Winner(cs).value];
            && (Sinks(cs) ==> w.Rank().weight == 0 && forall c :: c in cs && c.ByMatch? ==> !Less(w.Rank(), c.Rank()))
            && (!Sinks(cs) ==> forall c :: c in cs ==> !Less(w.Rank(), c.Rank()))
  {
    var i := Winner(cs).value;
    var w := cs[i];
    WinnerIsFirstEligibleMax(cs);
    forall c | c in cs && c.ByMatch? ensures !Less(w.Rank(), c.Rank()) {
      var j: nat :| j < |cs| && cs[j] == c;
      assert Eligible(cs, j);
    }
    assert Eligible(cs, 0) && w in cs;
    if cs[0].ByMatch? && !OnlyRegexMatches(cs) {
      var c :| c in cs && c.ByMatch? && c.Rank().weight != 0;
      assert !Less(w.Rank(), c.Rank());
    }
  }

  lemma MatchlessFirstWins(cs: seq<Candidate>)
    requires cs != [] && cs[0].Matchless? && OnlyRegexMatches(cs)
    ensures cs[Winner(cs).value].Rank() == MATCHLESS_RANK
  {
    var w := cs[Winner(cs).value];
    WinnerIsFirstEligibleMax(cs);
    assert Eligible(cs, 0) && w in cs;
  }

  /** Adding routes anywhere lowers the winning rank exactly when a rule without matches
      came first and now a match comes first, all matches being on regular-expression
      paths. */
  lemma MoreRoutesNeverWorseIff(lib: Lib, t1: seq<InternalRoute>, t2: seq<InternalRoute>, req: Request)
    requires forall route :: route in t1 ==> route in t2
    requires Candidates(lib, t1, req) != []
    ensures Candidates(lib, t2, req) != []
    ensures var cs1, cs2 := Candidates(lib, t1, req), Candidates(lib, t2, req);
            !Less(WinningRank(cs2).value, WinningRank(cs1).value) <==> !(cs1[0].Matchless? && Sinks(cs2))
  {
    var cs1, cs2 := Candidates(lib, t1, req), Candidates(lib, t2, req);
    MatchNeverLost(lib, t1, t2, req);
    forall c | c in cs1 ensures c in cs2 {
      SubtableCandidates(lib, t1, t2, req, c);
    }
    var w1 := cs1[Winner(cs1).value];
    assert w1 in cs1;
    TopOfTheRest(cs1);
    TopOfTheRest(cs2);
    if Sinks(cs2) && cs1[0].Matchless? {
      MatchlessFirstWins(cs1);
    }
  }

  lemma RankTotal(a: Rank, b: Rank)
    requires !Less(a, b) && !Less(b, a)
    ensures a == b
  {
  }

  /** The first candidates of two orders are of one kind, or some match is not on a
      regular-expression path. */
  ghost predicate OrderIrrelevant(cs1: seq<Candidate>, cs2: seq<Candidate>) {
    cs1 == [] || cs2 == [] || !OnlyRegexMatches(cs1) || (cs1[0].Matchless? <==> cs2[0].Matchless?)
  }

  lemma SameCandidates(lib: Lib, t1: seq<InternalRoute>, t2: seq<InternalRoute>, req: Request)
    requires forall route :: route in t1 <==> route in t2
    ensures forall c :: c in Candidates(lib, t1, req) <==> c in Candidates(lib, t2, req)
  {
    forall c ensures c in Candidates(lib, t1, req) <==> c in Candidates(lib, t2, req) {
      CandidateOrigin(lib, t1, req, c);
      CandidateOrigin(lib, t2, req, c);
    }
  }

  /** Tables with the same routes, in any order and multiplicity, give a request the same
      winning rank exactly when that condition holds. */
  lemma RouteOrderIrrelevantIff(lib: Lib, t1: seq<InternalRoute>, t2: seq<InternalRoute>, req: Request)
    requires forall route :: route in t1 <==> route in t2
    ensures var cs1, cs2 := Candidates(lib, t1, req), Candidates(lib, t2, req);
            WinningRank(cs1) == WinningRank(cs2) <==> OrderIrrelevant(cs1, cs2)
  {
    var cs1, cs2 := Candidates(lib, t1, req), Candidates(lib, t2, req);
    SameCandidates(lib, t1, t2, req);
    MatchNeverLost(lib, t1, t2, req);
    MatchNeverLost(lib, t2, t1, req);
    if cs1 != [] && cs2 != [] {
      MoreRoutesNeverWorseIff(lib, t1, t2, req);
      MoreRoutesNeverWorseIff(lib, t2, t1, req);
      assert OnlyRegexMatches(cs1) <==> OnlyRegexMatches(cs2);
      if OrderIrrelevant(cs1, cs2) {
        RankTotal(WinningRank(cs1).value, WinningRank(cs2).value);
      }
    }
  }

  /** And then the same rule, when one rule holds all the candidates of that rank. */
  lemma RouteOrderKeepsUniqueRule(lib: Lib, t1: seq<InternalRoute>, t2: seq<InternalRoute>, req: Request,
                                  rule: InternalRule)
    requires forall route :: route in t1 <==> route in t2
    requires var cs1 := Candidates(lib, t1, req);
             cs1 != [] && forall c :: c in cs1 && Some(c.Rank()) == WinningRank(cs1) ==> c.rule == rule
    requires OrderIrrelevant(Candidates(lib, t1, req), Candidates(lib, t2, req))
    ensures var cs1, cs2 := Candidates(lib, t1, req), Candidates(lib, t2, req);
            WinningRule(cs1, Winner(cs1)) == Some(rule) == WinningRule(cs2, Winner(cs2))
  {
    var cs1, cs2 := Candidates(lib, t1, req), Candidates(lib, t2, req);
    SameCandidates(lib, t1, t2, req);
    RouteOrderIrrelevantIff(lib, t1, t2, req);
    assert cs1[0] in cs1;
    assert cs1[Winner(cs1).value] in cs1 && cs2[Winner(cs2).value] in cs2;
  }

  /** Tables without regular-expression paths never sink. */
  lemma RankedNeverSinks(lib: Lib, table: seq<InternalRoute>, req: Request)
    requires TableRanked(table)
    ensures !Sinks(Candidates(lib, table, req))
  {
    var cs := Candidates(lib, table, req);
    if cs != [] {
      assert cs[0] in cs;
      RankedCandidate(lib, table, req, cs[0]);
    }
  }

  /** Without regular-expression paths the order of the routes is always irrelevant. */
  lemma RankedOrderIrrelevant(lib: Lib, t1: seq<InternalRoute>, t2: seq<InternalRoute>, req: Request)
    requires TableRanked(t1) && forall route :: route in t1 <==> route in t2
    ensures OrderIrrelevant(Candidates(lib, t1, req), Candidates(lib, t2, req))
  {
    var cs1, cs2 := Candidates(lib, t1, req), Candidates(lib, t2, req);
    SameCandidates(lib, t1, t2, req);
    if cs1 != [] && cs2 != [] {
      assert cs1[0] in cs1 && cs2[0] in cs1;
      RankedCandidate(lib, t1, req, cs1[0]);
      RankedCandidate(lib, t1, req, cs2[0]);
    }
  }

  // ----- the winner is the most specific

  lemma CandidateTakesPath(lib: Lib, table: seq<InternalRoute>, req: Request, c: Candidate)
    requires c in Candidates(lib, table, req)
    ensures AcceptsPath(c.Match(), req.path)
  {
    CandidateOrigin(lib, table, req, c);
    var route :| route in table && c in RouteCandidates(lib, req)(route);
    RouteCandidateOrigin(lib, route, req, c);
  }

  /** Between two matches of one path, one that is not outranked takes only paths the
      other takes too. */
  lemma NotOutrankedIsNarrower(a: InternalMatch, b: InternalMatch, path: string, other: string)
    requires IsRequestPath(path) && IsRequestPath(other)
    requires AcceptsPath(a, path) && AcceptsPath(b, path) && !Less(RankOf(a), RankOf(b))
    requires AcceptsPath(a, other)
    ensures AcceptsPath(b, other)
  {
  }

  /** On every table, the winner's path match takes a subset of the paths that any
      other candidate of the request takes. */
  lemma WinnerIsMostSpecific(lib: Lib, table: seq<InternalRoute>, req: Request, c: Candidate, other: string)
    requires IsRequestPath(req.path) && IsRequestPath(other)
    requires c in Candidates(lib, table, req)
    ensures var cs := Candidates(lib, table, req);
            AcceptsPath(cs[Winner(cs).value].Match(), other) ==> AcceptsPath(c.Match(), other)
  {
    var cs := Candidates(lib, table, req);
    var w := cs[Winner(cs).value];
    WinnerIsFirstEligibleMax(cs);
    var i: nat :| i < |cs| && cs[i] == c;
    assert w in cs;
    CandidateTakesPath(lib, table, req, w);
    CandidateTakesPath(lib, table, req, c);
    if AcceptsPath(w.Match(), other) && Eligible(cs, i) {
      assert !Less(w.Rank(), c.Rank());
      NotOutrankedIsNarrower(w.Match(), c.Match(), req.path, other);
    }
  }
}
