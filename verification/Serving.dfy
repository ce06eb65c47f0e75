/** pkg/proxy/proxy.go: the published table, the decision order of ServeHTTP, and the
    path part of a redirect. */
module Serving {
  import opened Common
  import opened GatewayApi
  import opened Paths
  import opened Matching
  import opened Precedence
  import opened RouteStatus
  import opened Compiler
  import opened Meaning
  import opened Outcomes

  datatype Response =
    | RedirectResponse(path: string, statusCode: int)
    | ErrorResponse(statusCode: int, message: string)
    | ForwardResponse(backend: InternalBackend)

  /** Replaces a string prefix of the path. */
  function ReplacePrefix(path: string, prefix: string, value: string): string {
    if HasPrefix(path, prefix) then value + path[|prefix|..] else path
  }

  function RedirectedPath(path: string, redirect: InternalRedirect, m: Option<InternalMatch>): string {
    match redirect.path
    case None => path
    case Some(p) =>
      match p.kind
      case FullPath => p.value
      case PrefixMatch =>
        if m.Some? && GetPathMatchType(m.value) == PathPrefix
        then ReplacePrefix(path, m.value.path.value.value, p.value) else path
      case OtherPathModifier(_) => path
  }

  function RedirectCode(redirect: InternalRedirect): int {
    var statusCode := ValueOf(redirect.statusCode, 0);
    if statusCode == 0 then 302 else statusCode
  }

  function NoRoute(req: Request): Response {
    ErrorResponse(404, "No route for host " + req.host + " and path " + req.path)
  }

  /** Redirect before error before backend; otherwise not found. */
  function Respond(rule: Option<InternalRule>, m: Option<InternalMatch>, req: Request): Response {
    if rule.None? then NoRoute(req)
    else if rule.value.redirect.Some? then
      RedirectResponse(RedirectedPath(req.path, rule.value.redirect.value, m), RedirectCode(rule.value.redirect.value))
    else if rule.value.error.Some? then
      ErrorResponse(rule.value.error.value.httpStatusCode, rule.value.error.value.httpMessage)
    else if rule.value.backend.Some? then ForwardResponse(rule.value.backend.value)
    else NoRoute(req)
  }

  method Redirect(req: Request, redirect: InternalRedirect, m: Option<InternalMatch>) returns (resp: Response)
    ensures resp == RedirectResponse(RedirectedPath(req.path, redirect, m), RedirectCode(redirect))
  {
    var newPath := req.path;
    if redirect.path.Some? {
      match redirect.path.value.kind {
        case FullPath =>
          newPath := redirect.path.value.value;
        case PrefixMatch =>
          if m.Some? && m.value.path.Some? && m.value.path.value.kind == PathPrefix {
            var prefix := m.value.path.value.value;
            if HasPrefix(req.path, prefix) {
              newPath := redirect.path.value.value + req.path[|prefix|..];
            }
          }
        case OtherPathModifier(_) =>
      }
    }
    var statusCode := ValueOf(redirect.statusCode, 0);
    if statusCode == 0 {
      statusCode := 302;
    }
    return RedirectResponse(newPath, statusCode);
  }

  class Proxy {
    var routes: seq<InternalRoute>

    constructor ()
      ensures routes == []
    {
      routes := [];
    }

    method UpdateRoutes(routes: seq<InternalRoute>)
      modifies this
      ensures this.routes == routes
    {
      this.routes := routes;
    }

    method ServeHTTP(lib: Lib, req: Request) returns (resp: Response)
      ensures resp == Served(lib, routes, req)
      ensures Candidates(lib, routes, req) == [] ==> resp.ErrorResponse? && resp.statusCode == 404
    {
      var bestRule, bestMatch := MatchRoute(lib, routes, req);
      if bestRule.Some? {
        if bestRule.value.redirect.Some? {
          resp := Redirect(req, bestRule.value.redirect.value, bestMatch);
          return;
        }
        if bestRule.value.error.Some? {
          return ErrorResponse(bestRule.value.error.value.httpStatusCode, bestRule.value.error.value.httpMessage);
        }
        if bestRule.value.backend.Some? {
          return ForwardResponse(bestRule.value.backend.value);
        }
      }
      return ErrorResponse(404, "No route for host " + req.host + " and path " + req.path);
    }
  }

  // ----- the response, read off the source objects

  /** What a source candidate answers. */
  ghost function SourceResponse(lib: Lib, sc: SourceCandidate, cluster: Cluster, req: Request): Response {
    match SourceAnswer(sc.route, sc.rule, cluster)
    case Redirecting(r) =>
      var m := match sc.m case None => EMPTY_MATCH case Some(m) => CompiledMatch(lib)(m);
      RedirectResponse(RedirectedPath(req.path, r, Some(m)), RedirectCode(r))
    case Failing(status) => ErrorResponse(status, ResolvedRefsCondition(sc.route).message)
    case Forwarding(b) => ForwardResponse(b)
    case NotFound => ErrorResponse(404, "No route for host " + req.host + " and path " + req.path)
  }

  lemma CandidateResponse(lib: Lib, sc: SourceCandidate, cluster: Cluster, req: Request)
    requires sc.rule in sc.route.rules
    ensures var c := Compiled(lib, cluster)(sc);
            Respond(Some(c.rule), Some(c.Match()), req) == SourceResponse(lib, sc, cluster, req)
  {
    RuleOutcome(lib, sc.route, sc.rule, cluster);
  }

  /** The response computed from the published table. */
  function Served(lib: Lib, table: seq<InternalRoute>, req: Request): Response {
    var cs := Candidates(lib, table, req);
    Respond(WinningRule(cs, Winner(cs)), WinningMatch(cs, Winner(cs)), req)
  }

  /** No candidate is answered with 404, and so is a winning rule without a redirect, an
      error or a backend. */
  lemma NothingToServeIsNotFound(lib: Lib, table: seq<InternalRoute>, req: Request)
    requires var cs := Candidates(lib, table, req);
             cs == [] ||
             var rule := cs[Winner(cs).value].rule;
             rule.redirect == None && rule.error == None && rule.backend == None
    ensures var resp := Served(lib, table, req);
            resp.ErrorResponse? && resp.statusCode == 404
  {
  }

  /** A winning rule with an error is answered with that error's status and message, unless
      it redirects; one with a backend alone is forwarded to it. */
  lemma WinnerAnswers(lib: Lib, table: seq<InternalRoute>, req: Request)
    requires Candidates(lib, table, req) != []
    ensures var cs, resp := Candidates(lib, table, req), Served(lib, table, req);
            var rule := cs[Winner(cs).value].rule;
            && (resp.RedirectResponse? <==> rule.redirect.Some?)
            && (rule.redirect == None && rule.error.Some? ==>
                  resp == ErrorResponse(rule.error.value.httpStatusCode, rule.error.value.httpMessage))
            && (rule.redirect == None && rule.error == None && rule.backend.Some? ==>
                  resp == ForwardResponse(rule.backend.value))
  {
  }

  /** End to end: a request that the objects do not take is answered with 404. */
  lemma NotTakenIsNotFound(lib: Lib, gateways: seq<Gateway>, routes: seq<HTTPRoute>, cluster: Cluster, req: Request)
    requires HostnamesReadable(lib, gateways, routes)
    requires !exists sc :: SourceTakesBy(lib, gateways, routes, req, sc)
    ensures Served(lib, Table(lib, gateways, routes, cluster), req) ==
            ErrorResponse(404, "No route for host " + req.host + " and path " + req.path)
  {
    RuleFoundIff(lib, gateways, routes, cluster, req);
  }

  /** End to end: a request that the objects take in some way `sc` is answered as the
      first eligible way of greatest rank answers it; that is the first of all ways of
      greatest rank exactly when the ways are not shadowed. */
  lemma ServedAsTheObjectsSay(lib: Lib, gateways: seq<Gateway>, routes: seq<HTTPRoute>, cluster: Cluster, req: Request,
                              sc: SourceCandidate) returns (best: nat)
    requires HostnamesReadable(lib, gateways, routes)
    requires SourceTakesBy(lib, gateways, routes, req, sc)
    ensures var ss := SourceCandidates(lib, gateways, routes, req);
            && IsFirstEligibleSource(ss, best)
            && (IsFirstBestSource(ss, best) <==> !SourceShadowed(ss))
            && SourceTakesBy(lib, gateways, routes, req, ss[best])
            && Served(lib, Table(lib, gateways, routes, cluster), req) == SourceResponse(lib, ss[best], cluster, req)
  {
    var cs := Candidates(lib, Table(lib, gateways, routes, cluster), req);
    var ss := SourceCandidates(lib, gateways, routes, req);
    RuleFoundIff(lib, gateways, routes, cluster, req);
    best := Winner(cs).value;
    WinnerIsBestSource(lib, gateways, routes, cluster, req);
    SourceCandidatesComplete(lib, gateways, routes, req, ss[best]);
    CompilationPreservesMeaning(lib, gateways, routes, cluster, req);
    CandidateResponse(lib, ss[best], cluster, req);
  }

  // ----- prefix redirects, segment by segment

  /** A matched prefix splits the path: either the rest starts a new segment, or the
      prefix ends with the slash itself. */
  lemma MatchedPrefixSplits(path: string, prefix: string)
    requires IsRequestPath(path) && HasPathPrefix(path, prefix)
    ensures HasPrefix(path, prefix)
    ensures var rest := path[|prefix|..];
            && (!EndsWithSlash(prefix) ==> rest == "" || rest[0] == '/')
            && Split(path) == if EndsWithSlash(prefix) then Split(TrimSlash(prefix)) + Split(rest)
                              else Split(prefix) + Split(rest)[1..]
  {
    AcceptedIsStringPrefix(path, prefix);
    var rest := path[|prefix|..];
    assert path == prefix + rest;
    if EndsWithSlash(prefix) {
      assert prefix == TrimSlash(prefix) + "/";
      SplitAppendSlash(TrimSlash(prefix), rest);
    } else {
      RestSegments(prefix, rest);
    }
  }

  lemma RestSegments(a: string, rest: string)
    requires rest == "" || rest[0] == '/'
    ensures Split(a + rest) == Split(a) + Split(rest)[1..]
  {
    if rest == "" {
      assert a + rest == a;
    } else {
      assert a + rest == a + "/" + rest[1..];
      SplitAppendSlash(a, rest[1..]);
    }
  }

  /** When the matched prefix has no trailing slash, the guard always passes and the new
      path is the value's segments followed by the segments after the prefix. */
  lemma PrefixRedirectSegmentwise(path: string, prefix: string, value: string)
    requires IsRequestPath(path) && HasPathPrefix(path, prefix) && !EndsWithSlash(prefix)
    ensures HasPrefix(path, prefix) && |Split(prefix)| <= |Split(path)|
    ensures Split(ReplacePrefix(path, prefix, value)) == Split(value) + Split(path)[|Split(prefix)|..]
  {
    MatchedPrefixSplits(path, prefix);
    RestSegments(value, path[|prefix|..]);
  }

  /** Whenever the guard passes, putting the prefix back restores the path. */
  lemma PrefixRedirectReverses(path: string, prefix: string, value: string)
    requires HasPrefix(path, prefix)
    ensures ReplacePrefix(ReplacePrefix(path, prefix, value), value, prefix) == path
  {
    var rest := path[|prefix|..];
    assert (value + rest)[..|value|] == value && (value + rest)[|value|..] == rest;
    assert path == prefix + rest;
  }

  /** The segments a segment-wise rewriting gives: the prefix's segments replaced by
      the value's, where a prefix with a trailing slash takes the value without one. */
  function RewrittenSegments(path: string, prefix: string, value: string): seq<string>
    requires |Split(TrimSlash(prefix))| <= |Split(path)|
  {
    Split(if EndsWithSlash(prefix) then TrimSlash(value) else value) + Split(path)[|Split(TrimSlash(prefix))|..]
  }

  /** Without a slash between them two segments run together. */
  lemma RunTogether(value: string, rest: string)
    ensures Split(value + rest) != Split(value) + Split(rest)
  {
    SplitAppend(value, rest);
    assert |Split(value + rest)| == |Split(value)| + |Split(rest)| - 1;
  }

  lemma SlashSeparates(value: string, rest: string)
    requires EndsWithSlash(value)
    ensures Split(value + rest) == Split(TrimSlash(value)) + Split(rest)
  {
    assert value == TrimSlash(value) + "/";
    SplitAppendSlash(TrimSlash(value), rest);
  }

  /** After a prefix with a trailing slash, the rest of the path is the rest of its
      segments. */
  lemma SegmentsAfterSlash(path: string, prefix: string)
    requires IsRequestPath(path) && HasPathPrefix(path, prefix) && EndsWithSlash(prefix)
    ensures HasPrefix(path, prefix) && |Split(TrimSlash(prefix))| <= |Split(path)|
    ensures Split(path)[|Split(TrimSlash(prefix))|..] == Split(path[|prefix|..])
  {
    MatchedPrefixSplits(path, prefix);
  }

  /** A matched prefix redirect is segment-wise exactly when a trailing slash of the
      prefix is met by one of the value; otherwise two segments run together. */
  lemma PrefixRedirectSegmentwiseIff(path: string, prefix: string, value: string)
    requires IsRequestPath(path) && HasPathPrefix(path, prefix)
    ensures |Split(TrimSlash(prefix))| <= |Split(path)|
    ensures Split(ReplacePrefix(path, prefix, value)) == RewrittenSegments(path, prefix, value) <==>
            (EndsWithSlash(prefix) ==> EndsWithSlash(value))
  {
    if !EndsWithSlash(prefix) {
      PrefixRedirectSegmentwise(path, prefix, value);
    } else {
      SegmentsAfterSlash(path, prefix);
      if EndsWithSlash(value) {
        SlashSeparates(value, path[|prefix|..]);
      } else {
        RunTogether(value, path[|prefix|..]);
      }
    }
  }

  /** Redirecting the prefix `/` to `/foo` turns `/bar` into `/foobar`. */
  lemma RootPrefixRunsTogether()
    ensures HasPathPrefix("/bar", "/") && ReplacePrefix("/bar", "/", "/foo") == "/foobar"
  {
  }

  /** The winner's prefix match, if it has one, does match the request path, so a
      prefix redirect of the winner always takes effect. */
  lemma WinningPrefixMatches(lib: Lib, table: seq<InternalRoute>, req: Request)
    requires IsRequestPath(req.path)
    ensures var cs := Candidates(lib, table, req);
            var m := WinningMatch(cs, Winner(cs));
            m.Some? && GetPathMatchType(m.value) == PathPrefix ==>
              HasPathPrefix(req.path, m.value.path.value.value) && HasPrefix(req.path, m.value.path.value.value)
  {
    var cs := Candidates(lib, table, req);
    if cs != [] {
      var c := cs[Winner(cs).value];
      assert c in cs;
      CandidateTakesPath(lib, table, req, c);
      if GetPathMatchType(c.Match()) == PathPrefix {
        AcceptedIsStringPrefix(req.path, c.Match().path.value.value);
      }
    }
  }

  /** The rewriting that reads prefix and value without their trailing slashes. */
  function CleanSegments(path: string, prefix: string, value: string): seq<string>
    requires |Split(TrimSlash(prefix))| <= |Split(path)|
  {
    Split(TrimSlash(value)) + Split(path)[|Split(TrimSlash(prefix))|..]
  }

  /** A matched prefix redirect gives that path exactly when both or neither of prefix and
      value end with a slash: otherwise segments run together or an empty one appears. */
  lemma PrefixRedirectCleanIff(path: string, prefix: string, value: string)
    requires IsRequestPath(path) && HasPathPrefix(path, prefix)
    ensures |Split(TrimSlash(prefix))| <= |Split(path)|
    ensures Split(ReplacePrefix(path, prefix, value)) == CleanSegments(path, prefix, value) <==>
            (EndsWithSlash(prefix) <==> EndsWithSlash(value))
  {
    if EndsWithSlash(prefix) {
      SegmentsAfterSlash(path, prefix);
      if EndsWithSlash(value) {
        SlashSeparates(value, path[|prefix|..]);
      } else {
        RunTogether(value, path[|prefix|..]);
      }
    } else {
      PrefixRedirectSegmentwise(path, prefix, value);
      if EndsWithSlash(value) {
        assert value == TrimSlash(value) + "/";
        SplitTrailingSlash(TrimSlash(value));
      }
    }
  }

  /** Redirecting the prefix `/foo` to `/` turns `/foo/bar` into `//bar`. */
  lemma RootValueDoublesSlash()
    ensures HasPathPrefix("/foo/bar", "/foo") && ReplacePrefix("/foo/bar", "/foo", "/") == "//bar"
  {
    assert Split("/foo/bar")[..2] == Split("/foo");
    HasPathPrefixMeaning("/foo/bar", "/foo");
  }

  // ----- the redirect of the winner

  /** The winning candidate of a request, when its rule redirects. */
  ghost predicate RedirectWins(lib: Lib, table: seq<InternalRoute>, req: Request, c: Candidate,
                               redirect: InternalRedirect) {
    var cs := Candidates(lib, table, req);
    cs != [] && c == cs[Winner(cs).value] && c.rule.redirect == Some(redirect)
  }

  /** A prefix rewriting by the winner's path match. */
  predicate RewritesPrefix(c: Candidate, redirect: InternalRedirect) {
    redirect.path.Some? && redirect.path.value.kind == PrefixMatch && GetPathMatchType(c.Match()) == PathPrefix
  }

  /** The answer carries the status code asked for, 302 when none is; the path is the
      full replacement, or the part after the matched prefix behind its replacement, or
      the request's. */
  lemma WinnerRedirects(lib: Lib, table: seq<InternalRoute>, req: Request, c: Candidate, redirect: InternalRedirect)
    returns (rest: string)
    requires IsRequestPath(req.path) && RedirectWins(lib, table, req, c, redirect)
    ensures var resp := Served(lib, table, req);
            && resp.RedirectResponse? && resp.statusCode != 0
            && (redirect.statusCode == Some(resp.statusCode) ||
                (ValueOf(redirect.statusCode, 0) == 0 && resp.statusCode == 302))
            && (redirect.path.Some? && redirect.path.value.kind == FullPath ==> resp.path == redirect.path.value.value)
            && (RewritesPrefix(c, redirect) ==>
                  && req.path == c.Match().path.value.value + rest
                  && resp.path == redirect.path.value.value + rest)
            && (!RewritesPrefix(c, redirect) && (redirect.path.Some? ==> redirect.path.value.kind != FullPath) ==>
                  resp.path == req.path)
  {
    WinningPrefixMatches(lib, table, req);
    rest := if RewritesPrefix(c, redirect) then req.path[|c.Match().path.value.value|..] else "";
  }

  lemma WinnerRedirectPath(lib: Lib, table: seq<InternalRoute>, req: Request, c: Candidate,
                           redirect: InternalRedirect)
    requires IsRequestPath(req.path) && RedirectWins(lib, table, req, c, redirect) && RewritesPrefix(c, redirect)
    ensures Served(lib, table, req).RedirectResponse? && HasPathPrefix(req.path, c.Match().path.value.value)
    ensures Served(lib, table, req).path ==
            ReplacePrefix(req.path, c.Match().path.value.value, redirect.path.value.value)
  {
    WinningPrefixMatches(lib, table, req);
  }

  /** What a prefix rewriting does to the segments: with no trailing slash the prefix's
      are replaced by the value's; the exact conditions for the two readings of a trailing
      slash; and rewriting back restores the path. */
  ghost predicate RewritesSegments(path: string, prefix: string, value: string, newPath: string) {
    && ReplacePrefix(newPath, value, prefix) == path
    && |Split(TrimSlash(prefix))| <= |Split(path)|
    && (!EndsWithSlash(prefix) ==>
          && |Split(prefix)| <= |Split(path)|
          && Split(newPath) == Split(value) + Split(path)[|Split(prefix)|..])
    && (Split(newPath) == RewrittenSegments(path, prefix, value) <==>
          (EndsWithSlash(prefix) ==> EndsWithSlash(value)))
    && (Split(newPath) == CleanSegments(path, prefix, value) <==>
          (EndsWithSlash(prefix) <==> EndsWithSlash(value)))
  }

  lemma ReplacementRewritesSegments(path: string, prefix: string, value: string)
    requires IsRequestPath(path) && HasPathPrefix(path, prefix)
    ensures RewritesSegments(path, prefix, value, ReplacePrefix(path, prefix, value))
  {
    AcceptedIsStringPrefix(path, prefix);
    PrefixRedirectReverses(path, prefix, value);
    PrefixRedirectSegmentwiseIff(path, prefix, value);
    PrefixRedirectCleanIff(path, prefix, value);
    if !EndsWithSlash(prefix) {
      PrefixRedirectSegmentwise(path, prefix, value);
    }
  }

  /** The same for the answer of a winner that rewrites its matched prefix. */
  lemma WinnerRedirectSegments(lib: Lib, table: seq<InternalRoute>, req: Request, c: Candidate,
                               redirect: InternalRedirect)
    requires IsRequestPath(req.path) && RedirectWins(lib, table, req, c, redirect) && RewritesPrefix(c, redirect)
    ensures Served(lib, table, req).RedirectResponse?
    ensures RewritesSegments(req.path, c.Match().path.value.value, redirect.path.value.value,
                             Served(lib, table, req).path)
  {
    WinnerRedirectPath(lib, table, req, c, redirect);
    ReplacementRewritesSegments(req.path, c.Match().path.value.value, redirect.path.value.value);
  }
}
