/**
  The route table's entries and the dispatch decision of `Router.ServeHTTP`, stated as
  functions: which route a request selects, and what runs when none is selected.
 */
module Routes {
  import opened Options
  import opened GoStrings
  import opened Pattern
  import opened PathMatch
  import opened Middleware

  /** `Route`: parsed segments, a method gate and a content-type gate (`""` lets every
      request through) and the handler. */
  datatype Route = Route(segments: seq<Segment>, httpMethod: string, handler: HandlerFunc, contentType: string)

  /** What dispatch reads of a request: `URL.Path`, `Method` and the `Content-Type` header
      (`""` when the header is absent). */
  datatype Request = Request(path: string, httpMethod: string, contentType: string)

  /** What `ServeHTTP` does with a request: run the selected route's handler wrapped in the
      middlewares with the captured parameters attached, run the not-found handler wrapped
      in the middlewares, answer 404 through `http.NotFound`, or write status 405. */
  datatype Outcome =
    | Resolved(index: nat, params: map<string, string>, handler: Chain)
    | NotFoundHandler(handler: Chain)
    | NotFound
    | MethodNotAllowed

  /** How `add_route` reads its route string: cut at the first space; a first part holding
      a `/` is the pattern (any method, the rest is dropped); otherwise two parts are
      method and pattern; otherwise the string is rejected. */
  function SplitMethodRoute(methodRoute: string): (r: Option<(string, string)>)
    ensures r.None? <==> ' ' !in methodRoute && '/' !in methodRoute
  {
    var parts := SplitOnce(methodRoute, ' ');
    if '/' in parts[0] then Some(("", parts[0]))
    else if |parts| == 2 then Some((parts[0], parts[1]))
    else None
  }

  /** A method prefix with no space and no `/` (the `"GET " + route` of `AddGetRoute` and
      the other helpers) is read back as the method, with the whole rest as the pattern. */
  lemma MethodPrefixRoundTrip(m: string, pattern: string)
    requires ' ' !in m && '/' !in m
    ensures SplitMethodRoute(m + " " + pattern) == Some((m, pattern))
  {
    assert m + " " + pattern == m + [' '] + pattern;
    SplitOnceAt(m, pattern, ' ');
  }

  /** When the text before the first space holds a `/`, it is the pattern, any method is
      accepted, and everything after the space is dropped. */
  lemma PathBeforeSpace(first: string, rest: string)
    requires ' ' !in first && '/' in first
    ensures SplitMethodRoute(first + " " + rest) == Some(("", first))
  {
    assert first + " " + rest == first + [' '] + rest;
    SplitOnceAt(first, rest, ' ');
  }

  /** A route string without a space is a pattern for any method when it holds a `/`. */
  lemma PathWithoutSpace(pattern: string)
    requires ' ' !in pattern && '/' in pattern
    ensures SplitMethodRoute(pattern) == Some(("", pattern))
  {
  }

  /** The method and content-type gates. A route registered with neither admits every
      request; a gate that is given admits exactly the requests carrying its value. */
  predicate GatesPass(route: Route, req: Request): (pass: bool)
    ensures route.httpMethod == "" && route.contentType == "" ==> pass
    ensures route.httpMethod != "" && route.httpMethod != req.httpMethod ==> !pass
    ensures route.contentType != "" && route.contentType != req.contentType ==> !pass
    ensures ((route.httpMethod == "" || route.httpMethod == req.httpMethod) &&
             (route.contentType == "" || route.contentType == req.contentType)) ==> pass
  {
    && (route.httpMethod == "" || route.httpMethod == req.httpMethod)
    && (route.contentType == "" || route.contentType == req.contentType)
  }

  /** A route can serve a request: its pattern matches the path and both gates pass. */
  predicate Eligible(route: Route, req: Request)
  {
    MatchResult(route.segments, req.path).Some? && GatesPass(route, req)
  }

  /** The scan of the route table in registration order, from position `from` on: the
      first eligible route, if any. A route that matches the path but fails a gate does
      not stop the scan. */
  function FirstEligible(routes: seq<Route>, req: Request, from: nat): (r: Option<nat>)
    requires from <= |routes|
    ensures r.Some? ==>
      && from <= r.value < |routes|
      && Eligible(routes[r.value], req)
      && forall j :: from <= j < r.value ==> !Eligible(routes[j], req)
    ensures r.None? ==> forall j :: from <= j < |routes| ==> !Eligible(routes[j], req)
    decreases |routes| - from
  {
    if from == |routes| then None
    else if Eligible(routes[from], req) then Some(from)
    else FirstEligible(routes, req, from + 1)
  }

  /** The dispatch decision as the code makes it. The first eligible route in registration
      order is selected, with the parameters its pattern captured and its handler wrapped in
      the middlewares. With none selected, the not-found handler (wrapped the same way) runs
      if one is registered, else the answer is 404. Status 405 is never chosen. */
  function Dispatch(routes: seq<Route>, hasNotFound: bool, notFound: HandlerFunc,
                    middlewares: seq<MiddlewareId>, req: Request): (out: Outcome)
    ensures out.Resolved? ==>
      && out.index < |routes|
      && Eligible(routes[out.index], req)
      && (forall j :: 0 <= j < out.index ==> !Eligible(routes[j], req))
      && MatchResult(routes[out.index].segments, req.path) == Some(out.params)
      && Layers(out.handler) == middlewares && Core(out.handler) == routes[out.index].handler
    ensures !out.Resolved? ==> forall j :: 0 <= j < |routes| ==> !Eligible(routes[j], req)
    ensures out.NotFoundHandler? <==> !out.Resolved? && hasNotFound
    ensures out.NotFoundHandler? ==> Layers(out.handler) == middlewares && Core(out.handler) == notFound
    ensures !out.MethodNotAllowed?
  {
    WrappedLayers(middlewares, notFound);
    match FirstEligible(routes, req, 0)
    case Some(i) =>
      WrappedLayers(middlewares, routes[i].handler);
      Resolved(i, MatchResult(routes[i].segments, req.path).value, Wrapped(middlewares, Base(routes[i].handler)))
    case None =>
      if hasNotFound then NotFoundHandler(Wrapped(middlewares, Base(notFound))) else NotFound
  }

  /** Two routes that both can serve a request: the one registered first wins. */
  lemma EarlierRouteWins(routes: seq<Route>, hasNotFound: bool, notFound: HandlerFunc,
                         middlewares: seq<MiddlewareId>, req: Request, i: nat, j: nat)
    requires i < j < |routes| && Eligible(routes[i], req) && Eligible(routes[j], req)
    ensures Dispatch(routes, hasNotFound, notFound, middlewares, req).Resolved?
    ensures Dispatch(routes, hasNotFound, notFound, middlewares, req).index <= i
  {
  }

  /** A route whose gate fails is skipped as if it were not registered, whatever its
      pattern matches: dispatching without it selects the same route (at an index one lower
      when it came after), with the same parameters and handler, or falls back the same way. */
  lemma {:induction false} GateFailureSkipped(routes: seq<Route>, hasNotFound: bool, notFound: HandlerFunc,
                                              middlewares: seq<MiddlewareId>, req: Request, i: nat)
    requires i < |routes| && !GatesPass(routes[i], req)
    ensures var out := Dispatch(routes, hasNotFound, notFound, middlewares, req);
      var without := Dispatch(routes[..i] + routes[i + 1..], hasNotFound, notFound, middlewares, req);
      && (out.Resolved? <==> without.Resolved?)
      && (out.Resolved? ==>
            && out.index != i
            && without.index == (if out.index < i then out.index else out.index - 1)
            && without.params == out.params && without.handler == out.handler)
      && (!out.Resolved? ==> without == out)
  {
    match FirstEligible(routes, req, 0)
    case Some(m) =>
      var shifted := if m < i then m else m - 1;
      SkipBeforeChoice(routes, req, i, m);
      RemovedAt(routes, i, shifted);
      var params := MatchResult(routes[m].segments, req.path).value;
      var handler := Wrapped(middlewares, Base(routes[m].handler));
      assert Dispatch(routes, hasNotFound, notFound, middlewares, req) == Resolved(m, params, handler);
      assert Dispatch(routes[..i] + routes[i + 1..], hasNotFound, notFound, middlewares, req)
          == Resolved(shifted, params, handler);
    case None =>
      SkipWithoutChoice(routes, req, i);
  }

  /** Position `k` of a sequence with position `i` removed. */
  lemma RemovedAt<T>(s: seq<T>, i: nat, k: nat)
    requires i < |s| && k < |s| - 1
    ensures (s[..i] + s[i + 1..])[k] == s[if k < i then k else k + 1]
  {
  }

  /** With no route eligible, removing one leaves none eligible. */
  lemma SkipWithoutChoice(routes: seq<Route>, req: Request, i: nat)
    requires i < |routes| && FirstEligible(routes, req, 0).None?
    ensures FirstEligible(routes[..i] + routes[i + 1..], req, 0).None?
  {
    var rest := routes[..i] + routes[i + 1..];
    forall k | 0 <= k < |rest|
      ensures !Eligible(rest[k], req)
    {
      RemovedAt(routes, i, k);
    }
  }

  /** Removing a route that cannot serve the request keeps the scan's choice `m`, one
      position lower when the removed route came before it. */
  lemma SkipBeforeChoice(routes: seq<Route>, req: Request, i: nat, m: nat)
    requires i < |routes| && !Eligible(routes[i], req) && FirstEligible(routes, req, 0) == Some(m)
    ensures m != i
    ensures FirstEligible(routes[..i] + routes[i + 1..], req, 0) == Some(if m < i then m else m - 1)
  {
    var rest := routes[..i] + routes[i + 1..];
    var shifted := if m < i then m else m - 1;
    forall k | 0 <= k < shifted
      ensures !Eligible(rest[k], req)
    {
      RemovedAt(routes, i, k);
    }
    RemovedAt(routes, i, shifted);
    var s := FirstEligible(rest, req, 0);
    assert s.Some?;
    assert s.value <= shifted;
    assert !(s.value < shifted);
  }

  /** Some route's pattern matches the path, whatever its gates say. */
  predicate PathIsRouted(routes: seq<Route>, req: Request)
  {
    exists j :: 0 <= j < |routes| && MatchResult(routes[j].segments, req.path).Some?
  }

  /** The dispatch decision that the unreachable `hasRoute` branch of `ServeHTTP` aims at:
      a request that some route matches by path, but that no route's gates admit, is
      answered with 405 before the not-found fallback is considered. Otherwise it agrees
      with `Dispatch`. */
  function DispatchIntended(routes: seq<Route>, hasNotFound: bool, notFound: HandlerFunc,
                            middlewares: seq<MiddlewareId>, req: Request): (out: Outcome)
    ensures out.MethodNotAllowed? <==>
      (forall j :: 0 <= j < |routes| ==> !Eligible(routes[j], req)) && PathIsRouted(routes, req)
    ensures out.Resolved? <==> exists j :: 0 <= j < |routes| && Eligible(routes[j], req)
    ensures !out.MethodNotAllowed? ==> out == Dispatch(routes, hasNotFound, notFound, middlewares, req)
  {
    var selected := FirstEligible(routes, req, 0);
    if selected.Some? then
      Dispatch(routes, hasNotFound, notFound, middlewares, req)
    else if PathIsRouted(routes, req) then
      MethodNotAllowed
    else
      Dispatch(routes, hasNotFound, notFound, middlewares, req)
  }

  /** The single-route table `GET /r`. */
  function GetRTable(): seq<Route>
  {
    [Route([Literal("r")], "GET", Func(1), "")]
  }

  /** `/r` is the one path token `r`, and the pattern `/r` is the one literal `r`. */
  lemma RootedR()
    ensures PathTokens("/r") == ["r"]
    ensures Parsed("/r") == [Literal("r")]
  {
    assert Join(["r"], '/') == "r";
    PathTokensOfJoined(["r"]);
    ParseJoined(["r"]);
  }

  /** `GET /r` then `POST /r`: a `POST /r` request skips the first route on its method gate
      and is served by the second. */
  lemma SecondRouteRescues()
    ensures var routes := [Route(Parsed("/r"), "GET", Func(1), ""), Route(Parsed("/r"), "POST", Func(2), "")];
      Dispatch(routes, false, NilFunc, [], Request("/r", "POST", "")) == Resolved(1, map[], Base(Func(2)))
  {
    RootedR();
    var routes := [Route(Parsed("/r"), "GET", Func(1), ""), Route(Parsed("/r"), "POST", Func(2), "")];
    var req := Request("/r", "POST", "");
    assert Matches([Literal("r")], ["r"]);
    assert !Eligible(routes[0], req);
    assert Eligible(routes[1], req);
    assert FirstEligible(routes, req, 0) == Some(1);
  }

  /** The code answers a request that only a gate turned away with 404, where its own
      405 branch was meant to answer. */
  lemma GateRejectionIs404()
    ensures Dispatch(GetRTable(), false, NilFunc, [], Request("/r", "POST", "")) == NotFound
    ensures DispatchIntended(GetRTable(), false, NilFunc, [], Request("/r", "POST", "")) == MethodNotAllowed
  {
    RootedR();
    var req := Request("/r", "POST", "");
    assert Matches([Literal("r")], ["r"]);
    assert MatchResult(GetRTable()[0].segments, req.path).Some?;
    assert PathIsRouted(GetRTable(), req);
  }
}
