/**
  The `Router`: an insertion-ordered route table, one optional not-found route and an
  ordered middleware list, filled in place by `use`, `add_route`, `add_not_found_route`
  and `ServeStatic`, and read by `ServeHTTP`.
 */
module Mux {
  import opened Options
  import opened GoStrings
  import opened Pattern
  import opened PathMatch
  import opened Middleware
  import opened Routes

  class Router {
    var routes: seq<Route>
    var notFoundRoute: Route
    var hasNotFoundRoute: bool
    var middleware: seq<MiddlewareId>

    /** The not-found route never carries segments or gates, and once it is marked as
        registered its handler is not nil. */
    ghost predicate Valid()
      reads this
    {
      && notFoundRoute.segments == []
      && notFoundRoute.httpMethod == ""
      && notFoundRoute.contentType == ""
      && (hasNotFoundRoute ==> notFoundRoute.handler.Func?)
    }

    /** `&Router{}`: every field at its zero value. */
    constructor ()
      ensures Valid()
      ensures routes == [] && middleware == [] && !hasNotFoundRoute
      ensures notFoundRoute == Route([], "", NilFunc, "")
    {
      routes := [];
      notFoundRoute := Route([], "", NilFunc, "");
      hasNotFoundRoute := false;
      middleware := [];
    }

    /** `use`: appends a middleware, which makes it the innermost of those registered. */
    method Use(m: MiddlewareId)
      modifies this
      ensures middleware == old(middleware) + [m]
      ensures routes == old(routes)
      ensures notFoundRoute == old(notFoundRoute) && hasNotFoundRoute == old(hasNotFoundRoute)
    {
      middleware := middleware + [m];
    }

    /** `add_route`: reads the method and the pattern off the route string, parses the
        pattern and appends one route at the end. A string with neither a space nor a `/`
        is rejected (the source only logs it) and nothing changes. */
    method AddRoute(methodRoute: string, handler: HandlerFunc, contentType: string)
      modifies this
      ensures (match SplitMethodRoute(methodRoute)
               case None => routes == old(routes)
               case Some((httpMethod, pattern)) =>
                 routes == old(routes) + [Route(Parsed(pattern), httpMethod, handler, contentType)])
      ensures middleware == old(middleware)
      ensures notFoundRoute == old(notFoundRoute) && hasNotFoundRoute == old(hasNotFoundRoute)
    {
      var parts := SplitOnce(methodRoute, ' ');
      var httpMethod: string, pattern: string;
      if '/' in parts[0] {
        httpMethod, pattern := "", parts[0];
      } else if |parts| == 2 {
        httpMethod, pattern := parts[0], parts[1];
      } else {
        return;
      }
      var segments := ParsePattern(pattern);
      routes := routes + [Route(segments, httpMethod, handler, contentType)];
    }

    /** `add_not_found_route`: registers the fallback handler once. It is a no-op when one
        is already registered, when the stored not-found route has segments (it never does)
        and when the handler is nil. */
    method AddNotFoundRoute(handler: HandlerFunc)
      modifies this
      ensures routes == old(routes) && middleware == old(middleware)
      ensures old(hasNotFoundRoute) || old(notFoundRoute).segments != [] || handler.NilFunc? ==>
        notFoundRoute == old(notFoundRoute) && hasNotFoundRoute == old(hasNotFoundRoute)
      ensures !old(hasNotFoundRoute) && old(notFoundRoute).segments == [] && handler.Func? ==>
        notFoundRoute == Route([], "", handler, "") && hasNotFoundRoute
      ensures old(Valid()) ==> Valid()
    {
      if hasNotFoundRoute {
        return;
      }
      if notFoundRoute.segments != [] {
        return;
      }
      if handler.NilFunc? {
        hasNotFoundRoute := false;
        return;
      }
      notFoundRoute := Route([], "", handler, "");
      hasNotFoundRoute := true;
    }

    /** `ServeStatic`: registers a GET route whose pattern is the prefix followed by a
        slash and a star, for the file-serving handler (an opaque handler here). The star
        is parsed as an ordinary literal segment, not as a wildcard. */
    method ServeStatic(pathPrefix: string, fileServer: HandlerId)
      modifies this
      ensures routes == old(routes) + [Route(Parsed(pathPrefix + "/*"), "GET", Func(fileServer), "")]
      ensures middleware == old(middleware)
      ensures notFoundRoute == old(notFoundRoute) && hasNotFoundRoute == old(hasNotFoundRoute)
    {
      var methodRoute := "GET " + pathPrefix + "/*";
      assert methodRoute == "GET" + " " + (pathPrefix + "/*");
      MethodPrefixRoundTrip("GET", pathPrefix + "/*");
      AddRoute(methodRoute, Func(fileServer), "");
    }

    /** `ServeHTTP`: scans the routes in order, skipping a matching route whose method or
        content-type gate fails, stops at the first route that passes, falls back to the
        not-found handler or 404, and wraps the handler in the middlewares, last registered
        innermost. `handler` stands for the `http.Handler` interface variable: `None` is a
        nil interface, and storing a route's function in it, even a nil function, makes it
        non-nil. So `handler` is nil after the scan exactly when no route was selected, and
        the branch that writes 405 cannot be reached. */
    method ServeHTTP(req: Request) returns (out: Outcome)
      ensures out == Dispatch(routes, hasNotFoundRoute, notFoundRoute.handler, middleware, req)
      ensures Valid() && out.NotFoundHandler? ==> Core(out.handler).Func?
    {
      var handler: Option<HandlerFunc> := None;
      var hasRoute := false;
      var params: map<string, string> := map[];
      var selected := 0;
      for i := 0 to |routes|
        invariant !hasRoute && handler.None?
        invariant FirstEligible(routes, req, i) == FirstEligible(routes, req, 0)
      {
        var route := routes[i];
        var matched := Match(route.segments, req.path);
        if matched.Some? {
          if route.httpMethod != "" && route.httpMethod != req.httpMethod {
            continue;
          }
          if route.contentType != "" && route.contentType != req.contentType {
            continue;
          }
          hasRoute := true;
          params := matched.value;
          handler := Some(route.handler);
          selected := i;
          assert FirstEligible(routes, req, 0) == Some(i);
          break;
        }
      }
      if handler.None? {
        if hasRoute {
          return MethodNotAllowed;
        }
        if hasNotFoundRoute {
          handler := Some(notFoundRoute.handler);
        } else {
          return NotFound;
        }
      }
      var wrapped := WrapInReverse(middleware, handler.value);
      if hasRoute {
        out := Resolved(selected, params, wrapped);
      } else {
        out := NotFoundHandler(wrapped);
      }
    }
  }

  /** `ServeStatic` with the prefix `/s` registers the prefix followed by a slash and a
      star, which parses to the literal `s`, then the literal `*`. */
  lemma StaticStarIsLiteral()
    ensures Parsed("/s" + "/*") == [Literal("s"), Literal("*")]
  {
    assert Join(["s", "*"], '/') == "s/*";
    assert "/s" + "/*" == "/" + "s/*";
    ParseJoined(["s", "*"]);
    assert Classify("s") == Literal("s") && Classify("*") == Literal("*");
  }

  /** The star is no wildcard: the static route serves the one path spelled like its
      pattern. */
  lemma StaticStarMatchesItself()
    ensures MatchResult([Literal("s"), Literal("*")], "/s/*").Some?
  {
    var tokens := ["s", "*"];
    assert Join(tokens, '/') == "s/*";
    PathTokensOfJoined(tokens);
    assert Matches([Literal("s"), Literal("*")], tokens);
  }

  /** Nor does it serve a file below the prefix such as `/s/f`. */
  lemma StaticStarMissesFile()
    ensures MatchResult([Literal("s"), Literal("*")], "/s/f") == None
  {
    var tokens := ["s", "f"];
    assert Join(tokens, '/') == "s/f";
    PathTokensOfJoined(tokens);
    assert tokens[1] != "*";
  }
}
