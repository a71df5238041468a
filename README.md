# simplemux routing engine in Dafny

This project models the routing engine of `simplemux`, an embeddable HTTP request
router written in Go. The engine has four parts:

- **Pattern parser** (`parsePattern`). A route pattern is cut at every `/`. Each
  non-empty token becomes a literal segment, or a variable segment when it is wrapped
  in braces. The first empty token after the leading one becomes the one-character
  literal `"/"` (the *trailing marker*) and ends parsing.
- **Path normaliser and matcher** (`splitPath`, `match`). A request path becomes its
  non-empty `/`-separated tokens, or the single token `"/"` when there are none. A
  parsed pattern matches when it has as many segments as the path has tokens and every
  literal equals the token at its position. Variables capture the tokens at their
  positions.
- **Router table** (`Router` with `use`, `add_route`, `add_not_found_route`, and the
  registration part of `ServeStatic`). This is an insertion-ordered route list, one
  optional not-found route and an ordered middleware list. It is modelled as a class
  whose methods update its fields in place.
- **Dispatch** (`Router.ServeHTTP`). The routes are scanned in registration order. A
  route whose pattern matches but whose method or content-type gate fails is skipped.
  The first route that passes is selected. Failing that, the not-found handler runs if
  one is registered, else the answer is 404. The chosen handler is wrapped in the
  middlewares, the first registered outermost.

The files:
- `go_strings.dfy` holds specification functions for the parts of Go's `strings`
  package the engine calls: `Split`, `SplitN(…, 2)`, `HasPrefix`, `HasSuffix`, `Trim`.
- `pattern.dfy` holds the parser.
- `path_match.dfy` holds `splitPath` and `match`.
- `middleware.dfy` holds handlers, middlewares and their composition.
- `dispatch.dfy` states the dispatch decision as functions.
- `router.dfy` holds the `Router` class.

The loops of the source (`parsePattern`, `splitPath`, `match`, the route scan and the
middleware loop in `ServeHTTP`) are methods. Each is proved equal to a specification
function, and the lemmas are stated about those functions.

Handlers and middlewares are opaque ids. A `HandlerFunc` is either Go's nil function
or `Func(id)`. A request is reduced to what dispatch reads from it: path, method and
`Content-Type` header. The outcome of `ServeHTTP` is a datatype:
- the selected route's index, the captured parameters and the wrapped handler;
- the wrapped not-found handler;
- 404;
- 405.

The code is modelled as written. In two places the code itself points at more than it
does:
- `ServeStatic` registers its prefix followed by `"/*"` (simplemux.go:80), which reads
  as a wildcard for the files below the prefix. `parsePattern` turns the empty token
  after a trailing `/` into the literal `"/"` (simplemux.go:187-193), and `splitPath`
  comments its `"/"` fallback as a trailing-slash check (simplemux.go:272). No wildcard
  results:
  - the star is an ordinary literal (`Mux.StaticStarIsLiteral`, `Mux.StaticStarMissesFile`);
  - the literal `"/"` can only equal the token of a path made of slashes only, so a
    pattern of two or more segments ending in it matches no path
    (`PathMatch.MarkerPatternMatchesNothing`).
- `ServeHTTP` has a branch that writes status 405 (simplemux.go:237-241), but the
  branch cannot be reached (see Findings).

The empty pattern parses to no segment and matches no path (`Pattern.ParseExamples`,
`PathMatch.EmptyPatternMatchesNothing`). A pattern matches the root path `/` exactly
when it parses to one segment that is one of these (`PathMatch.RootMatches`):
- the marker `"/"`, which `/` and every pattern that starts with `//` (such as `//a`)
  parse to (`Pattern.ParseExamples`, `Pattern.RootPatternExamples`);
- a single variable, such as `/{id}`, which then captures `"/"`.

`ServeHTTP` stores the selected route's function in a variable of interface type
`http.Handler`. In Go such an interface is non-nil even when the stored function is
nil. So after the scan `handler == nil` holds exactly when no route was selected. The
model follows Go here, which makes the 405 branch unreachable.

## Model

| member | source | states |
|---|---|---|
| GoStrings.Split | simplemux.go:181 | `strings.Split` on one separator character: at least one piece, and no piece contains the separator |
| GoStrings.JoinSplit | simplemux.go:181 | joining the pieces of a split with the separator gives back the original string |
| GoStrings.SplitJoin | simplemux.go:181 | splitting a join of separator-free pieces gives back exactly those pieces |
| GoStrings.SplitOnce | simplemux.go:125 | `strings.SplitN(s, " ", 2)`: with no separator the whole string is the only part; otherwise two parts, the first free of the separator, which rebuild the string with the separator between them |
| GoStrings.SplitOnceAt | simplemux.go:125 | the cut is made at the first separator: a separator-free prefix, the separator and any rest come back as that prefix and that rest |
| GoStrings.NonEmpty | simplemux.go:266-270 | the kept strings are all non-empty and no more than were given |
| GoStrings.NonEmptyAppend | simplemux.go:266-270 | filtering out empty strings distributes over concatenation, which is the step of the filtering loop |
| GoStrings.NoPiecesIffOnlySeparators | simplemux.go:273-279 | a split keeps no non-empty piece exactly when the string is made of separators only (or is empty) |
| GoStrings.TrimInfix | simplemux.go:203 | `strings.Trim(s, "{}")` leaves the infix between a run of leading and a run of trailing cut characters; the result neither starts nor ends with one |
| Pattern.IsVariableToken | simplemux.go:199 | `isVar` holds exactly when the token has at least two characters, starts with `{` and ends with `}`; so `{` alone is a literal |
| Pattern.Classify | simplemux.go:199-210 | a token is a variable exactly when it has two characters at least, starts with `{` and ends with `}`; a literal keeps exactly the token's text |
| Pattern.VariableName | simplemux.go:203 | a variable's name is the token with all leading and all trailing braces stripped, and neither starts nor ends with a brace |
| Pattern.ParsePattern | simplemux.go:178-214 | the parsing loop, with its `continue` on the leading empty token and its `break` after the trailing marker, returns `Parsed(pattern)` |
| Pattern.StopIndex | simplemux.go:183-193 | parsing stops at the first empty token after position 0, or at the end: every token before it is non-empty or the leading one |
| Pattern.ParseTokensShape | simplemux.go:183-212 | from any position, the loop appends the non-empty tokens before the stop position, classified in order, then the marker exactly when it stopped at an empty token |
| Pattern.PatternShape | simplemux.go:178-214 | a pattern's segments are its non-empty tokens before the stop position, classified in order, then the `"/"` marker exactly when a later empty token stopped parsing; `""` gives no segment |
| Pattern.ParseTokensAllNonEmpty | simplemux.go:195-210 | where no token is empty, every token is classified and none is dropped, in order |
| Pattern.ClassifySlashFree | simplemux.go:199-210 | a slash-free token gives a slash-free literal text or variable name |
| Pattern.MarkerOnlyLast | simplemux.go:187-193 | the only literal holding a `/` is the marker `"/"`, and it can only be the last segment; no variable name holds a `/` |
| Pattern.ParseJoined | simplemux.go:178-214 | round trip: `/` followed by non-empty, slash-free tokens joined with `/` parses to exactly those tokens classified in order |
| Pattern.ParseExamples | simplemux.go:187-197 | `"/"` parses to the marker alone, `"/a//b"` to `a` then the marker (the `b` is ignored), `""` to no segment |
| Pattern.RootPatternExamples | simplemux.go:181-204 | `"//a"` parses to the marker alone, because parsing stops at its second, empty token; `"/{id}"` parses to the single variable `id` |
| PathMatch.PathTokens | simplemux.go:258-281 | the tokens of a path are never empty; they are exactly `["/"]` when the path has only slashes or is empty; otherwise they are the non-empty pieces in order, none holding a `/` |
| PathMatch.SlashFreeKept | simplemux.go:266-270 | the pieces kept from a split on `/` are slash-free, so they are never the single token `"/"` |
| PathMatch.SplitPath | simplemux.go:258-281 | the loop and both `"/"` fallbacks return `PathTokens(path)` |
| PathMatch.FallbackCases | simplemux.go:272-279 | the first fallback adds `"/"` only for the empty path; the second adds it for a non-empty path made only of slashes |
| PathMatch.RootMatches | simplemux.go:283-298 | a pattern matches the root path `/` exactly when it has one segment that is the marker `"/"` or a variable; a variable then captures `"/"` |
| PathMatch.CaptureBinds | simplemux.go:288-291 | the captured keys are exactly the pattern's variable names, and a name is bound to the token at its last occurrence, so a later duplicate overwrites an earlier one |
| PathMatch.Match | simplemux.go:283-298 | a result exactly when the segment count equals the token count and every literal equals the token at its position; the result is the captured parameters |
| PathMatch.EmptyPatternMatchesNothing | simplemux.go:283-287 | the empty pattern (what `""` parses to) matches no path, since every path has a token |
| PathMatch.MarkerPatternMatchesNothing | simplemux.go:283-294 | a pattern of two or more segments ending in the `"/"` marker matches no path |
| PathMatch.PathTokensOfJoined | simplemux.go:258-281 | round trip: `/` followed by non-empty, slash-free tokens joined with `/` splits back into exactly those tokens |
| Middleware.WrapInReverse | simplemux.go:251-253 | wrapping from the last middleware down to the first yields `mw[0](mw[1](…mw[n-1](h)))`: the layers are the middleware list in order around the handler |
| Middleware.WrappedLayers | simplemux.go:251-253 | the wrapped chain has exactly the middleware list as its layers, outermost first, around the handler; with no middleware the handler is unchanged |
| Middleware.OnionOrder | simplemux.go:251-255 | a request enters the middlewares in registration order, runs the handler once, then leaves them in reverse order |
| Routes.SplitMethodRoute | simplemux.go:125-137 | a route string is rejected exactly when it has neither a space nor a `/` |
| Routes.MethodPrefixRoundTrip | simplemux.go:51-65 | a method with no space and no `/`, a space and a pattern are read back as that method and that whole pattern |
| Routes.PathBeforeSpace | simplemux.go:128-130 | when the text before the first space holds a `/`, it is the pattern for any method and the rest is discarded |
| Routes.PathWithoutSpace | simplemux.go:128-130 | a route string without a space that holds a `/` is a pattern for any method |
| Routes.GatesPass | simplemux.go:222-228 | a route passes exactly when each of its method and content type is either empty or equal to the request's: with neither it admits every request, a given gate equal to the request's value admits it, and one that differs turns the request away |
| Routes.FirstEligible | simplemux.go:220-235 | the scan finds the first route from the given position whose pattern matches and whose gates pass, or reports that none does |
| Routes.Dispatch | simplemux.go:216-256 | the selected route is eligible and no earlier one is; its captured parameters and handler, wrapped in the middlewares, are returned; with none selected, the not-found handler runs exactly when one is registered, else 404; never 405 |
| Routes.EarlierRouteWins | simplemux.go:220-235 | of two routes that can both serve a request, the one registered first, or an even earlier one, is selected |
| Routes.GateFailureSkipped | simplemux.go:220-233 | a route that fails a gate (its `continue`) is never the one selected and dispatches as if it were not registered: removing it gives the same route (one index lower when it came after), the same parameters and handler, or the same fallback |
| Routes.SkipBeforeChoice | simplemux.go:220-233 | removing a route that cannot serve the request keeps the scan's first eligible route, shifted down by one when the removed route came before it |
| Routes.SkipWithoutChoice | simplemux.go:220-233 | with no route eligible, removing one still leaves none eligible |
| Routes.SecondRouteRescues | simplemux.go:220-235 | with `GET /r` then `POST /r` registered, a `POST /r` request skips the first route and is served by the second |
| Routes.GateRejectionIs404 | simplemux.go:230-241 | a `POST /r` request with only `GET /r` registered gets 404 from the code where the corrected decision gives 405 |
| Routes.DispatchIntended | simplemux.go:237-241 | corrected decision: 405 exactly when no route is eligible but some route matches by path; a route is selected exactly when one is eligible; otherwise the code's decision |
| Mux.Router.constructor | simplemux.go:40-49 | a new router has no routes, no middleware and no not-found route |
| Mux.Router.Use | simplemux.go:15-17 | the middleware is appended at the end; nothing else changes |
| Mux.Router.AddRoute | simplemux.go:124-148 | a rejected route string changes nothing; otherwise exactly one route (parsed pattern, method, handler, content type) is appended at the end and earlier routes are unchanged |
| Mux.Router.AddNotFoundRoute | simplemux.go:150-176 | no-op once a not-found route is registered, or for a nil handler; a non-nil handler on a router without one sets it and raises the flag; the router's invariant is kept |
| Mux.Router.ServeStatic | simplemux.go:77-81 | registers one `GET` route for the prefix followed by a slash and a star, with the file-serving handler |
| Mux.Router.ServeHTTP | simplemux.go:216-256 | the scan with its `continue`s and `break`, the fallback and the middleware loop produce exactly `Dispatch` on the router's state; on a router whose invariant holds, the not-found handler that runs is never the nil function |
| Mux.StaticStarIsLiteral | simplemux.go:80 | the static pattern for the prefix `/s` parses to the literal `s` followed by the literal `*` |
| Mux.StaticStarMatchesItself | simplemux.go:80 | that pattern matches the path spelled the same way |
| Mux.StaticStarMissesFile | simplemux.go:80 | that pattern does not match a file below the prefix such as `/s/f`: the star is no wildcard |

## Left out

- `Start`, `Stop`, `Restart` and `Wait` (simplemux.go:305-364) are left out. They are goroutines, a wait group, a channel, server listen and shutdown with a timeout, and TLS file checks: concurrency and I/O. The test `err != http.ErrServerClosed || err != nil` at simplemux.go:334 is true whenever `ListenAndServe` returns. This is noted as an observation, not modelled.
- `GetPathParams`, `GetQueryParams` and `addParamsToRequest` (simplemux.go:67-75, 300-303) are left out. They are request-context storage and URL query parsing. The captured parameters are returned in the dispatch outcome instead.
- Handler invocation and response writing are left out: `handler.ServeHTTP`, `http.NotFound`, `WriteHeader`. They become outcome tags. Invoking a selected route whose function is nil would panic in Go; the model returns that nil function wrapped like any other.
- The file-serving handler of `ServeStatic` (`http.FileServer`, `StripPrefix`) and the body of the `Redirect` handler are opaque handler ids. Registering a redirect is an ordinary `add_route` call.
- The `Multiplexer` wrappers are one-line delegations to the router and are not modelled separately: `AddGetRoute`, `AddPostRoute`, `AddPutRoute`, `AddDeleteRoute`, `AddRoute`, `Redirect`, `Use`. `Routes.MethodPrefixRoundTrip` states how the method prefixes they add are read back.
- `RouterMetricCollector` is never used, and is left out together with all `fmt.Print*` logging. A rejected route string or not-found registration changes nothing in the model, which matches the code apart from the log line.
- Mux.Router.AddNotFoundRoute: the code's check that the stored not-found route has no segments is modelled. It cannot fire, because that field is only ever set without segments.
- Mux.Router.ServeHTTP: keeps the code's decision, which never answers 405. The corrected decision is `Routes.DispatchIntended`; the router does not call it.

## Findings

| source | as written | input that shows it | evidently intended | confidence | as-written member | corrected member |
|---|---|---|---|---|---|---|
| simplemux.go:230-241 | `hasRoute` is set only when a route passes both gates, and in the same step `handler` becomes a non-nil interface, so the 405 branch never runs; a request that only a gate turned away falls through to the not-found handler or 404 | only `GET /r` registered, no not-found handler, a `POST /r` request: the code answers 404 | 405 when some route matches the path but no route's method or content-type gate admits the request, decided before the not-found fallback, as the `hasRoute` test in front of the fallback at simplemux.go:237-243 shows | not executed; high, from Go's interface semantics | Routes.GateRejectionIs404 | Routes.DispatchIntended |
