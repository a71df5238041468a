/**
  Handlers, middleware and their composition. Handlers and middlewares are opaque:
  a handler is a function id (or Go's nil function), a middleware an id. The handler
  a request finally runs is a chain: the middlewares wrapped around a core handler.
 */
module Middleware {

  type HandlerId = nat
  type MiddlewareId = nat

  /** An `http.HandlerFunc` value: the nil function or an opaque function. */
  datatype HandlerFunc = NilFunc | Func(id: HandlerId)

  /** An `http.Handler` built by applying middlewares: `Wrap(m, inner)` is `m(inner)`. */
  datatype Chain = Base(handler: HandlerFunc) | Wrap(middleware: MiddlewareId, inner: Chain)

  /** `middlewares[0](middlewares[1](… middlewares[n-1](inner)))`: the first middleware
      registered is the outermost. */
  function Wrapped(middlewares: seq<MiddlewareId>, inner: Chain): Chain
  {
    if middlewares == [] then inner
    else Wrap(middlewares[0], Wrapped(middlewares[1..], inner))
  }

  /** The middlewares of a chain, outermost first. */
  function Layers(c: Chain): seq<MiddlewareId>
  {
    match c
    case Base(_) => []
    case Wrap(m, inner) => [m] + Layers(inner)
  }

  /** The handler at the centre of a chain. */
  function Core(c: Chain): HandlerFunc
  {
    match c
    case Base(h) => h
    case Wrap(_, inner) => Core(inner)
  }

  /** `ServeHTTP`'s closing loop, `for i := len(middleware) - 1; i >= 0; i--`:
      wraps the last-registered middleware first, so the first-registered ends outermost. */
  method WrapInReverse(middlewares: seq<MiddlewareId>, core: HandlerFunc) returns (handler: Chain)
    ensures Layers(handler) == middlewares && Core(handler) == core
    ensures handler == Wrapped(middlewares, Base(core))
  {
    handler := Base(core);
    var i := |middlewares| - 1;
    while i >= 0
      invariant -1 <= i < |middlewares|
      invariant handler == Wrapped(middlewares[i + 1..], Base(core))
    {
      assert middlewares[i..][1..] == middlewares[i + 1..];
      handler := Wrap(middlewares[i], handler);
      i := i - 1;
    }
    assert middlewares[0..] == middlewares;
    WrappedLayers(middlewares, core);
  }

  /** Wrapping a handler in a middleware list gives a chain whose layers are that list,
      in registration order, around that handler; no middleware leaves the handler as it is. */
  lemma {:induction false} WrappedLayers(middlewares: seq<MiddlewareId>, core: HandlerFunc)
    ensures Layers(Wrapped(middlewares, Base(core))) == middlewares
    ensures Core(Wrapped(middlewares, Base(core))) == core
    ensures middlewares == [] ==> Wrapped(middlewares, Base(core)) == Base(core)
  {
    if middlewares != [] {
      WrappedLayers(middlewares[1..], core);
    }
  }

  /** What a request observes while a chain runs, for middlewares that run their own
      code around one call of the handler they wrap. */
  datatype Event = Enter(middleware: MiddlewareId) | Invoke(handler: HandlerFunc) | Leave(middleware: MiddlewareId)

  function Trace(c: Chain): seq<Event>
  {
    match c
    case Base(h) => [Invoke(h)]
    case Wrap(m, inner) => [Enter(m)] + Trace(inner) + [Leave(m)]
  }

  /** Onion order: the request enters the middlewares in registration order, runs the
      handler, then leaves them in reverse registration order. */
  lemma {:induction false} OnionOrder(middlewares: seq<MiddlewareId>, core: HandlerFunc)
    ensures var t := Trace(Wrapped(middlewares, Base(core)));
      var n := |middlewares|;
      && |t| == 2 * n + 1
      && (forall k :: 0 <= k < n ==> t[k] == Enter(middlewares[k]))
      && t[n] == Invoke(core)
      && (forall k :: n < k < 2 * n + 1 ==> t[k] == Leave(middlewares[2 * n - k]))
  {
    if middlewares != [] {
      var rest := middlewares[1..];
      OnionOrder(rest, core);
      var n := |middlewares|;
      var inner := Trace(Wrapped(rest, Base(core)));
      var t := Trace(Wrapped(middlewares, Base(core)));
      assert t == [Enter(middlewares[0])] + inner + [Leave(middlewares[0])];
      forall k | 0 <= k < n ensures t[k] == Enter(middlewares[k]) {
        if k > 0 { assert t[k] == inner[k - 1] && middlewares[k] == rest[k - 1]; }
      }
      forall k | n < k < 2 * n + 1 ensures t[k] == Leave(middlewares[2 * n - k]) {
        if k < 2 * n { assert t[k] == inner[k - 1] && middlewares[2 * n - k] == rest[2 * n - k - 1]; }
      }
    }
  }
}
