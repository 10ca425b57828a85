/** Skipping a block of middleware for declared prefixes (web/stateless.go, web/security.go). */
module Exemption {
  import opened Options
  import opened Paths

  /** A request as the exemption sees it: its path, its stateless mark, and everything else. */
  datatype Request<D> = Request(escapedPath: string, stateless: bool, rest: D)

  /** What serving a request did. A handler that runs leaves its trace in the outcome. */
  type Handler<!D(!new), !O> = Request<D> -> O
  type Middleware<!D(!new), !O> = Handler<D, O> -> Handler<D, O>

  predicate Matches<D(!new)>(paths: seq<string>, request: Request<D>) {
    exists i :: 0 <= i < |paths| && Covers(paths[i], request.escapedPath)
  }

  /** markStateless. */
  function Mark<D(!new)>(request: Request<D>): Request<D> {
    if request.stateless then request else request.(stateless := true)
  }

  /** StatelessPaths.Exempt; a nil middleware leaves the next handler as it is. */
  function Exempt<D(!new), O>(paths: seq<string>, middleware: Option<Middleware<D, O>>): Middleware<D, O> {
    (next: Handler<D, O>) =>
      match middleware
      case None => next
      case Some(m) =>
        var wrapped := m(next);
        (request: Request<D>) => if Matches(paths, request) then next(Mark(request)) else wrapped(request)
  }

  /** The first middleware ends up outermost. */
  function ChainOf<D(!new), O>(handler: Handler<D, O>, middleware: seq<Middleware<D, O>>): Handler<D, O> {
    if middleware == [] then handler else middleware[0](ChainOf(handler, middleware[1..]))
  }

  /** Chain as its loop builds it, from the last middleware to the first. */
  method Chain<D(!new), O>(handler: Handler<D, O>, middleware: seq<Middleware<D, O>>) returns (chained: Handler<D, O>)
    ensures chained == ChainOf(handler, middleware)
  {
    chained := handler;
    var index := |middleware|;
    while index > 0
      invariant 0 <= index <= |middleware|
      invariant chained == ChainOf(handler, middleware[index..])
    {
      index := index - 1;
      assert middleware[index..][1..] == middleware[index + 1..];
      chained := middleware[index](chained);
    }
    assert middleware[0..] == middleware;
  }

  function ExemptAll<D(!new), O>(paths: seq<string>, middleware: seq<Middleware<D, O>>): seq<Middleware<D, O>> {
    if middleware == [] then []
    else [Exempt(paths, Some(middleware[0]))] + ExemptAll(paths, middleware[1..])
  }

  /** The two handlers cannot be told apart on requests that match like this one. */
  ghost predicate AgreeNear<D(!new), O>(paths: seq<string>, f: Handler<D, O>, g: Handler<D, O>, request: Request<D>) {
    forall x :: Matches(paths, x) == Matches(paths, request) ==> f(x) == g(x)
  }

  /** The middleware calls `next` only on requests with the match result of the one it was given. */
  ghost predicate KeepsMatch<D(!new), O(!new)>(paths: seq<string>, m: Middleware<D, O>) {
    forall f: Handler<D, O>, g: Handler<D, O>, request ::
      AgreeNear(paths, f, g, request) ==> m(f)(request) == m(g)(request)
  }

  /**
   * Exempting every member of a block is exempting the block: a matching request reaches the handler
   * marked, with no member run; any other request sees the plain chain.
   */
  lemma {:induction false} ExemptDistributes<D(!new), O(!new)>(
    paths: seq<string>, middleware: seq<Middleware<D, O>>, handler: Handler<D, O>, request: Request<D>)
    requires forall m :: m in middleware ==> KeepsMatch(paths, m)
    ensures ChainOf(handler, ExemptAll(paths, middleware))(request) ==
            if (exists i :: 0 <= i < |paths| && Covers(paths[i], request.escapedPath)) && middleware != []
            then handler(request.(stateless := true))
            else ChainOf(handler, middleware)(request)
    ensures middleware != [] ==>
              ChainOf(handler, ExemptAll(paths, middleware))(request) ==
              Exempt(paths, Some((next: Handler<D, O>) => ChainOf(next, middleware)))(handler)(request)
    decreases |middleware|
  {
    if middleware != [] {
      var m, rest := middleware[0], middleware[1..];
      var exempted, plain := ChainOf(handler, ExemptAll(paths, rest)), ChainOf(handler, rest);
      assert ExemptAll(paths, middleware)[1..] == ExemptAll(paths, rest);
      ExemptDistributes(paths, rest, handler, Mark(request));
      assert Mark(Mark(request)) == Mark(request);
      if !Matches(paths, request) {
        forall x: Request<D> | !Matches(paths, x) ensures exempted(x) == plain(x) {
          ExemptDistributes(paths, rest, handler, x);
        }
        assert AgreeNear(paths, exempted, plain, request);
        assert KeepsMatch(paths, m);
      }
    }
  }
}
