/**
 Interceptor chains: every request of a route is shown to the route's interceptors in order,
 with the body buffered up to a limit and put back for forwarding.
 */
module Interceptors {
  import opened Wrappers

  const MIN_BODY_BYTES := 0x10_0000
  const MAX_BODY_BYTES := 0x2000_0000

  datatype Decision = Decision(allow: bool, statusCode: int, blockCode: string)

  datatype Outcome = Decided(decision: Decision) | Failed(cancelled: bool) | Panicked(cancelled: bool)

  /** What an interceptor requires, and its verdict on a request's metadata and body. */
  datatype Interceptor = Interceptor(needsBody: bool, maxBodyBytes: int, check: (string, Option<string>) -> Outcome)

  datatype Compiled = Compiled(id: string, instance: Interceptor)

  datatype Route = Route(interceptorIDs: seq<string>, chain: seq<Compiled>, maxBodyBytes: int)

  datatype Engine = Engine(routes: map<string, Route>)

  datatype RouteConfig = RouteConfig(id: string, interceptors: seq<string>)

  datatype Result =
    | Allowed
    | Cancelled(blockedBy: string)
    | Unavailable(blockedBy: string, code: string)
    | Rejected(statusCode: int, blockedBy: string, code: string)

  /** A body stream: its bytes, and whether it ends in an error. */
  datatype Stream = Stream(data: string, fails: bool)

  class Request {
    const metadata: string
    const contentLength: int
    var body: Option<Stream>
  }

  predicate ValidRequirements(i: Interceptor) {
    if i.needsBody then MIN_BODY_BYTES <= i.maxBodyBytes <= MAX_BODY_BYTES else i.maxBodyBytes == 0
  }

  // ----- Building engines -----

  /** From one to 512 mebibytes for an interceptor that needs the body, else none. */
  ghost predicate Modest(i: Interceptor) {
    (i.needsBody ==> 1_048_576 <= i.maxBodyBytes <= 536_870_912) && (!i.needsBody ==> i.maxBodyBytes == 0)
  }

  /** Some member of the chain has the route's limit. */
  ghost predicate Limits(route: Route) {
    exists i :: 0 <= i < |route.chain| && route.chain[i].instance.maxBodyBytes == route.maxBodyBytes
  }

  /** The route limit is the largest of its chain. */
  ghost predicate Dominates(route: Route) {
    && route.maxBodyBytes >= 0
    && (route.maxBodyBytes == 0 || Limits(route))
    && forall i :: 0 <= i < |route.chain| ==>
         ValidRequirements(route.chain[i].instance) && route.chain[i].instance.maxBodyBytes <= route.maxBodyBytes
  }

  lemma DominatesNext(route: Route, next: Compiled)
    requires Dominates(route) && ValidRequirements(next.instance)
    ensures var own := next.instance.maxBodyBytes;
      Dominates(Route(route.interceptorIDs, route.chain + [next],
                      if own > route.maxBodyBytes then own else route.maxBodyBytes))
  {
    var chain, own := route.chain + [next], next.instance.maxBodyBytes;
    assert chain[|route.chain|] == next;
    if own <= route.maxBodyBytes && Limits(route) {
      var i :| 0 <= i < |route.chain| && route.chain[i].instance.maxBodyBytes == route.maxBodyBytes;
      assert chain[i] == route.chain[i];
    }
  }

  ghost predicate Valid(engine: Engine) {
    forall id :: id in engine.routes ==> Dominates(engine.routes[id])
  }

  /** The chain of a route is what its ids name, in order. */
  ghost predicate ChainOf(route: Route, ids: seq<string>, instances: map<string, Interceptor>) {
    && route.interceptorIDs == ids && |route.chain| == |ids|
    && forall k :: 0 <= k < |ids| ==> ids[k] in instances && route.chain[k] == Compiled(ids[k], instances[ids[k]])
  }

  method CompileChain(ids: seq<string>, instances: map<string, Interceptor>) returns (r: Option<Route>)
    requires forall id :: id in instances ==> ValidRequirements(instances[id])
    ensures r.Some? <==> forall k :: 0 <= k < |ids| ==> ids[k] in instances
    ensures r.Some? ==> ChainOf(r.value, ids, instances) && Dominates(r.value)
  {
    var chain, limit := [], 0;
    for k := 0 to |ids|
      invariant forall j :: 0 <= j < k ==> ids[j] in instances
      invariant ChainOf(Route(ids[..k], chain, limit), ids[..k], instances) && Dominates(Route(ids[..k], chain, limit))
    {
      if ids[k] !in instances {
        return None;
      }
      var instance := instances[ids[k]];
      chain := chain + [Compiled(ids[k], instance)];
      if instance.maxBodyBytes > limit {
        limit := instance.maxBodyBytes;
      }
    }
    assert ids[..|ids|] == ids;
    return Some(Route(ids, chain, limit));
  }

  ghost predicate Buildable(instances: map<string, Interceptor>, routes: seq<RouteConfig>) {
    && (forall id :: id in instances ==> id != "" && Modest(instances[id]))
    && (forall i :: 0 <= i < |routes| ==> routes[i].id != "")
    && (forall i, j :: 0 <= i < j < |routes| ==> routes[i].id != routes[j].id)
    && (forall i, k :: 0 <= i < |routes| && 0 <= k < |routes[i].interceptors| ==>
          routes[i].interceptors[k] in instances)
  }

  /** Build an engine from the instances the factories made. */
  method NewEngine(instances: map<string, Interceptor>, routes: seq<RouteConfig>) returns (r: Option<Engine>)
    ensures r.Some? <==> Buildable(instances, routes)
    ensures r.Some? ==> Valid(r.value) && r.value.routes.Keys == set i | 0 <= i < |routes| :: routes[i].id
    ensures r.Some? ==> forall i :: 0 <= i < |routes| ==>
              ChainOf(r.value.routes[routes[i].id], routes[i].interceptors, instances)
  {
    hide Dominates;
    hide ChainOf;
    var todo := instances.Keys;
    while todo != {}
      invariant todo <= instances.Keys
      invariant forall id :: id in instances && id !in todo ==> id != "" && ValidRequirements(instances[id])
      decreases todo
    {
      var id :| id in todo;
      if id == "" || !ValidRequirements(instances[id]) {
        return None;
      }
      todo := todo - {id};
    }
    var compiled: map<string, Route> := map[];
    for i := 0 to |routes|
      invariant Valid(Engine(compiled)) && compiled.Keys == set k | 0 <= k < i :: routes[k].id
      invariant Buildable(instances, routes[..i])
      invariant forall k :: 0 <= k < i ==> ChainOf(compiled[routes[k].id], routes[k].interceptors, instances)
    {
      var route := routes[i];
      if route.id == "" || route.id in compiled {
        return None;
      }
      var chain := CompileChain(route.interceptors, instances);
      if chain.None? {
        return None;
      }
      compiled := compiled[route.id := chain.value];
    }
    assert routes[..|routes|] == routes;
    return Some(Engine(compiled));
  }

  /** Append one interceptor to every chain; limits keep dominating, ids stay. */
  method WithGlobal(engine: Engine, id: string, instance: Interceptor) returns (r: Option<Engine>)
    requires Valid(engine)
    ensures r.Some? <==> id != "" && Modest(instance)
    ensures r.Some? ==> Valid(r.value) && r.value.routes.Keys == engine.routes.Keys
    ensures r.Some? ==> forall k :: k in engine.routes ==>
              && r.value.routes[k].interceptorIDs == engine.routes[k].interceptorIDs
              && r.value.routes[k].chain == engine.routes[k].chain + [Compiled(id, instance)]
  {
    if id == "" || !ValidRequirements(instance) {
      return None;
    }
    var cloned: map<string, Route> := map[];
    var todo := engine.routes.Keys;
    while todo != {}
      invariant todo <= engine.routes.Keys && cloned.Keys == engine.routes.Keys - todo
      invariant forall k :: k in cloned ==>
                  && Dominates(cloned[k]) && cloned[k].interceptorIDs == engine.routes[k].interceptorIDs
                  && cloned[k].chain == engine.routes[k].chain + [Compiled(id, instance)]
      decreases todo
    {
      var k :| k in todo;
      var route := engine.routes[k];
      DominatesNext(route, Compiled(id, instance));
      var limit := if instance.maxBodyBytes > route.maxBodyBytes then instance.maxBodyBytes else route.maxBodyBytes;
      cloned := cloned[k := Route(route.interceptorIDs, route.chain + [Compiled(id, instance)], limit)];
      todo := todo - {k};
    }
    return Some(Engine(cloned));
  }

  // ----- Evaluating requests -----

  /** The bytes a body delivers when read to its end. */
  function Bytes(body: Option<Stream>): string {
    if body.None? then "" else body.value.data
  }

  /** Read at most so many bytes; an error only counts when it is reached. */
  function ReadLimited(stream: Stream, limit: nat): Option<string> {
    if |stream.data| >= limit then Some(stream.data[..limit])
    else if stream.fails then None
    else Some(stream.data)
  }

  /** Buffer the body, one byte past the limit at most, and put the buffer back. */
  method ReadAndReplayBody(req: Request, maxBytes: nat) returns (r: Option<string>)
    modifies req
    ensures r.Some? && |r.value| <= maxBytes ==> r.value == Bytes(old(req.body)) && Bytes(req.body) == r.value
    ensures r.Some? && |r.value| <= maxBytes ==> old(req.body).Some? ==> !old(req.body).value.fails
    ensures old(req.body).None? ==> r == Some("")
    ensures old(req.body).Some? ==> r == ReadLimited(old(req.body).value, maxBytes + 1)
    ensures r.Some? ==>
      req.body.Some? == old(req.body).Some? && (req.body.Some? ==> req.body.value == Stream(r.value, false))
  {
    if req.body == None {
      return Some("");
    }
    var buffered := ReadLimited(req.body.value, maxBytes + 1);
    if buffered == None {
      return None;
    }
    req.body := Some(Stream(buffered.value, false));
    return buffered;
  }

  predicate ValidBlockCode(code: string) {
    && 1 <= |code| <= 64 && 'a' <= code[0] <= 'z'
    && forall i :: 1 <= i < |code| ==> 'a' <= code[i] <= 'z' || '0' <= code[i] <= '9' || code[i] == '_'
  }

  predicate ValidDecision(d: Decision) {
    if d.allow then d.statusCode == 0 && d.blockCode == ""
    else 400 <= d.statusCode <= 499 && ValidBlockCode(d.blockCode)
  }

  /** A lower-case letter, and at most 63 more, digits or underscores. */
  ghost predicate IsBlockCode(code: string) {
    exists first: char, rest: string ::
      && code == [first] + rest && |rest| < 64 && 97 <= first as int < 123
      && forall c :: c in rest ==> 97 <= c as int < 123 || 48 <= c as int < 58 || c == '_'
  }

  /** Allowed without a status and a code, or refused with a client error and a code. */
  ghost predicate Proper(d: Decision) {
    && (d.allow ==> d.statusCode == 0 && d.blockCode == "")
    && (!d.allow ==> 400 <= d.statusCode < 500 && IsBlockCode(d.blockCode))
  }

  lemma ProperExactly(d: Decision)
    ensures ValidDecision(d) <==> Proper(d)
  {
    var code := d.blockCode;
    if ValidBlockCode(code) {
      assert code == [code[0]] + code[1..];
    }
    if first: char, rest: string :|
      && code == [first] + rest && |rest| < 64 && 97 <= first as int < 123
      && forall c :: c in rest ==> 97 <= c as int < 123 || 48 <= c as int < 58 || c == '_'
    {
      assert forall i :: 1 <= i < |code| ==> code[i] == rest[i - 1] && rest[i - 1] in rest;
    }
  }

  const ALLOW := Decided(Decision(true, 0, ""))

  /** What an interceptor is shown: the whole body if it asks for one. */
  function Shown(i: Interceptor, data: string): Option<string> {
    if i.needsBody then Some(data) else None
  }

  /** One interceptor lets the request pass, seeing all of its body. */
  ghost predicate Passes(item: Compiled, metadata: string, body: Option<Stream>, contentLength: int, limit: int) {
    && (item.instance.needsBody ==>
          && contentLength <= limit && (body.Some? ==> !body.value.fails)
          && |Bytes(body)| <= item.instance.maxBodyBytes)
    && item.instance.check(metadata, Shown(item.instance, Bytes(body))) == ALLOW
  }

  /** The announced length is beyond the route's limit, or the body beyond the interceptor's; a
      body that breaks off within the route's limit is not measured. */
  ghost predicate TooLarge(item: Compiled, body: Option<Stream>, contentLength: int, limit: int) {
    && item.instance.needsBody
    && (contentLength > limit || (!BreaksOff(body, limit) && |Bytes(body)| > item.instance.maxBodyBytes))
  }

  ghost predicate BreaksOff(body: Option<Stream>, limit: int) {
    body.Some? && body.value.fails && |body.value.data| <= limit
  }

  /** What an interceptor that is consulted makes of a request, in each case. */
  ghost predicate AnswerOf(item: Compiled, metadata: string, body: Option<Stream>, contentLength: int, limit: int,
                           interrupted: bool, r: Result) {
    var large := TooLarge(item, body, contentLength, limit);
    var broken := item.instance.needsBody && contentLength <= limit && BreaksOff(body, limit);
    var outcome := item.instance.check(metadata, Shown(item.instance, Bytes(body)));
    && (large ==> r == Rejected(413, item.id, "body_too_large"))
    && (broken && interrupted ==> r == Cancelled(item.id))
    && (broken && !interrupted ==> r == Unavailable(item.id, "interceptor_body_read_error"))
    && (!large && !broken ==>
          match outcome
          case Failed(cancelled) =>
            r == if cancelled then Cancelled(item.id) else Unavailable(item.id, "interceptor_error")
          case Panicked(cancelled) =>
            r == if cancelled then Cancelled(item.id) else Unavailable(item.id, "interceptor_panic")
          case Decided(d) =>
            && (!Proper(d) ==> r == Unavailable(item.id, "interceptor_invalid_decision"))
            && (Proper(d) && !d.allow ==> r == Rejected(d.statusCode, item.id, d.blockCode)))
  }

  /** An interceptor is reached live, and passes. */
  ghost predicate GoesOn(route: Route, metadata: string, body: Option<Stream>, contentLength: int, live: nat -> bool,
                         k: int) {
    0 <= k < |route.chain| && live(k + 1) && Passes(route.chain[k], metadata, body, contentLength, route.maxBodyBytes)
  }

  /** The first interceptor that is not reached live, or does not pass. */
  ghost predicate StopsAt(route: Route, metadata: string, body: Option<Stream>, contentLength: int, live: nat -> bool,
                          k: int) {
    && 0 <= k < |route.chain| && !GoesOn(route, metadata, body, contentLength, live, k)
    && forall j :: 0 <= j < k ==> GoesOn(route, metadata, body, contentLength, live, j)
  }

  /** The result of a chain is that of the interceptor it stops at. */
  ghost predicate ResultOf(route: Route, metadata: string, body: Option<Stream>, contentLength: int, live: nat -> bool,
                           interrupted: bool, r: Result) {
    forall k :: StopsAt(route, metadata, body, contentLength, live, k) ==>
      var item := route.chain[k];
      if live(k + 1) then AnswerOf(item, metadata, body, contentLength, route.maxBodyBytes, interrupted, r)
      else r == Cancelled(item.id)
  }

  lemma OneStop(route: Route, metadata: string, body: Option<Stream>, contentLength: int, live: nat -> bool,
                interrupted: bool, r: Result, k: nat)
    requires k < |route.chain|
    requires forall j :: 0 <= j < k ==> GoesOn(route, metadata, body, contentLength, live, j)
    requires var item := route.chain[k];
      if live(k + 1) then
        && AnswerOf(item, metadata, body, contentLength, route.maxBodyBytes, interrupted, r)
        && !Passes(item, metadata, body, contentLength, route.maxBodyBytes)
      else r == Cancelled(item.id)
    ensures ResultOf(route, metadata, body, contentLength, live, interrupted, r)
    ensures !GoesOn(route, metadata, body, contentLength, live, k)
  {
    hide AnswerOf;
    hide Passes;
    assert !GoesOn(route, metadata, body, contentLength, live, k);
    forall i | StopsAt(route, metadata, body, contentLength, live, i) ensures i == k {
    }
  }

  /** Evaluate a route's chain. The request is allowed exactly when the chain is the configured
      one, nothing was cancelled, and every interceptor passes the whole body; and then the body
      left for forwarding is the one that came in. Otherwise the result is that of the interceptor
      it stops at. The context is live at its k-th check or not, and a failed read of the body was
      interrupted or not. */
  method Evaluate(engine: Engine, req: Request, routeID: string, ids: seq<string>, live: nat -> bool, interrupted: bool)
    returns (r: Result)
    requires Valid(engine)
    modifies req
    ensures r.Allowed? <==>
      && routeID in engine.routes && engine.routes[routeID].interceptorIDs == ids
      && live(0) && forall k :: 0 <= k < |engine.routes[routeID].chain| ==>
           GoesOn(engine.routes[routeID], req.metadata, old(req.body), req.contentLength, live, k)
    ensures r.Allowed? ==> Bytes(req.body) == Bytes(old(req.body)) && (req.body.None? <==> old(req.body).None?)
    ensures r.Allowed? && req.body != old(req.body) ==> !req.body.value.fails
    ensures !(routeID in engine.routes && engine.routes[routeID].interceptorIDs == ids) ==>
      r == Unavailable("interceptor_chain", "interceptor_invalid_chain")
    ensures routeID in engine.routes && engine.routes[routeID].interceptorIDs == ids ==>
      if live(0) then
        ResultOf(engine.routes[routeID], req.metadata, old(req.body), req.contentLength, live, interrupted, r)
      else r == Cancelled("")
  {
    hide Passes;
    hide ResultOf;
    if routeID !in engine.routes || engine.routes[routeID].interceptorIDs != ids {
      return Unavailable("interceptor_chain", "interceptor_invalid_chain");
    }
    var route := engine.routes[routeID];
    if !live(0) {
      return Cancelled("");
    }
    assert Dominates(route);
    r := RunChain(route, req, live, interrupted);
  }

  /** The body as it stands: untouched, or read whole and put back. */
  ghost predicate Buffered(body: Option<string>, now: Option<Stream>, original: Option<Stream>, contentLength: int,
                           limit: int) {
    if body.None? then now == original
    else
      && body.value == Bytes(original) && contentLength <= limit
      && (original.Some? ==> !original.value.fails && now == Some(Stream(body.value, false)))
      && (original.None? ==> now == None)
  }

  /** Consult one interceptor, reading the body first if it is the first to need it. */
  method Consult(item: Compiled, req: Request, body: Option<string>, limit: nat, interrupted: bool,
                 ghost original: Option<Stream>)
    returns (r: Result, buffer: Option<string>)
    requires ValidRequirements(item.instance) && item.instance.maxBodyBytes <= limit
    requires Buffered(body, req.body, original, req.contentLength, limit)
    modifies req
    ensures r.Allowed? <==> Passes(item, req.metadata, original, req.contentLength, limit)
    ensures r.Allowed? ==> Buffered(buffer, req.body, original, req.contentLength, limit)
    ensures !r.Allowed? ==> AnswerOf(item, req.metadata, original, req.contentLength, limit, interrupted, r)
  {
    hide Proper;
    buffer := body;
    if item.instance.needsBody && buffer == None {
      if req.contentLength > limit {
        return Rejected(413, item.id, "body_too_large"), buffer;
      }
      buffer := ReadAndReplayBody(req, limit);
      if buffer == None {
        return if interrupted then Cancelled(item.id) else Unavailable(item.id, "interceptor_body_read_error"), buffer;
      }
    }
    if item.instance.needsBody && |buffer.value| > item.instance.maxBodyBytes {
      return Rejected(413, item.id, "body_too_large"), buffer;
    }
    var outcome := item.instance.check(req.metadata, if item.instance.needsBody then buffer else None);
    assert (if item.instance.needsBody then buffer else None) == Shown(item.instance, Bytes(original));
    r := Decide(item.id, outcome);
  }

  /** What becomes of an interceptor's answer. */
  method Decide(id: string, outcome: Outcome) returns (r: Result)
    ensures r.Allowed? <==> outcome == ALLOW
    ensures match outcome
      case Failed(cancelled) => r == if cancelled then Cancelled(id) else Unavailable(id, "interceptor_error")
      case Panicked(cancelled) => r == if cancelled then Cancelled(id) else Unavailable(id, "interceptor_panic")
      case Decided(d) =>
        && (!Proper(d) ==> r == Unavailable(id, "interceptor_invalid_decision"))
        && (Proper(d) && !d.allow ==> r == Rejected(d.statusCode, id, d.blockCode))
  {
    hide Proper;
    if !outcome.Decided? {
      if outcome.cancelled {
        return Cancelled(id);
      }
      return Unavailable(id, if outcome.Panicked? then "interceptor_panic" else "interceptor_error");
    }
    ProperExactly(outcome.decision);
    if !ValidDecision(outcome.decision) {
      return Unavailable(id, "interceptor_invalid_decision");
    }
    if !outcome.decision.allow {
      return Rejected(outcome.decision.statusCode, id, outcome.decision.blockCode);
    }
    return Allowed;
  }

  method RunChain(route: Route, req: Request, live: nat -> bool, interrupted: bool)
    returns (r: Result)
    requires Dominates(route)
    modifies req
    ensures r.Allowed? <==> forall k :: 0 <= k < |route.chain| ==>
      GoesOn(route, req.metadata, old(req.body), req.contentLength, live, k)
    ensures r.Allowed? ==> Bytes(req.body) == Bytes(old(req.body)) && (req.body.None? <==> old(req.body).None?)
    ensures r.Allowed? && req.body != old(req.body) ==> !req.body.value.fails
    ensures ResultOf(route, req.metadata, old(req.body), req.contentLength, live, interrupted, r)
  {
    hide Passes;
    hide AnswerOf;
    hide ResultOf;
    hide ValidRequirements;
    var body: Option<string> := None;
    for k := 0 to |route.chain|
      invariant forall j :: 0 <= j < k ==> GoesOn(route, req.metadata, old(req.body), req.contentLength, live, j)
      invariant Buffered(body, req.body, old(req.body), req.contentLength, route.maxBodyBytes)
    {
      var item := route.chain[k];
      if !live(k + 1) {
        OneStop(route, req.metadata, old(req.body), req.contentLength, live, interrupted, Cancelled(item.id), k);
        return Cancelled(item.id);
      }
      r, body := Consult(item, req, body, route.maxBodyBytes, interrupted, old(req.body));
      if r != Allowed {
        OneStop(route, req.metadata, old(req.body), req.contentLength, live, interrupted, r, k);
        return;
      }
    }
    NoStop(route, req.metadata, old(req.body), req.contentLength, live, interrupted);
    return Allowed;
  }

  lemma NoStop(route: Route, metadata: string, body: Option<Stream>, contentLength: int, live: nat -> bool,
               interrupted: bool)
    requires forall j :: 0 <= j < |route.chain| ==> GoesOn(route, metadata, body, contentLength, live, j)
    ensures ResultOf(route, metadata, body, contentLength, live, interrupted, Allowed)
  {
  }
}
