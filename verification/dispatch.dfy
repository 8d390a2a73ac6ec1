/** The boundary between the RPC transport and the registry: one decoded
    request is routed to its handler, and a stream of requests is handled one
    at a time, each to completion, as the server's event loop does. */
module Dispatch {
  import opened Wrappers
  import opened Auctions

  /** A request as the handlers see it once the JSON payload is parsed. A
      payload that fails to parse carries only the parser's message. */
  datatype Request =
    | OpenAuctionReq(auctionId: string, item: string, startingBid: real)
    | PlaceBidReq(auctionId: string, bidAmount: real, bidder: string)
    | CloseAuctionReq(auctionId: string)
    | Malformed(message: string)

  /** The auction a request refers to, if it could be parsed. */
  function Target(req: Request): (r: Option<string>)
    ensures r.None? <==> req.Malformed?
    ensures r.Some? ==> r.value == req.auctionId
  {
    if req.Malformed? then None else Some(req.auctionId)
  }

  /** True when `req` (re)opens auction `id`, discarding its record. */
  predicate Reopens(req: Request, id: string) {
    req.OpenAuctionReq? && req.auctionId == id
  }

  /** Handles one request. A parse failure yields `error` and never reaches
      the registry; every other request touches at most its own auction. */
  function Step(reg: Registry, req: Request): (t: Transition)
    ensures t.response.Error? <==> req.Malformed?
    ensures req.Malformed? ==> t == Transition(reg, Error(req.message))
    ensures req.Malformed? || UnchangedExcept(reg, t.after, req.auctionId)
    ensures req.OpenAuctionReq? ==> t.after.Keys == reg.Keys + {req.auctionId}
    ensures !req.OpenAuctionReq? ==> t.after.Keys == reg.Keys
    ensures req.CloseAuctionReq? ==> t.after == reg
  {
    match req
    case OpenAuctionReq(id, item, sb) => OpenAuction(reg, id, item, sb)
    case PlaceBidReq(id, amount, bidder) => PlaceBid(reg, id, amount, bidder)
    case CloseAuctionReq(id) => CloseAuction(reg, id)
    case Malformed(msg) => Transition(reg, Error(msg))
  }

  /** The registry after a whole stream of requests, and one reply per request. */
  datatype Trace = Trace(after: Registry, responses: seq<Response>)

  /** Handles `reqs` in order, starting from `reg`. Defined on the last request
      so that a prefix of the stream is handled exactly as it would be alone. */
  function Run(reg: Registry, reqs: seq<Request>): (tr: Trace)
    ensures |tr.responses| == |reqs|
    decreases |reqs|
  {
    if |reqs| == 0 then
      Trace(reg, [])
    else
      var prev := Run(reg, reqs[..|reqs| - 1]);
      var t := Step(prev.after, reqs[|reqs| - 1]);
      Trace(t.after, prev.responses + [t.response])
  }

  /** The server loop: takes the requests one by one and runs each handler to
      completion before the next, so no check-then-update is interleaved. */
  method Serve(reg: Registry, reqs: seq<Request>) returns (after: Registry, responses: seq<Response>)
    ensures |responses| == |reqs|
    ensures Trace(after, responses) == Run(reg, reqs)
    ensures forall i :: 0 <= i < |reqs| && reqs[i].Malformed? ==> responses[i] == Error(reqs[i].message)
  {
    after := reg;
    responses := [];
    var i := 0;
    while i < |reqs|
      invariant 0 <= i <= |reqs|
      invariant Trace(after, responses) == Run(reg, reqs[..i])
      invariant forall j :: 0 <= j < i && reqs[j].Malformed? ==> responses[j] == Error(reqs[j].message)
    {
      assert reqs[..i + 1][..i] == reqs[..i];
      var t := Step(after, reqs[i]);
      after := t.after;
      responses := responses + [t.response];
      i := i + 1;
    }
    assert reqs[..i] == reqs;
  }
}
