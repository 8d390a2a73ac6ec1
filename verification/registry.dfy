/** The auction registry of the RPC server and its three request handlers.

    The server keeps one process-wide map from auction id to an auction record.
    Each handler runs to completion on the event loop without suspending, so it
    is modelled as a pure transition from the registry before the request to
    the registry after it, paired with the reply the caller receives. */
module Auctions {
  import opened Wrappers

  /** One accepted offer, in the shape the server appends to `bids`. */
  datatype Bid = Bid(amount: real, bidder: string)

  /** The record stored per auction id. `startingBid` is kept but never read
      by any handler; `highestBid` starts at 0 and `highestBidder` at none. */
  datatype Auction = Auction(
    item: string,
    startingBid: real,
    bids: seq<Bid>,
    highestBid: real,
    highestBidder: Option<string>)

  type Registry = map<string, Auction>

  /** One variant per `status` string the handlers reply with. */
  datatype Response =
    | AuctionOpened
    | BidPlaced(auctionId: string, highestBid: real, bidder: string)
    | BidTooLow
    | AuctionNotFound
    | AuctionClosed(highestBid: real, highestBidder: Option<string>)
    | Error(message: string)

  /** The effect of one handled request: the registry afterwards and the reply. */
  datatype Transition = Transition(after: Registry, response: Response)

  /** Every auction other than `id` is present in `after` exactly when it is
      present in `before`, and with the same record. */
  predicate UnchangedExcept(before: Registry, after: Registry, id: string) {
    && (forall k :: k in before && k != id ==> k in after && after[k] == before[k])
    && (forall k :: k in after && k != id ==> k in before)
  }

  /** The record a fresh `openAuction` stores. */
  function NewAuction(item: string, startingBid: real): (a: Auction)
    ensures a.bids == [] && a.highestBid == 0.0 && a.highestBidder == None
    ensures a.item == item && a.startingBid == startingBid
  {
    Auction(item, startingBid, [], 0.0, None)
  }

  /** Handler `openAuction`: stores a fresh record under `id`, replacing any
      record already there, whatever the starting bid is. */
  function OpenAuction(reg: Registry, id: string, item: string, startingBid: real): (t: Transition)
    ensures t.response == AuctionOpened
    ensures t.after.Keys == reg.Keys + {id}
    ensures t.after[id].bids == [] && t.after[id].highestBid == 0.0
    ensures t.after[id].highestBidder == None
    ensures t.after[id].item == item && t.after[id].startingBid == startingBid
    ensures UnchangedExcept(reg, t.after, id)
  {
    Transition(reg[id := NewAuction(item, startingBid)], AuctionOpened)
  }

  /** Handler `placeBid`: an unknown id is reported and nothing changes; a bid
      not strictly above the current highest bid is refused and nothing
      changes; otherwise the bid is appended and becomes the leader. */
  function PlaceBid(reg: Registry, id: string, amount: real, bidder: string): (t: Transition)
    ensures id !in reg ==> t == Transition(reg, AuctionNotFound)
    ensures id in reg && amount <= reg[id].highestBid ==> t == Transition(reg, BidTooLow)
    ensures id in reg && amount > reg[id].highestBid ==>
      && t.response == BidPlaced(id, amount, bidder)
      && t.after.Keys == reg.Keys
      && t.after[id].bids == reg[id].bids + [Bid(amount, bidder)]
      && t.after[id].highestBid == amount
      && t.after[id].highestBidder == Some(bidder)
      && t.after[id].item == reg[id].item
      && t.after[id].startingBid == reg[id].startingBid
      && UnchangedExcept(reg, t.after, id)
  {
    if id !in reg then
      Transition(reg, AuctionNotFound)
    else
      var a := reg[id];
      if amount > a.highestBid then
        var a' := a.(bids := a.bids + [Bid(amount, bidder)],
                     highestBid := amount,
                     highestBidder := Some(bidder));
        Transition(reg[id := a'], BidPlaced(id, amount, bidder))
      else
        Transition(reg, BidTooLow)
  }

  /** Handler `closeAuction`: reports the current leader of an existing
      auction. It records no closed state, so the registry never changes. */
  function CloseAuction(reg: Registry, id: string): (t: Transition)
    ensures t.after == reg
    ensures t.response.AuctionClosed? <==> id in reg
    ensures id !in reg ==> t.response == AuctionNotFound
    ensures id in reg ==>
      t.response.highestBid == reg[id].highestBid && t.response.highestBidder == reg[id].highestBidder
  {
    if id in reg then
      Transition(reg, AuctionClosed(reg[id].highestBid, reg[id].highestBidder))
    else
      Transition(reg, AuctionNotFound)
  }
}
