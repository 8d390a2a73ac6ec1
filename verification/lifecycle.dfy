/** How the handlers combine on one auction: what closing does and does not
    do, what reopening discards, and what acceptance depends on. */
module Lifecycle {
  import opened Wrappers
  import opened Auctions

  /** Closing changes nothing, so closing twice reports the same leader. */
  lemma CloseIsIdempotent(reg: Registry, id: string)
    ensures var first := CloseAuction(reg, id);
      CloseAuction(first.after, id).response == first.response
  {
  }

  /** A bid after a close is judged exactly as it would have been without the
      close: closing does not stop bidding. */
  lemma BiddingContinuesAfterClose(reg: Registry, id: string, amount: real, bidder: string)
    requires id in reg
    ensures var closed := CloseAuction(reg, id);
      && closed.response.AuctionClosed?
      && PlaceBid(closed.after, id, amount, bidder) == PlaceBid(reg, id, amount, bidder)
      && (PlaceBid(closed.after, id, amount, bidder).response.BidPlaced? <==> amount > reg[id].highestBid)
  {
  }

  /** The starting bid plays no part in accepting a bid: two records that
      differ only in it give the same reply to every bid. */
  lemma StartingBidIsIgnored(reg: Registry, id: string, startingBid: real, amount: real, bidder: string)
    requires id in reg
    ensures var reg' := reg[id := reg[id].(startingBid := startingBid)];
      PlaceBid(reg', id, amount, bidder).response == PlaceBid(reg, id, amount, bidder).response
  {
  }

  /** A bid below a positive starting bid is still accepted on a fresh
      auction: only the initial highest bid of 0 is compared. */
  lemma StartingBidIsNoFloor(reg: Registry, id: string, item: string, startingBid: real,
                             amount: real, bidder: string)
    requires 0.0 < amount < startingBid
    ensures var started := OpenAuction(reg, id, item, startingBid).after;
      PlaceBid(started, id, amount, bidder).response == BidPlaced(id, amount, bidder)
  {
  }

  /** Opening an id that is already in use replaces its record outright:
      the earlier record, its bids and its leader leave no trace. */
  lemma ReopenOverwrites(reg: Registry, id: string, item: string, startingBid: real,
                         item': string, startingBid': real)
    ensures var once := OpenAuction(reg, id, item, startingBid).after;
      OpenAuction(once, id, item', startingBid') == OpenAuction(reg, id, item', startingBid')
  {
  }

  /** Whatever auction `id` held, after an open and one bid above 0 it holds
      exactly that one bid. */
  lemma ReopenDiscardsBids(reg: Registry, id: string, item: string, startingBid: real,
                           amount: real, bidder: string)
    requires amount > 0.0
    ensures var started := OpenAuction(reg, id, item, startingBid).after;
      var t := PlaceBid(started, id, amount, bidder);
      && t.response == BidPlaced(id, amount, bidder)
      && t.after[id].bids == [Bid(amount, bidder)]
      && t.after[id].highestBidder == Some(bidder)
  {
  }
}
