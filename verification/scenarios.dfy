/** Concrete request streams against an empty registry and the replies the
    server gives to them. */
module Scenarios {
  import opened Wrappers
  import opened Auctions
  import opened Dispatch

  /** Open "A1", bid 15 by bob, bid 12 by carol, close: the lower bid is
      refused and the close reports bob at 15. */
  lemma VaseAuction()
    ensures var reqs := [OpenAuctionReq("A1", "Vase", 10.0),
                         PlaceBidReq("A1", 15.0, "bob"),
                         PlaceBidReq("A1", 12.0, "carol"),
                         CloseAuctionReq("A1")];
      Run(map[], reqs).responses ==
        [AuctionOpened, BidPlaced("A1", 15.0, "bob"), BidTooLow, AuctionClosed(15.0, Some("bob"))]
  {
    var reqs := [OpenAuctionReq("A1", "Vase", 10.0),
                 PlaceBidReq("A1", 15.0, "bob"),
                 PlaceBidReq("A1", 12.0, "carol"),
                 CloseAuctionReq("A1")];
    assert reqs[..1][..0] == [] && reqs[..2][..1] == reqs[..1];
    assert reqs[..3][..2] == reqs[..2] && reqs[..4][..3] == reqs[..3];
    var r1 := Run(map[], reqs[..1]);
    assert r1.after["A1"].highestBid == 0.0;
    var r2 := Run(map[], reqs[..2]);
    assert r2.after["A1"].highestBid == 15.0;
    var r3 := Run(map[], reqs[..3]);
    assert r3.after["A1"].highestBidder == Some("bob");
    assert reqs[..4] == reqs;
  }

  /** A bid on an auction nobody opened is answered `auctionNotFound`. */
  lemma BidOnUnknownAuction()
    ensures var tr := Run(map[], [PlaceBidReq("A2", 5.0, "dave")]);
      tr.responses == [AuctionNotFound] && tr.after == map[]
  {
    assert [PlaceBidReq("A2", 5.0, "dave")][..0] == [];
  }

  /** Bidding after a close is still accepted, and a second close then
      reports the new leader. */
  lemma BidAfterClose()
    ensures var reqs := [OpenAuctionReq("A3", "Lamp", 0.0),
                         CloseAuctionReq("A3"),
                         PlaceBidReq("A3", 7.0, "erin"),
                         CloseAuctionReq("A3")];
      Run(map[], reqs).responses ==
        [AuctionOpened, AuctionClosed(0.0, None), BidPlaced("A3", 7.0, "erin"), AuctionClosed(7.0, Some("erin"))]
  {
    var reqs := [OpenAuctionReq("A3", "Lamp", 0.0),
                 CloseAuctionReq("A3"),
                 PlaceBidReq("A3", 7.0, "erin"),
                 CloseAuctionReq("A3")];
    assert reqs[..1][..0] == [] && reqs[..2][..1] == reqs[..1];
    assert reqs[..3][..2] == reqs[..2] && reqs[..4][..3] == reqs[..3];
    var r1 := Run(map[], reqs[..1]);
    assert r1.after["A3"].highestBid == 0.0;
    var r2 := Run(map[], reqs[..2]);
    assert r2.after["A3"].highestBid == 0.0;
    var r3 := Run(map[], reqs[..3]);
    assert r3.after["A3"].highestBidder == Some("erin");
    assert reqs[..4] == reqs;
  }
}
