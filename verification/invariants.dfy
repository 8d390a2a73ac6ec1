/** What the handlers keep true of every auction, and how an auction evolves
    over a stream of requests. */
module Invariants {
  import opened Wrappers
  import opened Auctions
  import opened Dispatch

  /** Accepted bids appear in strictly increasing order of amount. */
  predicate StrictlyIncreasing(bids: seq<Bid>) {
    forall i, j :: 0 <= i < j < |bids| ==> bids[i].amount < bids[j].amount
  }

  /** The shape every stored record has: bids strictly increasing and all
      above the initial 0, and the leader is the last accepted bid (0 and no
      leader while there is none). */
  predicate WellFormed(a: Auction) {
    && StrictlyIncreasing(a.bids)
    && (forall i :: 0 <= i < |a.bids| ==> a.bids[i].amount > 0.0)
    && if a.bids == [] then
         a.highestBid == 0.0 && a.highestBidder == None
       else
         && a.highestBid == a.bids[|a.bids| - 1].amount
         && a.highestBidder == Some(a.bids[|a.bids| - 1].bidder)
  }

  predicate WellFormedRegistry(reg: Registry) {
    forall id :: id in reg ==> WellFormed(reg[id])
  }

  /** The leader of a well-formed auction holds the largest accepted amount,
      which is never below 0, and is one of the accepted bids. */
  lemma HighestBidIsMaximum(a: Auction)
    requires WellFormed(a)
    ensures a.highestBid >= 0.0
    ensures forall i :: 0 <= i < |a.bids| ==> a.bids[i].amount <= a.highestBid
    ensures a.bids != [] <==> a.highestBidder.Some?
    ensures a.highestBidder.Some? ==>
      exists i :: 0 <= i < |a.bids| && a.bids[i] == Bid(a.highestBid, a.highestBidder.value)
  {
    if a.bids != [] {
      var n := |a.bids| - 1;
      assert a.bids[n] == Bid(a.highestBid, a.highestBidder.value);
      forall i | 0 <= i < |a.bids|
        ensures a.bids[i].amount <= a.highestBid
      {
        if i < n {
          assert a.bids[i].amount < a.bids[n].amount;
        }
      }
    }
  }

  /** Appending a bid above the current leader keeps a record well-formed. */
  lemma AcceptKeepsWellFormed(a: Auction, amount: real, bidder: string)
    requires WellFormed(a)
    requires amount > a.highestBid
    ensures WellFormed(a.(bids := a.bids + [Bid(amount, bidder)],
                          highestBid := amount,
                          highestBidder := Some(bidder)))
  {
    HighestBidIsMaximum(a);
    var bids := a.bids + [Bid(amount, bidder)];
    forall i, j | 0 <= i < j < |bids|
      ensures bids[i].amount < bids[j].amount
    {
      if j == |bids| - 1 {
        assert bids[i] == a.bids[i];
      } else {
        assert bids[i] == a.bids[i] && bids[j] == a.bids[j];
      }
    }
  }

  /** Every handler keeps every record of the registry well-formed. */
  lemma StepKeepsWellFormed(reg: Registry, req: Request)
    requires WellFormedRegistry(reg)
    ensures WellFormedRegistry(Step(reg, req).after)
  {
    var after := Step(reg, req).after;
    if req.PlaceBidReq? && req.auctionId in reg && req.bidAmount > reg[req.auctionId].highestBid {
      AcceptKeepsWellFormed(reg[req.auctionId], req.bidAmount, req.bidder);
    }
    forall id | id in after
      ensures WellFormed(after[id])
    {
      if req.Malformed? || id != req.auctionId {
        assert after[id] == reg[id];
      }
    }
  }

  /** Over any stream of requests, from any well-formed registry (the empty
      one included), every record stays well-formed. */
  lemma {:induction false} RunKeepsWellFormed(reg: Registry, reqs: seq<Request>)
    requires WellFormedRegistry(reg)
    ensures WellFormedRegistry(Run(reg, reqs).after)
    decreases |reqs|
  {
    if |reqs| > 0 {
      var init := reqs[..|reqs| - 1];
      RunKeepsWellFormed(reg, init);
      StepKeepsWellFormed(Run(reg, init).after, reqs[|reqs| - 1]);
    }
  }

  /** `closeAuction` on a well-formed auction reports its last accepted bid,
      which is the largest; with no bids it reports 0 and no leader. */
  lemma CloseReportsLastAcceptedBid(reg: Registry, id: string)
    requires WellFormedRegistry(reg)
    requires id in reg
    ensures var r := CloseAuction(reg, id).response;
      && r.AuctionClosed?
      && (reg[id].bids == [] ==> r.highestBid == 0.0 && r.highestBidder == None)
      && (reg[id].bids != [] ==>
            var last := reg[id].bids[|reg[id].bids| - 1];
            r.highestBid == last.amount && r.highestBidder == Some(last.bidder))
      && (forall i :: 0 <= i < |reg[id].bids| ==> reg[id].bids[i].amount <= r.highestBid)
  {
    HighestBidIsMaximum(reg[id]);
  }

  /** Handling a stream in two parts, the second from where the first left
      the registry, is the same as handling it whole. */
  lemma {:induction false} RunAppend(reg: Registry, p: seq<Request>, q: seq<Request>)
    ensures var first := Run(reg, p);
      var second := Run(first.after, q);
      Run(reg, p + q) == Trace(second.after, first.responses + second.responses)
    decreases |q|
  {
    if |q| > 0 {
      var q' := q[..|q| - 1];
      assert (p + q)[..|p + q| - 1] == p + q';
      assert (p + q)[|p + q| - 1] == q[|q| - 1];
      RunAppend(reg, p, q');
      var first := Run(reg, p);
      var rest := Run(first.after, q');
      assert Run(first.after, q).responses
        == rest.responses + [Step(rest.after, q[|q| - 1]).response];
    } else {
      assert p + q == p;
    }
  }

  /** A request that does not reopen `id` keeps its record, never lowers its
      highest bid and only ever extends its list of bids. */
  lemma StepIsMonotone(reg: Registry, req: Request, id: string)
    requires id in reg
    requires !Reopens(req, id)
    ensures var after := Step(reg, req).after;
      && id in after
      && reg[id].highestBid <= after[id].highestBid
      && reg[id].bids <= after[id].bids
      && after[id].item == reg[id].item
      && after[id].startingBid == reg[id].startingBid
  {
  }

  /** Between two opens of an auction its highest bid never decreases and its
      bids are only ever appended to. */
  lemma {:induction false} RunIsMonotone(reg: Registry, reqs: seq<Request>, id: string)
    requires id in reg
    requires forall i :: 0 <= i < |reqs| ==> !Reopens(reqs[i], id)
    ensures var after := Run(reg, reqs).after;
      && id in after
      && reg[id].highestBid <= after[id].highestBid
      && reg[id].bids <= after[id].bids
      && after[id].item == reg[id].item
      && after[id].startingBid == reg[id].startingBid
    decreases |reqs|
  {
    if |reqs| > 0 {
      var init := reqs[..|reqs| - 1];
      RunIsMonotone(reg, init, id);
      StepIsMonotone(Run(reg, init).after, reqs[|reqs| - 1], id);
    }
  }

  /** Within one stream that may itself open the auction: once it exists
      after the first `i` requests, and no later request up to `j` reopens
      it, its highest bid after `j` requests is no lower and its earlier bids
      are kept as a prefix. */
  lemma HighestBidRisesWithinStream(reg: Registry, reqs: seq<Request>, id: string, i: nat, j: nat)
    requires i <= j <= |reqs|
    requires id in Run(reg, reqs[..i]).after
    requires forall k :: i <= k < j ==> !Reopens(reqs[k], id)
    ensures var before := Run(reg, reqs[..i]).after;
      var later := Run(reg, reqs[..j]).after;
      && id in later
      && before[id].highestBid <= later[id].highestBid
      && before[id].bids <= later[id].bids
  {
    var mid := reqs[i..j];
    assert reqs[..j] == reqs[..i] + mid;
    RunAppend(reg, reqs[..i], mid);
    forall k | 0 <= k < |mid|
      ensures !Reopens(mid[k], id)
    {
      assert mid[k] == reqs[i + k];
    }
    RunIsMonotone(Run(reg, reqs[..i]).after, mid, id);
  }

  /** Requests on other auctions (and unparsable ones) leave auction `id`
      exactly as it was: present with the same record, or still absent. */
  lemma {:induction false} RunLeavesOthersAlone(reg: Registry, reqs: seq<Request>, id: string)
    requires forall i :: 0 <= i < |reqs| ==> Target(reqs[i]) != Some(id)
    ensures var after := Run(reg, reqs).after;
      && (id in after <==> id in reg)
      && (id in reg ==> after[id] == reg[id])
    decreases |reqs|
  {
    if |reqs| > 0 {
      var init := reqs[..|reqs| - 1];
      RunLeavesOthersAlone(reg, init, id);
      var req := reqs[|reqs| - 1];
      assert Target(req) != Some(id);
    }
  }

  /** Until an auction is opened, every bid or close on its id is answered
      `auctionNotFound`, and no entry for it is created. */
  lemma {:induction false} UnopenedAuctionIsNotFound(reg: Registry, reqs: seq<Request>, id: string)
    requires id !in reg
    requires forall i :: 0 <= i < |reqs| ==> !Reopens(reqs[i], id)
    ensures id !in Run(reg, reqs).after
    ensures forall i :: 0 <= i < |reqs| && Target(reqs[i]) == Some(id) ==>
      Run(reg, reqs).responses[i] == AuctionNotFound
    decreases |reqs|
  {
    if |reqs| > 0 {
      var n := |reqs| - 1;
      var init := reqs[..n];
      UnopenedAuctionIsNotFound(reg, init, id);
      var prev := Run(reg, init);
      var tr := Run(reg, reqs);
      forall i | 0 <= i < |reqs| && Target(reqs[i]) == Some(id)
        ensures tr.responses[i] == AuctionNotFound
      {
        if i < n {
          assert reqs[i] == init[i];
          assert tr.responses[i] == prev.responses[i];
        }
      }
    }
  }

  /** The bids that the `bidPlaced` replies in `responses` report for `id`, in
      reply order. */
  function AcceptedBids(id: string, responses: seq<Response>): (bids: seq<Bid>)
    ensures |bids| <= |responses|
    decreases |responses|
  {
    if |responses| == 0 then
      []
    else
      var r := responses[|responses| - 1];
      AcceptedBids(id, responses[..|responses| - 1])
        + (if r.BidPlaced? && r.auctionId == id then [Bid(r.highestBid, r.bidder)] else [])
  }

  /** Between two opens, an auction's bid list grows by exactly the bids the
      server confirmed with `bidPlaced` for it, in order; refused bids never
      enter it. */
  lemma {:induction false} BidsAreTheAcceptedBids(reg: Registry, reqs: seq<Request>, id: string)
    requires id in reg
    requires forall i :: 0 <= i < |reqs| ==> !Reopens(reqs[i], id)
    ensures var tr := Run(reg, reqs);
      id in tr.after && tr.after[id].bids == reg[id].bids + AcceptedBids(id, tr.responses)
    decreases |reqs|
  {
    if |reqs| > 0 {
      var n := |reqs| - 1;
      var init := reqs[..n];
      BidsAreTheAcceptedBids(reg, init, id);
      RunIsMonotone(reg, init, id);
      var prev := Run(reg, init);
      var tr := Run(reg, reqs);
      assert tr.responses[..n] == prev.responses;
    }
  }

  /** The largest of `floor` and every amount offered on `id` in `reqs`. */
  function MaxOffered(floor: real, id: string, reqs: seq<Request>): (m: real)
    ensures m >= floor
    ensures forall i :: 0 <= i < |reqs| && reqs[i].PlaceBidReq? && reqs[i].auctionId == id ==>
      reqs[i].bidAmount <= m
    ensures m == floor || exists i :: 0 <= i < |reqs| && reqs[i].PlaceBidReq? && reqs[i].auctionId == id && reqs[i].bidAmount == m
    decreases |reqs|
  {
    if |reqs| == 0 then
      floor
    else
      var m := MaxOffered(floor, id, reqs[..|reqs| - 1]);
      var r := reqs[|reqs| - 1];
      if r.PlaceBidReq? && r.auctionId == id && r.bidAmount > m then r.bidAmount else m
  }

  /** No offer is lost: between two opens, an auction's highest bid
      afterwards is the largest of its earlier highest bid and every amount
      offered on it, refused offers included. */
  lemma {:induction false} HighestBidIsMaxOffered(reg: Registry, reqs: seq<Request>, id: string)
    requires id in reg
    requires forall i :: 0 <= i < |reqs| ==> !Reopens(reqs[i], id)
    ensures var after := Run(reg, reqs).after;
      id in after && after[id].highestBid == MaxOffered(reg[id].highestBid, id, reqs)
    decreases |reqs|
  {
    if |reqs| > 0 {
      var init := reqs[..|reqs| - 1];
      HighestBidIsMaxOffered(reg, init, id);
      RunIsMonotone(reg, init, id);
    }
  }

  /** The largest offer does not depend on the order of the requests. */
  lemma MaxOfferedIgnoresOrder(floor: real, id: string, a: seq<Request>, b: seq<Request>)
    requires multiset(a) == multiset(b)
    ensures MaxOffered(floor, id, a) == MaxOffered(floor, id, b)
  {
    MaxOfferedBelow(floor, id, a, b);
    MaxOfferedBelow(floor, id, b, a);
  }

  /** Every offer in `a` also occurs in `b`, so the largest offer of `a` is no
      more than that of `b`. */
  lemma MaxOfferedBelow(floor: real, id: string, a: seq<Request>, b: seq<Request>)
    requires multiset(a) <= multiset(b)
    ensures MaxOffered(floor, id, a) <= MaxOffered(floor, id, b)
  {
    var m := MaxOffered(floor, id, a);
    if m != floor {
      var i :| 0 <= i < |a| && a[i].PlaceBidReq? && a[i].auctionId == id && a[i].bidAmount == m;
      assert a[i] in multiset(a);
      assert a[i] in multiset(b);
      var j :| 0 <= j < |b| && b[j] == a[i];
    }
  }

  /** However the server's event loop happens to order the same requests,
      an auction ends with the same highest bid: no update is lost to the
      order in which concurrent bids arrive. */
  lemma HighestBidIgnoresOrder(reg: Registry, a: seq<Request>, b: seq<Request>, id: string)
    requires id in reg
    requires multiset(a) == multiset(b)
    requires forall i :: 0 <= i < |a| ==> !Reopens(a[i], id)
    requires forall i :: 0 <= i < |b| ==> !Reopens(b[i], id)
    ensures id in Run(reg, a).after && id in Run(reg, b).after
    ensures Run(reg, a).after[id].highestBid == Run(reg, b).after[id].highestBid
  {
    HighestBidIsMaxOffered(reg, a, id);
    HighestBidIsMaxOffered(reg, b, id);
    MaxOfferedIgnoresOrder(reg[id].highestBid, id, a, b);
  }
}
