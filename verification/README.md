# Auction registry of the tether.io RPC server

This project models the auction core of the peer-to-peer auction server. The
server keeps one in-memory map from auction id to an auction record
`{item, startingBid, bids, highestBid, highestBidder}`. It answers three RPC
methods against that map:

- `openAuction` stores a fresh record. A record already under that id is
  overwritten.
- `placeBid` accepts a bid only when its amount is strictly above the current
  `highestBid`. It then appends the bid and makes the bidder the leader.
  Otherwise it replies `bidTooLow`, or `auctionNotFound` for an unknown id.
- `closeAuction` reports the current leader and changes nothing.

Each handler runs to completion on the event loop. So each one is modelled as
a pure function from the registry and a request to the new registry and the
reply (`Auctions.Transition`). A stream of requests is handled by `Dispatch.Run`,
or by the loop `Dispatch.Serve`.

Modules:

- `Wrappers` (wrappers.dfy): `Option`, used for the leader, which is `null`
  until the first accepted bid.
- `Auctions` (registry.dfy): the records, the replies (one variant per
  `status` string) and the three handlers.
- `Dispatch` (dispatch.dfy): parsed requests, routing one request, handling a
  stream in order.
- `Invariants` (invariants.dfy): the shape every record keeps, monotonicity
  between opens, isolation between auctions, and the accepted-bid log.
- `Lifecycle` (lifecycle.dfy): closing, reopening and the unused starting bid.
- `Scenarios` (scenarios.dfy): concrete request streams and their replies.

Three behaviours of the code are worth stating:

- There is no closed state. `closeAuction` only reports, and bids after
  a close are still accepted (`Lifecycle.BiddingContinuesAfterClose`,
  `Scenarios.BidAfterClose`).
- `highestBid` starts at 0, never at `startingBid`. The starting bid is
  stored but never compared (`Lifecycle.StartingBidIsIgnored`,
  `Lifecycle.StartingBidIsNoFloor`).
- Opening an existing id overwrites it, and the reply is still
  `auctionOpened` (`Lifecycle.ReopenOverwrites`).

## Model

| member | source | states |
|---|---|---|
| Auctions.NewAuction | server.js:29 | a new record has no bids, highest bid 0, no leader, and keeps the given item and starting bid |
| Auctions.OpenAuction | server.js:25-32 | replies `auctionOpened`; the id is present afterwards with a fresh record whatever the starting bid; every other auction is unchanged and no other id appears |
| Auctions.PlaceBid | server.js:39-57 | unknown id: `auctionNotFound` and no change, in particular no entry created; amount not above the highest bid: `bidTooLow` and no change; otherwise the bid is appended at the end, becomes the highest bid and leader, the reply `bidPlaced` carries the id, amount and bidder, and every other auction is unchanged |
| Auctions.CloseAuction | server.js:64-75 | never changes the registry; replies `auctionClosed` with the current highest bid and leader exactly when the id exists, `auctionNotFound` otherwise |
| Dispatch.Step | server.js:25-80 | a payload that fails to parse gets `error` with the parser's message and leaves the registry alone, and only such a payload gets `error`; any other request touches at most its own auction; only an open adds an id; a close changes nothing |
| Dispatch.Run | server.js:23-80 | handling a stream of requests one after another, each on the registry the previous one left, gives exactly one reply per request |
| Dispatch.Serve | server.js:23-80 | handling requests one at a time, each to completion, gives exactly the registry and replies of the sequential run, one reply per request, with `error` for every unparsable payload |
| Invariants.HighestBidIsMaximum | server.js:45-48 | in a well-formed record the highest bid is at least 0, at least every accepted amount, and is itself an accepted bid by the leader; there is a leader exactly when there are bids |
| Invariants.AcceptKeepsWellFormed | server.js:45-48 | appending a bid above the current highest bid keeps bids strictly increasing and the leader equal to the last bid |
| Invariants.StepKeepsWellFormed | server.js:29-56 | every handler keeps every record well-formed: bids strictly increasing and above 0, highest bid and leader equal to the last bid, or 0 and none with no bids |
| Invariants.RunKeepsWellFormed | server.js:23-80 | over any stream of requests from a well-formed registry, the empty one included, every record stays well-formed |
| Invariants.RunAppend | server.js:23-80 | handling a stream in two parts, the second from the registry the first left, gives the same registry and the same replies, in order, as handling it whole |
| Invariants.CloseReportsLastAcceptedBid | server.js:68-72 | closing a well-formed auction reports its last accepted bid and bidder, which is at least every accepted amount, or 0 and no leader when there are no bids |
| Invariants.StepIsMonotone | server.js:43-53 | a request that does not reopen the auction keeps it present with the same item and starting bid, never lowers its highest bid and only appends to its bids |
| Invariants.RunIsMonotone | server.js:29-53 | between two opens of an auction, over any stream, its highest bid never decreases and its bid list only grows at the end |
| Invariants.HighestBidRisesWithinStream | server.js:29-53 | within one stream, even one that opens the auction itself, once the auction exists and until it is reopened its highest bid never falls and its earlier bids stay a prefix |
| Invariants.RunLeavesOthersAlone | server.js:29-72 | requests on other ids, or unparsable ones, leave an auction exactly as it was, or still absent |
| Invariants.UnopenedAuctionIsNotFound | server.js:43-44 | until an id is opened, every bid or close on it is answered `auctionNotFound` and no entry for it appears |
| Invariants.BidsAreTheAcceptedBids | server.js:45-51 | between two opens, an auction's bids grow by exactly the bids confirmed with `bidPlaced` replies for it, in reply order; refused bids never enter the list |
| Invariants.HighestBidIsMaxOffered | server.js:45-47 | between two opens, an auction's highest bid equals the largest of its earlier highest bid and every amount offered on it, refused offers included, so no offer is lost |
| Invariants.MaxOfferedIgnoresOrder | server.js:45-47 | the largest offer on an auction is the same for any reordering of the same requests |
| Invariants.HighestBidIgnoresOrder | server.js:39-57 | between two opens, any two orders of the same requests leave an auction with the same highest bid, so concurrent bids serialised by the event loop lose no update |
| Lifecycle.CloseIsIdempotent | server.js:68-72 | closing twice gives the same reply |
| Lifecycle.BiddingContinuesAfterClose | server.js:39-75 | a bid after a close is judged exactly as without the close, and accepted exactly when it is above the highest bid |
| Lifecycle.StartingBidIsIgnored | server.js:29-45 | two records that differ only in starting bid give the same reply to every bid |
| Lifecycle.StartingBidIsNoFloor | server.js:29-45 | on a fresh auction a bid below a positive starting bid is accepted |
| Lifecycle.ReopenOverwrites | server.js:29 | opening an id twice ends exactly as the second open alone: the first record, its bids and its leader are gone |
| Lifecycle.ReopenDiscardsBids | server.js:29-51 | after an open, whatever the id held before, one bid above 0 leaves exactly that bid and that leader |
| Scenarios.VaseAuction | server.js:29-72 | open A1 with starting bid 10, bid 15 by bob, bid 12 by carol, close: replies `auctionOpened`, `bidPlaced` 15 bob, `bidTooLow`, `auctionClosed` 15 bob |
| Scenarios.BidOnUnknownAuction | server.js:43-56 | a bid on an id nobody opened is answered `auctionNotFound` and the registry stays empty |
| Scenarios.BidAfterClose | server.js:45-72 | after a close a higher bid is still accepted and a second close reports the new leader |

## Left out

- The DHT node, key pair, RPC server start-up and writing the public key to
  a file (server.js:8-21). These are network and filesystem calls.
- All of client.js. It is interactive prompting and RPC calls with no
  domain logic.
- JSON parsing and the Buffer encoding of payloads. A payload that fails to
  parse is the request variant `Malformed` with the parser's message. The
  field-by-field shape of JSON is not modelled, nor fields that parse but are
  missing (`undefined` in the code).
- Logging with `console.log` and `console.error`.
- JavaScript numbers. Amounts are reals, compared with `>` as in the code.
  NaN, infinities and `parseFloat` of user input are not modelled. The
  `error` reply for an unexpected exception other than a parse failure is not
  modelled either, because no other statement of the handlers can throw on
  parsed input of the modelled types.
- Concurrency. The event loop runs each handler to completion with no
  suspension inside the check-and-update, so requests are sequential steps.
- Ids, items and bidders are strings. The code accepts any JSON value there.
- Bid amounts are numbers. The code accepts any JSON value as `bidAmount`,
  and its `>` then compares strings as text. For example, a bid of `"20"` on
  a fresh auction is accepted (`"20" > 0` compares numbers), and a later bid
  of `"3"` is accepted too (`"3" > "20"` compares text). The highest bid then
  falls from 20 to 3. So `Invariants.RunKeepsWellFormed`,
  `Invariants.RunIsMonotone`, `Invariants.HighestBidRisesWithinStream` and
  `Invariants.HighestBidIsMaxOffered` hold only for numeric amounts.
- Dispatch.Step: promises that an `error` reply leaves the registry alone,
  which holds only for the modelled string and number fields. In the code an
  item or bidder whose conversion to text throws (such as an object with a
  non-callable `toString`) makes the log line at server.js:30 or server.js:49
  throw after the map was already updated (server.js:29, server.js:46-48). The
  reply is then `error` although the record changed.
