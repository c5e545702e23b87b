# Replicated auction: bid ledger and frontend replica list

A Dafny model of the two pieces of sequential logic in a small replicated
auction written in Go over gRPC.

- **Replica (`server/server.go`)**: each `ReplicationManager` keeps a
  `biddingMap` from bidder id to that bidder's latest accepted amount, plus an
  `isBiddingOver` flag. `Bid` accepts a bid unless bidding is over or the amount
  is strictly below the current maximum. The first call against an empty map
  starts a 60-second timer that closes bidding. `GetResult` reports the maximum,
  and reports the winner once bidding is over.
- **Frontend (`client/client.go`)**: the client keeps an ordered list of replica
  handles. `sendBid` calls every handle in order and then drops the last handle
  whose call failed, so at most one handle goes per call. `getResult` asks only
  the head of the list.

Modules:

- `Options` (`options.dfy`) defines `Option`.
- `Ledger` (`ledger.dfy`) holds the replica state and its operations as pure
  functions: `Bid`, `GetResult`, `GetHighestBid` and `Close`.
- `LedgerRuns` (`ledger_runs.dfy`) holds lemmas over sequences of bids and
  timer firings.
- `Frontend` (`frontend.dfy`) holds the client state, `RemoveElement`,
  `SendBid` and `GetResult`.
- `FrontendRuns` (`frontend_runs.dfy`) holds lemmas over sequences of
  `sendBid` calls, and one lemma that connects a replica's outcome to what the
  frontend reports.

Modelling decisions:

- **Calls are sequential.** The Go code takes no locks, so concurrent calls are
  modelled as one sequential interleaving of `PlaceBid` and `TimerFires` events.
- **The timer is an output plus an event.** `Bid` returns a `timerStarted`
  marker, which is true exactly when the map was empty on entry, and
  `Close`/`TimerFires` stands in for the goroutine that sleeps 60 s and then
  sets the flag. Nothing guards the start, so every bid that arrives while the
  map is empty starts another timer; `TimerStarts` counts them.
- **The map scan order is an input.** Go's `range` over a map visits the keys
  in an order the runtime chooses, so `GetHighestBid` and `Ledger.GetResult`
  take that order as a parameter. The amount found does not depend on the order
  (`GetHighestBidAmount`), so `Bid` compares against the order-free
  `HighestAmount`. When bidders tie, the reported bidder does depend on the
  order (`TiedWinnerDependsOnScanOrder`).
- **Failures and replies are inputs.** Whether a call through a handle fails is
  given as the set of failing handles. A replica's answer to `GetResult` is
  given as a function from handle to `Reply`.
- **Types are simplified.** Bidder ids and amounts are unbounded integers. The
  Go code stores and compares these `int32` values but does no arithmetic on
  them, so the width makes no difference. The winner string `"Client <id>"` is
  modelled as `Some(id)` and the empty string as `None`. The frontend only tests
  whether that string is empty, and `"Client <id>"` never is.

The model keeps these behaviours of the code, which a more careful design
would change:

- A too-low bid is acknowledged with `"fail"`, not `"fail - bid too low"`.
- `getResult` has no failover and no explicit all-replicas-unreachable result.
  A failed call ends the process with `log.Fatalf`, and an empty list makes the
  index expression panic. These are the reports `FatalError` and
  `IndexOutOfRange`.
- `sendBid` removes only the last failed handle, not every failed handle.
- A tie is resolved by map scan order, not by acceptance order.
- Every bid on an empty map starts a timer. The timer is not started exactly
  once.

## Model

| member | source | states |
|---|---|---|
| `Ledger.HighestAmount` | server/server.go:94-106 | The amount the maximum scan yields: it is at least 0 and at least every stored amount. It is 0 or equal to some bidder's stored amount. |
| `Ledger.GetHighestBid` | server/server.go:94-106 | The scan, for a given key order, starts at (0, 0) and replaces the candidate only on a strictly larger value. So the amount is at least 0 and at least every scanned value. If the amount is 0, the bidder is 0. If the amount is positive, the bidder maps to it and is the first key in scan order that holds it. |
| `Ledger.GetHighestBidAmount` | server/server.go:94-106 | For every order that visits each key exactly once, the scanned amount equals `HighestAmount`. |
| `Ledger.Bid` | server/server.go:60-83 | A timer start is signalled exactly when the map is empty on entry, whether or not the bid is then rejected. If bidding is over, the status is "fail - bidding is over" and the state is unchanged. If bidding is open and the amount is below the maximum, the status is "fail" and the state is unchanged. Otherwise the status is "success", the bidder's entry becomes the amount, every other entry is unchanged, and the flag is unchanged. |
| `Ledger.BidAcceptedSetsHighest` | server/server.go:71-79 | After an accepted bid, the maximum equals that bid's amount, ties included. |
| `Ledger.BidNeverLowersHighest` | server/server.go:71-79 | No single bid lowers the maximum. |
| `Ledger.Close` | server/server.go:108-112 | Firing the timer sets the closed flag and leaves the bids untouched. |
| `Ledger.GetResult` | server/server.go:85-92 | The reported highest bid is the maximum. The winner is absent exactly while bidding is open. Once bidding is over, the winner is bidder 0 if no amount is positive; otherwise it is the first bidder in scan order holding the maximum. |
| `LedgerRuns.HighestNeverDecreases` | server/server.go:71-79 | Over any sequence of bids and timer firings, the maximum never decreases. |
| `LedgerRuns.HighestIsLastAccepted` | server/server.go:71-82 | The accepted amounts form a non-decreasing sequence, and none is below the starting maximum. The final maximum is the last accepted amount, or the starting maximum if no bid was accepted. |
| `LedgerRuns.HighestIsMaxOfAccepted` | server/server.go:71-82 | From a fresh replica, the final maximum is at least every accepted amount and is one of them. It is 0 if no bid was accepted. |
| `LedgerRuns.ClosedIsTerminal` | server/server.go:66-68 | Once bidding is over, no sequence of events changes the state or gets a bid accepted. |
| `LedgerRuns.ClosedIffTimerFired` | server/server.go:108-112 | After a run, the replica is closed if and only if it was closed before or a timer fired during the run. |
| `LedgerRuns.BiddersNeverForgotten` | server/server.go:78-79 | No bidder's entry is ever removed. |
| `LedgerRuns.RejectedFirstBidRestartsTimer` | server/server.go:61-75 | A negative first bid is rejected with "fail" but still starts a timer. It leaves the map empty, so the next bid starts a second timer. |
| `LedgerRuns.ThreeBidScenario` | server/server.go:60-92 | Bidder 1 bids 10, bidder 2 bids 20, then bidder 1 bids 15 and is rejected. The outcome is (20, no winner) before closing and (20, bidder 2) after closing, in either scan order. |
| `LedgerRuns.TiedWinnerDependsOnScanOrder` | server/server.go:98-104 | With two bidders tied at the maximum, the two scan orders report different winners. |
| `Frontend.RemoveFrom` | client/client.go:112-117 | The loop of `removeElement` from a given index on, with no match before that index. If the element is absent, the list is returned. Otherwise the first occurrence at or after the index is cut out. |
| `Frontend.RemoveElement` | client/client.go:111-118 | If the element is present, its first occurrence is cut out: the length drops by one and the rest keep their order. If the element is absent, the list is unchanged. |
| `Frontend.RemoveElementIsSubsequence` | client/client.go:111-118 | The result of `removeElement` is a subsequence of its input. |
| `Frontend.RemoveElementAt` | client/client.go:111-115 | On a list of distinct handles, removing the handle at position i cuts out exactly position i. |
| `Frontend.LastFailed` | client/client.go:66-76 | The handle kept in `toDelete` is none if and only if no call failed. Otherwise it is a failing handle with no failing handle after it in the list. |
| `Frontend.SendBid` | client/client.go:64-80 | One request per handle, in list order, each carrying the client id and the amount. If no call failed, the client is unchanged. Otherwise exactly one handle goes: the first occurrence of the last failing handle. The client id is unchanged. |
| `Frontend.SendBidShrinks` | client/client.go:65-79 | After `sendBid`, the list is a subsequence of the old one and is at most one shorter. |
| `Frontend.SendBidRemovesLastFailed` | client/client.go:68-79 | On distinct handles, `sendBid` cuts out exactly the position of the last failing handle. |
| `Frontend.GetResult` | client/client.go:83-95 | Only `auctionClients[0]` is contacted. An empty list panics. A failed call is fatal, with no retry and no failover. An absent winner is reported as the current highest bid, and a present winner as the end of the auction. |
| `Frontend.GetResultAsksOnlyHead` | client/client.go:84-86 | Two reply oracles that agree on the head handle give the same result. |
| `Frontend.NoFailover` | client/client.go:86-89 | When the head is unreachable the report is fatal, even if another replica would answer. |
| `FrontendRuns.ReplicaListShrinkOnly` | client/client.go:64-80 | Over any sequence of `sendBid` calls, the list stays a subsequence of the initial one and loses at most one handle per call. The client id never changes, and distinct handles stay distinct. |
| `FrontendRuns.RequestsStayInList` | client/client.go:68-69 | Every bid call over any sequence of `sendBid` calls carries the client id. None goes through a handle that was absent from the list at the start. |
| `FrontendRuns.OneFailureRemovedForGood` | client/client.go:68-79 | Among distinct handles, if exactly one handle's call fails, `sendBid` removes that handle alone. No later `sendBid` call goes through it. |
| `FrontendRuns.ReportFollowsHeadReplica` | client/client.go:86-94 | When the head replica answers with its `GetResult`, the frontend says the auction is over exactly when that replica is closed. The reported bid is always that replica's maximum. |

## Left out

- gRPC server and client setup is not modelled: `startServer`, `connectToServers`, `grpc.Dial`, `net.Listen` and the proto message types. These are transport plumbing.
- The two `main` functions are not modelled: argument parsing, the stdin scanner, and parsing the `bid N` and `result` commands with `strconv`/`strings`. These are input handling.
- `time.Sleep` and the goroutine in `startBidding` are not modelled as timing. The timer is the `timerStarted` marker plus the explicit `Close` transition, which can happen at any point in a run.
- Concurrent access is not modelled. The Go code reads and writes `biddingMap`, `isBiddingOver` and the client's slice without synchronisation, and the model assumes some sequential interleaving of calls.
- Logging is not modelled. `log.Fatalf` becomes the `FatalError` report, and the index panic becomes the `IndexOutOfRange` report.
- `strconv.Itoa` formatting of the winner string is not modelled. The winner is an `Option` of the bidder id.
- Go slice aliasing in `append(slice[:i], slice[i+1:]...)` is not modelled. The result is a fresh sequence.
- The frontend's `replicationManagers` port list is not modelled. Only `connectToServers` uses it.
- The acknowledgement `sendBid` receives is only logged by the code, so the model records the requests issued and not the replies.
- `int32` width is not modelled because no arithmetic is done on ids or amounts.
