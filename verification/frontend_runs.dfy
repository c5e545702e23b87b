/**
 Sequences of `sendBid` calls through the frontend of client/client.go: the
 replica list only ever shrinks, keeps its order, and a handle once removed
 is never called again.
 */
module FrontendRuns {
  import opened Ledger
  import opened Frontend

  /** One `sendBid` call: the amount, and which handles' calls fail during it. */
  datatype BidRound = BidRound(amount: Amount, failing: set<HandleId>)

  function RunBids(c: Client, rounds: seq<BidRound>): Client
    decreases |rounds|
  {
    if rounds == [] then c
    else RunBids(SendBid(c, rounds[0].amount, rounds[0].failing).client, rounds[1..])
  }

  /** Every `Bid` call issued over the rounds, in order. */
  function RequestsOf(c: Client, rounds: seq<BidRound>): seq<BidRequest>
    decreases |rounds|
  {
    if rounds == [] then []
    else
      var r := SendBid(c, rounds[0].amount, rounds[0].failing);
      r.requests + RequestsOf(r.client, rounds[1..])
  }

  /**
   The replica list only shrinks, by at most one handle per call; what is left
   keeps its order; the bidder id never changes; and a list without duplicates
   stays without duplicates.
   */
  lemma {:induction false} ReplicaListShrinkOnly(c: Client, rounds: seq<BidRound>)
    ensures IsSubsequence(RunBids(c, rounds).auctionClients, c.auctionClients)
    ensures |RunBids(c, rounds).auctionClients| >= |c.auctionClients| - |rounds|
    ensures RunBids(c, rounds).id == c.id
    ensures Distinct(c.auctionClients) ==> Distinct(RunBids(c, rounds).auctionClients)
    decreases |rounds|
  {
    if rounds == [] {
      SubsequenceReflexive(c.auctionClients);
    } else {
      var c' := SendBid(c, rounds[0].amount, rounds[0].failing).client;
      SendBidShrinks(c, rounds[0].amount, rounds[0].failing);
      ReplicaListShrinkOnly(c', rounds[1..]);
      SubsequenceTransitive(RunBids(c', rounds[1..]).auctionClients, c'.auctionClients, c.auctionClients);
      if Distinct(c.auctionClients) {
        SubsequenceDistinct(c'.auctionClients, c.auctionClients);
      }
    }
  }

  /** Every call over the rounds goes through a handle of the initial list, with the client's id. */
  lemma {:induction false} RequestsStayInList(c: Client, rounds: seq<BidRound>, h: HandleId)
    requires h !in c.auctionClients
    ensures forall k :: 0 <= k < |RequestsOf(c, rounds)| ==> RequestsOf(c, rounds)[k].handle != h
    ensures forall k :: 0 <= k < |RequestsOf(c, rounds)| ==> RequestsOf(c, rounds)[k].id == c.id
    decreases |rounds|
  {
    if rounds != [] {
      var r := SendBid(c, rounds[0].amount, rounds[0].failing);
      SendBidShrinks(c, rounds[0].amount, rounds[0].failing);
      SubsequenceMembers(r.client.auctionClients, c.auctionClients, h);
      RequestsStayInList(r.client, rounds[1..], h);
      var rest := RequestsOf(r.client, rounds[1..]);
      assert RequestsOf(c, rounds) == r.requests + rest;
      forall k | 0 <= k < |r.requests|
        ensures r.requests[k].handle != h
      {
        assert r.requests[k].handle == c.auctionClients[k];
      }
    }
  }

  /**
   When, among distinct handles, exactly the one at position `i` fails, that
   handle alone is removed, and no later call is ever sent through it.
   */
  lemma OneFailureRemovedForGood(c: Client, amount: Amount, i: nat, later: seq<BidRound>)
    requires Distinct(c.auctionClients)
    requires i < |c.auctionClients|
    ensures var c' := SendBid(c, amount, {c.auctionClients[i]}).client;
            && c'.auctionClients == c.auctionClients[..i] + c.auctionClients[i + 1..]
            && forall k :: 0 <= k < |RequestsOf(c', later)| ==> RequestsOf(c', later)[k].handle != c.auctionClients[i]
  {
    var hs := c.auctionClients;
    var h := hs[i];
    SendBidRemovesLastFailed(c, amount, {h}, i);
    var c' := SendBid(c, amount, {h}).client;
    assert h !in c'.auctionClients by {
      assert h !in hs[..i] && h !in hs[i + 1..];
    }
    RequestsStayInList(c', later, h);
  }

  /**
   When the head replica answers, the frontend says the auction is over
   exactly when that replica has closed, and always reports its running maximum.
   */
  lemma ReportFollowsHeadReplica(c: Client, rm: ReplicationManager, order: seq<BidderId>, reply: HandleId -> Reply)
    requires |c.auctionClients| > 0
    requires IsIterationOrder(order, rm.biddingMap)
    requires reply(c.auctionClients[0]) == Reachable(Ledger.GetResult(rm, order))
    ensures Frontend.GetResult(c, reply).report.AuctionOver? <==> rm.isBiddingOver
    ensures Frontend.GetResult(c, reply).report.bid == HighestAmount(rm.biddingMap)
  {
  }
}
