/**
 The per-replica bid ledger of server/server.go: a map from bidder id to the
 bidder's latest accepted amount, and the flag the closing timer sets.

 Every remote call is modelled as a pure function from the replica's state to
 its reply and next state. The 60-second timer goroutine becomes a
 `timerStarted` marker in the reply of `Bid` plus an explicit `Close`
 transition. Go's map iteration order, which the runtime chooses anew on every
 `range`, is an input wherever the result depends on it.
 */
module Ledger {
  import opened Options

  type BidderId = int
  type Amount = int

  /** The state of one replica. */
  datatype ReplicationManager = ReplicationManager(biddingMap: map<BidderId, Amount>, isBiddingOver: bool)

  /** A freshly started replica: no bids, bidding open. */
  const Initial := ReplicationManager(map[], false)

  /** The acknowledgement a replica sends back for a bid. */
  datatype Status = Success | Fail | FailBiddingOver

  /** The status string carried in the acknowledgement. */
  function StatusText(s: Status): string
  {
    match s
    case Success => "success"
    case Fail => "fail"
    case FailBiddingOver => "fail - bidding is over"
  }

  /** A bidder and an amount, as returned by the maximum scan. */
  datatype Highest = Highest(bidder: BidderId, amount: Amount)

  /** The outcome a replica reports: `winner` is absent while bidding is open. */
  datatype Outcome = Outcome(highestBid: Amount, winner: Option<BidderId>)

  /** The reply to `Bid`: the next state, the status, and whether a closing timer was started. */
  datatype BidReply = BidReply(rm: ReplicationManager, status: Status, timerStarted: bool)

  /** `h` is the running maximum of `m`: the largest value, or 0 when there is no positive one. */
  ghost predicate IsHighest(m: map<BidderId, Amount>, h: Amount)
  {
    && h >= 0
    && (forall k :: k in m ==> m[k] <= h)
    && (h == 0 || exists k :: k in m && m[k] == h)
  }

  /** `order` is one possible iteration order of a `range` over `m`: every key exactly once. */
  predicate IsIterationOrder(order: seq<BidderId>, m: map<BidderId, Amount>)
  {
    && (forall i, j :: 0 <= i < j < |order| ==> order[i] != order[j])
    && (forall k :: k in m ==> k in order)
    && (forall i :: 0 <= i < |order| ==> order[i] in m)
  }

  /** Among any non-empty set of keys of `m` there is one whose value is at least every other's. */
  lemma {:induction false} MaxKeyExists(m: map<BidderId, Amount>, ks: set<BidderId>)
    requires ks != {}
    requires forall k :: k in ks ==> k in m
    ensures exists k :: k in ks && forall j :: j in ks ==> m[j] <= m[k]
    decreases ks
  {
    if forall a :: a !in ks {
      assert false;
    }
    var a :| a in ks;
    var rest := ks - {a};
    if rest == {} {
      assert ks == {a};
    } else {
      MaxKeyExists(m, rest);
      var k' :| k' in rest && forall j :: j in rest ==> m[j] <= m[k'];
      var k := if m[a] <= m[k'] then k' else a;
      forall j | j in ks
        ensures m[j] <= m[k]
      {
        if j != a {
          assert j in rest;
        }
      }
    }
  }

  /**
   The amount `getHighestBid` returns, which does not depend on the scan
   order: the largest accepted amount, or 0 when none is positive.
   */
  function HighestAmount(m: map<BidderId, Amount>): (h: Amount)
    ensures IsHighest(m, h)
  {
    if m == map[] then 0
    else
      assert m.Keys != {};
      MaxKeyExists(m, m.Keys);
      assert exists v :: v in m.Values && (exists k :: k in m && m[k] == v) && forall j :: j in m ==> m[j] <= v by {
        var k :| k in m && forall j :: j in m ==> m[j] <= m[k];
        assert m[k] in m.Values;
      }
      var v :| v in m.Values && (exists k :: k in m && m[k] == v) && forall j :: j in m ==> m[j] <= v;
      if v > 0 then v else 0
  }

  /** There is only one running maximum of a map. */
  lemma HighestIsUnique(m: map<BidderId, Amount>, h1: Amount, h2: Amount)
    requires IsHighest(m, h1) && IsHighest(m, h2)
    ensures h1 == h2
  {
  }

  /**
   `getHighestBid`: a scan over the keys in the given order, starting from
   (0, 0), replacing the candidate only on a STRICTLY larger value. So the
   reported bidder is the first key in scan order holding the maximum, and the
   bidder is 0 when no value is positive.
   */
  function GetHighestBid(m: map<BidderId, Amount>, order: seq<BidderId>): (r: Highest)
    requires forall i :: 0 <= i < |order| ==> order[i] in m
    ensures r.amount >= 0
    ensures forall i :: 0 <= i < |order| ==> m[order[i]] <= r.amount
    ensures r.amount == 0 ==> r.bidder == 0
    ensures r.amount > 0 ==>
              exists i :: && 0 <= i < |order| && order[i] == r.bidder && m[r.bidder] == r.amount
                          && forall j :: 0 <= j < i ==> m[order[j]] < r.amount
    decreases |order|
  {
    if order == [] then Highest(0, 0)
    else
      var prev := GetHighestBid(m, order[..|order| - 1]);
      var k := order[|order| - 1];
      if m[k] > prev.amount then Highest(k, m[k]) else prev
  }

  /** Whatever order the runtime scans the map in, the amount found is the running maximum. */
  lemma {:induction false} GetHighestBidAmount(m: map<BidderId, Amount>, order: seq<BidderId>)
    requires IsIterationOrder(order, m)
    ensures GetHighestBid(m, order).amount == HighestAmount(m)
  {
    var r := GetHighestBid(m, order);
    forall k | k in m
      ensures m[k] <= r.amount
    {
      var i :| 0 <= i < |order| && order[i] == k;
    }
    if r.amount > 0 {
      var i :| 0 <= i < |order| && order[i] == r.bidder && m[r.bidder] == r.amount;
      assert r.bidder in m;
    }
    assert IsHighest(m, r.amount);
    HighestIsUnique(m, r.amount, HighestAmount(m));
  }

  /**
   `Bid`. A timer start is triggered whenever the map is empty on entry, even
   if the bid is then rejected. A closed auction rejects; a bid strictly below
   the running maximum is rejected; otherwise the bidder's entry is
   overwritten. A rejection changes nothing.
   */
  function Bid(rm: ReplicationManager, id: BidderId, amount: Amount): (r: BidReply)
    ensures r.timerStarted <==> |rm.biddingMap| == 0
    ensures rm.isBiddingOver ==> r.status == FailBiddingOver && r.rm == rm
    ensures !rm.isBiddingOver && amount < HighestAmount(rm.biddingMap) ==> r.status == Fail && r.rm == rm
    ensures !rm.isBiddingOver && amount >= HighestAmount(rm.biddingMap) ==>
              && r.status == Success
              && r.rm.isBiddingOver == rm.isBiddingOver
              && r.rm.biddingMap.Keys == rm.biddingMap.Keys + {id}
              && r.rm.biddingMap[id] == amount
              && forall k :: k in rm.biddingMap && k != id ==> r.rm.biddingMap[k] == rm.biddingMap[k]
  {
    var timerStarted := |rm.biddingMap| == 0;
    if rm.isBiddingOver then BidReply(rm, FailBiddingOver, timerStarted)
    else if amount < HighestAmount(rm.biddingMap) then BidReply(rm, Fail, timerStarted)
    else BidReply(rm.(biddingMap := rm.biddingMap[id := amount]), Success, timerStarted)
  }

  /** An accepted bid becomes the running maximum. */
  lemma {:induction false} BidAcceptedSetsHighest(rm: ReplicationManager, id: BidderId, amount: Amount)
    requires Bid(rm, id, amount).status == Success
    ensures HighestAmount(Bid(rm, id, amount).rm.biddingMap) == amount
  {
    var m := rm.biddingMap;
    var m' := Bid(rm, id, amount).rm.biddingMap;
    var h := HighestAmount(m);
    assert h <= amount;
    forall k | k in m'
      ensures m'[k] <= amount
    {
      if k != id {
        assert m'[k] == m[k] <= h;
      }
    }
    assert IsHighest(m', amount);
    HighestIsUnique(m', amount, HighestAmount(m'));
  }

  /** A single bid never lowers the running maximum. */
  lemma BidNeverLowersHighest(rm: ReplicationManager, id: BidderId, amount: Amount)
    ensures HighestAmount(Bid(rm, id, amount).rm.biddingMap) >= HighestAmount(rm.biddingMap)
  {
    if Bid(rm, id, amount).status == Success {
      BidAcceptedSetsHighest(rm, id, amount);
    }
  }

  /** The effect of the closing timer firing: only the flag changes. */
  function Close(rm: ReplicationManager): (r: ReplicationManager)
    ensures r.isBiddingOver
    ensures r.biddingMap == rm.biddingMap
  {
    rm.(isBiddingOver := true)
  }

  /**
   `GetResult`, given the order the runtime scans the map in. It changes no
   state. The winner is present exactly when bidding is over, and is then the
   first bidder in scan order holding the maximum (bidder 0 when no amount is
   positive).
   */
  function GetResult(rm: ReplicationManager, order: seq<BidderId>): (r: Outcome)
    requires IsIterationOrder(order, rm.biddingMap)
    ensures r.highestBid == HighestAmount(rm.biddingMap)
    ensures r.winner.None? <==> !rm.isBiddingOver
    ensures r.winner.Some? && r.highestBid == 0 ==> r.winner.value == 0
    ensures r.winner.Some? && r.highestBid > 0 ==>
              exists i :: && 0 <= i < |order| && order[i] == r.winner.value
                          && r.winner.value in rm.biddingMap && rm.biddingMap[r.winner.value] == r.highestBid
                          && forall j :: 0 <= j < i ==> rm.biddingMap[order[j]] < r.highestBid
  {
    var h := GetHighestBid(rm.biddingMap, order);
    GetHighestBidAmount(rm.biddingMap, order);
    if rm.isBiddingOver then Outcome(h.amount, Some(h.bidder)) else Outcome(h.amount, None)
  }
}
