/**
 Sequences of calls against one replica of server/server.go. The Go code has
 no locks, so concurrent calls are modelled as some sequential interleaving of
 bids and the firing of the closing timer.
 */
module LedgerRuns {
  import opened Options
  import opened Ledger

  /** One thing that can happen to a replica: a bid arrives, or a closing timer fires. */
  datatype Event = PlaceBid(id: BidderId, amount: Amount) | TimerFires

  function Step(rm: ReplicationManager, e: Event): ReplicationManager
  {
    match e
    case PlaceBid(id, amount) => Bid(rm, id, amount).rm
    case TimerFires => Close(rm)
  }

  function Run(rm: ReplicationManager, es: seq<Event>): ReplicationManager
    decreases |es|
  {
    if es == [] then rm else Run(Step(rm, es[0]), es[1..])
  }

  /** The amounts of the bids in `es` that were acknowledged with "success", in order. */
  function Accepted(rm: ReplicationManager, es: seq<Event>): seq<Amount>
    decreases |es|
  {
    if es == [] then []
    else
      var rest := Accepted(Step(rm, es[0]), es[1..]);
      match es[0]
      case PlaceBid(id, amount) => if Bid(rm, id, amount).status == Success then [amount] + rest else rest
      case TimerFires => rest
  }

  /** How many closing timers the bids in `es` start. */
  function TimerStarts(rm: ReplicationManager, es: seq<Event>): nat
    decreases |es|
  {
    if es == [] then 0
    else
      var rest := TimerStarts(Step(rm, es[0]), es[1..]);
      match es[0]
      case PlaceBid(id, amount) => if Bid(rm, id, amount).timerStarted then 1 + rest else rest
      case TimerFires => rest
  }

  /** Over any sequence of calls the running maximum never decreases. */
  lemma {:induction false} HighestNeverDecreases(rm: ReplicationManager, es: seq<Event>)
    ensures HighestAmount(Run(rm, es).biddingMap) >= HighestAmount(rm.biddingMap)
    decreases |es|
  {
    if es != [] {
      match es[0] {
        case PlaceBid(id, amount) => BidNeverLowersHighest(rm, id, amount);
        case TimerFires =>
      }
      HighestNeverDecreases(Step(rm, es[0]), es[1..]);
    }
  }

  /**
   The accepted amounts form a non-decreasing sequence, none below the running
   maximum at the start; the last one is the running maximum at the end.
   */
  lemma {:induction false} HighestIsLastAccepted(rm: ReplicationManager, es: seq<Event>)
    ensures var acc := Accepted(rm, es);
            var h := HighestAmount(Run(rm, es).biddingMap);
            && (acc == [] ==> h == HighestAmount(rm.biddingMap))
            && (acc != [] ==> h == acc[|acc| - 1])
            && (forall i :: 0 <= i < |acc| ==> HighestAmount(rm.biddingMap) <= acc[i] <= h)
            && (forall i, j :: 0 <= i <= j < |acc| ==> acc[i] <= acc[j])
    decreases |es|
  {
    if es != [] {
      var rm' := Step(rm, es[0]);
      HighestIsLastAccepted(rm', es[1..]);
      match es[0]
      case PlaceBid(id, amount) =>
        if Bid(rm, id, amount).status == Success {
          BidAcceptedSetsHighest(rm, id, amount);
        }
      case TimerFires =>
    }
  }

  /** Starting from a fresh replica, the running maximum is the largest accepted amount, or 0 if none was accepted. */
  lemma HighestIsMaxOfAccepted(es: seq<Event>)
    ensures var acc := Accepted(Initial, es);
            var h := HighestAmount(Run(Initial, es).biddingMap);
            && (forall i :: 0 <= i < |acc| ==> acc[i] <= h)
            && (acc == [] ==> h == 0)
            && (acc != [] ==> h in acc)
  {
    HighestIsLastAccepted(Initial, es);
  }

  /** Once closed, a replica's state never changes again, whatever arrives. */
  lemma {:induction false} ClosedIsTerminal(rm: ReplicationManager, es: seq<Event>)
    requires rm.isBiddingOver
    ensures Run(rm, es) == rm
    ensures Accepted(rm, es) == []
    decreases |es|
  {
    if es != [] {
      assert Step(rm, es[0]) == rm;
      ClosedIsTerminal(rm, es[1..]);
    }
  }

  /** A replica is closed after a run exactly when it was closed before or a timer fired during it. */
  lemma {:induction false} ClosedIffTimerFired(rm: ReplicationManager, es: seq<Event>)
    ensures Run(rm, es).isBiddingOver <==> rm.isBiddingOver || TimerFires in es
    decreases |es|
  {
    if es != [] {
      ClosedIffTimerFired(Step(rm, es[0]), es[1..]);
      assert TimerFires in es <==> es[0] == TimerFires || TimerFires in es[1..] by {
        assert es == [es[0]] + es[1..];
      }
    }
  }

  /** No bidder's entry is ever deleted. */
  lemma {:induction false} BiddersNeverForgotten(rm: ReplicationManager, es: seq<Event>)
    ensures rm.biddingMap.Keys <= Run(rm, es).biddingMap.Keys
    decreases |es|
  {
    if es != [] {
      BiddersNeverForgotten(Step(rm, es[0]), es[1..]);
    }
  }

  /**
   A first bid that is rejected (a negative amount) still starts a timer and
   leaves the map empty, so the next bid starts another one.
   */
  lemma RejectedFirstBidRestartsTimer()
    ensures Bid(Initial, 7, -1).status == Fail
    ensures Bid(Initial, 7, -1).timerStarted
    ensures Bid(Initial, 7, -1).rm == Initial
    ensures TimerStarts(Initial, [PlaceBid(7, -1), PlaceBid(7, 5)]) == 2
  {
    assert HighestAmount(map[]) == 0;
  }

  /**
   Three bids at one replica: A=1 bids 10, B=2 bids 20, A bids 15 and is
   rejected. Before closing the outcome is (20, no winner); after, (20, B).
   */
  lemma ThreeBidScenario()
    ensures var es := [PlaceBid(1, 10), PlaceBid(2, 20), PlaceBid(1, 15)];
            && Accepted(Initial, es) == [10, 20]
            && Run(Initial, es) == ReplicationManager(map[1 := 10, 2 := 20], false)
            && GetResult(Run(Initial, es), [1, 2]) == Outcome(20, None)
            && GetResult(Close(Run(Initial, es)), [2, 1]) == Outcome(20, Some(2))
            && GetResult(Close(Run(Initial, es)), [1, 2]) == Outcome(20, Some(2))
  {
    var s0 := Initial;
    assert HighestAmount(s0.biddingMap) == 0;
    var s1 := Step(s0, PlaceBid(1, 10));
    BidAcceptedSetsHighest(s0, 1, 10);
    var s2 := Step(s1, PlaceBid(2, 20));
    BidAcceptedSetsHighest(s1, 2, 20);
    assert s2.biddingMap == map[1 := 10, 2 := 20];
    var s3 := Step(s2, PlaceBid(1, 15));
    assert s3 == s2;
    var es := [PlaceBid(1, 10), PlaceBid(2, 20), PlaceBid(1, 15)];
    assert es[1..] == [PlaceBid(2, 20), PlaceBid(1, 15)];
    assert es[1..][1..] == [PlaceBid(1, 15)];
    assert Run(Initial, es) == s2;
  }

  /**
   With two bidders tied at the maximum, the reported winner depends on the
   order the runtime happens to scan the map in.
   */
  lemma TiedWinnerDependsOnScanOrder()
    ensures var rm := ReplicationManager(map[1 := 5, 2 := 5], true);
            && GetResult(rm, [1, 2]) == Outcome(5, Some(1))
            && GetResult(rm, [2, 1]) == Outcome(5, Some(2))
  {
    var m := map[1 := 5, 2 := 5];
    assert GetHighestBid(m, [1, 2]) == Highest(1, 5) by {
      assert [1, 2][..1] == [1];
      assert [1][..0] == [];
    }
    assert GetHighestBid(m, [2, 1]) == Highest(2, 5) by {
      assert [2, 1][..1] == [2];
      assert [2][..0] == [];
    }
  }
}
