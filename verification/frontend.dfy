/**
 The frontend of client/client.go: an ordered list of replica handles, a bid
 fan-out that drops at most one failed handle per call, and a result query
 that asks only the head of the list.

 Handles are opaque ids. Whether a call through a handle fails is an input
 (the set of handles whose calls fail), and so is each replica's reply to a
 result query.
 */
module Frontend {
  import opened Options
  import opened Ledger

  type HandleId = int

  /** The frontend state: the client's bidder id and its live replica handles, in order. */
  datatype Client = Client(id: BidderId, auctionClients: seq<HandleId>)

  /** A `Bid` call the frontend issues through one handle. */
  datatype BidRequest = BidRequest(handle: HandleId, id: BidderId, amount: Amount)

  /** The calls `sendBid` issues, in order, and the frontend state afterwards. */
  datatype SendBidResult = SendBidResult(requests: seq<BidRequest>, client: Client)

  /** What a replica answers to `GetResult`, or that the call failed. */
  datatype Reply = Reachable(outcome: Outcome) | Unreachable

  /** What `getResult` ends with. */
  datatype Report =
    | CurrentHighestBid(bid: Amount)               // the winner string was empty
    | AuctionOver(winner: BidderId, bid: Amount)   // the winner string was non-empty
    | FatalError                                   // `log.Fatalf`: the process exits
    | IndexOutOfRange                              // `auctionClients[0]` on an empty slice panics

  /** The handles `getResult` contacted, and how it ended. */
  datatype ResultQuery = ResultQuery(contacted: seq<HandleId>, report: Report)

  /** No handle occurs twice. */
  predicate Distinct(s: seq<HandleId>)
  {
    forall i, j :: 0 <= i < j < |s| ==> s[i] != s[j]
  }

  /** `a` is `b` with some elements deleted, the rest in their original order. */
  predicate IsSubsequence(a: seq<HandleId>, b: seq<HandleId>)
    decreases |b|
  {
    if b == [] then a == []
    else (a != [] && a[0] == b[0] && IsSubsequence(a[1..], b[1..])) || IsSubsequence(a, b[1..])
  }

  lemma {:induction false} SubsequenceReflexive(s: seq<HandleId>)
    ensures IsSubsequence(s, s)
    decreases |s|
  {
    if s != [] {
      SubsequenceReflexive(s[1..]);
    }
  }

  lemma {:induction false} SubsequenceTransitive(a: seq<HandleId>, b: seq<HandleId>, c: seq<HandleId>)
    requires IsSubsequence(a, b) && IsSubsequence(b, c)
    ensures IsSubsequence(a, c)
    decreases |c|
  {
    if c != [] {
      if IsSubsequence(b, c[1..]) {
        SubsequenceTransitive(a, b, c[1..]);
      } else if a != [] && a[0] == b[0] && IsSubsequence(a[1..], b[1..]) {
        SubsequenceTransitive(a[1..], b[1..], c[1..]);
      } else {
        SubsequenceTransitive(a, b[1..], c[1..]);
      }
    }
  }

  /** Nothing absent from `b` occurs in a subsequence of `b`. */
  lemma {:induction false} SubsequenceMembers(a: seq<HandleId>, b: seq<HandleId>, x: HandleId)
    requires IsSubsequence(a, b)
    requires x !in b
    ensures x !in a
    decreases |b|
  {
    if b != [] {
      if a != [] && a[0] == b[0] && IsSubsequence(a[1..], b[1..]) {
        SubsequenceMembers(a[1..], b[1..], x);
        assert a == [a[0]] + a[1..];
      } else {
        SubsequenceMembers(a, b[1..], x);
      }
    }
  }

  /**
   The loop of `removeElement` from index `i` on, the handles before `i`
   being known to differ from `element`.
   */
  function RemoveFrom(slice: seq<HandleId>, element: HandleId, i: nat): (r: seq<HandleId>)
    requires i <= |slice| && element !in slice[..i]
    ensures element !in slice ==> r == slice
    ensures element in slice ==>
              exists j :: && i <= j < |slice| && slice[j] == element && element !in slice[..j]
                          && r == slice[..j] + slice[j + 1..]
    decreases |slice| - i
  {
    if i == |slice| then
      assert slice[..i] == slice;
      slice
    else if slice[i] == element then slice[..i] + slice[i + 1..]
    else
      assert slice[..i + 1] == slice[..i] + [slice[i]];
      RemoveFrom(slice, element, i + 1)
  }

  /**
   `removeElement`: the list without the first occurrence of `element`, the
   other handles in their original order; the list itself when `element` is
   absent.
   */
  function RemoveElement(slice: seq<HandleId>, element: HandleId): (r: seq<HandleId>)
    ensures element !in slice ==> r == slice
    ensures element in slice ==>
              && |r| == |slice| - 1
              && exists i :: && 0 <= i < |slice| && slice[i] == element && element !in slice[..i]
                             && r == slice[..i] + slice[i + 1..]
  {
    assert slice[..0] == [];
    RemoveFrom(slice, element, 0)
  }

  /** Deleting one position leaves a subsequence. */
  lemma {:induction false} DeleteAtIsSubsequence(s: seq<HandleId>, j: nat)
    requires j < |s|
    ensures IsSubsequence(s[..j] + s[j + 1..], s)
    decreases j
  {
    var t := s[..j] + s[j + 1..];
    if j == 0 {
      assert t == s[1..];
      SubsequenceReflexive(s[1..]);
    } else {
      DeleteAtIsSubsequence(s[1..], j - 1);
      assert t[0] == s[0];
      assert t[1..] == s[1..][..j - 1] + s[1..][j..];
    }
  }

  /** What `removeElement` leaves is a subsequence of its input. */
  lemma RemoveElementIsSubsequence(slice: seq<HandleId>, element: HandleId)
    ensures IsSubsequence(RemoveElement(slice, element), slice)
  {
    var r := RemoveElement(slice, element);
    if element in slice {
      var i :| && 0 <= i < |slice| && slice[i] == element && element !in slice[..i]
               && r == slice[..i] + slice[i + 1..];
      DeleteAtIsSubsequence(slice, i);
    } else {
      SubsequenceReflexive(slice);
    }
  }

  /** On a list without duplicates, `removeElement` deletes exactly the position holding `element`. */
  lemma RemoveElementAt(slice: seq<HandleId>, i: nat)
    requires Distinct(slice)
    requires i < |slice|
    ensures RemoveElement(slice, slice[i]) == slice[..i] + slice[i + 1..]
  {
    var j :| 0 <= j < |slice| && slice[j] == slice[i] && slice[i] !in slice[..j]
             && RemoveElement(slice, slice[i]) == slice[..j] + slice[j + 1..];
    if j != i {
      assert false;
    }
  }

  /**
   The handle `sendBid` ends up holding in `toDelete`: the last handle in list
   order whose call failed, or none.
   */
  function LastFailed(handles: seq<HandleId>, failing: set<HandleId>): (r: Option<HandleId>)
    ensures r.None? <==> forall i :: 0 <= i < |handles| ==> handles[i] !in failing
    ensures r.Some? ==>
              && r.value in failing
              && exists i :: && 0 <= i < |handles| && handles[i] == r.value
                             && forall j :: i < j < |handles| ==> handles[j] !in failing
    decreases |handles|
  {
    if handles == [] then None
    else if handles[|handles| - 1] in failing then Some(handles[|handles| - 1])
    else LastFailed(handles[..|handles| - 1], failing)
  }

  /**
   `sendBid`: one `Bid` call per handle, in list order, each carrying the
   client's id and the amount; afterwards at most one handle is removed, the
   last one whose call failed.
   */
  function SendBid(c: Client, amount: Amount, failing: set<HandleId>): (r: SendBidResult)
    ensures |r.requests| == |c.auctionClients|
    ensures forall i :: 0 <= i < |r.requests| ==> r.requests[i] == BidRequest(c.auctionClients[i], c.id, amount)
    ensures r.client.id == c.id
    ensures (forall h :: h in c.auctionClients ==> h !in failing) ==> r.client == c
    ensures (exists h :: h in c.auctionClients && h in failing) ==>
              && |r.client.auctionClients| == |c.auctionClients| - 1
              && exists i :: && 0 <= i < |c.auctionClients| && c.auctionClients[i] in failing
                             && (forall j :: i < j < |c.auctionClients| ==> c.auctionClients[j] !in failing)
                             && r.client.auctionClients == RemoveElement(c.auctionClients, c.auctionClients[i])
  {
    var requests := seq(|c.auctionClients|, i requires 0 <= i < |c.auctionClients| => BidRequest(c.auctionClients[i], c.id, amount));
    match LastFailed(c.auctionClients, failing)
    case None => SendBidResult(requests, c)
    case Some(toDelete) => SendBidResult(requests, c.(auctionClients := RemoveElement(c.auctionClients, toDelete)))
  }

  /** After `sendBid` the surviving handles are a subsequence of the old ones. */
  lemma SendBidShrinks(c: Client, amount: Amount, failing: set<HandleId>)
    ensures IsSubsequence(SendBid(c, amount, failing).client.auctionClients, c.auctionClients)
    ensures |SendBid(c, amount, failing).client.auctionClients| >= |c.auctionClients| - 1
  {
    match LastFailed(c.auctionClients, failing) {
      case None => SubsequenceReflexive(c.auctionClients);
      case Some(toDelete) => RemoveElementIsSubsequence(c.auctionClients, toDelete);
    }
  }

  /**
   With distinct handles, `sendBid` removes exactly the position of the last
   failed handle; so when exactly one handle fails, exactly that one goes.
   */
  lemma SendBidRemovesLastFailed(c: Client, amount: Amount, failing: set<HandleId>, i: nat)
    requires Distinct(c.auctionClients)
    requires i < |c.auctionClients| && c.auctionClients[i] in failing
    requires forall j :: i < j < |c.auctionClients| ==> c.auctionClients[j] !in failing
    ensures SendBid(c, amount, failing).client.auctionClients == c.auctionClients[..i] + c.auctionClients[i + 1..]
  {
    var hs := c.auctionClients;
    var r := LastFailed(hs, failing);
    var k :| 0 <= k < |hs| && hs[k] == r.value && forall j :: k < j < |hs| ==> hs[j] !in failing;
    assert k == i;
    RemoveElementAt(hs, i);
  }

  /** A subsequence of a list without duplicates has none either. */
  lemma {:induction false} SubsequenceDistinct(a: seq<HandleId>, b: seq<HandleId>)
    requires IsSubsequence(a, b) && Distinct(b)
    ensures Distinct(a)
    decreases |b|
  {
    if b != [] {
      if a != [] && a[0] == b[0] && IsSubsequence(a[1..], b[1..]) {
        SubsequenceDistinct(a[1..], b[1..]);
        assert b[0] !in b[1..];
        SubsequenceMembers(a[1..], b[1..], b[0]);
        forall i, j | 0 <= i < j < |a|
          ensures a[i] != a[j]
        {
          if i == 0 {
            assert a[j] == a[1..][j - 1];
          } else {
            assert a[i] == a[1..][i - 1] && a[j] == a[1..][j - 1];
          }
        }
      } else {
        SubsequenceDistinct(a, b[1..]);
      }
    }
  }

  /**
   `getResult`: only `auctionClients[0]` is asked. A failed call is fatal
   (no retry, no failover); an empty list panics. An absent winner is reported
   as the current highest bid, a present one as the end of the auction.
   */
  function GetResult(c: Client, reply: HandleId -> Reply): (r: ResultQuery)
    ensures |c.auctionClients| == 0 ==> r == ResultQuery([], IndexOutOfRange)
    ensures |c.auctionClients| > 0 ==> r.contacted == [c.auctionClients[0]]
    ensures |c.auctionClients| > 0 && reply(c.auctionClients[0]).Unreachable? ==> r.report == FatalError
    ensures |c.auctionClients| > 0 && reply(c.auctionClients[0]).Reachable? ==>
              var o := reply(c.auctionClients[0]).outcome;
              && (o.winner.None? ==> r.report == CurrentHighestBid(o.highestBid))
              && (o.winner.Some? ==> r.report == AuctionOver(o.winner.value, o.highestBid))
  {
    if |c.auctionClients| == 0 then ResultQuery([], IndexOutOfRange)
    else
      var head := c.auctionClients[0];
      match reply(head)
      case Unreachable => ResultQuery([head], FatalError)
      case Reachable(o) =>
        match o.winner
        case None => ResultQuery([head], CurrentHighestBid(o.highestBid))
        case Some(w) => ResultQuery([head], AuctionOver(w, o.highestBid))
  }

  /** The answer of `getResult` depends on the head replica's reply alone. */
  lemma GetResultAsksOnlyHead(c: Client, reply1: HandleId -> Reply, reply2: HandleId -> Reply)
    requires |c.auctionClients| > 0
    requires reply1(c.auctionClients[0]) == reply2(c.auctionClients[0])
    ensures GetResult(c, reply1) == GetResult(c, reply2)
  {
  }

  /** A failing head is fatal even when every other replica would answer: there is no failover. */
  lemma NoFailover()
    ensures var c := Client(1, [10, 11]);
            var reply := (h: HandleId) => if h == 10 then Unreachable else Reachable(Outcome(20, None));
            GetResult(c, reply).report == FatalError
  {
  }
}
