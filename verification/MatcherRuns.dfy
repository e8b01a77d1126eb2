/** A run of the matcher in which an intent is dropped and added again. */
module MatcherRuns {
  import opened Matcher
  import opened MatcherInvariants
  import opened MatcherTheorems

  lemma ReachSnoc(windowSec: int, es: seq<Event>, e: Event)
    requires Reachable(windowSec, es) && Enabled(After(windowSec, es), e)
    ensures Reachable(windowSec, es + [e]) && After(windowSec, es + [e]) == Step(After(windowSec, es), e)
  {
    assert (es + [e])[..|es|] == es;
  }

  /** A bid with a chain address. */
  function Offer(bidId: string, id: IntentId, agent: AgentId, price: nat): (bid: Bid)
    ensures HasChainAddress(bid) && bid.intentId == id && bid.price == price
  {
    Bid(bidId, id, agent, price, "0x1", Submitted)
  }

  /** The state with one intent open since `now` and one more bid, listed for it. */
  function OpenWith(s: State, intent: Intent, now: int, bid: Bid): (open: State) {
    s.(intents := map[intent.id := Window(intent, now, now + s.windowSec, false, false)],
       bidsByIntent := map[intent.id := [|s.heap|]], heap := s.heap + [bid])
  }

  lemma AddThenBid(s: State, intent: Intent, now: int, bid: Bid)
    requires s.intents == map[] && s.bidsByIntent == map[]
    requires intent.id != "" && !Expired(intent, now) && bid.intentId == intent.id
    ensures TakesBid(StepAdd(s, intent, now), bid, true)
    ensures StepBid(StepAdd(s, intent, now), bid, true) == OpenWith(s, intent, now, bid)
  {
    var s1 := StepAdd(s, intent, now);
    assert BidsOf(s1, intent.id) + [|s.heap|] == [|s.heap|];
  }

  lemma OneBidCloses(s: State, intent: Intent, now: int, bid: Bid, aid: AssignmentId, outcome: Submission)
    requires Fresh(s, aid)
    ensures Enabled(OpenWith(s, intent, now, bid), CloseWindow(intent.id, now + s.windowSec, [|s.heap|], aid, outcome))
  {
    var open := OpenWith(s, intent, now, bid);
    assert PriceOrder(open.heap, BidsOf(open, intent.id), [|s.heap|]);
  }

  /** Add, bid and close, on a state without any intent: the state in which only this bid is listed. */
  lemma LifeOfOneBid(windowSec: int, es: seq<Event>, s: State, intent: Intent, now: int, bid: Bid, aid: AssignmentId, outcome: Submission)
    returns (es': seq<Event>)
    requires Reachable(windowSec, es) && s == After(windowSec, es) && s.intents == map[] && s.bidsByIntent == map[] && Fresh(s, aid)
    requires intent.id != "" && !Expired(intent, now) && bid.intentId == intent.id
    ensures es' == es + [AddIntent(intent, now)] + [SubmitBid(bid, true)]
                   + [CloseWindow(intent.id, now + s.windowSec, [|s.heap|], aid, outcome)]
    ensures Reachable(windowSec, es + [AddIntent(intent, now)])
    ensures TakesBid(After(windowSec, es + [AddIntent(intent, now)]), bid, true)
    ensures Reachable(windowSec, es')
    ensures After(windowSec, es') == Close(OpenWith(s, intent, now, bid), intent.id, [|s.heap|], aid, outcome)
  {
    var e1, e2 := AddIntent(intent, now), SubmitBid(bid, true);
    var e3 := CloseWindow(intent.id, now + s.windowSec, [|s.heap|], aid, outcome);
    AddThenBid(s, intent, now, bid);
    OneBidCloses(s, intent, now, bid, aid, outcome);
    ReachSnoc(windowSec, es, e1);
    ReachSnoc(windowSec, es + [e1], e2);
    ReachSnoc(windowSec, es + [e1] + [e2], e3);
    es' := es + [e1] + [e2] + [e3];
  }

  lemma FailedAndExpired(s: State, id: IntentId, ref: BidRef, aid: AssignmentId, at: int)
    requires id in s.intents && s.intents.Keys == {id} && s.bidsByIntent.Keys == {id} && ref < |s.heap| && HasChainAddress(s.heap[ref])
    requires Fresh(s, aid) && Expired(s.intents[id].intent, at)
    ensures var s' := Close(s, id, [ref], aid, Failed(at));
            && s'.intents == map[] && s'.bidsByIntent == map[] && s'.heap == s.heap
            && s'.pending == s.pending && s'.assignments == s.assignments && s'.agents == s.agents
            && s'.windowSec == s.windowSec
  {
    CloseInTwo(s, id, [ref], aid, Failed(at));
    FailedLeavesNothing(ClosedState(s, id, [ref]), id, ref, aid, Failed(at));
  }

  /** The first life of an intent: a bid, a submission that fails after the intent has expired, and nothing is left. */
  lemma FirstLife(windowSec: int, id: IntentId, bid: Bid) returns (es: seq<Event>)
    requires windowSec >= 0 && id != "" && bid.intentId == id && HasChainAddress(bid)
    ensures |es| == 3 && Reachable(windowSec, es) && Reachable(windowSec, es[..1]) && es[1] == SubmitBid(bid, true)
    ensures TakesBid(After(windowSec, es[..1]), bid, true)
    ensures var s := After(windowSec, es);
            && s.intents == map[] && s.bidsByIntent == map[] && s.windowSec == windowSec && s.heap == [bid]
            && Fresh(s, "t2")
  {
    var intent := Intent(id, 0, 10);
    es := LifeOfOneBid(windowSec, [], Init(windowSec), intent, 0, bid, "t1", Failed(windowSec + 10));
    assert es[..1] == [] + [AddIntent(intent, 0)];
    FailedAndExpired(OpenWith(Init(windowSec), intent, 0, bid), id, 0, "t1", windowSec + 10);
  }

  lemma DeliveredWinner(s: State, id: IntentId, ref: BidRef, aid: AssignmentId)
    requires id in s.intents && ref < |s.heap| && HasChainAddress(s.heap[ref])
    ensures var s' := Close(s, id, [ref], aid, Delivered); id in s'.results && s'.results[id].winningBidId == s.heap[ref].bidId
  {
    CloseInTwo(s, id, [ref], aid, Delivered);
  }

  /**
   * The winner is not the cheapest of all bids ever accepted: for any two prices there is a run in which the
   * intent expires after a cheap bid, is added again, and the dearer bid of its second life wins.
   */
  lemma DroppedBidsAreForgotten(windowSec: int, id: IntentId, cheap: nat, dear: nat) returns (es: seq<Event>)
    requires windowSec >= 0 && id != "" && cheap < dear
    ensures Reachable(windowSec, es) && |es| == 6
    ensures Reachable(windowSec, es[..1]) && es[1] == SubmitBid(Offer("cheap", id, "a", cheap), true)
            && TakesBid(After(windowSec, es[..1]), Offer("cheap", id, "a", cheap), true)
    ensures es[4] == SubmitBid(Offer("dear", id, "b", dear), true)
    ensures var s := After(windowSec, es); id in s.results && s.results[id].winningBidId == "dear"
  {
    var second, now := Intent(id, 0, 0), windowSec + 10;
    var b1, b2 := Offer("cheap", id, "a", cheap), Offer("dear", id, "b", dear);
    var es1 := FirstLife(windowSec, id, b1);
    var s := After(windowSec, es1);
    es := LifeOfOneBid(windowSec, es1, s, second, now, b2, "t2", Delivered);
    assert es[..1] == es1[..1];
    DeliveredWinner(OpenWith(s, second, now, b2), id, 1, "t2");
  }
}
