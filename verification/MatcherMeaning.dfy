/** The matcher's steps and results in plain terms: what each does to which entry, without naming the functions that do it. */
module MatcherMeaning {
  import opened ByteStrings
  import opened Sorting
  import opened Matcher
  import opened MatcherInvariants
  import opened MatcherTheorems
  import opened MatcherServer

  // ---------------------------------------------------------------- matching results

  /**
   * The best three bids, or all if there are fewer: distinct bids of the list, in ascending price, and none of the
   * others is cheaper than any of them.
   */
  ghost predicate Best(heap: seq<Bid>, refs: seq<BidRef>, top: seq<BidRef>) {
    && |top| == (if |refs| < 3 then |refs| else 3)
    && (forall i :: 0 <= i < |top| ==> top[i] in refs && top[i] < |heap|)
    && (forall r :: r in refs ==> r < |heap|)
    && (forall i, j :: 0 <= i < j < |top| ==> top[i] != top[j] && heap[top[i]].price <= heap[top[j]].price)
    && (forall i, r :: 0 <= i < |top| && r in refs && r !in top ==> heap[top[i]].price <= heap[r].price)
  }

  lemma OrderIsList(heap: seq<Bid>, refs: seq<BidRef>, order: seq<BidRef>)
    requires PriceOrder(heap, refs, order)
    ensures |order| == |refs| && forall r :: r in refs <==> r in order
  {
    assert |multiset(order)| == |order| && |multiset(refs)| == |refs|;
    forall r ensures r in refs <==> r in order {
      assert r in refs <==> r in multiset(refs);
      assert r in order <==> r in multiset(order);
    }
  }

  lemma NoRepeatsInOrder(heap: seq<Bid>, id: IntentId, refs: seq<BidRef>, order: seq<BidRef>, i: nat, j: nat)
    requires PriceOrder(heap, refs, order) && BidsListed(heap, id, refs) && i < j < |order|
    ensures order[i] != order[j]
  {
    RepeatsCount(order, i, j);
    AtMostOnce(refs, order[i]);
  }

  lemma {:induction false} AtMostOnce(refs: seq<BidRef>, r: BidRef)
    requires forall i, j :: 0 <= i < j < |refs| ==> refs[i] < refs[j]
    ensures multiset(refs)[r] <= 1
  {
    if refs != [] {
      var front, last := refs[..|refs| - 1], refs[|refs| - 1];
      AtMostOnce(front, r);
      assert refs == front + [last];
      if r == last { assert r !in front; }
    }
  }

  lemma HeadIsBest(heap: seq<Bid>, id: IntentId, refs: seq<BidRef>, order: seq<BidRef>)
    requires PriceOrder(heap, refs, order) && BidsListed(heap, id, refs)
    ensures Best(heap, refs, order[..if |order| < 3 then |order| else 3])
  {
    var top := order[..if |order| < 3 then |order| else 3];
    OrderIsList(heap, refs, order);
    forall i | 0 <= i < |top| ensures top[i] in refs && top[i] < |heap| { assert top[i] == order[i] && order[i] in order; }
    forall i, j | 0 <= i < j < |top| ensures top[i] != top[j] { NoRepeatsInOrder(heap, id, refs, order, i, j); }
    forall i, r | 0 <= i < |top| && r in refs && r !in top ensures heap[top[i]].price <= heap[r].price {
      var k :| 0 <= k < |order| && order[k] == r;
      assert forall m :: 0 <= m < |top| ==> top[m] == order[m];
    }
  }

  /** The first is the winner, with its agent, the others are the runner-ups in this order. */
  ghost predicate Names(r: MatchingResult, heap: seq<Bid>, top: seq<BidRef>) {
    && |top| >= 1 && (forall i :: 0 <= i < |top| ==> top[i] < |heap|)
    && r.winningBidId == heap[top[0]].bidId && r.winningAgentId == heap[top[0]].agentId
    && |r.runnerUpBidIds| == |top| - 1
    && forall i :: 1 <= i < |top| ==> r.runnerUpBidIds[i - 1] == heap[top[i]].bidId
  }

  lemma RankedNamesTheBest(heap: seq<Bid>, id: IntentId, refs: seq<BidRef>, r: MatchingResult) returns (top: seq<BidRef>)
    requires Ranked(heap, refs, r) && BidsListed(heap, id, refs)
    ensures Best(heap, refs, top) && Names(r, heap, top)
  {
    var order :| PriceOrder(heap, refs, order) && order != [] && r == ResultOf(heap, order);
    top := order[..if |order| < 3 then |order| else 3];
    HeadIsBest(heap, id, refs, order);
    RunnerUpsAre(heap, order);
  }

  /** In every reachable state a recorded result names the best three bids of its intent, or as many as there are. */
  lemma ResultNamesTheBest(windowSec: int, es: seq<Event>, id: IntentId) returns (top: seq<BidRef>)
    requires Reachable(windowSec, es) && id in After(windowSec, es).results
    ensures var s := After(windowSec, es); Best(s.heap, BidsOf(s, id), top) && Names(s.results[id], s.heap, top)
  {
    var s := After(windowSec, es);
    RunsKeepInv(windowSec, es);
    BidsOfListed(s, id);
    top := RankedNamesTheBest(s.heap, id, BidsOf(s, id), s.results[id]);
  }

  /** So there are two runner-ups, or all other bids if there are fewer. */
  lemma TwoRunnerUps(windowSec: int, es: seq<Event>, id: IntentId)
    requires Reachable(windowSec, es) && id in After(windowSec, es).results
    ensures var s := After(windowSec, es); var n := |BidsOf(s, id)|;
            n >= 1 && |s.results[id].runnerUpBidIds| == if n < 3 then n - 1 else 2
  {
    var top := ResultNamesTheBest(windowSec, es, id);
  }

  lemma RunnerUpsAre(heap: seq<Bid>, order: seq<BidRef>)
    requires order != [] && forall i :: 0 <= i < |order| ==> order[i] < |heap|
    ensures var ids, n := ResultOf(heap, order).runnerUpBidIds, if |order| < 3 then |order| else 3;
            |ids| == n - 1 && forall i :: 1 <= i < n ==> ids[i - 1] == heap[order[i]].bidId
  {
    var ids, ups := ResultOf(heap, order).runnerUpBidIds, RunnerUps(order);
    assert |ids| == |ups| && forall k :: 0 <= k < |ups| ==> ids[k] == heap[ups[k]].bidId;
    forall i | 1 <= i < |ups| + 1 ensures ids[i - 1] == heap[order[i]].bidId { assert ups[i - 1] == order[i]; }
  }

  // ---------------------------------------------------------------- intents and bids

  /** A positive expiration or deadline that has come. */
  lemma ExpiredExactly(intent: Intent, now: int)
    ensures Expired(intent, now) <==> 0 < intent.expiration <= now || 0 < intent.deadline <= now
  {
  }

  /** A new intent is registered exactly if it has an id that is not known and neither of its times has come. */
  lemma AddExactly(s: State, intent: Intent, now: int)
    ensures var s' := StepAdd(s, intent, now); var id := intent.id;
            if id != "" && id !in s.intents && !(0 < intent.expiration <= now) && !(0 < intent.deadline <= now)
            then && s'.intents == s.intents[id := Window(intent, now, now + s.windowSec, false, false)]
                 && s'.bidsByIntent == s.bidsByIntent[id := []]
                 && s' == s.(intents := s'.intents, bidsByIntent := s'.bidsByIntent)
            else s' == s
  {
  }

  /** A bid is taken exactly if its agent is verified and its intent's window is open; it goes to the end of the list. */
  lemma BidExactly(s: State, bid: Bid, verified: bool)
    requires BidsOk(s) && s.intents.Keys == s.bidsByIntent.Keys
    ensures var s' := StepBid(s, bid, verified); var id := bid.intentId;
            if verified && id in s.intents && !s.intents[id].closed
            then && s'.heap == s.heap + [bid] && s'.bidsByIntent == s.bidsByIntent[id := s.bidsByIntent[id] + [|s.heap|]]
                 && s' == s.(heap := s'.heap, bidsByIntent := s'.bidsByIntent)
            else s' == s
  {
  }

  /** A sweep closes exactly the windows that are neither closed nor matched and whose end has come. */
  lemma SweepExactly(start: State, es: seq<Event>, now: int, x: IntentId)
    requires ClosedSoFar(start, es, {}, now) && x in start.intents
    ensures (exists k :: 0 <= k < |es| && es[k].CloseWindow? && es[k].id == x)
            <==> !start.intents[x].closed && !start.intents[x].matched && start.intents[x].end <= now
  {
    if Due(start.intents[x], now) {
      var k :| 0 <= k < |es| && es[k].id == x;
    }
  }

  // ---------------------------------------------------------------- assignments

  /** The chain, if it is used, and RootLayer both took the submission. */
  predicate BothTook(env: Environment) { (env.chainEnabled ==> env.chainOk) && env.rootLayerOk }

  /**
   * An assignment comes about only for a registered intent and a bid whose chain address starts with 0x. If one of the
   * two submissions fails nothing is pending, and the window is open again or, if the intent has expired, it is gone.
   */
  lemma CreateExactly(s: State, id: IntentId, ref: BidRef, env: Environment)
    requires ref < |s.heap| && Fresh(s, env.aid)
    ensures var s' := CreateAssignment(s, id, ref, env.aid, Outcome(env)); var bid := s.heap[ref];
            if id !in s.intents || !("0x" <= bid.chainAddress) then s' == s
            else if BothTook(env) then
              && s'.pending == s.pending[env.aid := PendingAssignment(
                   Assignment(env.aid, id, bid.chainAddress, bid.bidId), s.intents[id].intent)]
              && s'.agents == s.agents[env.aid := bid.agentId] && s' == s.(pending := s'.pending, agents := s'.agents)
            else
              var intent, at := s.intents[id].intent, env.failedAt;
              && s'.pending == s.pending && s'.agents == s.agents && id !in s'.results && s'.heap == s.heap
              && if 0 < intent.expiration <= at || 0 < intent.deadline <= at
                 then id !in s'.intents && id !in s'.bidsByIntent
                 else && id in s'.intents && s'.intents[id] == Window(intent, at, at + s.windowSec, false, false)
                      && s'.bidsByIntent == s.bidsByIntent
  {
    var outcome := Outcome(env);
    if id in s.intents && HasChainAddress(s.heap[ref]) && outcome.Failed? {
      FailedLeavesNothing(s, id, ref, env.aid, outcome);
    }
  }

  /** An answer to a task that is not pending does nothing; acceptance confirms it, rejection starts a reassignment. */
  lemma RespondExactly(s: State, task: AssignmentId, agent: AgentId, accepted: bool, spawn: nat)
    ensures var s' := StepRespond(s, task, agent, accepted, spawn);
            if task !in s.pending then s' == s
            else
              && s'.pending == s.pending - {task}
              && s'.assignments == (if accepted then s.assignments[task := s.pending[task].assignment] else s.assignments)
              && s'.inflight == (if accepted then s.inflight
                                 else s.inflight[spawn := Reassignment(s.pending[task].intent, agent, Spawned)])
              && s' == s.(pending := s'.pending, assignments := s'.assignments, inflight := s'.inflight)
  {
  }

  /** A bid that is still submitted and not by the agent that rejected. */
  predicate Candidate(heap: seq<Bid>, refs: seq<BidRef>, excluded: AgentId, r: BidRef) {
    r in refs && r < |heap| && heap[r].status == BidStatus.Submitted && heap[r].agentId != excluded
  }

  /** The scan finds a cheapest candidate, and nothing exactly if there is none. */
  lemma {:induction false} ChoiceExactly(heap: seq<Bid>, refs: seq<BidRef>, excluded: AgentId)
    ensures var best := NextBest(heap, refs, excluded);
            && (best.None? <==> forall r: BidRef :: !Candidate(heap, refs, excluded, r))
            && (best.Some? ==>
                  && Candidate(heap, refs, excluded, best.value)
                  && forall r: BidRef :: Candidate(heap, refs, excluded, r) ==> heap[best.value].price <= heap[r].price)
  {
    var best := NextBest(heap, refs, excluded);
    assert IsNextBest(heap, refs, excluded, best);
    forall r: BidRef ensures Candidate(heap, refs, excluded, r) <==> r in refs && Eligible(heap, r, excluded) { }
  }

  /** Among candidates of one price the scan takes the first in the list. */
  lemma {:induction false} FirstOfTheCheapest(heap: seq<Bid>, refs: seq<BidRef>, excluded: AgentId) returns (i: nat)
    requires NextBest(heap, refs, excluded).Some?
    ensures i < |refs| && refs[i] == NextBest(heap, refs, excluded).value && refs[i] < |heap|
    ensures forall j :: 0 <= j < i && Candidate(heap, refs, excluded, refs[j]) ==> heap[refs[i]].price < heap[refs[j]].price
  {
    var n := |refs| - 1;
    var front, last := refs[..n], refs[n];
    var before := NextBest(heap, front, excluded);
    ChoiceExactly(heap, front, excluded);
    ChoiceExactly(heap, refs, excluded);
    forall r: BidRef ensures Candidate(heap, refs, excluded, r) <==> Candidate(heap, front, excluded, r) || (r == last && Candidate(heap, refs, excluded, last)) {
      assert refs == front + [last];
    }
    if before.Some? && NextBest(heap, refs, excluded) == before {
      i := FirstOfTheCheapest(heap, front, excluded);
      assert front[i] == refs[i] && forall j :: 0 <= j < i ==> front[j] == refs[j];
    } else {
      i := n;
      forall j | 0 <= j < n && Candidate(heap, refs, excluded, refs[j]) ensures heap[last].price < heap[refs[j]].price {
        assert front[j] == refs[j];
        assert Candidate(heap, front, excluded, refs[j]);
      }
    }
  }

  /** Marking makes one bid a winner and changes no other bid. */
  lemma MarkExactly(s: State, g: nat)
    requires Enabled(s, Mark(g))
    ensures var s', ref := StepMark(s, g), s.inflight[g].stage.best;
            && |s'.heap| == |s.heap| && s'.heap[ref] == s.heap[ref].(status := Winner)
            && forall r :: 0 <= r < |s.heap| && r != ref ==> s'.heap[r] == s.heap[r]
  {
  }
}
