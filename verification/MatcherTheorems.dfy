/** What holds in every reachable state of the matcher and over every run. */
module MatcherTheorems {
  import opened ByteStrings
  import opened Matcher
  import opened MatcherInvariants

  ghost predicate Reachable(windowSec: int, es: seq<Event>) {
    Exec(Init(windowSec), es).Some?
  }

  ghost function After(windowSec: int, es: seq<Event>): (s: State)
    requires Reachable(windowSec, es)
  {
    Exec(Init(windowSec), es).value
  }

  lemma PrefixReachable(windowSec: int, es: seq<Event>, k: nat)
    requires Reachable(windowSec, es) && k <= |es|
    ensures Reachable(windowSec, es[..k])
    decreases |es|
  {
    if k < |es| {
      assert es[..|es| - 1][..k] == es[..k];
      PrefixReachable(windowSec, es[..|es| - 1], k);
    } else {
      assert es[..k] == es;
    }
  }

  /** In every reachable state an intent has at most one of: open window, pending task, confirmed task, reassignment. */
  lemma AtMostOneClaim(windowSec: int, es: seq<Event>, id: IntentId, c: Claim, d: Claim)
    requires Reachable(windowSec, es)
    requires Holds(After(windowSec, es), id, c) && Holds(After(windowSec, es), id, d)
    ensures c == d && id in After(windowSec, es).intents
  {
    RunsKeepInv(windowSec, es);
  }

  ghost predicate Live(s: State, id: IntentId, aid: AssignmentId) {
    (aid in s.pending && s.pending[aid].assignment.intentId == id)
    || (aid in s.assignments && s.assignments[aid].intentId == id)
  }

  /** So an intent never has two live assignments, and none while its window is open. */
  lemma NeverTwoAssignments(windowSec: int, es: seq<Event>, id: IntentId, a: AssignmentId, b: AssignmentId)
    requires Reachable(windowSec, es)
    requires Live(After(windowSec, es), id, a) && Live(After(windowSec, es), id, b)
    ensures a == b && id in After(windowSec, es).intents && After(windowSec, es).intents[id].closed
  {
    var s := After(windowSec, es);
    RunsKeepInv(windowSec, es);
    var c := if a in s.pending && s.pending[a].assignment.intentId == id then PendingTask(a) else Confirmed(a);
    var d := if b in s.pending && s.pending[b].assignment.intentId == id then PendingTask(b) else Confirmed(b);
    assert Holds(s, id, c) && Holds(s, id, d);
    assert !Holds(s, id, OpenWindow);
  }

  // ---------------------------------------------------------------- matching results

  /** The intent's list keeps its bids, and the bids keep everything but their status. */
  ghost predicate Keeps(s: State, s': State, id: IntentId) {
    BidsOf(s, id) <= BidsOf(s', id) && SameBids(s.heap, s'.heap)
  }

  lemma QuietKeepsBids(s: State, s': State, id: IntentId)
    requires BidsOf(s', id) == BidsOf(s, id) && s'.heap == s.heap
    ensures Keeps(s, s', id)
  {
  }

  lemma CloseKeepsBids(s: State, x: IntentId, order: seq<BidRef>, aid: AssignmentId, outcome: Submission, id: IntentId)
    requires x in s.intents && Fresh(s, aid) && forall i :: 0 <= i < |order| ==> order[i] < |s.heap|
    requires id in Close(s, x, order, aid, outcome).intents
    ensures Keeps(s, Close(s, x, order, aid, outcome), id)
  {
    CloseInTwo(s, x, order, aid, outcome);
    if order != [] { CreateKeepsBids(ClosedState(s, x, order), x, order[0], aid, outcome, id); }
    QuietKeepsBids(s, Close(s, x, order, aid, outcome), id);
  }

  lemma AssignKeepsBids(s: State, g: nat, aid: AssignmentId, outcome: Submission, id: IntentId)
    requires g in s.inflight && s.inflight[g].stage.Marked? && s.inflight[g].stage.ref < |s.heap| && Fresh(s, aid)
    requires id in StepAssign(s, g, aid, outcome).intents
    ensures Keeps(s, StepAssign(s, g, aid, outcome), id)
  {
    CreateKeepsBids(Finish(s, g), s.inflight[g].intent.id, s.inflight[g].stage.ref, aid, outcome, id);
    QuietKeepsBids(s, StepAssign(s, g, aid, outcome), id);
  }

  lemma BidKeepsBids(s: State, bid: Bid, verified: bool, id: IntentId)
    ensures Keeps(s, StepBid(s, bid, verified), id)
  {
  }

  lemma MarkKeepsBids(s: State, g: nat, id: IntentId)
    requires g in s.inflight && s.inflight[g].stage.Chosen? && s.inflight[g].stage.best < |s.heap|
    ensures Keeps(s, StepMark(s, g), id)
  {
  }

  lemma AddKeepsBids(s: State, intent: Intent, now: int, id: IntentId)
    requires id in s.intents
    ensures Keeps(s, StepAdd(s, intent, now), id)
  {
  }

  lemma OtherStepsKeepBids(s: State, e: Event, id: IntentId)
    requires Enabled(s, e) && id in s.intents && !e.CloseWindow? && !e.Assign?
    ensures Keeps(s, Step(s, e), id)
  {
    match e
    case AddIntent(intent, now) => AddKeepsBids(s, intent, now, id);
    case SubmitBid(bid, verified) => BidKeepsBids(s, bid, verified, id);
    case Mark(g) => MarkKeepsBids(s, g, id);
    case Respond(task, agent, accepted, spawn) => QuietKeepsBids(s, StepRespond(s, task, agent, accepted, spawn), id);
    case Snapshot(g) => QuietKeepsBids(s, StepSnapshot(s, g), id);
    case Choose(g) => QuietKeepsBids(s, StepChoose(s, g), id);
  }

  /** Once accepted, a bid stays in its intent's list as long as the intent is registered. */
  lemma BidsStay(s: State, e: Event, id: IntentId)
    requires Enabled(s, e) && id in s.intents && id in Step(s, e).intents
    ensures Keeps(s, Step(s, e), id)
  {
    match e
    case CloseWindow(x, now, order, aid, outcome) => CloseKeepsBids(s, x, order, aid, outcome, id);
    case Assign(g, aid, outcome) => AssignKeepsBids(s, g, aid, outcome, id);
    case _ => OtherStepsKeepBids(s, e, id);
  }

  lemma CreateKeepsBids(s: State, x: IntentId, ref: BidRef, aid: AssignmentId, outcome: Submission, id: IntentId)
    requires ref < |s.heap| && Fresh(s, aid) && id in CreateAssignment(s, x, ref, aid, outcome).intents
    ensures BidsOf(CreateAssignment(s, x, ref, aid, outcome), id) == BidsOf(s, id)
    ensures CreateAssignment(s, x, ref, aid, outcome).heap == s.heap
  {
    if x in s.intents && HasChainAddress(s.heap[ref]) && outcome.Failed? {
      FailedLeavesNothing(s, x, ref, aid, outcome);
    }
  }

  lemma KeepsTransitive(a: State, b: State, c: State, id: IntentId)
    requires Keeps(a, b, id) && Keeps(b, c, id)
    ensures Keeps(a, c, id)
  {
  }

  /** The intent is registered in every state from the k-th to the last. */
  ghost predicate Registered(windowSec: int, es: seq<Event>, k: nat, id: IntentId) {
    forall j :: k <= j <= |es| && Reachable(windowSec, es[..j]) ==> id in After(windowSec, es[..j]).intents
  }

  lemma {:induction false} BidsStayRegistered(windowSec: int, es: seq<Event>, k: nat, id: IntentId)
    requires Reachable(windowSec, es) && k <= |es| && Reachable(windowSec, es[..k])
    requires Registered(windowSec, es, k, id)
    ensures Keeps(After(windowSec, es[..k]), After(windowSec, es), id)
    decreases |es|
  {
    if k == |es| {
      assert es[..k] == es;
    } else {
      var front := es[..|es| - 1];
      assert front[..k] == es[..k];
      PrefixReachable(windowSec, es, |es| - 1);
      forall j | k <= j <= |front| && Reachable(windowSec, front[..j])
        ensures id in After(windowSec, front[..j]).intents
      {
        assert front[..j] == es[..j];
      }
      BidsStayRegistered(windowSec, front, k, id);
      assert es[..|es|] == es && front == es[..|es| - 1];
      assert id in After(windowSec, es[..|es| - 1]).intents && id in After(windowSec, es[..|es|]).intents;
      BidsStay(After(windowSec, front), es[|es| - 1], id);
      KeepsTransitive(After(windowSec, es[..k]), After(windowSec, front), After(windowSec, es), id);
    }
  }

  /**
   * A recorded result belongs to a registered, closed intent; its winner is the head and its runner-ups are
   * the next two of some price order of every bid in the intent's list.
   */
  lemma ResultsAreRanked(windowSec: int, es: seq<Event>, id: IntentId)
    requires Reachable(windowSec, es) && id in After(windowSec, es).results
    ensures var s := After(windowSec, es);
            && id in s.intents && s.intents[id].closed
            && exists order :: PriceOrder(s.heap, BidsOf(s, id), order) && order != [] && s.results[id] == ResultOf(s.heap, order)
  {
    RunsKeepInv(windowSec, es);
    assert Ranked(After(windowSec, es).heap, BidsOf(After(windowSec, es), id), After(windowSec, es).results[id]);
  }

  /** A re-opened or dropped intent has no result. */
  lemma NoResultWithoutClosedIntent(windowSec: int, es: seq<Event>, id: IntentId)
    requires Reachable(windowSec, es)
    requires id !in After(windowSec, es).intents || !After(windowSec, es).intents[id].closed
    ensures id !in After(windowSec, es).results
  {
    RunsKeepInv(windowSec, es);
  }

  /**
   * No bid accepted while the intent stayed registered was cheaper than the winner: if the k-th event was
   * an accepted bid for `id`, a result recorded later names a bid of at most that price.
   */
  lemma WinnerBeatsEveryAcceptedBid(windowSec: int, es: seq<Event>, k: nat, id: IntentId)
    requires Reachable(windowSec, es) && k < |es| && es[k].SubmitBid? && es[k].bid.intentId == id
    requires Reachable(windowSec, es[..k]) && TakesBid(After(windowSec, es[..k]), es[k].bid, es[k].verified)
    requires Registered(windowSec, es, k, id) && id in After(windowSec, es).results
    ensures var s := After(windowSec, es);
            exists w :: w in BidsOf(s, id) && w < |s.heap| && s.heap[w].price <= es[k].bid.price
                        && s.results[id].winningBidId == s.heap[w].bidId
                        && s.results[id].winningAgentId == s.heap[w].agentId
  {
    var s, before := After(windowSec, es), After(windowSec, es[..k]);
    PrefixReachable(windowSec, es, k + 1);
    assert es[..k + 1][..k] == es[..k] && es[..k + 1][k] == es[k];
    var taken := After(windowSec, es[..k + 1]);
    assert taken == StepBid(before, es[k].bid, es[k].verified);
    BidsStayRegistered(windowSec, es, k + 1, id);
    var ref := |before.heap|;
    assert BidsOf(taken, id)[|BidsOf(taken, id)| - 1] == ref;
    assert ref in BidsOf(s, id) && s.heap[ref].price == es[k].bid.price;
    ResultsAreRanked(windowSec, es, id);
    var order :| PriceOrder(s.heap, BidsOf(s, id), order) && order != [] && s.results[id] == ResultOf(s.heap, order);
    HeadIsCheapest(s.heap, BidsOf(s, id), order, ref);
    assert order[0] in BidsOf(s, id);
  }

  lemma HeadIsCheapest(heap: seq<Bid>, refs: seq<BidRef>, order: seq<BidRef>, ref: BidRef)
    requires PriceOrder(heap, refs, order) && ref in refs
    ensures order != [] && ref < |heap| && order[0] in refs && heap[order[0]].price <= heap[ref].price
  {
    assert ref in multiset(refs);
    assert ref in order;
    var i :| 0 <= i < |order| && order[i] == ref;
    assert order[0] in multiset(order);
  }

  // ---------------------------------------------------------------- runner-up reassignments

  function CountBids(heap: seq<Bid>, id: IntentId): (n: nat) {
    if heap == [] then 0
    else CountBids(heap[..|heap| - 1], id) + (if heap[|heap| - 1].intentId == id then 1 else 0)
  }

  function CountSubmitted(heap: seq<Bid>, id: IntentId): (n: nat) {
    if heap == [] then 0
    else
      var b := heap[|heap| - 1];
      CountSubmitted(heap[..|heap| - 1], id) + (if b.intentId == id && b.status == Submitted then 1 else 0)
  }

  /** Marking a submitted bid takes exactly one off the count of its intent. */
  lemma {:induction false} MarkCounts(heap: seq<Bid>, ref: nat, id: IntentId)
    requires ref < |heap|
    ensures var heap' := heap[ref := heap[ref].(status := Winner)];
            && CountBids(heap', id) == CountBids(heap, id)
            && CountSubmitted(heap', id)
               == CountSubmitted(heap, id) - (if heap[ref].intentId == id && heap[ref].status == Submitted then 1 else 0)
  {
    var heap' := heap[ref := heap[ref].(status := Winner)];
    var n := |heap| - 1;
    if ref == n {
      assert heap'[..n] == heap[..n];
    } else {
      MarkCounts(heap[..n], ref, id);
      assert heap'[..n] == heap[..n][ref := heap[..n][ref].(status := Winner)];
    }
  }

  /** How often a runner-up was marked for this intent. */
  ghost function Reassignments(windowSec: int, es: seq<Event>, id: IntentId): (n: nat)
    requires Reachable(windowSec, es)
  {
    if es == [] then 0
    else
      var front, last := es[..|es| - 1], es[|es| - 1];
      Reassignments(windowSec, front, id)
      + (if last.Mark? && After(windowSec, front).inflight[last.g].intent.id == id then 1 else 0)
  }

  lemma HeapUnchanged(s: State, e: Event)
    requires Enabled(s, e) && !e.SubmitBid? && !e.Mark?
    ensures Step(s, e).heap == s.heap
  {
    match e
    case CloseWindow(x, now, order, aid, outcome) =>
      CloseInTwo(s, x, order, aid, outcome);
      if order != [] { CreateKeepsHeap(ClosedState(s, x, order), x, order[0], aid, outcome); }
    case Assign(g, aid, outcome) =>
      CreateKeepsHeap(Finish(s, g), s.inflight[g].intent.id, s.inflight[g].stage.ref, aid, outcome);
    case _ =>
  }

  /** Bids no longer waiting: every marking adds one, nothing takes one away. */
  lemma StepCounts(s: State, e: Event, id: IntentId)
    requires Inv(s) && Enabled(s, e)
    ensures var s' := Step(s, e);
            var marks := if e.Mark? && s.inflight[e.g].intent.id == id then 1 else 0;
            CountBids(s'.heap, id) - CountSubmitted(s'.heap, id)
            >= CountBids(s.heap, id) - CountSubmitted(s.heap, id) + marks
  {
    match e
    case SubmitBid(bid, verified) =>
      var s' := StepBid(s, bid, verified);
      if s' != s { assert s'.heap[..|s'.heap| - 1] == s.heap; }
    case Mark(g) =>
      MarkCounts(s.heap, s.inflight[g].stage.best, id);
      MarkedBidIsEligible(s, g);
    case _ => HeapUnchanged(s, e);
  }

  lemma CreateKeepsHeap(s: State, x: IntentId, ref: BidRef, aid: AssignmentId, outcome: Submission)
    requires ref < |s.heap|
    ensures CreateAssignment(s, x, ref, aid, outcome).heap == s.heap
  {
  }

  /** When a bid is marked it is still submitted, of the intent, and not by the agent that rejected. */
  lemma MarkedBidIsEligible(s: State, g: nat)
    requires Inv(s) && Enabled(s, Mark(g))
    ensures var r := s.inflight[g];
            && s.heap[r.stage.best].intentId == r.intent.id
            && IsNextBest(s.heap, BidsOf(s, r.intent.id), r.excluded, Some(r.stage.best))
  {
    BidsOfListed(s, s.inflight[g].intent.id);
  }

  /** Over any run an intent is reassigned at most as often as it received bids. */
  lemma {:induction false} ReassignmentsBounded(windowSec: int, es: seq<Event>, id: IntentId)
    requires Reachable(windowSec, es)
    ensures Reassignments(windowSec, es, id) + CountSubmitted(After(windowSec, es).heap, id)
            <= CountBids(After(windowSec, es).heap, id)
  {
    if es != [] {
      var front := es[..|es| - 1];
      ReassignmentsBounded(windowSec, front, id);
      RunsKeepInv(windowSec, front);
      StepCounts(After(windowSec, front), es[|es| - 1], id);
    }
  }

  /** Every runner-up marked in any run is cheapest among the eligible bids at that moment, whatever happened since it was chosen. */
  lemma RunnerUpIsCheapestEligible(windowSec: int, es: seq<Event>, g: nat, r: BidRef)
    requires Reachable(windowSec, es) && Enabled(After(windowSec, es), Mark(g))
    ensures var s := After(windowSec, es); var job := s.inflight[g]; var best := job.stage.best;
            && best in BidsOf(s, job.intent.id) && s.heap[best].status == Submitted
            && s.heap[best].agentId != job.excluded
            && (r in BidsOf(s, job.intent.id) && Eligible(s.heap, r, job.excluded) ==> s.heap[best].price <= s.heap[r].price)
  {
    RunsKeepInv(windowSec, es);
    MarkedBidIsEligible(After(windowSec, es), g);
  }

  // ---------------------------------------------------------------- which bids a result ranks

  lemma CreateBids(s: State, x: IntentId, ref: BidRef, aid: AssignmentId, outcome: Submission, id: IntentId)
    requires ref < |s.heap|
    ensures var s' := CreateAssignment(s, x, ref, aid, outcome); BidsOf(s', id) == BidsOf(s, id) || BidsOf(s', id) == []
  {
  }

  lemma CloseBids(s: State, x: IntentId, order: seq<BidRef>, aid: AssignmentId, outcome: Submission, id: IntentId)
    requires x in s.intents && forall i :: 0 <= i < |order| ==> order[i] < |s.heap|
    ensures var s' := Close(s, x, order, aid, outcome); BidsOf(s', id) == BidsOf(s, id) || BidsOf(s', id) == []
  {
    CloseInTwo(s, x, order, aid, outcome);
    if order != [] { CreateBids(ClosedState(s, x, order), x, order[0], aid, outcome, id); }
  }

  lemma BidLists(s: State, bid: Bid, verified: bool, id: IntentId, ref: BidRef)
    requires ref < |s.heap| && ref !in BidsOf(s, id)
    ensures var s' := StepBid(s, bid, verified); ref < |s'.heap| && ref !in BidsOf(s', id)
  {
  }

  /** A bid that is not in an intent's list never gets back into it. */
  lemma StepNeverRelists(s: State, e: Event, id: IntentId, ref: BidRef)
    requires Enabled(s, e) && ref < |s.heap| && ref !in BidsOf(s, id)
    ensures ref < |Step(s, e).heap| && ref !in BidsOf(Step(s, e), id)
  {
    if !e.SubmitBid? && !e.Mark? { HeapUnchanged(s, e); }
    match e
    case SubmitBid(bid, verified) => BidLists(s, bid, verified, id, ref);
    case CloseWindow(x, now, order, aid, outcome) => CloseBids(s, x, order, aid, outcome, id);
    case Assign(g, aid, outcome) =>
      CreateBids(Finish(s, g), s.inflight[g].intent.id, s.inflight[g].stage.ref, aid, outcome, id);
    case _ =>
  }

  lemma {:induction false} NeverRelisted(windowSec: int, es: seq<Event>, j: nat, id: IntentId, ref: BidRef)
    requires Reachable(windowSec, es) && j <= |es| && Reachable(windowSec, es[..j])
    requires ref < |After(windowSec, es[..j]).heap| && ref !in BidsOf(After(windowSec, es[..j]), id)
    ensures ref < |After(windowSec, es).heap| && ref !in BidsOf(After(windowSec, es), id)
    decreases |es|
  {
    if j == |es| {
      assert es[..j] == es;
    } else {
      var front := es[..|es| - 1];
      assert front[..j] == es[..j];
      PrefixReachable(windowSec, es, |es| - 1);
      NeverRelisted(windowSec, front, j, id, ref);
      StepNeverRelists(After(windowSec, front), es[|es| - 1], id, ref);
    }
  }

  lemma {:induction false} HeapGrows(windowSec: int, es: seq<Event>, j: nat)
    requires Reachable(windowSec, es) && j <= |es| && Reachable(windowSec, es[..j])
    ensures |After(windowSec, es[..j]).heap| <= |After(windowSec, es).heap|
    decreases |es|
  {
    if j == |es| {
      assert es[..j] == es;
    } else {
      var front, last := es[..|es| - 1], es[|es| - 1];
      assert front[..j] == es[..j];
      PrefixReachable(windowSec, es, |es| - 1);
      HeapGrows(windowSec, front, j);
      if !last.SubmitBid? && !last.Mark? { HeapUnchanged(After(windowSec, front), last); }
    }
  }

  lemma UnregisteredForgets(windowSec: int, es: seq<Event>, k: nat, j: nat, id: IntentId, ref: BidRef)
    requires Reachable(windowSec, es) && k < j <= |es| && Reachable(windowSec, es[..k + 1]) && Reachable(windowSec, es[..j])
    requires ref < |After(windowSec, es[..k + 1]).heap| && id !in After(windowSec, es[..j]).intents
    ensures ref !in BidsOf(After(windowSec, es), id)
  {
    assert es[..j][..k + 1] == es[..k + 1];
    HeapGrows(windowSec, es[..j], k + 1);
    RunsKeepInv(windowSec, es[..j]);
    NeverRelisted(windowSec, es, j, id, ref);
  }

  /**
   * Which accepted bids count: one is still in its intent's list, and so ranked by a result, exactly if the
   * intent has been registered ever since. Dropping an intent forgets its bids even if it is added again.
   */
  lemma BidListedIffRegistered(windowSec: int, es: seq<Event>, k: nat, id: IntentId)
    requires Reachable(windowSec, es) && k < |es| && es[k].SubmitBid? && es[k].bid.intentId == id
    requires Reachable(windowSec, es[..k]) && TakesBid(After(windowSec, es[..k]), es[k].bid, es[k].verified)
    ensures |After(windowSec, es[..k]).heap| in BidsOf(After(windowSec, es), id) <==> Registered(windowSec, es, k, id)
  {
    var before := After(windowSec, es[..k]);
    var ref := |before.heap|;
    PrefixReachable(windowSec, es, k + 1);
    assert es[..k + 1][..k] == es[..k] && es[..k + 1][k] == es[k];
    var taken := After(windowSec, es[..k + 1]);
    assert taken == StepBid(before, es[k].bid, es[k].verified);
    if Registered(windowSec, es, k, id) {
      BidsStayRegistered(windowSec, es, k + 1, id);
      assert BidsOf(taken, id)[|BidsOf(taken, id)| - 1] == ref;
    } else {
      var j :| k <= j <= |es| && Reachable(windowSec, es[..j]) && id !in After(windowSec, es[..j]).intents;
      UnregisteredForgets(windowSec, es, k, j, id, ref);
    }
  }
}
