/** Where the matcher's assignments come from, and how long its windows stay open, over every run. */
module MatcherHistory {
  import opened Matcher
  import opened MatcherInvariants
  import opened MatcherTheorems

  /** The assignment carries out this bid. */
  predicate CarriesOut(bid: Bid, a: Assignment, agent: AgentId) {
    && bid.intentId == a.intentId && bid.bidId == a.bidId && bid.chainAddress == a.agentAddress
    && bid.agentId == agent && HasChainAddress(bid)
  }

  ghost predicate Backed(heap: seq<Bid>, agents: map<AssignmentId, AgentId>, aid: AssignmentId, a: Assignment) {
    a.id == aid && aid in agents && exists ref :: 0 <= ref < |heap| && CarriesOut(heap[ref], a, agents[aid])
  }

  ghost predicate Traceable(s: State) {
    && (forall aid :: aid in s.pending ==> Backed(s.heap, s.agents, aid, s.pending[aid].assignment))
    && (forall aid :: aid in s.assignments ==> Backed(s.heap, s.agents, aid, s.assignments[aid]))
  }

  ghost predicate WindowsOk(s: State) {
    forall id :: id in s.intents ==>
      && s.intents[id].end == s.intents[id].start + s.windowSec
      && (s.intents[id].matched <==> s.intents[id].closed)
  }

  // ---------------------------------------------------------------- windows

  /** The windows are still well timed and the configured time is the same. */
  ghost predicate Timed(s: State, s': State) {
    s'.windowSec == s.windowSec && WindowsOk(s')
  }

  lemma CreateKeepsWindows(s: State, id: IntentId, ref: BidRef, aid: AssignmentId, outcome: Submission)
    requires WindowsOk(s) && ref < |s.heap|
    ensures Timed(s, CreateAssignment(s, id, ref, aid, outcome))
  {
  }

  lemma CloseKeepsWindows(s: State, id: IntentId, order: seq<BidRef>, aid: AssignmentId, outcome: Submission)
    requires WindowsOk(s) && id in s.intents && forall i :: 0 <= i < |order| ==> order[i] < |s.heap|
    ensures Timed(s, Close(s, id, order, aid, outcome))
  {
    CloseInTwo(s, id, order, aid, outcome);
    assert WindowsOk(ClosedState(s, id, order));
    if order != [] { CreateKeepsWindows(ClosedState(s, id, order), id, order[0], aid, outcome); }
  }

  lemma SameWindows(s: State, s': State)
    requires WindowsOk(s) && s'.windowSec == s.windowSec && s'.intents == s.intents
    ensures Timed(s, s')
  {
  }

  lemma AddKeepsWindows(s: State, intent: Intent, now: int)
    requires WindowsOk(s)
    ensures Timed(s, StepAdd(s, intent, now))
  {
  }

  lemma MarkKeepsWindows(s: State, g: nat)
    requires WindowsOk(s) && g in s.inflight && s.inflight[g].stage.Chosen? && s.inflight[g].stage.best < |s.heap|
    ensures Timed(s, StepMark(s, g))
  {
    MarkIsQuiet(s, g);
    SameWindows(s, StepMark(s, g));
  }

  lemma ChooseKeepsWindows(s: State, g: nat)
    requires WindowsOk(s) && g in s.inflight && s.inflight[g].stage.Holding?
    ensures Timed(s, StepChoose(s, g))
  {
    ChooseIsQuiet(s, g);
    SameWindows(s, StepChoose(s, g));
  }

  lemma ReassignmentKeepsWindows(s: State, e: Event)
    requires WindowsOk(s) && Enabled(s, e) && (e.Snapshot? || e.Choose? || e.Mark?)
    ensures Timed(s, Step(s, e))
  {
    match e
    case Snapshot(g) => SameWindows(s, StepSnapshot(s, g));
    case Choose(g) => ChooseKeepsWindows(s, g);
    case Mark(g) => MarkKeepsWindows(s, g);
  }

  lemma TaskKeepsWindows(s: State, e: Event)
    requires WindowsOk(s) && Enabled(s, e) && (e.Respond? || e.Assign?)
    ensures Timed(s, Step(s, e))
  {
    match e
    case Respond(task, agent, accepted, spawn) => SameWindows(s, StepRespond(s, task, agent, accepted, spawn));
    case Assign(g, aid, outcome) =>
      CreateKeepsWindows(Finish(s, g), s.inflight[g].intent.id, s.inflight[g].stage.ref, aid, outcome);
  }

  lemma StepKeepsWindows(s: State, e: Event)
    requires WindowsOk(s) && Enabled(s, e)
    ensures Timed(s, Step(s, e))
  {
    if e.Snapshot? || e.Choose? || e.Mark? {
      ReassignmentKeepsWindows(s, e);
    } else if e.Respond? || e.Assign? {
      TaskKeepsWindows(s, e);
    } else {
      match e
      case AddIntent(intent, now) => AddKeepsWindows(s, intent, now);
      case SubmitBid(bid, verified) => SameWindows(s, StepBid(s, bid, verified));
      case CloseWindow(id, now, order, aid, outcome) => CloseKeepsWindows(s, id, order, aid, outcome);
    }
  }

  // ---------------------------------------------------------------- assignments

  lemma BackedStable(heap: seq<Bid>, agents: map<AssignmentId, AgentId>, heap': seq<Bid>, agents': map<AssignmentId, AgentId>, aid: AssignmentId, a: Assignment)
    requires Backed(heap, agents, aid, a) && SameBids(heap, heap') && aid in agents' && agents'[aid] == agents[aid]
    ensures Backed(heap', agents', aid, a)
  {
    var ref :| 0 <= ref < |heap| && CarriesOut(heap[ref], a, agents[aid]);
    assert heap'[ref] == heap[ref].(status := heap'[ref].status);
    assert CarriesOut(heap'[ref], a, agents'[aid]);
  }

  /** Steps that create no assignment: tasks stay, move from pending to confirmed, or go. */
  lemma NothingNewIsTraceable(s: State, s': State)
    requires Traceable(s) && SameBids(s.heap, s'.heap) && s'.agents == s.agents
    requires forall aid :: aid in s'.pending ==> aid in s.pending && s'.pending[aid] == s.pending[aid]
    requires forall aid :: aid in s'.assignments ==>
               || (aid in s.assignments && s'.assignments[aid] == s.assignments[aid])
               || (aid in s.pending && s'.assignments[aid] == s.pending[aid].assignment)
    ensures Traceable(s')
  {
    forall aid | aid in s'.pending ensures Backed(s'.heap, s'.agents, aid, s'.pending[aid].assignment) {
      BackedStable(s.heap, s.agents, s'.heap, s'.agents, aid, s.pending[aid].assignment);
    }
    forall aid | aid in s'.assignments ensures Backed(s'.heap, s'.agents, aid, s'.assignments[aid]) {
      BackedStable(s.heap, s.agents, s'.heap, s'.agents, aid, s'.assignments[aid]);
    }
  }

  lemma DeliveredIsTraceable(s: State, id: IntentId, ref: BidRef, aid: AssignmentId)
    requires Traceable(s) && Fresh(s, aid) && ref < |s.heap| && s.heap[ref].intentId == id
    ensures Traceable(CreateAssignment(s, id, ref, aid, Delivered))
  {
    var s' := CreateAssignment(s, id, ref, aid, Delivered);
    forall x | x in s'.pending ensures Backed(s'.heap, s'.agents, x, s'.pending[x].assignment) {
      if x != aid || s' == s {
        BackedStable(s.heap, s.agents, s'.heap, s'.agents, x, s.pending[x].assignment);
      } else {
        assert CarriesOut(s'.heap[ref], s'.pending[x].assignment, s'.agents[x]);
      }
    }
    forall x | x in s'.assignments ensures Backed(s'.heap, s'.agents, x, s'.assignments[x]) {
      BackedStable(s.heap, s.agents, s'.heap, s'.agents, x, s.assignments[x]);
    }
  }

  lemma CreateKeepsTraces(s: State, id: IntentId, ref: BidRef, aid: AssignmentId, outcome: Submission)
    requires Traceable(s) && Fresh(s, aid) && ref < |s.heap| && s.heap[ref].intentId == id
    ensures Traceable(CreateAssignment(s, id, ref, aid, outcome))
  {
    if outcome.Delivered? {
      DeliveredIsTraceable(s, id, ref, aid);
    } else if id in s.intents && HasChainAddress(s.heap[ref]) {
      FailedLeavesNothing(s, id, ref, aid, outcome);
      NothingNewIsTraceable(s, CreateAssignment(s, id, ref, aid, outcome));
    }
  }

  lemma CloseKeepsTraces(s: State, e: Event)
    requires Inv(s) && Traceable(s) && e.CloseWindow? && Enabled(s, e)
    ensures Traceable(Step(s, e))
  {
    CloseInTwo(s, e.id, e.order, e.aid, e.outcome);
    var closed := ClosedState(s, e.id, e.order);
    NothingNewIsTraceable(s, closed);
    if e.order != [] {
      BidsOfListed(s, e.id);
      assert e.order[0] in multiset(e.order);
      assert e.order[0] in BidsOf(s, e.id);
      CreateKeepsTraces(closed, e.id, e.order[0], e.aid, e.outcome);
    }
  }

  lemma AssignKeepsTraces(s: State, e: Event)
    requires Inv(s) && Traceable(s) && e.Assign? && Enabled(s, e)
    ensures Traceable(Step(s, e))
  {
    var id := s.inflight[e.g].intent.id;
    BidsOfListed(s, id);
    NothingNewIsTraceable(s, Finish(s, e.g));
    CreateKeepsTraces(Finish(s, e.g), id, s.inflight[e.g].stage.ref, e.aid, e.outcome);
  }

  lemma QuietKeepsTraces(s: State, s': State)
    requires Traceable(s) && Quiet(s, s') && SameBids(s.heap, s'.heap)
    ensures Traceable(s')
  {
    NothingNewIsTraceable(s, s');
  }

  lemma MarkKeepsTraces(s: State, g: nat)
    requires Traceable(s) && g in s.inflight && s.inflight[g].stage.Chosen? && s.inflight[g].stage.best < |s.heap|
    ensures Traceable(StepMark(s, g))
  {
    MarkIsQuiet(s, g);
    QuietKeepsTraces(s, StepMark(s, g));
  }

  lemma RespondKeepsTraces(s: State, task: AssignmentId, agent: AgentId, accepted: bool, spawn: nat)
    requires Traceable(s)
    ensures Traceable(StepRespond(s, task, agent, accepted, spawn))
  {
    NothingNewIsTraceable(s, StepRespond(s, task, agent, accepted, spawn));
  }

  lemma BidKeepsTraces(s: State, bid: Bid, verified: bool)
    requires Traceable(s)
    ensures Traceable(StepBid(s, bid, verified))
  {
    BidIsQuiet(s, bid, verified);
    QuietKeepsTraces(s, StepBid(s, bid, verified));
  }

  lemma SnapshotKeepsTraces(s: State, g: nat)
    requires Traceable(s) && g in s.inflight
    ensures Traceable(StepSnapshot(s, g))
  {
    SnapshotIsQuiet(s, g);
    QuietKeepsTraces(s, StepSnapshot(s, g));
  }

  lemma ChooseKeepsTraces(s: State, g: nat)
    requires Traceable(s) && g in s.inflight && s.inflight[g].stage.Holding?
    ensures Traceable(StepChoose(s, g))
  {
    ChooseIsQuiet(s, g);
    QuietKeepsTraces(s, StepChoose(s, g));
  }

  lemma AddKeepsTraces(s: State, intent: Intent, now: int)
    requires Traceable(s)
    ensures Traceable(StepAdd(s, intent, now))
  {
    NothingNewIsTraceable(s, StepAdd(s, intent, now));
  }

  lemma StepKeepsTraces(s: State, e: Event)
    requires Inv(s) && Traceable(s) && Enabled(s, e)
    ensures Traceable(Step(s, e))
  {
    match e
    case CloseWindow(_, _, _, _, _) => CloseKeepsTraces(s, e);
    case Assign(_, _, _) => AssignKeepsTraces(s, e);
    case Mark(g) => MarkKeepsTraces(s, g);
    case Respond(task, agent, accepted, spawn) => RespondKeepsTraces(s, task, agent, accepted, spawn);
    case AddIntent(intent, now) => AddKeepsTraces(s, intent, now);
    case SubmitBid(bid, verified) => BidKeepsTraces(s, bid, verified);
    case Snapshot(g) => SnapshotKeepsTraces(s, g);
    case Choose(g) => ChooseKeepsTraces(s, g);
  }

  ghost predicate Documented(windowSec: int, s: State) {
    Traceable(s) && WindowsOk(s) && s.windowSec == windowSec
  }

  lemma StepKeepsDocumented(windowSec: int, s: State, e: Event)
    requires Inv(s) && Documented(windowSec, s) && Enabled(s, e)
    ensures Documented(windowSec, Step(s, e))
  {
    StepKeepsTraces(s, e);
    StepKeepsWindows(s, e);
  }

  lemma {:induction false} RunsKeepHistory(windowSec: int, es: seq<Event>)
    requires Reachable(windowSec, es)
    ensures Documented(windowSec, After(windowSec, es))
  {
    if es != [] {
      var front := es[..|es| - 1];
      RunsKeepHistory(windowSec, front);
      RunsKeepInv(windowSec, front);
      StepKeepsDocumented(windowSec, After(windowSec, front), es[|es| - 1]);
    }
  }

  // ---------------------------------------------------------------- the theorems

  /** Every live assignment carries out an accepted bid for its own intent: its id, agent and chain address. */
  lemma AssignmentsCarryOutBids(windowSec: int, es: seq<Event>, aid: AssignmentId) returns (ref: BidRef)
    requires Reachable(windowSec, es)
    requires aid in After(windowSec, es).pending || aid in After(windowSec, es).assignments
    ensures var s := After(windowSec, es);
            var a := if aid in s.pending then s.pending[aid].assignment else s.assignments[aid];
            && ref < |s.heap| && aid in s.agents && a.id == aid && CarriesOut(s.heap[ref], a, s.agents[aid])
  {
    RunsKeepHistory(windowSec, es);
    var s := After(windowSec, es);
    var a := if aid in s.pending then s.pending[aid].assignment else s.assignments[aid];
    assert Backed(s.heap, s.agents, aid, a);
    ref :| 0 <= ref < |s.heap| && CarriesOut(s.heap[ref], a, s.agents[aid]);
  }

  /** No window, first or re-opened, closes before it has been open for the configured time. */
  lemma WindowsStayOpen(windowSec: int, es: seq<Event>, e: Event)
    requires Reachable(windowSec, es) && e.CloseWindow? && Enabled(After(windowSec, es), e)
    ensures e.now >= After(windowSec, es).intents[e.id].start + windowSec
  {
    RunsKeepHistory(windowSec, es);
  }

  /** The first task of a closed window goes to the winner that the result records. */
  lemma ClosingAssignsTheWinner(s: State, e: Event)
    requires e.CloseWindow? && Enabled(s, e) && e.outcome.Delivered? && e.order != [] && HasChainAddress(s.heap[e.order[0]])
    ensures var s' := Step(s, e);
            && e.aid in s'.pending && e.id in s'.results && e.aid in s'.agents
            && s'.pending[e.aid].assignment.bidId == s'.results[e.id].winningBidId
            && s'.agents[e.aid] == s'.results[e.id].winningAgentId
            && s'.pending[e.aid].intent == s.intents[e.id].intent
  {
    CloseInTwo(s, e.id, e.order, e.aid, e.outcome);
  }

  /**
   * A closed window whose assignment could not be delivered is open again with its bids, unless the intent has
   * expired, in which case every trace of it is gone.
   */
  lemma FailureReopensOrDrops(s: State, e: Event)
    requires e.CloseWindow? && Enabled(s, e) && e.outcome.Failed? && e.order != [] && HasChainAddress(s.heap[e.order[0]])
    ensures var s', at := Step(s, e), e.outcome.at;
            && e.id !in s'.results && s'.pending == s.pending && s'.agents == s.agents
            && (if Expired(s.intents[e.id].intent, at) then e.id !in s'.intents && e.id !in s'.bidsByIntent
                else && e.id in s'.intents && BidsOf(s', e.id) == BidsOf(s, e.id)
                     && s'.intents[e.id] == Window(s.intents[e.id].intent, at, at + s.windowSec, false, false))
  {
    CloseInTwo(s, e.id, e.order, e.aid, e.outcome);
    var closed := ClosedState(s, e.id, e.order);
    FailedLeavesNothing(closed, e.id, e.order[0], e.aid, e.outcome);
  }
}
