/** Intents that nobody works on any more: registered, closed, and without any claim. */
module MatcherStuck {
  import opened Matcher
  import opened MatcherInvariants
  import opened MatcherTheorems

  /** The intent is registered, and no window, task or reassignment is left for it. */
  ghost predicate Stuck(s: State, id: IntentId) {
    id in s.intents && Unclaimed(s, id)
  }

  /** The steps that leave an intent behind. */
  predicate Abandons(s: State, e: Event, id: IntentId)
    requires e.CloseWindow? ==> forall i :: 0 <= i < |e.order| ==> e.order[i] < |s.heap|
    requires (e.Snapshot? || e.Choose? || e.Assign?) ==> e.g in s.inflight
    requires e.Choose? ==> s.inflight[e.g].stage.Holding?
    requires e.Assign? ==> s.inflight[e.g].stage.Marked? && s.inflight[e.g].stage.ref < |s.heap|
  {
    match e
    case CloseWindow(x, _, order, _, _) => x == id && (order == [] || !HasChainAddress(s.heap[order[0]]))
    case Snapshot(g) => s.inflight[g].intent.id == id && BidsOf(s, id) == []
    case Choose(g) => s.inflight[g].intent.id == id && NextBest(s.heap, s.inflight[g].stage.refs, s.inflight[g].excluded).None?
    case Assign(g, _, _) => s.inflight[g].intent.id == id && !HasChainAddress(s.heap[s.inflight[g].stage.ref])
    case _ => false
  }

  /** The claims on one intent are the same after a step as before it. */
  ghost predicate SameClaims(s: State, s': State, id: IntentId) {
    (forall c :: Holds(s, id, c) <==> Holds(s', id, c)) && (id in s.intents <==> id in s'.intents)
  }

  /** The intent is claimed after the step, or not registered. */
  ghost predicate Held(s: State, id: IntentId) {
    id !in s.intents || exists c :: Holds(s, id, c)
  }

  lemma HeldIsNotStuck(s: State, id: IntentId)
    ensures Held(s, id) <==> !Stuck(s, id)
  {
  }

  // ---------------------------------------------------------------- creating an assignment

  lemma OtherAssignment(s: State, x: IntentId, ref: BidRef, aid: AssignmentId, outcome: Submission, id: IntentId)
    requires ref < |s.heap| && Fresh(s, aid) && x != id
    ensures SameClaims(s, CreateAssignment(s, x, ref, aid, outcome), id)
  {
    var s' := CreateAssignment(s, x, ref, aid, outcome);
    if x in s.intents && HasChainAddress(s.heap[ref]) && outcome.Failed? { FailedLeavesNothing(s, x, ref, aid, outcome); }
    forall c ensures Holds(s, id, c) <==> Holds(s', id, c) { }
  }

  lemma OwnAssignment(s: State, id: IntentId, ref: BidRef, aid: AssignmentId, outcome: Submission)
    requires ref < |s.heap| && Fresh(s, aid) && id in s.intents && HasChainAddress(s.heap[ref])
    ensures Held(CreateAssignment(s, id, ref, aid, outcome), id)
  {
    var s' := CreateAssignment(s, id, ref, aid, outcome);
    if outcome.Delivered? {
      assert Holds(s', id, PendingTask(aid));
    } else {
      FailedLeavesNothing(s, id, ref, aid, outcome);
      if id in s'.intents { assert Holds(s', id, OpenWindow); }
    }
  }

  // ---------------------------------------------------------------- step by step

  lemma OwnCloseEnters(s: State, e: Event)
    requires Inv(s) && e.CloseWindow? && Enabled(s, e)
    ensures !Stuck(s, e.id) && (Stuck(Step(s, e), e.id) <==> Abandons(s, e, e.id))
  {
    var id, closed := e.id, ClosedState(s, e.id, e.order);
    CloseInTwo(s, id, e.order, e.aid, e.outcome);
    assert Holds(s, id, OpenWindow);
    ClosedIsUnclaimed(s, id, e.order);
    if e.order != [] && HasChainAddress(s.heap[e.order[0]]) {
      OwnAssignment(closed, id, e.order[0], e.aid, e.outcome);
      HeldIsNotStuck(Step(s, e), id);
    }
  }

  lemma OtherCloseEnters(s: State, e: Event, id: IntentId)
    requires e.CloseWindow? && Enabled(s, e) && id != e.id
    ensures Stuck(Step(s, e), id) <==> Stuck(s, id)
  {
    var closed := ClosedState(s, e.id, e.order);
    CloseInTwo(s, e.id, e.order, e.aid, e.outcome);
    forall c ensures Holds(s, id, c) <==> Holds(closed, id, c) { }
    if e.order != [] { OtherAssignment(closed, e.id, e.order[0], e.aid, e.outcome, id); }
    assert SameClaims(s, Step(s, e), id);
  }

  lemma CloseEnters(s: State, e: Event, id: IntentId)
    requires Inv(s) && e.CloseWindow? && Enabled(s, e)
    ensures Stuck(Step(s, e), id) <==> Stuck(s, id) || Abandons(s, e, id)
  {
    if id == e.id { OwnCloseEnters(s, e); } else { OtherCloseEnters(s, e, id); }
  }

  lemma AddEnters(s: State, intent: Intent, now: int, id: IntentId)
    ensures Stuck(StepAdd(s, intent, now), id) <==> Stuck(s, id)
  {
    var s' := StepAdd(s, intent, now);
    if s' != s && id == intent.id {
      assert Holds(s', id, OpenWindow);
    } else {
      forall c ensures Holds(s, id, c) <==> Holds(s', id, c) { }
    }
  }

  lemma BidEnters(s: State, bid: Bid, verified: bool, id: IntentId)
    ensures Stuck(StepBid(s, bid, verified), id) <==> Stuck(s, id)
  {
    var s' := StepBid(s, bid, verified);
    forall c ensures Holds(s, id, c) <==> Holds(s', id, c) { }
  }

  lemma RespondEnters(s: State, task: AssignmentId, agent: AgentId, accepted: bool, spawn: nat, id: IntentId)
    requires Inv(s) && spawn !in s.inflight
    ensures Stuck(StepRespond(s, task, agent, accepted, spawn), id) <==> Stuck(s, id)
  {
    var s' := StepRespond(s, task, agent, accepted, spawn);
    if task in s.pending && s.pending[task].assignment.intentId == id {
      assert Holds(s, id, PendingTask(task));
      assert Holds(s', id, if accepted then Confirmed(task) else Reassigning(spawn));
    } else {
      forall c ensures Holds(s, id, c) <==> Holds(s', id, c) { }
    }
  }

  lemma ProgressEnters(s: State, g: nat, stage: Stage, id: IntentId)
    requires g in s.inflight
    ensures Stuck(Progress(s, g, stage), id) <==> Stuck(s, id)
  {
    var s' := Progress(s, g, stage);
    forall c ensures Holds(s, id, c) <==> Holds(s', id, c) { }
  }

  lemma FinishEnters(s: State, g: nat, id: IntentId)
    requires Inv(s) && g in s.inflight
    ensures Stuck(Finish(s, g), id) <==> Stuck(s, id) || s.inflight[g].intent.id == id
    ensures s.inflight[g].intent.id == id ==> !Stuck(s, id)
  {
    var s' := Finish(s, g);
    FinishUnclaims(s, g);
    assert Holds(s, s.inflight[g].intent.id, Reassigning(g));
    if s.inflight[g].intent.id != id {
      forall c ensures Holds(s, id, c) <==> Holds(s', id, c) { }
    }
  }

  lemma AssignEnters(s: State, e: Event, id: IntentId)
    requires Inv(s) && e.Assign? && Enabled(s, e)
    ensures Stuck(Step(s, e), id) <==> Stuck(s, id) || Abandons(s, e, id)
  {
    var x, ref, done := s.inflight[e.g].intent.id, s.inflight[e.g].stage.ref, Finish(s, e.g);
    FinishEnters(s, e.g, id);
    FinishEnters(s, e.g, x);
    if id != x {
      OtherAssignment(done, x, ref, e.aid, e.outcome, id);
      assert SameClaims(done, Step(s, e), id);
    } else if HasChainAddress(s.heap[ref]) {
      OwnAssignment(done, id, ref, e.aid, e.outcome);
      HeldIsNotStuck(Step(s, e), id);
    }
  }

  lemma MarkEnters(s: State, g: nat, id: IntentId)
    requires Inv(s) && Enabled(s, Mark(g))
    ensures Stuck(StepMark(s, g), id) <==> Stuck(s, id)
  {
    var ref := s.inflight[g].stage.best;
    assert Holds(s, s.inflight[g].intent.id, Reassigning(g));
    var s1 := s.(heap := s.heap[ref := s.heap[ref].(status := Winner)]);
    forall c ensures Holds(s, id, c) <==> Holds(s1, id, c) { }
    ProgressEnters(s1, g, Marked(ref), id);
  }

  lemma LookupEnters(s: State, e: Event, id: IntentId)
    requires Inv(s) && (e.Snapshot? || e.Choose?) && Enabled(s, e)
    ensures Stuck(Step(s, e), id) <==> Stuck(s, id) || Abandons(s, e, id)
  {
    FinishEnters(s, e.g, id);
    if e.Snapshot? {
      ProgressEnters(s, e.g, Holding(BidsOf(s, s.inflight[e.g].intent.id)), id);
    } else {
      var best := NextBest(s.heap, s.inflight[e.g].stage.refs, s.inflight[e.g].excluded);
      if best.Some? { ProgressEnters(s, e.g, Chosen(best.value), id); }
    }
  }

  /** One step: stuck intents stay stuck, and an intent gets stuck exactly by a step that abandons it. */
  lemma StuckExactlyIf(s: State, e: Event, id: IntentId)
    requires Inv(s) && Enabled(s, e)
    ensures Stuck(Step(s, e), id) <==> Stuck(s, id) || Abandons(s, e, id)
  {
    match e
    case AddIntent(intent, now) => AddEnters(s, intent, now, id);
    case SubmitBid(bid, verified) => BidEnters(s, bid, verified, id);
    case CloseWindow(_, _, _, _, _) => CloseEnters(s, e, id);
    case Respond(task, agent, accepted, spawn) => RespondEnters(s, task, agent, accepted, spawn, id);
    case Snapshot(g) => LookupEnters(s, e, id);
    case Choose(g) => LookupEnters(s, e, id);
    case Mark(g) => MarkEnters(s, g, id);
    case Assign(_, _, _) => AssignEnters(s, e, id);
  }

  // ---------------------------------------------------------------- every run

  /** The k-th event of the run abandons the intent. */
  ghost predicate AbandonedAt(windowSec: int, es: seq<Event>, k: nat, id: IntentId) {
    k < |es| && Reachable(windowSec, es[..k]) && Enabled(After(windowSec, es[..k]), es[k])
    && Abandons(After(windowSec, es[..k]), es[k], id)
  }

  ghost predicate Abandoned(windowSec: int, es: seq<Event>, id: IntentId) {
    exists k :: AbandonedAt(windowSec, es, k, id)
  }

  /**
   * Over every run: an intent is registered without a window, a task or a reassignment exactly if some event
   * abandoned it. It closed without bids or with a winner that has no chain address, or a rejection found no bid or
   * no eligible one, or one without a chain address. Nothing ever brings it back.
   */
  lemma {:induction false} StuckForever(windowSec: int, es: seq<Event>, id: IntentId)
    requires Reachable(windowSec, es)
    ensures Stuck(After(windowSec, es), id) <==> Abandoned(windowSec, es, id)
  {
    if es == [] {
      assert !Stuck(After(windowSec, es), id);
    } else {
      var front, last := es[..|es| - 1], es[|es| - 1];
      PrefixReachable(windowSec, es, |es| - 1);
      StuckForever(windowSec, front, id);
      RunsKeepInv(windowSec, front);
      StuckExactlyIf(After(windowSec, front), last, id);
      AbandonedLater(windowSec, es, id);
    }
  }

  lemma AbandonedLater(windowSec: int, es: seq<Event>, id: IntentId)
    requires es != [] && Reachable(windowSec, es) && Reachable(windowSec, es[..|es| - 1])
    ensures Abandoned(windowSec, es, id)
            <==> Abandoned(windowSec, es[..|es| - 1], id) || Abandons(After(windowSec, es[..|es| - 1]), es[|es| - 1], id)
  {
    var front, n := es[..|es| - 1], |es| - 1;
    forall k: nat | k < n ensures AbandonedAt(windowSec, es, k, id) <==> AbandonedAt(windowSec, front, k, id) {
      assert front[..k] == es[..k] && front[k] == es[k];
    }
    assert AbandonedAt(windowSec, es, n, id) <==> Abandons(After(windowSec, front), es[n], id);
    if Abandons(After(windowSec, front), es[n], id) {
      assert AbandonedAt(windowSec, es, n, id);
    }
    if k :| AbandonedAt(windowSec, front, k, id) {
      assert AbandonedAt(windowSec, es, k, id);
    }
  }

  /** And it can never be added again under its id. */
  lemma StuckIsRefused(s: State, intent: Intent, now: int)
    requires Stuck(s, intent.id)
    ensures StepAdd(s, intent, now) == s
  {
  }
}
