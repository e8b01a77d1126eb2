/**
 * `tryAssignToRunnerUp` gives its lock back before it calls `createAssignment`, so other requests may come between
 * the pending entry and the outcome of the submissions. Here the two are separate steps.
 */
module MatcherUnlocked {
  import opened ByteStrings
  import opened Matcher
  import opened MatcherInvariants
  import opened MatcherTheorems
  import opened MatcherRuns

  /** The outcome of the submissions for an assignment that was made pending before. */
  function Settle(s: State, id: IntentId, aid: AssignmentId, outcome: Submission): (s': State) {
    if outcome.Delivered? then s else Abort(s, id, aid, outcome.at)
  }

  /** With nothing in between, making it pending and settling it is the one step of the atomic version. */
  lemma PendThenSettle(s: State, g: nat, aid: AssignmentId, outcome: Submission)
    requires g in s.inflight && s.inflight[g].stage.Marked? && s.inflight[g].stage.ref < |s.heap|
    requires s.inflight[g].intent.id in s.intents && HasChainAddress(s.heap[s.inflight[g].stage.ref])
    ensures StepAssign(s, g, aid, outcome) == Settle(StepAssign(s, g, aid, Delivered), s.inflight[g].intent.id, aid, outcome)
  {
  }

  // ---------------------------------------------------------------- when a late failure does harm

  /** Nothing but the assignment that fails, or an open window, speaks for the intent. */
  ghost predicate OnlyOwnClaim(s: State, id: IntentId, aid: AssignmentId) {
    forall c :: Holds(s, id, c) ==> c == OpenWindow || c == PendingTask(aid)
  }

  lemma AbortClaims(s: State, id: IntentId, aid: AssignmentId, at: int, x: IntentId, c: Claim)
    requires id in s.intents && Holds(Abort(s, id, aid, at), x, c)
    ensures Holds(s, x, c) || (x == id && c == OpenWindow)
    ensures x == id ==> c != PendingTask(aid)
  {
  }

  lemma AbortKeeps(s: State, id: IntentId, aid: AssignmentId, at: int, c: Claim)
    requires id in s.intents && Holds(s, id, c) && c != OpenWindow && c != PendingTask(aid)
    ensures Holds(Abort(s, id, aid, at), id, c)
  {
  }

  lemma HarmlessFailure(s: State, id: IntentId, aid: AssignmentId, at: int)
    requires Exclusive(s) && id in s.intents && OnlyOwnClaim(s, id, aid)
    ensures Exclusive(Abort(s, id, aid, at))
  {
    var s' := Abort(s, id, aid, at);
    forall x, c | Holds(s', x, c) ensures if x == id then c == OpenWindow else Holds(s, x, c) {
      AbortClaims(s, id, aid, at, x, c);
    }
    forall x, c | Holds(s', x, c) ensures x in s'.intents {
      if x != id { assert x in s.intents; }
    }
  }

  lemma HarmfulFailure(s: State, id: IntentId, aid: AssignmentId, at: int, c: Claim)
    requires id in s.intents && Holds(s, id, c) && c != OpenWindow && c != PendingTask(aid)
    ensures !Exclusive(Abort(s, id, aid, at))
  {
    var s' := Abort(s, id, aid, at);
    AbortKeeps(s, id, aid, at, c);
    if id in s'.intents { assert Holds(s', id, OpenWindow); }
  }

  lemma GoneFailure(s: State, id: IntentId, aid: AssignmentId, at: int)
    requires Exclusive(s) && id !in s.intents
    ensures Exclusive(Abort(s, id, aid, at))
  {
    var s' := Abort(s, id, aid, at);
    forall x, c | Holds(s', x, c) ensures Holds(s, x, c) { }
  }

  /**
   * A failure that arrives after other requests came in between keeps every intent to at most one claim exactly if
   * the intent is gone, or nothing but the failed assignment or an open window speaks for it. A server that looks
   * whether the assignment is still pending before it gives up on it is safe.
   */
  lemma LateFailureExactlyIf(windowSec: int, es: seq<Event>, id: IntentId, aid: AssignmentId, at: int)
    requires Reachable(windowSec, es)
    ensures var s := After(windowSec, es);
            Exclusive(Settle(s, id, aid, Failed(at))) <==> id !in s.intents || OnlyOwnClaim(s, id, aid)
  {
    var s := After(windowSec, es);
    RunsKeepInv(windowSec, es);
    if id !in s.intents {
      GoneFailure(s, id, aid, at);
    } else if OnlyOwnClaim(s, id, aid) {
      HarmlessFailure(s, id, aid, at);
    } else {
      var c :| Holds(s, id, c) && c != OpenWindow && c != PendingTask(aid);
      HarmfulFailure(s, id, aid, at, c);
    }
  }

  lemma StillPendingIsSafe(windowSec: int, es: seq<Event>, id: IntentId, aid: AssignmentId, at: int)
    requires Reachable(windowSec, es) && Holds(After(windowSec, es), id, PendingTask(aid))
    ensures Exclusive(Settle(After(windowSec, es), id, aid, Failed(at)))
  {
    RunsKeepInv(windowSec, es);
    LateFailureExactlyIf(windowSec, es, id, aid, at);
  }

  // ---------------------------------------------------------------- a run in which it does

  lemma PendedState(s: State, g: nat, aid: AssignmentId)
    requires Enabled(s, Assign(g, aid, Delivered))
    requires s.inflight[g].intent.id in s.intents && HasChainAddress(s.heap[s.inflight[g].stage.ref])
    ensures var s' := StepAssign(s, g, aid, Delivered);
            Holds(s', s.inflight[g].intent.id, PendingTask(aid)) && s'.intents == s.intents
  {
  }

  /**
   * From every reachable state in which a reassignment is about to create its assignment: the task is made pending,
   * accepted, and then its submission fails before the intent expires. The intent has a confirmed task and an open
   * window at once.
   */
  lemma AcceptedThenFailed(windowSec: int, es: seq<Event>, g: nat, aid: AssignmentId, agent: AgentId, spawn: nat, at: int)
    returns (es': seq<Event>)
    requires Reachable(windowSec, es) && Enabled(After(windowSec, es), Assign(g, aid, Delivered))
    requires var s := After(windowSec, es); var id := s.inflight[g].intent.id;
             && id in s.intents && HasChainAddress(s.heap[s.inflight[g].stage.ref]) && !Expired(s.intents[id].intent, at)
             && spawn !in s.inflight
    ensures es' == es + [Assign(g, aid, Delivered)] + [Respond(aid, agent, true, spawn)] && Reachable(windowSec, es')
    ensures var id := After(windowSec, es).inflight[g].intent.id;
            var s' := Settle(After(windowSec, es'), id, aid, Failed(at));
            Holds(s', id, Confirmed(aid)) && Holds(s', id, OpenWindow)
  {
    var s := After(windowSec, es);
    var id := s.inflight[g].intent.id;
    ReachSnoc(windowSec, es, Assign(g, aid, Delivered));
    PendedState(s, g, aid);
    var s1 := StepAssign(s, g, aid, Delivered);
    ReachSnoc(windowSec, es + [Assign(g, aid, Delivered)], Respond(aid, agent, true, spawn));
    es' := es + [Assign(g, aid, Delivered)] + [Respond(aid, agent, true, spawn)];
    var s2 := StepRespond(s1, aid, agent, true, spawn);
    assert Holds(s2, id, Confirmed(aid)) && s2.intents == s.intents;
  }

  // ---------------------------------------------------------------- such a state is reachable

  function Bid1(id: IntentId): (bid: Bid) { Offer("first", id, "a", 1) }

  function Bid2(id: IntentId): (bid: Bid) { Offer("second", id, "b", 2) }

  /** An intent that never expires, open, with two bids. */
  function TwoBids(windowSec: int, id: IntentId): (s: State) {
    State(windowSec, map[id := Window(Intent(id, 0, 0), 0, windowSec, false, false)], map[id := [0, 1]],
          [Bid1(id), Bid2(id)], map[], map[], map[], map[], map[])
  }

  lemma SecondBid(windowSec: int, id: IntentId)
    requires id != ""
    ensures var one := OpenWith(Init(windowSec), Intent(id, 0, 0), 0, Bid1(id));
            StepBid(one, Bid2(id), true) == TwoBids(windowSec, id)
  {
    var one := OpenWith(Init(windowSec), Intent(id, 0, 0), 0, Bid1(id));
    assert one.heap + [Bid2(id)] == [Bid1(id), Bid2(id)];
    assert BidsOf(one, id) + [1] == [0, 1];
    assert one.bidsByIntent[id := [0, 1]] == map[id := [0, 1]];
  }

  lemma TwoBidsReached(windowSec: int, id: IntentId) returns (es: seq<Event>)
    requires id != ""
    ensures Reachable(windowSec, es) && After(windowSec, es) == TwoBids(windowSec, id)
  {
    var e1, e2, e3 := AddIntent(Intent(id, 0, 0), 0), SubmitBid(Bid1(id), true), SubmitBid(Bid2(id), true);
    AddThenBid(Init(windowSec), Intent(id, 0, 0), 0, Bid1(id));
    SecondBid(windowSec, id);
    ReachSnoc(windowSec, [], e1);
    ReachSnoc(windowSec, [] + [e1], e2);
    ReachSnoc(windowSec, [] + [e1] + [e2], e3);
    es := [] + [e1] + [e2] + [e3];
  }

  /** Closed and matched, the winner's task pending under "t1". */
  ghost predicate WinnerPending(s: State, id: IntentId) {
    && id in s.intents && s.intents[id].intent == Intent(id, 0, 0) && BidsOf(s, id) == [0, 1]
    && s.heap == [Bid1(id), Bid2(id)] && s.inflight == map[] && s.assignments == map[] && s.agents.Keys == {"t1"}
    && s.pending.Keys == {"t1"} && s.pending["t1"].intent == Intent(id, 0, 0)
  }

  lemma WinnerAssigned(windowSec: int, id: IntentId)
    ensures var e := CloseWindow(id, windowSec, [0, 1], "t1", Delivered);
            Enabled(TwoBids(windowSec, id), e) && WinnerPending(Step(TwoBids(windowSec, id), e), id)
  {
    var s := TwoBids(windowSec, id);
    assert PriceOrder(s.heap, BidsOf(s, id), [0, 1]);
    CloseInTwo(s, id, [0, 1], "t1", Delivered);
  }

  /** The rejected task is gone and its reassignment stands at this stage; `heap` may have a bid marked. */
  ghost predicate Rejected(s: State, id: IntentId, heap: seq<Bid>, stage: Stage) {
    && id in s.intents && s.intents[id].intent == Intent(id, 0, 0) && BidsOf(s, id) == [0, 1] && s.heap == heap
    && s.inflight == map[0 := Reassignment(Intent(id, 0, 0), "a", stage)] && s.assignments == map[]
    && s.pending == map[] && s.agents.Keys == {"t1"}
  }

  lemma RejectTask(s: State, id: IntentId)
    requires WinnerPending(s, id)
    ensures Rejected(StepRespond(s, "t1", "a", false, 0), id, s.heap, Spawned)
  {
  }

  lemma OnlySecondEligible(id: IntentId)
    ensures NextBest([Bid1(id), Bid2(id)], [0, 1], "a") == Some(1)
  {
    var heap := [Bid1(id), Bid2(id)];
    var best := NextBest(heap, [0, 1], "a");
    assert 1 in [0, 1] && Eligible(heap, 1, "a") && !Eligible(heap, 0, "a");
    assert IsNextBest(heap, [0, 1], "a", best);
  }

  lemma LookUp(s: State, id: IntentId)
    requires Rejected(s, id, [Bid1(id), Bid2(id)], Spawned)
    ensures Rejected(StepSnapshot(s, 0), id, s.heap, Holding([0, 1]))
    ensures Rejected(StepChoose(StepSnapshot(s, 0), 0), id, s.heap, Chosen(1))
  {
    OnlySecondEligible(id);
  }

  lemma MarkSecond(s: State, id: IntentId)
    requires Rejected(s, id, [Bid1(id), Bid2(id)], Chosen(1))
    ensures Rejected(StepMark(s, 0), id, [Bid1(id), Bid2(id).(status := Winner)], Marked(1))
  {
  }

  /** A run to the point where a runner-up is about to be assigned. */
  lemma AboutToAssign(windowSec: int, id: IntentId) returns (es: seq<Event>)
    requires id != ""
    ensures Reachable(windowSec, es)
    ensures Rejected(After(windowSec, es), id, [Bid1(id), Bid2(id).(status := Winner)], Marked(1))
  {
    var es3 := TwoBidsReached(windowSec, id);
    var e4, e5 := CloseWindow(id, windowSec, [0, 1], "t1", Delivered), Respond("t1", "a", false, 0);
    WinnerAssigned(windowSec, id);
    ReachSnoc(windowSec, es3, e4);
    RejectTask(After(windowSec, es3 + [e4]), id);
    ReachSnoc(windowSec, es3 + [e4], e5);
    es := RejectedToMarked(windowSec, es3 + [e4] + [e5], id);
  }

  lemma RejectedToMarked(windowSec: int, es: seq<Event>, id: IntentId) returns (es': seq<Event>)
    requires Reachable(windowSec, es) && Rejected(After(windowSec, es), id, [Bid1(id), Bid2(id)], Spawned)
    ensures Reachable(windowSec, es')
    ensures Rejected(After(windowSec, es'), id, [Bid1(id), Bid2(id).(status := Winner)], Marked(1))
  {
    var s := After(windowSec, es);
    LookUp(s, id);
    ReachSnoc(windowSec, es, Snapshot(0));
    ReachSnoc(windowSec, es + [Snapshot(0)], Choose(0));
    MarkSecond(StepChoose(StepSnapshot(s, 0), 0), id);
    ReachSnoc(windowSec, es + [Snapshot(0)] + [Choose(0)], Mark(0));
    es' := es + [Snapshot(0)] + [Choose(0)] + [Mark(0)];
  }

  /** So there is a run from the start after which an intent has a confirmed task and an open window at once. */
  lemma TwoClaimsInARun(windowSec: int, id: IntentId, at: int) returns (es: seq<Event>)
    requires id != ""
    ensures Reachable(windowSec, es)
    ensures var s := Settle(After(windowSec, es), id, "t2", Failed(at)); Holds(s, id, Confirmed("t2")) && Holds(s, id, OpenWindow)
  {
    var es1 := AboutToAssign(windowSec, id);
    es := AcceptedThenFailed(windowSec, es1, 0, "t2", "b", 1, at);
  }
}
