/** The matcher server: maps updated in place, each method one step of the state machine. */
module MatcherServer {
  import opened ByteStrings
  import opened Sorting
  import opened Matcher
  import opened MatcherInvariants

  // ---------------------------------------------------------------- bid strategy

  function PriceAt(heap: seq<Bid>, r: BidRef): nat {
    if r < |heap| then heap[r].price else 0
  }

  lemma PriceIsPreorder(heap: seq<Bid>)
    ensures TotalPreorder((a: BidRef, b: BidRef) => PriceAt(heap, a) <= PriceAt(heap, b))
  {
  }

  /** `LowestPriceBidStrategy.SelectWinner`: an unstable sort by price, then the head and the next two. */
  method SelectWinner(heap: seq<Bid>, bids: seq<BidRef>) returns (winner: Option<BidRef>, runnerUps: seq<BidRef>, ghost order: seq<BidRef>)
    requires forall i :: 0 <= i < |bids| ==> bids[i] < |heap|
    ensures winner.None? <==> bids == []
    ensures bids == [] ==> order == [] && runnerUps == []
    ensures winner.Some? ==>
              && PriceOrder(heap, bids, order) && order != []
              && winner.value == order[0] && runnerUps == RunnerUps(order)
    ensures winner.Some? ==> |runnerUps| == if |bids| < 3 then |bids| - 1 else 2
    ensures winner.Some? ==> |order| == |bids| && forall i :: 0 <= i < |runnerUps| ==> runnerUps[i] == order[i + 1]
    ensures winner.Some? ==> winner.value in bids && forall r :: r in bids ==> heap[winner.value].price <= heap[r].price
  {
    if |bids| == 0 { return None, [], []; }
    PriceIsPreorder(heap);
    var sorted := Sort(bids, (a: BidRef, b: BidRef) => PriceAt(heap, a) <= PriceAt(heap, b));
    SameLength(bids, sorted);
    SameElements(bids, sorted);
    forall i | 0 <= i < |sorted| ensures sorted[i] < |heap| {
      assert sorted[i] in bids;
    }
    runnerUps := [];
    var i := 1;
    while i < |sorted| && i < 3
      invariant 1 <= i <= |sorted| && i <= 3
      invariant runnerUps == sorted[1..i]
    {
      runnerUps := runnerUps + [sorted[i]];
      i := i + 1;
    }
    winner, order := Some(sorted[0]), sorted;
    forall r | r in bids ensures heap[sorted[0]].price <= heap[r].price {
      var k :| 0 <= k < |sorted| && sorted[k] == r;
    }
  }

  // ---------------------------------------------------------------- the environment of one assignment

  /** What the outside does with one assignment: its fresh id and the outcome of the two submissions. */
  datatype Environment = Environment(aid: AssignmentId, chainEnabled: bool, chainOk: bool, rootLayerOk: bool, failedAt: int)

  function Outcome(env: Environment): (o: Submission) {
    if (env.chainEnabled && !env.chainOk) || !env.rootLayerOk then Failed(env.failedAt) else Delivered
  }

  lemma StepKeepsInv(s: State, e: Event)
    requires Inv(s) && Enabled(s, e)
    ensures Inv(Step(s, e))
  {
    StepKeepsExclusive(s, e);
    StepKeepsRest(s, e);
  }

  lemma AddKeepsInv(s: State, intent: Intent, now: int)
    requires Inv(s)
    ensures Inv(StepAdd(s, intent, now))
  {
    AddKeepsExclusive(s, intent, now);
    AddKeepsRest(s, intent, now);
  }

  lemma BidKeepsInv(s: State, bid: Bid, verified: bool)
    requires Inv(s)
    ensures Inv(StepBid(s, bid, verified))
  {
    BidIsQuiet(s, bid, verified);
    QuietKeepsExclusive(s, StepBid(s, bid, verified));
    BidKeepsRest(s, bid, verified);
  }

  lemma BidRefsValid(s: State, id: IntentId)
    requires BidsOk(s)
    ensures forall i :: 0 <= i < |BidsOf(s, id)| ==> BidsOf(s, id)[i] < |s.heap|
  {
    BidsOfListed(s, id);
  }

  // ---------------------------------------------------------------- the server

  class Server {
    const windowSec: int
    var intents: map<IntentId, Window>
    var bidsByIntent: map<IntentId, seq<BidRef>>
    var heap: seq<Bid>
    var matchingResults: map<IntentId, MatchingResult>
    var assignments: map<AssignmentId, Assignment>
    var pendingAssignments: map<AssignmentId, PendingAssignment>
    var assignmentAgents: map<AssignmentId, AgentId>
    ghost var inflight: map<nat, Reassignment>

    ghost function Now(): State
      reads this
    {
      State(windowSec, intents, bidsByIntent, heap, matchingResults, assignments, pendingAssignments, assignmentAgents, inflight)
    }

    ghost predicate Valid()
      reads this
    {
      Inv(Now())
    }

    constructor (windowSec: int)
      ensures Valid() && Now() == Init(windowSec)
    {
      this.windowSec := windowSec;
      intents, bidsByIntent, heap, matchingResults := map[], map[], [], map[];
      assignments, pendingAssignments, assignmentAgents, inflight := map[], map[], map[], map[];
    }

    method AddIntent(intent: Intent, now: int) returns (ok: bool)
      requires Valid()
      modifies this
      ensures Valid() && Now() == StepAdd(old(Now()), intent, now)
      ensures ok == (intent.id != "" && intent.id !in old(intents))
    {
      AddKeepsInv(Now(), intent, now);
      ok := AddIntentLocked(intent, now);
    }

    method AddIntentLocked(intent: Intent, now: int) returns (ok: bool)
      modifies this
      ensures Now() == StepAdd(old(Now()), intent, now)
      ensures ok == (intent.id != "" && intent.id !in old(intents))
    {
      if intent.id == "" { return false; }
      if intent.id in intents { return false; }
      if Expired(intent, now) { return true; }
      intents := intents[intent.id := Window(intent, now, now + windowSec, false, false)];
      bidsByIntent := bidsByIntent[intent.id := []];
      return true;
    }

    method ProcessSingleBid(bid: Bid, verified: bool) returns (accepted: bool)
      requires Valid()
      modifies this
      ensures Valid() && Now() == StepBid(old(Now()), bid, verified)
      ensures accepted == TakesBid(old(Now()), bid, verified)
    {
      ghost var next := StepBid(Now(), bid, verified);
      BidKeepsInv(Now(), bid, verified);
      if !verified { return false; }
      if bid.intentId !in intents { return false; }
      if intents[bid.intentId].closed { return false; }
      assert bid.intentId in bidsByIntent;
      bidsByIntent := bidsByIntent[bid.intentId := bidsByIntent[bid.intentId] + [|heap|]];
      heap := heap + [bid];
      assert Now() == next;
      return true;
    }

    method ResetIntentWindowLocked(id: IntentId, now: int)
      modifies this
      ensures Now() == Reopen(old(Now()), id, now)
    {
      if id !in intents { return; }
      intents := intents[id := intents[id].(closed := false, matched := false, start := now, end := now + windowSec)];
      matchingResults := matchingResults - {id};
    }

    method DropIntentLocked(id: IntentId)
      modifies this
      ensures Now() == Drop(old(Now()), id)
    {
      intents := intents - {id};
      bidsByIntent := bidsByIntent - {id};
      matchingResults := matchingResults - {id};
    }

    method HandleAssignmentFailureLocked(id: IntentId, aid: AssignmentId, now: int)
      modifies this
      ensures Now() == Abort(old(Now()), id, aid, now)
    {
      if id in intents {
        if Expired(intents[id].intent, now) {
          DropIntentLocked(id);
        } else {
          ResetIntentWindowLocked(id, now);
        }
      }
      pendingAssignments := pendingAssignments - {aid};
      assignmentAgents := assignmentAgents - {aid};
    }

    /** `createAssignment`: the assignment is pending before anything is submitted; chain first, then RootLayer. */
    method CreateAssignmentLocked(id: IntentId, ref: BidRef, env: Environment)
      requires ref < |heap|
      modifies this
      ensures Now() == CreateAssignment(old(Now()), id, ref, env.aid, Outcome(env))
    {
      if id !in intents { return; }
      var bid := heap[ref];
      if !(|bid.chainAddress| >= 2 && bid.chainAddress[..2] == "0x") { return; }
      var assignment := Assignment(env.aid, id, bid.chainAddress, bid.bidId);
      pendingAssignments := pendingAssignments[env.aid := PendingAssignment(assignment, intents[id].intent)];
      assignmentAgents := assignmentAgents[env.aid := bid.agentId];
      if env.chainEnabled && !env.chainOk {
        HandleAssignmentFailureLocked(id, env.aid, env.failedAt);
        return;
      }
      if !env.rootLayerOk {
        HandleAssignmentFailureLocked(id, env.aid, env.failedAt);
        return;
      }
    }

    /** `performMatching` for a window that was just closed. */
    method PerformMatchingLocked(id: IntentId, env: Environment) returns (ghost order: seq<BidRef>)
      requires id in intents && id in bidsByIntent
      requires forall i :: 0 <= i < |bidsByIntent[id]| ==> bidsByIntent[id][i] < |heap|
      modifies this
      ensures PriceOrder(old(heap), old(bidsByIntent[id]), order)
      ensures Now() == PerformMatching(old(Now()), id, order, env.aid, Outcome(env))
    {
      var bids := bidsByIntent[id];
      order := [];
      if |bids| == 0 {
        intents := intents[id := intents[id].(matched := true)];
        return;
      }
      var winner, runnerUps, sorted := SelectWinner(heap, bids);
      order := sorted;
      var ids := BidIds(heap, runnerUps);
      matchingResults := matchingResults[id := MatchingResult(heap[winner.value].bidId, heap[winner.value].agentId, ids)];
      intents := intents[id := intents[id].(matched := true)];
      CreateAssignmentLocked(id, winner.value, env);
    }

    /** One round of the loop in `checkAndCloseWindows`, for a window that is due. */
    method CloseOne(id: IntentId, now: int, env: Environment) returns (ghost e: Event)
      requires Valid() && id in intents && Due(intents[id], now) && Fresh(Now(), env.aid)
      modifies this
      ensures e.CloseWindow? && e.id == id && e.now == now && e.aid == env.aid
      ensures Enabled(old(Now()), e) && Now() == Step(old(Now()), e) && Valid()
    {
      ghost var before := Now();
      BidRefsValid(before, id);
      intents := intents[id := intents[id].(closed := true)];
      ghost var order := PerformMatchingLocked(id, env);
      e := CloseWindow(id, now, order, env.aid, Outcome(env));
      StepKeepsInv(before, e);
    }

    /**
     * `checkAndCloseWindows`: the windows in any order. The whole sweep is a run of single closings, one for
     * each window that was due and none for any other.
     */
    method CheckAndCloseWindows(now: int, env: IntentId -> Environment) returns (ghost es: seq<Event>)
      requires Valid()
      requires forall id :: id in intents ==> Fresh(Now(), env(id).aid)
      requires forall id, x :: id in intents && x in intents && id != x ==> env(id).aid != env(x).aid
      modifies this
      ensures Valid() && Exec(old(Now()), es) == Some(Now())
      ensures ClosedSoFar(old(Now()), es, {}, now)
    {
      es := [];
      ghost var start := Now();
      var rest := intents.Keys;
      while rest != {}
        invariant Valid() && Swept(start, Now(), es, rest, now, env)
        decreases |rest|
      {
        var id :| id in rest;
        es := SweepOne(id, now, env, start, es, rest);
        rest := rest - {id};
      }
    }

    method SweepOne(id: IntentId, now: int, env: IntentId -> Environment, ghost start: State, ghost es: seq<Event>, ghost rest: set<IntentId>)
      returns (ghost es': seq<Event>)
      requires Valid() && Swept(start, Now(), es, rest, now, env) && id in rest
      modifies this
      ensures Valid() && Swept(start, Now(), es', rest - {id}, now, env)
    {
      es' := es;
      ghost var before := Now();
      if !intents[id].closed && !intents[id].matched && now >= intents[id].end {
        ghost var e := CloseOne(id, now, env(id));
        SweptOneMore(start, before, es, rest, now, env, e);
        es' := es + [e];
      } else {
        SkippedOne(start, es, rest, now, id);
      }
    }

    /** `RespondToTask`: anyone may answer for a task; a rejection hands the intent to a new reassignment. */
    method RespondToTask(task: AssignmentId, agent: AgentId, accepted: bool, ghost spawn: nat) returns (found: bool)
      requires Valid() && spawn !in inflight
      modifies this
      ensures Valid() && Now() == StepRespond(old(Now()), task, agent, accepted, spawn)
      ensures found == (task in old(pendingAssignments))
    {
      ghost var next := StepRespond(Now(), task, agent, accepted, spawn);
      StepKeepsInv(Now(), Respond(task, agent, accepted, spawn));
      if task !in pendingAssignments { return false; }
      var p := pendingAssignments[task];
      pendingAssignments := pendingAssignments - {task};
      if accepted {
        assignments := assignments[task := p.assignment];
      } else {
        inflight := inflight[spawn := Reassignment(p.intent, agent, Spawned)];
      }
      assert Now() == next;
      return true;
    }

    // -------------------------------------------------------------- tryAssignToRunnerUp, region by region

    method RunnerUpSnapshot(ghost g: nat, intent: Intent) returns (refs: seq<BidRef>)
      requires Valid() && g in inflight && inflight[g].stage.Spawned? && inflight[g].intent == intent
      modifies this`inflight
      ensures Valid() && Now() == StepSnapshot(old(Now()), g) && refs == BidsOf(Now(), intent.id)
    {
      ghost var next := StepSnapshot(Now(), g);
      StepKeepsInv(Now(), Snapshot(g));
      refs := if intent.id in bidsByIntent then bidsByIntent[intent.id] else [];
      if |refs| == 0 {
        inflight := inflight - {g};
      } else {
        inflight := inflight[g := inflight[g].(stage := Holding(refs))];
      }
      assert Now() == next;
    }

    /** The loop that looks for the next best bid. */
    method FindNextBest(refs: seq<BidRef>, excluded: AgentId) returns (best: Option<BidRef>)
      requires forall i :: 0 <= i < |refs| ==> refs[i] < |heap|
      ensures best == NextBest(heap, refs, excluded)
    {
      best := None;
      for i := 0 to |refs|
        invariant best == NextBest(heap, refs[..i], excluded)
      {
        assert refs[..i + 1][..i] == refs[..i] && refs[..i + 1][i] == refs[i];
        var bid := heap[refs[i]];
        if bid.agentId == excluded { continue; }
        if bid.status != Submitted { continue; }
        if best.None? || bid.price < heap[best.value].price {
          best := Some(refs[i]);
        }
      }
      assert refs[..|refs|] == refs;
    }

    method RunnerUpChoose(ghost g: nat, refs: seq<BidRef>, excluded: AgentId) returns (best: Option<BidRef>)
      requires Valid() && g in inflight && inflight[g].stage == Holding(refs) && inflight[g].excluded == excluded
      modifies this`inflight
      ensures Valid() && Now() == StepChoose(old(Now()), g)
      ensures IsNextBest(heap, refs, excluded, best)
    {
      ghost var next := StepChoose(Now(), g);
      StepKeepsInv(Now(), Choose(g));
      BidRefsValid(Now(), inflight[g].intent.id);
      best := FindNextBest(refs, excluded);
      if best.None? {
        inflight := inflight - {g};
      } else {
        inflight := inflight[g := inflight[g].(stage := Chosen(best.value))];
      }
      assert Now() == next;
    }

    method RunnerUpMark(ghost g: nat, best: BidRef, intent: Intent) returns (found: bool)
      requires Valid() && g in inflight && inflight[g].stage == Chosen(best) && inflight[g].intent == intent
      modifies this
      ensures Valid() && best < |old(heap)| && Now() == StepMark(old(Now()), g)
      ensures found
    {
      ChosenIsValid(Now(), g);
      ghost var next := StepMark(Now(), g);
      StepKeepsInv(Now(), Mark(g));
      heap := heap[best := heap[best].(status := Winner)];
      found := intent.id in intents;
      inflight := inflight[g := inflight[g].(stage := Marked(best))];
      assert Now() == next;
    }

    method RunnerUpAssign(ghost g: nat, ref: BidRef, intent: Intent, env: Environment)
      requires Valid() && g in inflight && inflight[g].stage == Marked(ref) && inflight[g].intent == intent
      requires Fresh(Now(), env.aid)
      modifies this
      ensures Valid() && ref < |old(heap)| && Now() == StepAssign(old(Now()), g, env.aid, Outcome(env))
    {
      MarkedIsValid(Now(), g);
      StepKeepsInv(Now(), Assign(g, env.aid, Outcome(env)));
      inflight := inflight - {g};
      CreateAssignmentLocked(intent.id, ref, env);
    }
  }

  lemma ChosenIsValid(s: State, g: nat)
    requires Inv(s) && g in s.inflight && s.inflight[g].stage.Chosen?
    ensures s.inflight[g].stage.best < |s.heap| && s.inflight[g].intent.id in s.intents
  {
    assert Holds(s, s.inflight[g].intent.id, Reassigning(g));
  }

  lemma MarkedIsValid(s: State, g: nat)
    requires Inv(s) && g in s.inflight && s.inflight[g].stage.Marked?
    ensures s.inflight[g].stage.ref < |s.heap|
  {
    BidsOfListed(s, s.inflight[g].intent.id);
  }

  // ---------------------------------------------------------------- one sweep over the windows

  /** Windows still to be visited are as they were, and their assignment ids are still unused. */
  ghost predicate Untouched(start: State, s: State, rest: set<IntentId>, env: IntentId -> Environment) {
    forall x :: x in rest ==> x in start.intents && x in s.intents && s.intents[x] == start.intents[x] && Fresh(s, env(x).aid)
  }

  /** Exactly the due windows among those visited have been closed, each once. */
  ghost predicate ClosedSoFar(start: State, es: seq<Event>, rest: set<IntentId>, now: int) {
    && (forall k :: 0 <= k < |es| ==> es[k].CloseWindow? && es[k].id in start.intents && es[k].id !in rest)
    && (forall k, l :: 0 <= k < l < |es| ==> es[k].id != es[l].id)
    && (forall x :: x in start.intents && x !in rest ==>
          (Due(start.intents[x], now) <==> exists k :: 0 <= k < |es| && es[k].id == x))
  }

  ghost predicate Swept(start: State, s: State, es: seq<Event>, rest: set<IntentId>, now: int, env: IntentId -> Environment) {
    && Exec(start, es) == Some(s)
    && rest <= start.intents.Keys
    && (forall a, b :: a in start.intents && b in start.intents && a != b ==> env(a).aid != env(b).aid)
    && Untouched(start, s, rest, env)
    && ClosedSoFar(start, es, rest, now)
  }

  lemma SweptOneMore(start: State, s: State, es: seq<Event>, rest: set<IntentId>, now: int, env: IntentId -> Environment, e: Event)
    requires Swept(start, s, es, rest, now, env) && e.CloseWindow? && e.id in rest && e.now == now
    requires e.aid == env(e.id).aid && Enabled(s, e)
    ensures Swept(start, Step(s, e), es + [e], rest - {e.id}, now, env)
  {
    CloseFrame(s, e, start, rest, env);
    ExecAppend(start, es, s, e);
    ClosedOneMore(start, es, rest, now, e);
  }

  lemma ExecAppend(start: State, es: seq<Event>, s: State, e: Event)
    requires Exec(start, es) == Some(s) && Enabled(s, e)
    ensures Exec(start, es + [e]) == Some(Step(s, e))
  {
    assert (es + [e])[..|es + [e]| - 1] == es;
  }

  lemma ClosedOneMore(start: State, es: seq<Event>, rest: set<IntentId>, now: int, e: Event)
    requires ClosedSoFar(start, es, rest, now) && e.CloseWindow? && e.id in rest && rest <= start.intents.Keys
    requires Due(start.intents[e.id], now)
    ensures ClosedSoFar(start, es + [e], rest - {e.id}, now)
  {
    var es' := es + [e];
    forall x | x in start.intents && x !in rest - {e.id}
      ensures Due(start.intents[x], now) <==> exists k :: 0 <= k < |es'| && es'[k].id == x
    {
      if x == e.id {
        assert es'[|es|].id == x;
      } else if Due(start.intents[x], now) {
        var k :| 0 <= k < |es| && es[k].id == x;
        assert es'[k].id == x;
      }
    }
  }

  lemma SkippedOne(start: State, es: seq<Event>, rest: set<IntentId>, now: int, id: IntentId)
    requires ClosedSoFar(start, es, rest, now) && id in rest && rest <= start.intents.Keys
    requires !Due(start.intents[id], now)
    ensures ClosedSoFar(start, es, rest - {id}, now)
  {
  }

  lemma CreateFrame(s: State, id: IntentId, ref: BidRef, aid: AssignmentId, outcome: Submission, x: IntentId, other: AssignmentId)
    requires ref < |s.heap| && Fresh(s, aid) && x != id && x in s.intents && other != aid && Fresh(s, other)
    ensures var s' := CreateAssignment(s, id, ref, aid, outcome);
            x in s'.intents && s'.intents[x] == s.intents[x] && Fresh(s', other)
  {
    if id in s.intents && HasChainAddress(s.heap[ref]) && outcome.Failed? {
      FailedLeavesNothing(s, id, ref, aid, outcome);
    }
  }

  lemma CloseFrame(s: State, e: Event, start: State, rest: set<IntentId>, env: IntentId -> Environment)
    requires e.CloseWindow? && Enabled(s, e) && e.id in rest && rest <= start.intents.Keys && e.aid == env(e.id).aid
    requires Untouched(start, s, rest, env)
    requires forall a, b :: a in start.intents && b in start.intents && a != b ==> env(a).aid != env(b).aid
    ensures Untouched(start, Step(s, e), rest - {e.id}, env)
  {
    CloseInTwo(s, e.id, e.order, e.aid, e.outcome);
    forall x | x in rest - {e.id}
      ensures var s' := Step(s, e); x in s'.intents && s'.intents[x] == start.intents[x] && Fresh(s', env(x).aid)
    {
      if e.order != [] {
        CreateFrame(ClosedState(s, e.id, e.order), e.id, e.order[0], e.aid, e.outcome, x, env(x).aid);
      }
    }
  }
}
