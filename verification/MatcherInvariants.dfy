/** What every run of the matcher keeps. */
module MatcherInvariants {
  import opened ByteStrings
  import opened Matcher

  // ---------------------------------------------------------------- claims on an intent

  /** The four ways in which an intent can be spoken for. */
  datatype Claim = OpenWindow | PendingTask(aid: AssignmentId) | Confirmed(aid: AssignmentId) | Reassigning(g: nat)

  predicate Holds(s: State, id: IntentId, c: Claim) {
    match c
    case OpenWindow => id in s.intents && !s.intents[id].closed
    case PendingTask(aid) => aid in s.pending && s.pending[aid].assignment.intentId == id
    case Confirmed(aid) => aid in s.assignments && s.assignments[aid].intentId == id
    case Reassigning(g) => g in s.inflight && s.inflight[g].intent.id == id
  }

  ghost predicate Unclaimed(s: State, id: IntentId) {
    forall c :: !Holds(s, id, c)
  }

  ghost predicate Exclusive(s: State) {
    && (forall id, c, d :: Holds(s, id, c) && Holds(s, id, d) ==> c == d)
    && (forall id, c :: Holds(s, id, c) ==> id in s.intents)
  }

  // ---------------------------------------------------------------- the other maps

  ghost predicate WellKeyed(s: State) {
    && (forall id :: id in s.intents ==> s.intents[id].intent.id == id)
    && s.intents.Keys == s.bidsByIntent.Keys
    && (forall a :: a in s.pending ==> s.pending[a].intent.id == s.pending[a].assignment.intentId && a in s.agents)
    && (forall a :: a in s.assignments ==> a in s.agents)
    && s.pending.Keys !! s.assignments.Keys
  }

  /** The bids listed for an intent are distinct entries of the arena that name it. */
  ghost predicate BidsListed(heap: seq<Bid>, id: IntentId, refs: seq<BidRef>) {
    && (forall i :: 0 <= i < |refs| ==> refs[i] < |heap| && heap[refs[i]].intentId == id)
    && (forall i, j :: 0 <= i < j < |refs| ==> refs[i] < refs[j])
  }

  ghost predicate BidsOk(s: State) {
    forall id :: id in s.bidsByIntent ==> BidsListed(s.heap, id, s.bidsByIntent[id])
  }

  /** The recorded winner and runner-ups are the head of some price order of all bids of the intent. */
  ghost predicate Ranked(heap: seq<Bid>, refs: seq<BidRef>, r: MatchingResult) {
    exists order :: PriceOrder(heap, refs, order) && order != [] && r == ResultOf(heap, order)
  }

  ghost predicate ResultsOk(s: State) {
    forall id :: id in s.results ==>
      && id in s.intents && s.intents[id].closed && s.intents[id].matched
      && Ranked(s.heap, BidsOf(s, id), s.results[id])
  }

  /** What a reassignment in flight may rely on: nothing has moved since it looked. */
  ghost predicate StageOk(s: State, r: Reassignment) {
    match r.stage
    case Spawned => true
    case Holding(refs) => refs == BidsOf(s, r.intent.id)
    case Chosen(best) => IsNextBest(s.heap, BidsOf(s, r.intent.id), r.excluded, Some(best))
    case Marked(ref) => ref in BidsOf(s, r.intent.id)
  }

  ghost predicate InflightOk(s: State) {
    forall g :: g in s.inflight ==> StageOk(s, s.inflight[g])
  }

  ghost predicate Inv(s: State) {
    Exclusive(s) && WellKeyed(s) && BidsOk(s) && ResultsOk(s) && InflightOk(s)
  }

  // ---------------------------------------------------------------- exclusivity, step by step

  /** A step that touches the claims of one intent only, and leaves it at most one. */
  lemma ClaimsMove(s: State, s': State, id: IntentId, left: Option<Claim>)
    requires Exclusive(s)
    requires forall x, c :: x != id && Holds(s', x, c) ==> Holds(s, x, c)
    requires forall c :: Holds(s', id, c) ==> left == Some(c)
    requires forall x :: x in s.intents && x != id ==> x in s'.intents
    requires left.Some? ==> id in s'.intents
    ensures Exclusive(s')
  {
  }

  /** A fresh assignment that fails leaves nothing behind but a re-opened or dropped intent. */
  lemma FailedLeavesNothing(s: State, id: IntentId, ref: BidRef, aid: AssignmentId, outcome: Submission)
    requires ref < |s.heap| && Fresh(s, aid) && id in s.intents && HasChainAddress(s.heap[ref]) && outcome.Failed?
    ensures CreateAssignment(s, id, ref, aid, outcome)
            == if Expired(s.intents[id].intent, outcome.at) then Drop(s, id) else Reopen(s, id, outcome.at)
  {
    var bid := s.heap[ref];
    var p := PendingAssignment(Assignment(aid, id, bid.chainAddress, bid.bidId), s.intents[id].intent);
    assert s.pending[aid := p] - {aid} == s.pending;
    assert s.agents[aid := bid.agentId] - {aid} == s.agents;
  }

  lemma DropKeepsExclusive(s: State, id: IntentId)
    requires Exclusive(s) && Unclaimed(s, id)
    ensures Exclusive(Drop(s, id))
  {
    forall x, c | Holds(Drop(s, id), x, c) ensures Holds(s, x, c) { }
    ClaimsMove(s, Drop(s, id), id, None);
  }

  lemma ReopenKeepsExclusive(s: State, id: IntentId, now: int)
    requires Exclusive(s) && Unclaimed(s, id) && id in s.intents
    ensures Exclusive(Reopen(s, id, now))
  {
    var s' := Reopen(s, id, now);
    forall x, c | Holds(s', x, c) ensures if x == id then c == OpenWindow else Holds(s, x, c) {
      assert x == id && c != OpenWindow ==> Holds(s, id, c);
    }
    ClaimsMove(s, s', id, Some(OpenWindow));
  }

  lemma PendingKeepsExclusive(s: State, id: IntentId, aid: AssignmentId, p: PendingAssignment, agent: AgentId)
    requires Exclusive(s) && Unclaimed(s, id) && id in s.intents && p.assignment.intentId == id && Fresh(s, aid)
    ensures Exclusive(s.(pending := s.pending[aid := p], agents := s.agents[aid := agent]))
  {
    var s' := s.(pending := s.pending[aid := p], agents := s.agents[aid := agent]);
    forall x, c | Holds(s', x, c) ensures if x == id then c == PendingTask(aid) else Holds(s, x, c) {
      assert c != PendingTask(aid) ==> Holds(s, x, c);
    }
    ClaimsMove(s, s', id, Some(PendingTask(aid)));
  }

  /** From an unclaimed intent, creating an assignment leaves at most one claim. */
  lemma CreateKeepsExclusive(s: State, id: IntentId, ref: BidRef, aid: AssignmentId, outcome: Submission)
    requires Exclusive(s) && Unclaimed(s, id) && ref < |s.heap| && Fresh(s, aid)
    ensures Exclusive(CreateAssignment(s, id, ref, aid, outcome))
  {
    if id in s.intents && HasChainAddress(s.heap[ref]) {
      if outcome.Delivered? {
        var bid := s.heap[ref];
        var p := PendingAssignment(Assignment(aid, id, bid.chainAddress, bid.bidId), s.intents[id].intent);
        PendingKeepsExclusive(s, id, aid, p, bid.agentId);
      } else {
        FailedLeavesNothing(s, id, ref, aid, outcome);
        DropKeepsExclusive(s, id);
        ReopenKeepsExclusive(s, id, outcome.at);
      }
    }
  }

  /** The state between closing a due window and creating its assignment. */
  function ClosedState(s: State, id: IntentId, order: seq<BidRef>): (s': State)
    requires id in s.intents && forall i :: 0 <= i < |order| ==> order[i] < |s.heap|
  {
    s.(intents := s.intents[id := s.intents[id].(closed := true, matched := true)],
       results := if order == [] then s.results else s.results[id := ResultOf(s.heap, order)])
  }

  lemma CloseInTwo(s: State, id: IntentId, order: seq<BidRef>, aid: AssignmentId, outcome: Submission)
    requires id in s.intents && forall i :: 0 <= i < |order| ==> order[i] < |s.heap|
    ensures Close(s, id, order, aid, outcome)
            == if order == [] then ClosedState(s, id, order)
               else CreateAssignment(ClosedState(s, id, order), id, order[0], aid, outcome)
  {
    var w := s.intents[id];
    assert s.intents[id := w.(closed := true)][id := w.(closed := true, matched := true)]
           == s.intents[id := w.(closed := true, matched := true)];
  }

  lemma ClosedIsUnclaimed(s: State, id: IntentId, order: seq<BidRef>)
    requires Exclusive(s) && id in s.intents && !s.intents[id].closed
    requires forall i :: 0 <= i < |order| ==> order[i] < |s.heap|
    ensures Exclusive(ClosedState(s, id, order)) && Unclaimed(ClosedState(s, id, order), id)
  {
    var s' := ClosedState(s, id, order);
    assert Holds(s, id, OpenWindow);
    forall x, c | Holds(s', x, c) ensures x != id && Holds(s, x, c) {
      assert Holds(s, x, c);
      assert x == id ==> c != OpenWindow;
    }
    ClaimsMove(s, s', id, None);
  }

  lemma CloseKeepsExclusive(s: State, id: IntentId, order: seq<BidRef>, aid: AssignmentId, outcome: Submission)
    requires Exclusive(s) && id in s.intents && !s.intents[id].closed && Fresh(s, aid)
    requires forall i :: 0 <= i < |order| ==> order[i] < |s.heap|
    ensures Exclusive(Close(s, id, order, aid, outcome))
  {
    CloseInTwo(s, id, order, aid, outcome);
    ClosedIsUnclaimed(s, id, order);
    if order != [] { CreateKeepsExclusive(ClosedState(s, id, order), id, order[0], aid, outcome); }
  }

  lemma AddKeepsExclusive(s: State, intent: Intent, now: int)
    requires Exclusive(s)
    ensures Exclusive(StepAdd(s, intent, now))
  {
    var s' := StepAdd(s, intent, now);
    if s' != s {
      forall x, c | Holds(s', x, c) ensures if x == intent.id then c == OpenWindow else Holds(s, x, c) {
        assert c != OpenWindow ==> Holds(s, x, c);
      }
      ClaimsMove(s, s', intent.id, Some(OpenWindow));
    }
  }

  lemma RespondKeepsExclusive(s: State, task: AssignmentId, agent: AgentId, accepted: bool, spawn: nat)
    requires Exclusive(s) && WellKeyed(s) && spawn !in s.inflight
    ensures Exclusive(StepRespond(s, task, agent, accepted, spawn))
  {
    var s' := StepRespond(s, task, agent, accepted, spawn);
    if task in s.pending {
      var id := s.pending[task].assignment.intentId;
      var left := if accepted then Confirmed(task) else Reassigning(spawn);
      assert Holds(s, id, PendingTask(task));
      forall x, c | Holds(s', x, c) ensures if x == id then c == left else Holds(s, x, c) {
        if c != left { assert Holds(s, x, c); }
      }
      ClaimsMove(s, s', id, Some(left));
    }
  }

  lemma FinishUnclaims(s: State, g: nat)
    requires Exclusive(s) && g in s.inflight
    ensures Exclusive(Finish(s, g)) && Unclaimed(Finish(s, g), s.inflight[g].intent.id)
  {
    var s', id := Finish(s, g), s.inflight[g].intent.id;
    assert Holds(s, id, Reassigning(g));
    forall x, c | Holds(s', x, c) ensures x != id && Holds(s, x, c) {
      assert Holds(s, x, c) && c != Reassigning(g);
    }
    ClaimsMove(s, s', id, None);
  }

  /** Nothing but bids and the progress of reassignments changed. */
  ghost predicate Quiet(s: State, s': State) {
    && s'.intents == s.intents && s'.pending == s.pending && s'.assignments == s.assignments
    && s'.agents == s.agents && s'.results == s.results
    && (forall g :: g in s'.inflight ==> g in s.inflight && s'.inflight[g].intent == s.inflight[g].intent)
  }

  lemma BidIsQuiet(s: State, bid: Bid, verified: bool)
    ensures Quiet(s, StepBid(s, bid, verified))
  {
  }

  lemma ProgressIsQuiet(s: State, g: nat, stage: Stage)
    requires g in s.inflight
    ensures Quiet(s, Progress(s, g, stage)) && Quiet(s, Finish(s, g))
  {
  }

  lemma SnapshotIsQuiet(s: State, g: nat)
    requires g in s.inflight
    ensures Quiet(s, StepSnapshot(s, g))
  {
    ProgressIsQuiet(s, g, Holding(BidsOf(s, s.inflight[g].intent.id)));
  }

  lemma ChooseIsQuiet(s: State, g: nat)
    requires g in s.inflight && s.inflight[g].stage.Holding?
    ensures Quiet(s, StepChoose(s, g))
  {
    var best := NextBest(s.heap, s.inflight[g].stage.refs, s.inflight[g].excluded);
    ProgressIsQuiet(s, g, if best.Some? then Chosen(best.value) else Spawned);
  }

  lemma MarkIsQuiet(s: State, g: nat)
    requires g in s.inflight && s.inflight[g].stage.Chosen? && s.inflight[g].stage.best < |s.heap|
    ensures Quiet(s, StepMark(s, g))
  {
    var ref := s.inflight[g].stage.best;
    ProgressIsQuiet(s.(heap := s.heap[ref := s.heap[ref].(status := Winner)]), g, Marked(ref));
  }

  lemma QuietKeepsExclusive(s: State, s': State)
    requires Exclusive(s) && Quiet(s, s')
    ensures Exclusive(s')
  {
    forall x, c | Holds(s', x, c) ensures Holds(s, x, c) { }
  }

  lemma StepKeepsExclusive(s: State, e: Event)
    requires Inv(s) && Enabled(s, e)
    ensures Exclusive(Step(s, e))
  {
    match e
    case AddIntent(intent, now) => AddKeepsExclusive(s, intent, now);
    case CloseWindow(id, now, order, aid, outcome) => CloseKeepsExclusive(s, id, order, aid, outcome);
    case Respond(task, agent, accepted, spawn) => RespondKeepsExclusive(s, task, agent, accepted, spawn);
    case Assign(g, aid, outcome) =>
      FinishUnclaims(s, g);
      CreateKeepsExclusive(Finish(s, g), s.inflight[g].intent.id, s.inflight[g].stage.ref, aid, outcome);
    case SubmitBid(bid, verified) =>
      BidIsQuiet(s, bid, verified);
      QuietKeepsExclusive(s, StepBid(s, bid, verified));
    case Snapshot(g) =>
      SnapshotIsQuiet(s, g);
      QuietKeepsExclusive(s, StepSnapshot(s, g));
    case Choose(g) =>
      ChooseIsQuiet(s, g);
      QuietKeepsExclusive(s, StepChoose(s, g));
    case Mark(g) =>
      MarkIsQuiet(s, g);
      QuietKeepsExclusive(s, StepMark(s, g));
  }

  // ---------------------------------------------------------------- the other invariants, step by step

  ghost predicate Rest(s: State) {
    WellKeyed(s) && BidsOk(s) && ResultsOk(s) && InflightOk(s)
  }

  /** Bids keep everything but their status, and the arena only grows. */
  ghost predicate SameBids(heap: seq<Bid>, heap': seq<Bid>) {
    && |heap| <= |heap'|
    && forall r :: 0 <= r < |heap| ==> heap'[r] == heap[r].(status := heap'[r].status)
  }

  lemma BidsListedStable(heap: seq<Bid>, heap': seq<Bid>, id: IntentId, refs: seq<BidRef>)
    requires BidsListed(heap, id, refs) && SameBids(heap, heap')
    ensures BidsListed(heap', id, refs)
  {
  }

  lemma RankedStable(heap: seq<Bid>, heap': seq<Bid>, refs: seq<BidRef>, r: MatchingResult)
    requires Ranked(heap, refs, r) && SameBids(heap, heap')
    ensures Ranked(heap', refs, r)
  {
    var order :| PriceOrder(heap, refs, order) && order != [] && r == ResultOf(heap, order);
    assert BidIds(heap', RunnerUps(order)) == BidIds(heap, RunnerUps(order));
    assert PriceOrder(heap', refs, order) && r == ResultOf(heap', order);
  }

  /** A reassignment does not notice changes to other intents. */
  lemma StageStable(s: State, s': State, r: Reassignment)
    requires StageOk(s, r) && BidsListed(s.heap, r.intent.id, BidsOf(s, r.intent.id))
    requires BidsOf(s', r.intent.id) == BidsOf(s, r.intent.id) && |s.heap| <= |s'.heap|
    requires forall x :: x in BidsOf(s, r.intent.id) ==> s'.heap[x] == s.heap[x]
    ensures StageOk(s', r)
  {
  }

  lemma BidsOfListed(s: State, id: IntentId)
    requires BidsOk(s)
    ensures BidsListed(s.heap, id, BidsOf(s, id))
  {
  }

  /** Reassignments in flight survive a step that changes neither the arena nor the bids of their intents. */
  lemma InflightStable(s: State, s': State, id: IntentId)
    requires InflightOk(s) && BidsOk(s) && s'.heap == s.heap
    requires forall x :: x != id ==> BidsOf(s', x) == BidsOf(s, x)
    requires forall g :: g in s'.inflight ==>
               g in s.inflight && s'.inflight[g] == s.inflight[g] && s.inflight[g].intent.id != id
    ensures InflightOk(s')
  {
    forall g | g in s'.inflight ensures StageOk(s', s'.inflight[g]) {
      BidsOfListed(s, s.inflight[g].intent.id);
      StageStable(s, s', s.inflight[g]);
    }
  }

  lemma NotInFlight(s: State, id: IntentId)
    requires Unclaimed(s, id)
    ensures forall g :: g in s.inflight ==> s.inflight[g].intent.id != id
  {
    forall g | g in s.inflight ensures s.inflight[g].intent.id != id {
      assert !Holds(s, id, Reassigning(g));
    }
  }

  lemma AddKeepsRest(s: State, intent: Intent, now: int)
    requires Inv(s)
    ensures Rest(StepAdd(s, intent, now))
  {
    var s' := StepAdd(s, intent, now);
    if s' != s {
      forall c ensures !Holds(s, intent.id, c) { }
      NotInFlight(s, intent.id);
      InflightStable(s, s', intent.id);
      assert ResultsOk(s');
    }
  }

  lemma DropKeepsRest(s: State, id: IntentId)
    requires Rest(s) && Unclaimed(s, id)
    ensures Rest(Drop(s, id))
  {
    NotInFlight(s, id);
    InflightStable(s, Drop(s, id), id);
    assert ResultsOk(Drop(s, id));
    assert WellKeyed(Drop(s, id));
  }

  lemma ReopenKeepsRest(s: State, id: IntentId, now: int)
    requires Rest(s) && Unclaimed(s, id) && id in s.intents
    ensures Rest(Reopen(s, id, now))
  {
    NotInFlight(s, id);
    InflightStable(s, Reopen(s, id, now), id);
    assert ResultsOk(Reopen(s, id, now));
  }

  lemma PendingKeepsRest(s: State, id: IntentId, aid: AssignmentId, p: PendingAssignment, agent: AgentId)
    requires Rest(s) && Unclaimed(s, id) && p.assignment.intentId == id == p.intent.id && Fresh(s, aid)
    ensures Rest(s.(pending := s.pending[aid := p], agents := s.agents[aid := agent]))
  {
    var s' := s.(pending := s.pending[aid := p], agents := s.agents[aid := agent]);
    NotInFlight(s, id);
    InflightStable(s, s', id);
    assert ResultsOk(s');
    assert WellKeyed(s');
  }

  lemma CreateKeepsRest(s: State, id: IntentId, ref: BidRef, aid: AssignmentId, outcome: Submission)
    requires Rest(s) && Unclaimed(s, id) && ref < |s.heap| && Fresh(s, aid)
    ensures Rest(CreateAssignment(s, id, ref, aid, outcome))
  {
    if id in s.intents && HasChainAddress(s.heap[ref]) {
      if outcome.Delivered? {
        var bid := s.heap[ref];
        var p := PendingAssignment(Assignment(aid, id, bid.chainAddress, bid.bidId), s.intents[id].intent);
        PendingKeepsRest(s, id, aid, p, bid.agentId);
      } else {
        FailedLeavesNothing(s, id, ref, aid, outcome);
        DropKeepsRest(s, id);
        ReopenKeepsRest(s, id, outcome.at);
      }
    }
  }

  lemma ClosedKeepsResults(s: State, id: IntentId, order: seq<BidRef>)
    requires ResultsOk(s) && id in s.intents && !s.intents[id].closed && PriceOrder(s.heap, BidsOf(s, id), order)
    ensures ResultsOk(ClosedState(s, id, order))
  {
    var s' := ClosedState(s, id, order);
    forall x | x in s'.results
      ensures && x in s'.intents && s'.intents[x].closed && s'.intents[x].matched
              && Ranked(s'.heap, BidsOf(s', x), s'.results[x])
    {
      if x != id {
        assert Ranked(s.heap, BidsOf(s, x), s.results[x]);
      } else {
        assert s'.results[id] == ResultOf(s.heap, order);
      }
    }
  }

  lemma ClosedKeepsRest(s: State, id: IntentId, order: seq<BidRef>)
    requires Inv(s) && id in s.intents && !s.intents[id].closed && PriceOrder(s.heap, BidsOf(s, id), order)
    ensures Rest(ClosedState(s, id, order))
  {
    var s' := ClosedState(s, id, order);
    ClosedIsUnclaimed(s, id, order);
    NotInFlight(s', id);
    InflightStable(s, s', id);
    ClosedKeepsResults(s, id, order);
    assert WellKeyed(s');
  }

  lemma CloseKeepsRest(s: State, id: IntentId, order: seq<BidRef>, aid: AssignmentId, outcome: Submission)
    requires Inv(s) && id in s.intents && !s.intents[id].closed && Fresh(s, aid)
    requires PriceOrder(s.heap, BidsOf(s, id), order)
    ensures Rest(Close(s, id, order, aid, outcome))
  {
    CloseInTwo(s, id, order, aid, outcome);
    ClosedIsUnclaimed(s, id, order);
    ClosedKeepsRest(s, id, order);
    if order != [] { CreateKeepsRest(ClosedState(s, id, order), id, order[0], aid, outcome); }
  }

  lemma RespondKeepsRest(s: State, task: AssignmentId, agent: AgentId, accepted: bool, spawn: nat)
    requires Inv(s) && spawn !in s.inflight
    ensures Rest(StepRespond(s, task, agent, accepted, spawn))
  {
    var s' := StepRespond(s, task, agent, accepted, spawn);
    forall g | g in s'.inflight ensures StageOk(s', s'.inflight[g]) {
      if g in s.inflight {
        BidsOfListed(s, s.inflight[g].intent.id);
        StageStable(s, s', s.inflight[g]);
      }
    }
    assert ResultsOk(s');
    assert WellKeyed(s');
  }

  lemma FinishKeepsRest(s: State, g: nat)
    requires Rest(s)
    ensures Rest(Finish(s, g))
  {
    var s' := Finish(s, g);
    forall x | x in s'.inflight ensures StageOk(s', s'.inflight[x]) {
      BidsOfListed(s, s.inflight[x].intent.id);
      StageStable(s, s', s.inflight[x]);
    }
    assert ResultsOk(s');
    assert WellKeyed(s');
  }

  lemma ProgressKeepsRest(s: State, g: nat, stage: Stage)
    requires Rest(s) && g in s.inflight && StageOk(s, s.inflight[g].(stage := stage))
    ensures Rest(Progress(s, g, stage))
  {
    var s' := Progress(s, g, stage);
    forall x | x in s'.inflight ensures StageOk(s', s'.inflight[x]) {
      BidsOfListed(s, s.inflight[x].intent.id);
      StageStable(s, s', s'.inflight[x]);
    }
    assert ResultsOk(s');
    assert WellKeyed(s');
  }

  lemma BidKeepsListings(s: State, bid: Bid)
    requires Inv(s) && TakesBid(s, bid, true)
    ensures BidsOk(StepBid(s, bid, true)) && ResultsOk(StepBid(s, bid, true))
  {
    var s', id := StepBid(s, bid, true), bid.intentId;
    assert SameBids(s.heap, s'.heap);
    forall x | x in s'.bidsByIntent ensures BidsListed(s'.heap, x, s'.bidsByIntent[x]) {
      BidsListedStable(s.heap, s'.heap, x, s.bidsByIntent[x]);
    }
    forall x | x in s'.results ensures Ranked(s'.heap, BidsOf(s', x), s'.results[x]) {
      RankedStable(s.heap, s'.heap, BidsOf(s, x), s.results[x]);
      assert x != id && BidsOf(s', x) == BidsOf(s, x);
    }
  }

  lemma BidKeepsInflight(s: State, bid: Bid)
    requires Inv(s) && TakesBid(s, bid, true)
    ensures InflightOk(StepBid(s, bid, true))
  {
    var s', id := StepBid(s, bid, true), bid.intentId;
    assert Holds(s, id, OpenWindow);
    forall g | g in s'.inflight ensures StageOk(s', s'.inflight[g]) {
      assert Holds(s, s.inflight[g].intent.id, Reassigning(g));
      BidsOfListed(s, s.inflight[g].intent.id);
      StageStable(s, s', s.inflight[g]);
    }
  }

  /** A new bid goes to an open window, where no result and no reassignment looks. */
  lemma BidKeepsRest(s: State, bid: Bid, verified: bool)
    requires Inv(s)
    ensures Rest(StepBid(s, bid, verified))
  {
    if TakesBid(s, bid, verified) {
      BidKeepsListings(s, bid);
      BidKeepsInflight(s, bid);
      var s' := StepBid(s, bid, verified);
      assert s'.bidsByIntent.Keys == s.bidsByIntent.Keys;
      assert WellKeyed(s');
    }
  }

  /** Marking touches a bid of one intent, and only one reassignment looks at that intent. */
  lemma MarkedBidKeepsRest(s: State, g: nat, heap': seq<Bid>)
    requires Inv(s) && g in s.inflight && s.inflight[g].stage.Chosen?
    requires var ref := s.inflight[g].stage.best; ref < |s.heap| && heap' == s.heap[ref := s.heap[ref].(status := Winner)]
    ensures Rest(Finish(s, g).(heap := heap'))
  {
    var id, ref := s.inflight[g].intent.id, s.inflight[g].stage.best;
    var s' := Finish(s, g).(heap := heap');
    FinishUnclaims(s, g);
    BidsOfListed(s, id);
    assert ref in BidsOf(s, id);
    assert SameBids(s.heap, heap');
    forall x | x in s'.bidsByIntent ensures BidsListed(heap', x, s'.bidsByIntent[x]) {
      BidsListedStable(s.heap, heap', x, s.bidsByIntent[x]);
    }
    forall x | x in s'.results ensures Ranked(heap', BidsOf(s', x), s'.results[x]) {
      RankedStable(s.heap, heap', BidsOf(s, x), s.results[x]);
    }
    NotInFlight(Finish(s, g), id);
    forall h | h in s'.inflight ensures StageOk(s', s'.inflight[h]) {
      BidsOfListed(s, s.inflight[h].intent.id);
      StageStable(s, s', s.inflight[h]);
    }
  }

  lemma MarkKeepsRest(s: State, g: nat)
    requires Inv(s) && g in s.inflight && s.inflight[g].stage.Chosen? && s.inflight[g].stage.best < |s.heap|
    ensures Rest(StepMark(s, g))
  {
    var id, ref := s.inflight[g].intent.id, s.inflight[g].stage.best;
    var heap' := s.heap[ref := s.heap[ref].(status := Winner)];
    var done := Finish(s, g).(heap := heap');
    MarkedBidKeepsRest(s, g, heap');
    assert Holds(s, id, Reassigning(g));
    var s' := StepMark(s, g);
    forall h | h in s'.inflight ensures StageOk(s', s'.inflight[h]) {
      if h != g {
        BidsOfListed(done, done.inflight[h].intent.id);
        StageStable(done, s', done.inflight[h]);
      }
    }
    assert ResultsOk(s') by { assert ResultsOk(done); }
    assert WellKeyed(s');
  }

  lemma StepKeepsRest(s: State, e: Event)
    requires Inv(s) && Enabled(s, e)
    ensures Rest(Step(s, e))
  {
    match e
    case AddIntent(intent, now) => AddKeepsRest(s, intent, now);
    case SubmitBid(bid, verified) => BidKeepsRest(s, bid, verified);
    case CloseWindow(id, now, order, aid, outcome) => CloseKeepsRest(s, id, order, aid, outcome);
    case Respond(task, agent, accepted, spawn) => RespondKeepsRest(s, task, agent, accepted, spawn);
    case Snapshot(g) =>
      var refs := BidsOf(s, s.inflight[g].intent.id);
      if refs == [] { FinishKeepsRest(s, g); } else { ProgressKeepsRest(s, g, Holding(refs)); }
    case Choose(g) =>
      var best := NextBest(s.heap, s.inflight[g].stage.refs, s.inflight[g].excluded);
      if best == None { FinishKeepsRest(s, g); } else { ProgressKeepsRest(s, g, Chosen(best.value)); }
    case Mark(g) => MarkKeepsRest(s, g);
    case Assign(g, aid, outcome) =>
      FinishUnclaims(s, g);
      FinishKeepsRest(s, g);
      CreateKeepsRest(Finish(s, g), s.inflight[g].intent.id, s.inflight[g].stage.ref, aid, outcome);
  }

  // ---------------------------------------------------------------- every run

  /** The invariant holds after every possible sequence of events. */
  lemma {:induction false} RunsKeepInv(windowSec: int, es: seq<Event>)
    requires Exec(Init(windowSec), es).Some?
    ensures Inv(Exec(Init(windowSec), es).value)
  {
    if es != [] {
      var before := Exec(Init(windowSec), es[..|es| - 1]).value;
      RunsKeepInv(windowSec, es[..|es| - 1]);
      StepKeepsExclusive(before, es[|es| - 1]);
      StepKeepsRest(before, es[|es| - 1]);
    }
  }
}
