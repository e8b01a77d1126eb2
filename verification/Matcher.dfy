/**
 * The matcher's life cycle (internal/matcher/server.go) as a state machine. Every lock-held region is one
 * step; createAssignment is one step. Bids are pointers in the source, so they live in an append-only arena
 * and are referred to by their position.
 */
module Matcher {
  import opened ByteStrings

  type IntentId = string
  type AgentId = string
  type AssignmentId = string
  type BidRef = nat

  datatype BidStatus = Unspecified | Submitted | Accepted | Rejected | Winner | RunnerUp

  /** `chainAddress` is what extractChainAddressFromBid yields for the bid. */
  datatype Bid = Bid(bidId: string, intentId: IntentId, agentId: AgentId, price: nat, chainAddress: string, status: BidStatus)

  datatype Intent = Intent(id: IntentId, deadline: int, expiration: int)

  datatype Window = Window(intent: Intent, start: int, end: int, closed: bool, matched: bool)

  datatype MatchingResult = MatchingResult(winningBidId: string, winningAgentId: AgentId, runnerUpBidIds: seq<string>)

  datatype Assignment = Assignment(id: AssignmentId, intentId: IntentId, agentAddress: string, bidId: string)

  datatype PendingAssignment = PendingAssignment(assignment: Assignment, intent: Intent)

  /** Where an asynchronous tryAssignToRunnerUp stands between its lock-held regions. */
  datatype Stage = Spawned | Holding(refs: seq<BidRef>) | Chosen(best: BidRef) | Marked(ref: BidRef)

  datatype Reassignment = Reassignment(intent: Intent, excluded: AgentId, stage: Stage)

  datatype State = State(
    windowSec: int,
    intents: map<IntentId, Window>,
    bidsByIntent: map<IntentId, seq<BidRef>>,
    heap: seq<Bid>,
    results: map<IntentId, MatchingResult>,
    assignments: map<AssignmentId, Assignment>,
    pending: map<AssignmentId, PendingAssignment>,
    agents: map<AssignmentId, AgentId>,
    inflight: map<nat, Reassignment>)

  function Init(windowSec: int): (s: State) {
    State(windowSec, map[], map[], [], map[], map[], map[], map[], map[])
  }

  /** Submission to the chain and RootLayer either goes through or fails at some time. */
  datatype Submission = Delivered | Failed(at: int)

  datatype Event =
    | AddIntent(intent: Intent, now: int)
    | SubmitBid(bid: Bid, verified: bool)
    | CloseWindow(id: IntentId, now: int, order: seq<BidRef>, aid: AssignmentId, outcome: Submission)
    | Respond(task: AssignmentId, agent: AgentId, accepted: bool, spawn: nat)
    | Snapshot(g: nat)
    | Choose(g: nat)
    | Mark(g: nat)
    | Assign(g: nat, aid: AssignmentId, outcome: Submission)

  // ---------------------------------------------------------------- the steps

  predicate Expired(intent: Intent, now: int) {
    (intent.expiration > 0 && now >= intent.expiration) || (intent.deadline > 0 && now >= intent.deadline)
  }

  predicate Fresh(s: State, aid: AssignmentId) {
    aid !in s.pending && aid !in s.assignments && aid !in s.agents
  }

  predicate HasChainAddress(bid: Bid) {
    |bid.chainAddress| >= 2 && bid.chainAddress[..2] == "0x"
  }

  predicate Due(w: Window, now: int) {
    !w.closed && !w.matched && now >= w.end
  }

  /** The bids in some order of ascending price. */
  ghost predicate PriceOrder(heap: seq<Bid>, refs: seq<BidRef>, order: seq<BidRef>) {
    && multiset(order) == multiset(refs)
    && (forall i :: 0 <= i < |order| ==> order[i] < |heap|)
    && (forall i, j :: 0 <= i < j < |order| ==> heap[order[i]].price <= heap[order[j]].price)
  }

  function BidIds(heap: seq<Bid>, refs: seq<BidRef>): (ids: seq<string>)
    requires forall i :: 0 <= i < |refs| ==> refs[i] < |heap|
    ensures |ids| == |refs| && forall i :: 0 <= i < |refs| ==> ids[i] == heap[refs[i]].bidId
  {
    if refs == [] then [] else [heap[refs[0]].bidId] + BidIds(heap, refs[1..])
  }

  function RunnerUps<T>(order: seq<T>): (r: seq<T>)
    requires order != []
  {
    order[1..if |order| < 3 then |order| else 3]
  }

  function ResultOf(heap: seq<Bid>, order: seq<BidRef>): (r: MatchingResult)
    requires order != [] && forall i :: 0 <= i < |order| ==> order[i] < |heap|
  {
    MatchingResult(heap[order[0]].bidId, heap[order[0]].agentId, BidIds(heap, RunnerUps(order)))
  }

  /** `dropIntentLocked`. */
  function Drop(s: State, id: IntentId): (s': State) {
    s.(intents := s.intents - {id}, bidsByIntent := s.bidsByIntent - {id}, results := s.results - {id})
  }

  /** `resetIntentWindowLocked`; the bids stay. */
  function Reopen(s: State, id: IntentId, now: int): (s': State) {
    if id !in s.intents then s
    else
      var w := s.intents[id].(closed := false, matched := false, start := now, end := now + s.windowSec);
      s.(intents := s.intents[id := w], results := s.results - {id})
  }

  /** `handleAssignmentFailureLocked`, with the pending bookkeeping cleaned up. */
  function Abort(s: State, id: IntentId, aid: AssignmentId, now: int): (s': State) {
    var s1 := if id !in s.intents then s
              else if Expired(s.intents[id].intent, now) then Drop(s, id) else Reopen(s, id, now);
    s1.(pending := s1.pending - {aid}, agents := s1.agents - {aid})
  }

  /** `createAssignment`: pending before the submissions, aborted when one of them fails. */
  function CreateAssignment(s: State, id: IntentId, ref: BidRef, aid: AssignmentId, outcome: Submission): (s': State)
    requires ref < |s.heap|
  {
    var bid := s.heap[ref];
    if id !in s.intents || !HasChainAddress(bid) then s
    else
      var p := PendingAssignment(Assignment(aid, id, bid.chainAddress, bid.bidId), s.intents[id].intent);
      var s1 := s.(pending := s.pending[aid := p], agents := s.agents[aid := bid.agentId]);
      if outcome.Delivered? then s1 else Abort(s1, id, aid, outcome.at)
  }

  /** `performMatching` on a closed window. */
  function PerformMatching(s: State, id: IntentId, order: seq<BidRef>, aid: AssignmentId, outcome: Submission): (s': State)
    requires id in s.intents && forall i :: 0 <= i < |order| ==> order[i] < |s.heap|
  {
    var s1 := s.(intents := s.intents[id := s.intents[id].(matched := true)]);
    if order == [] then s1
    else CreateAssignment(s1.(results := s.results[id := ResultOf(s.heap, order)]), id, order[0], aid, outcome)
  }

  /** The body of `checkAndCloseWindows` for one window that is due. */
  function Close(s: State, id: IntentId, order: seq<BidRef>, aid: AssignmentId, outcome: Submission): (s': State)
    requires id in s.intents && forall i :: 0 <= i < |order| ==> order[i] < |s.heap|
  {
    PerformMatching(s.(intents := s.intents[id := s.intents[id].(closed := true)]), id, order, aid, outcome)
  }

  predicate Eligible(heap: seq<Bid>, ref: BidRef, excluded: AgentId) {
    ref < |heap| && heap[ref].agentId != excluded && heap[ref].status == Submitted
  }

  /** `best` is an eligible bid of least price, or there is none. */
  ghost predicate IsNextBest(heap: seq<Bid>, refs: seq<BidRef>, excluded: AgentId, best: Option<BidRef>) {
    match best
    case None => forall r :: r in refs ==> !Eligible(heap, r, excluded)
    case Some(b) =>
      && b in refs && Eligible(heap, b, excluded)
      && forall r :: r in refs && Eligible(heap, r, excluded) ==> heap[b].price <= heap[r].price
  }

  /** The selection loop of `tryAssignToRunnerUp`: the first cheapest eligible bid. */
  function NextBest(heap: seq<Bid>, refs: seq<BidRef>, excluded: AgentId): (best: Option<BidRef>)
    ensures IsNextBest(heap, refs, excluded, best)
  {
    if refs == [] then None
    else
      var last := refs[|refs| - 1];
      var front := NextBest(heap, refs[..|refs| - 1], excluded);
      assert forall r :: r in refs <==> r in refs[..|refs| - 1] || r == last;
      if Eligible(heap, last, excluded) && (front.None? || heap[last].price < heap[front.value].price)
      then Some(last) else front
  }

  function BidsOf(s: State, id: IntentId): (refs: seq<BidRef>) {
    if id in s.bidsByIntent then s.bidsByIntent[id] else []
  }

  function Progress(s: State, g: nat, stage: Stage): (s': State)
    requires g in s.inflight
  {
    s.(inflight := s.inflight[g := s.inflight[g].(stage := stage)])
  }

  function Finish(s: State, g: nat): (s': State) {
    s.(inflight := s.inflight - {g})
  }

  /** Which events can happen; everything the environment chooses is a parameter of the event. */
  ghost predicate Enabled(s: State, e: Event) {
    match e
    case AddIntent(_, _) => true
    case SubmitBid(_, _) => true
    case CloseWindow(id, now, order, aid, _) =>
      id in s.intents && Due(s.intents[id], now) && Fresh(s, aid) && PriceOrder(s.heap, BidsOf(s, id), order)
    case Respond(_, _, _, spawn) => spawn !in s.inflight
    case Snapshot(g) => g in s.inflight && s.inflight[g].stage.Spawned?
    case Choose(g) => g in s.inflight && s.inflight[g].stage.Holding?
    case Mark(g) => g in s.inflight && s.inflight[g].stage.Chosen? && s.inflight[g].stage.best < |s.heap|
    case Assign(g, aid, _) =>
      g in s.inflight && s.inflight[g].stage.Marked? && s.inflight[g].stage.ref < |s.heap| && Fresh(s, aid)
  }

  /** `AddIntent`. */
  function StepAdd(s: State, intent: Intent, now: int): (s': State) {
    if intent.id == "" || intent.id in s.intents || Expired(intent, now) then s
    else s.(intents := s.intents[intent.id := Window(intent, now, now + s.windowSec, false, false)],
            bidsByIntent := s.bidsByIntent[intent.id := []])
  }

  predicate TakesBid(s: State, bid: Bid, verified: bool) {
    verified && bid.intentId in s.intents && !s.intents[bid.intentId].closed
  }

  /** `processSingleBid`; `verified` is the verdict of the on-chain agent check. */
  function StepBid(s: State, bid: Bid, verified: bool): (s': State) {
    if !TakesBid(s, bid, verified) then s
    else s.(heap := s.heap + [bid],
            bidsByIntent := s.bidsByIntent[bid.intentId := BidsOf(s, bid.intentId) + [|s.heap|]])
  }

  /** `RespondToTask`; a rejection starts an asynchronous reassignment. */
  function StepRespond(s: State, task: AssignmentId, agent: AgentId, accepted: bool, spawn: nat): (s': State) {
    if task !in s.pending then s
    else if accepted then
      s.(assignments := s.assignments[task := s.pending[task].assignment], pending := s.pending - {task})
    else
      s.(pending := s.pending - {task},
         inflight := s.inflight[spawn := Reassignment(s.pending[task].intent, agent, Spawned)])
  }

  /** `tryAssignToRunnerUp` under its read lock: take the list of bids. */
  function StepSnapshot(s: State, g: nat): (s': State)
    requires g in s.inflight
  {
    var refs := BidsOf(s, s.inflight[g].intent.id);
    if refs == [] then Finish(s, g) else Progress(s, g, Holding(refs))
  }

  /** `tryAssignToRunnerUp` without a lock: pick a bid from the list taken. */
  function StepChoose(s: State, g: nat): (s': State)
    requires g in s.inflight && s.inflight[g].stage.Holding?
  {
    var best := NextBest(s.heap, s.inflight[g].stage.refs, s.inflight[g].excluded);
    if best.None? then Finish(s, g) else Progress(s, g, Chosen(best.value))
  }

  /** `tryAssignToRunnerUp` under its write lock: mark the bid and look the window up. */
  function StepMark(s: State, g: nat): (s': State)
    requires g in s.inflight && s.inflight[g].stage.Chosen? && s.inflight[g].stage.best < |s.heap|
  {
    var ref := s.inflight[g].stage.best;
    var s1 := s.(heap := s.heap[ref := s.heap[ref].(status := Winner)]);
    if s.inflight[g].intent.id in s.intents then Progress(s1, g, Marked(ref)) else Finish(s1, g)
  }

  /** The last part of `tryAssignToRunnerUp`: create the assignment. */
  function StepAssign(s: State, g: nat, aid: AssignmentId, outcome: Submission): (s': State)
    requires g in s.inflight && s.inflight[g].stage.Marked? && s.inflight[g].stage.ref < |s.heap|
  {
    CreateAssignment(Finish(s, g), s.inflight[g].intent.id, s.inflight[g].stage.ref, aid, outcome)
  }

  ghost function Step(s: State, e: Event): (s': State)
    requires Enabled(s, e)
  {
    match e
    case AddIntent(intent, now) => StepAdd(s, intent, now)
    case SubmitBid(bid, verified) => StepBid(s, bid, verified)
    case CloseWindow(id, now, order, aid, outcome) => Close(s, id, order, aid, outcome)
    case Respond(task, agent, accepted, spawn) => StepRespond(s, task, agent, accepted, spawn)
    case Snapshot(g) => StepSnapshot(s, g)
    case Choose(g) => StepChoose(s, g)
    case Mark(g) => StepMark(s, g)
    case Assign(g, aid, outcome) => StepAssign(s, g, aid, outcome)
  }

  /** The state after a sequence of events, if each was possible when it came. */
  ghost function Exec(s: State, es: seq<Event>): (r: Option<State>) {
    if es == [] then Some(s)
    else
      var last := es[|es| - 1];
      match Exec(s, es[..|es| - 1])
      case None => None
      case Some(m) => if Enabled(m, last) then Some(Step(m, last)) else None
  }
}
