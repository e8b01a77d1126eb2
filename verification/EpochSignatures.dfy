/**
 * Epoch-level validation signatures (internal/validator/node.go): storing a signature and the test-and-set of
 * the submission flag are two lock-held regions, so other callers run between them.
 */
module EpochSignatures {
  import opened ByteStrings
  import opened Validators

  const KeepRecentEpochs: nat := 3

  type Address = string
  type Shelf = map<Address, Bytes>

  datatype BundleSignature = BundleSignature(epoch: nat, address: Address, signature: Bytes)

  /** What a caller saw when its signature was stored: the addresses present, at least as many as required. */
  datatype Observation = Observation(epoch: nat, addresses: set<Address>)

  /** `waiting` are the callers that saw the threshold reached and have not done their test-and-set yet. */
  datatype State = State(
    sigs: map<nat, Shelf>,
    intents: map<nat, seq<string>>,
    triggered: set<nat>,
    waiting: map<nat, Observation>)

  function Init(): (s: State) { State(map[], map[], {}, map[]) }

  datatype Event =
    | Receive(g: nat, sig: BundleSignature, local: bool)
    | Record(epoch: nat, keys: seq<string>)
    | TestAndSet(g: nat, leader: bool)
    | Cleanup(finalized: nat)

  // ---------------------------------------------------------------- the steps

  /** Signatures from the network need an address and bytes; the node's own are stored as they are. */
  predicate Screened(sig: BundleSignature, local: bool) {
    local || (sig.address != "" && sig.signature != [])
  }

  function ShelfOf(sigs: map<nat, Shelf>, epoch: nat): (shelf: Shelf) {
    if epoch in sigs then sigs[epoch] else map[]
  }

  function Put(shelf: Shelf, sig: BundleSignature): (shelf': Shelf) {
    if sig.address in shelf then shelf else shelf[sig.address := sig.signature]
  }

  /** `storeEpochValidationSignature`, called after the screening. */
  function StepReceive(vset: ValidatorSet, s: State, g: nat, sig: BundleSignature, local: bool): (s': State)
    requires vset.Valid()
  {
    if !Screened(sig, local) then s
    else
      var shelf := Put(ShelfOf(s.sigs, sig.epoch), sig);
      s.(sigs := s.sigs[sig.epoch := shelf],
         waiting := if CheckThreshold(vset, |shelf|) then s.waiting[g := Observation(sig.epoch, shelf.Keys)]
                    else s.waiting)
  }

  /** This test-and-set launches a submission. */
  predicate Fires(s: State, e: Event) {
    e.TestAndSet? && e.g in s.waiting && e.leader && s.waiting[e.g].epoch !in s.triggered
  }

  function StepTestAndSet(s: State, g: nat, leader: bool): (s': State)
    requires g in s.waiting
  {
    var s1 := s.(waiting := s.waiting - {g});
    if leader then s1.(triggered := s.triggered + {s.waiting[g].epoch}) else s1
  }

  /** Epochs that a cleanup after `finalized` removes. */
  predicate Removes(finalized: nat, epoch: nat) {
    epoch + KeepRecentEpochs < finalized
  }

  function Kept<V>(m: map<nat, V>, finalized: nat): (m': map<nat, V>) {
    map epoch | epoch in m && !Removes(finalized, epoch) :: m[epoch]
  }

  function StepCleanup(s: State, finalized: nat): (s': State) {
    s.(sigs := Kept(s.sigs, finalized), intents := Kept(s.intents, finalized),
       triggered := set epoch | epoch in s.triggered && !Removes(finalized, epoch))
  }

  ghost predicate Enabled(s: State, e: Event) {
    match e
    case Receive(g, _, _) => g !in s.waiting
    case TestAndSet(g, _) => g in s.waiting
    case Record(_, _) => true
    case Cleanup(_) => true
  }

  ghost function Step(vset: ValidatorSet, s: State, e: Event): (s': State)
    requires vset.Valid() && Enabled(s, e)
  {
    match e
    case Receive(g, sig, local) => StepReceive(vset, s, g, sig, local)
    case Record(epoch, keys) => s.(intents := s.intents[epoch := keys])
    case TestAndSet(g, leader) => StepTestAndSet(s, g, leader)
    case Cleanup(finalized) => StepCleanup(s, finalized)
  }

  ghost function Exec(vset: ValidatorSet, es: seq<Event>): (r: Option<State>)
    requires vset.Valid()
  {
    if es == [] then Some(Init())
    else
      var last := es[|es| - 1];
      match Exec(vset, es[..|es| - 1])
      case None => None
      case Some(m) => if Enabled(m, last) then Some(Step(vset, m, last)) else None
  }

  ghost predicate Reachable(vset: ValidatorSet, es: seq<Event>, s: State) {
    vset.Valid() && Exec(vset, es) == Some(s)
  }

  // ---------------------------------------------------------------- one launch per epoch between cleanups

  /** How often a submission for this epoch was launched since its data was last removed. */
  ghost function Launches(vset: ValidatorSet, es: seq<Event>, epoch: nat): (n: nat)
    requires vset.Valid() && Exec(vset, es).Some?
  {
    if es == [] then 0
    else
      var front, last := es[..|es| - 1], es[|es| - 1];
      var before := Exec(vset, front).value;
      if last.Cleanup? && Removes(last.finalized, epoch) then 0
      else Launches(vset, front, epoch) + (if Fires(before, last) && before.waiting[last.g].epoch == epoch then 1 else 0)
  }

  /** The flag counts exactly: one launch since the last removal if it is up, none if it is down. */
  lemma {:induction false} AtMostOneLaunch(vset: ValidatorSet, es: seq<Event>, s: State, epoch: nat)
    requires Reachable(vset, es, s)
    ensures Launches(vset, es, epoch) == if epoch in s.triggered then 1 else 0
  {
    if es != [] {
      AtMostOneLaunch(vset, es[..|es| - 1], Exec(vset, es[..|es| - 1]).value, epoch);
    }
  }

  ghost predicate FiresAt(vset: ValidatorSet, es: seq<Event>, i: nat, epoch: nat)
    requires vset.Valid() && i < |es|
  {
    && Exec(vset, es[..i]).Some?
    && var s := Exec(vset, es[..i]).value; Fires(s, es[i]) && s.waiting[es[i].g].epoch == epoch
  }

  ghost predicate NoRemoval(es: seq<Event>, i: nat, j: nat, epoch: nat) {
    forall k :: i < k < j && k < |es| ==> !(es[k].Cleanup? && Removes(es[k].finalized, epoch))
  }

  lemma {:induction false} PrefixRuns(vset: ValidatorSet, es: seq<Event>, i: nat)
    requires vset.Valid() && Exec(vset, es).Some? && i <= |es|
    ensures Exec(vset, es[..i]).Some?
    decreases |es| - i
  {
    if i < |es| {
      PrefixRuns(vset, es, i + 1);
      assert es[..i + 1][..i] == es[..i];
    } else {
      assert es[..i] == es;
    }
  }

  lemma {:induction false} FlagStays(vset: ValidatorSet, es: seq<Event>, i: nat, j: nat, epoch: nat)
    requires vset.Valid() && Exec(vset, es).Some? && i < j <= |es|
    requires FiresAt(vset, es, i, epoch) && NoRemoval(es, i, j, epoch)
    ensures Exec(vset, es[..j]).Some? && epoch in Exec(vset, es[..j]).value.triggered
    decreases j
  {
    PrefixRuns(vset, es, j);
    PrefixRuns(vset, es, j - 1);
    assert es[..j][..j - 1] == es[..j - 1] && es[..j][j - 1] == es[j - 1];
    if i < j - 1 { FlagStays(vset, es, i, j - 1, epoch); }
  }

  /** Two launches for one epoch in a run have a cleanup of that epoch between them. */
  lemma RelaunchNeedsCleanup(vset: ValidatorSet, es: seq<Event>, i: nat, j: nat, epoch: nat) returns (k: nat)
    requires vset.Valid() && Exec(vset, es).Some? && i < j < |es|
    requires FiresAt(vset, es, i, epoch) && FiresAt(vset, es, j, epoch)
    ensures i < k < j && es[k].Cleanup? && Removes(es[k].finalized, epoch)
  {
    if NoRemoval(es, i, j, epoch) {
      FlagStays(vset, es, i, j, epoch);
      assert false;
    } else {
      k :| i < k < j && k < |es| && es[k].Cleanup? && Removes(es[k].finalized, epoch);
    }
  }

  // ---------------------------------------------------------------- every launch saw a threshold

  /** Some earlier store of this caller left exactly the observed addresses on the shelf, enough of them. */
  ghost predicate Witnessed(vset: ValidatorSet, es: seq<Event>, g: nat, o: Observation)
    requires vset.Valid()
  {
    exists k :: WitnessAt(vset, es, k, g, o)
  }

  ghost predicate WitnessAt(vset: ValidatorSet, es: seq<Event>, k: nat, g: nat, o: Observation)
    requires vset.Valid()
  {
    && k < |es| && es[k].Receive? && es[k].g == g && es[k].sig.epoch == o.epoch
    && Exec(vset, es[..k + 1]).Some?
    && o.epoch in Exec(vset, es[..k + 1]).value.sigs
    && Exec(vset, es[..k + 1]).value.sigs[o.epoch].Keys == o.addresses
    && |o.addresses| >= RequiredSignatures(vset)
  }

  lemma WitnessExtends(vset: ValidatorSet, es: seq<Event>, e: Event, g: nat, o: Observation)
    requires vset.Valid() && Witnessed(vset, es, g, o)
    ensures Witnessed(vset, es + [e], g, o)
  {
    var k :| WitnessAt(vset, es, k, g, o);
    assert (es + [e])[..k + 1] == es[..k + 1];
    assert WitnessAt(vset, es + [e], k, g, o);
  }

  lemma NewWitness(vset: ValidatorSet, es: seq<Event>, s: State, e: Event)
    requires Reachable(vset, es, s) && e.Receive? && Enabled(s, e) && e.g in Step(vset, s, e).waiting
    ensures Witnessed(vset, es + [e], e.g, Step(vset, s, e).waiting[e.g])
  {
    var es' := es + [e];
    assert es'[..|es|] == es && es'[..|es| + 1] == es';
    var shelf := Put(ShelfOf(s.sigs, e.sig.epoch), e.sig);
    assert |shelf| == |shelf.Keys|;
    assert WitnessAt(vset, es', |es|, e.g, Step(vset, s, e).waiting[e.g]);
  }

  lemma {:induction false} WaitingWitnessed(vset: ValidatorSet, es: seq<Event>, s: State, g: nat)
    requires Reachable(vset, es, s) && g in s.waiting
    ensures Witnessed(vset, es, g, s.waiting[g])
  {
    var front, last := es[..|es| - 1], es[|es| - 1];
    var before := Exec(vset, front).value;
    assert es == front + [last];
    if g in before.waiting {
      WaitingWitnessed(vset, front, before, g);
      WitnessExtends(vset, front, last, g, before.waiting[g]);
    } else {
      NewWitness(vset, front, before, last);
    }
  }

  /** A launch follows a store after which at least the required number of distinct addresses had signed. */
  lemma LaunchSawThreshold(vset: ValidatorSet, es: seq<Event>, s: State, e: Event)
    requires Reachable(vset, es, s) && Fires(s, e)
    ensures Witnessed(vset, es, e.g, s.waiting[e.g]) && |s.waiting[e.g].addresses| >= RequiredSignatures(vset)
  {
    WaitingWitnessed(vset, es, s, e.g);
    var k :| WitnessAt(vset, es, k, e.g, s.waiting[e.g]);
  }

  // ---------------------------------------------------------------- what the store holds

  function Lookup(sigs: map<nat, Shelf>, epoch: nat, address: Address): (r: Option<Bytes>) {
    if epoch in sigs && address in sigs[epoch] then Some(sigs[epoch][address]) else None
  }

  predicate Delivers(e: Event, epoch: nat, address: Address) {
    e.Receive? && e.sig.epoch == epoch && e.sig.address == address && Screened(e.sig, e.local)
  }

  /** Events since this epoch was last cleaned up. */
  function Since(es: seq<Event>, epoch: nat): (r: seq<Event>) {
    if es == [] || (es[|es| - 1].Cleanup? && Removes(es[|es| - 1].finalized, epoch)) then []
    else Since(es[..|es| - 1], epoch) + [es[|es| - 1]]
  }

  /** `r` is the signature delivered first, or nothing if none was delivered. */
  ghost predicate IsFirst(es: seq<Event>, epoch: nat, address: Address, r: Option<Bytes>) {
    match r
    case None => forall k :: 0 <= k < |es| ==> !Delivers(es[k], epoch, address)
    case Some(signature) =>
      exists k :: 0 <= k < |es| && Delivers(es[k], epoch, address) && es[k].sig.signature == signature
                  && forall l :: 0 <= l < k ==> !Delivers(es[l], epoch, address)
  }

  lemma FirstExtends(es: seq<Event>, e: Event, epoch: nat, address: Address, r: Option<Bytes>)
    requires IsFirst(es, epoch, address, r)
    ensures r.Some? || !Delivers(e, epoch, address) ==> IsFirst(es + [e], epoch, address, r)
    ensures r.None? && Delivers(e, epoch, address) ==> IsFirst(es + [e], epoch, address, Some(e.sig.signature))
  {
    var es' := es + [e];
    if r.Some? {
      var k :| 0 <= k < |es| && Delivers(es[k], epoch, address) && es[k].sig.signature == r.value
               && forall l :: 0 <= l < k ==> !Delivers(es[l], epoch, address);
      assert es'[k] == es[k] && forall l :: 0 <= l < k ==> es'[l] == es[l];
    } else if Delivers(e, epoch, address) {
      assert es'[|es|] == e;
    }
  }

  lemma StepLookup(vset: ValidatorSet, s: State, e: Event, epoch: nat, address: Address)
    requires vset.Valid() && Enabled(s, e)
    ensures var was := Lookup(s.sigs, epoch, address);
            Lookup(Step(vset, s, e).sigs, epoch, address) ==
            if e.Cleanup? && Removes(e.finalized, epoch) then None
            else if was.None? && Delivers(e, epoch, address) then Some(e.sig.signature)
            else was
  {
  }

  /** The store holds, for each epoch and address, the first signature delivered since the last cleanup. */
  lemma {:induction false} FirstSignatureWins(vset: ValidatorSet, es: seq<Event>, s: State, epoch: nat, address: Address)
    requires Reachable(vset, es, s)
    ensures IsFirst(Since(es, epoch), epoch, address, Lookup(s.sigs, epoch, address))
  {
    if es != [] {
      var front, last := es[..|es| - 1], es[|es| - 1];
      var before := Exec(vset, front).value;
      FirstSignatureWins(vset, front, before, epoch, address);
      StepLookup(vset, before, last, epoch, address);
      FirstExtends(Since(front, epoch), last, epoch, address, Lookup(before.sigs, epoch, address));
    }
  }

  /** Every stored entry was received, by the node itself or with an address and a signature that are not empty. */
  lemma StoredWasScreened(vset: ValidatorSet, es: seq<Event>, s: State, epoch: nat, address: Address) returns (e: Event)
    requires Reachable(vset, es, s) && epoch in s.sigs && address in s.sigs[epoch]
    ensures e in es && e.Receive?
    ensures e.sig.epoch == epoch && e.sig.address == address && e.sig.signature == s.sigs[epoch][address]
    ensures e.local || (|e.sig.address| > 0 && |e.sig.signature| > 0)
  {
    FirstSignatureWins(vset, es, s, epoch, address);
    var since := Since(es, epoch);
    var k :| 0 <= k < |since| && Delivers(since[k], epoch, address) && since[k].sig.signature == s.sigs[epoch][address];
    e := since[k];
    SinceIsPart(es, epoch, k);
  }

  lemma {:induction false} SinceIsPart(es: seq<Event>, epoch: nat, k: nat)
    requires k < |Since(es, epoch)|
    ensures Since(es, epoch)[k] in es
  {
    if k < |Since(es, epoch)| - 1 { SinceIsPart(es[..|es| - 1], epoch, k); }
  }

  /** A cleanup removes every trace of exactly the epochs below `finalized - 3` and leaves the others alone. */
  lemma CleanupExact(s: State, finalized: nat, epoch: nat)
    ensures var s' := StepCleanup(s, finalized);
            && (epoch in s'.sigs <==> epoch in s.sigs && epoch >= finalized - 3)
            && (epoch in s'.sigs ==> s'.sigs[epoch] == s.sigs[epoch])
            && (epoch in s'.intents <==> epoch in s.intents && epoch >= finalized - 3)
            && (epoch in s'.intents ==> s'.intents[epoch] == s.intents[epoch])
            && (epoch in s'.triggered <==> epoch in s.triggered && epoch >= finalized - 3)
            && s'.waiting == s.waiting
  {
  }

  lemma ExecSnoc(vset: ValidatorSet, es: seq<Event>, s: State, e: Event)
    requires Reachable(vset, es, s) && Enabled(s, e)
    ensures Reachable(vset, es + [e], Step(vset, s, e))
  {
    assert (es + [e])[..|es|] == es;
  }

  // ---------------------------------------------------------------- a second launch

  /** Signatures from addresses of length 1 to n. */
  function Full(n: nat): (shelf: Shelf) {
    if n == 0 then map[] else Full(n - 1)[Name(n) := [1]]
  }

  lemma {:induction false} FullSize(n: nat)
    ensures |Full(n)| == n && forall a :: a in Full(n) ==> |a| <= n
  {
    if n > 0 {
      FullSize(n - 1);
      assert Name(n) !in Full(n - 1);
    }
  }

  /** The n-th signature for an epoch, delivered by caller n. */
  function Arrival(epoch: nat, n: nat): (e: Event) {
    Receive(n, BundleSignature(epoch, Name(n), [1]), false)
  }

  lemma ArrivalStep(vset: ValidatorSet, s: State, epoch: nat, n: nat)
    requires vset.Valid() && 0 < n && s.waiting == map[] && ShelfOf(s.sigs, epoch) == Full(n - 1)
    ensures var s' := Step(vset, s, Arrival(epoch, n));
            && epoch in s'.sigs && s'.sigs[epoch] == Full(n) && s'.triggered == s.triggered
            && s'.waiting == if n >= RequiredSignatures(vset) then map[n := Observation(epoch, Full(n).Keys)] else map[]
  {
    FullSize(n - 1);
    FullSize(n);
    assert Name(n) !in Full(n - 1);
  }

  lemma {:induction false} BelowThreshold(vset: ValidatorSet, epoch: nat, n: nat) returns (es: seq<Event>, s: State)
    requires vset.Valid() && n < RequiredSignatures(vset)
    ensures Reachable(vset, es, s) && |es| == n && s.waiting == map[] && s.triggered == {} && ShelfOf(s.sigs, epoch) == Full(n)
  {
    if n == 0 {
      es, s := [], Init();
    } else {
      var front, before := BelowThreshold(vset, epoch, n - 1);
      var e := Arrival(epoch, n);
      ExecSnoc(vset, front, before, e);
      ArrivalStep(vset, before, epoch, n);
      es, s := front + [e], Step(vset, before, e);
    }
  }

  /** The last signature again, by another caller, who also sees the threshold reached. */
  lemma RepeatStep(vset: ValidatorSet, s: State, epoch: nat, n: nat)
    requires vset.Valid() && 0 < n && n >= RequiredSignatures(vset) && epoch in s.sigs && s.sigs[epoch] == Full(n)
    requires 0 !in s.waiting
    ensures var s' := Step(vset, s, Receive(0, BundleSignature(epoch, Name(n), [1]), false));
            s'.waiting == s.waiting[0 := Observation(epoch, Full(n).Keys)] && s'.triggered == s.triggered && s'.sigs == s.sigs
  {
    FullSize(n);
    assert s.sigs[epoch := Full(n)] == s.sigs;
  }

  /**
   * "Once per epoch" is false across cleanups, for every validator set: a caller that was still waiting when its
   * epoch was cleaned up launches again, with nothing left in the store.
   */
  lemma WaitingCallerRelaunches(vset: ValidatorSet, epoch: nat, finalized: nat)
    returns (es: seq<Event>, s: State, first: nat, last: Event)
    requires vset.Valid() && Removes(finalized, epoch)
    ensures Reachable(vset, es, s) && first < |es| && FiresAt(vset, es, first, epoch)
    ensures Fires(s, last) && s.waiting[last.g].epoch == epoch && epoch !in s.sigs
  {
    var n := RequiredSignatures(vset);
    var es0, s0 := BelowThreshold(vset, epoch, n - 1);
    var e1, e2 := Arrival(epoch, n), Receive(0, BundleSignature(epoch, Name(n), [1]), false);
    ExecSnoc(vset, es0, s0, e1);
    ArrivalStep(vset, s0, epoch, n);
    var s1 := Step(vset, s0, e1);
    ExecSnoc(vset, es0 + [e1], s1, e2);
    RepeatStep(vset, s1, epoch, n);
    var s2 := Step(vset, s1, e2);
    es, s := LaunchAndClean(vset, es0 + [e1] + [e2], s2, n, epoch, finalized);
    first, last := |es0| + 2, TestAndSet(0, true);
  }

  /** One waiting caller launches, the epoch is cleaned up, and the others are still waiting. */
  lemma LaunchAndClean(vset: ValidatorSet, es: seq<Event>, s: State, g: nat, epoch: nat, finalized: nat)
    returns (es': seq<Event>, s': State)
    requires Reachable(vset, es, s) && g in s.waiting && s.waiting[g].epoch == epoch && epoch !in s.triggered
    requires Removes(finalized, epoch)
    ensures Reachable(vset, es', s') && |es'| == |es| + 2 && FiresAt(vset, es', |es|, epoch)
    ensures s'.waiting == s.waiting - {g} && epoch !in s'.sigs && epoch !in s'.triggered
  {
    var e1, e2 := TestAndSet(g, true), Cleanup(finalized);
    ExecSnoc(vset, es, s, e1);
    var s1 := Step(vset, s, e1);
    ExecSnoc(vset, es + [e1], s1, e2);
    es', s' := es + [e1] + [e2], Step(vset, s1, e2);
    assert es'[..|es|] == es && es'[|es|] == e1;
  }

  // ---------------------------------------------------------------- the store in place

  /** One loop of `cleanupOldEpochData`: delete while walking over the keys in any order. */
  method DropOld<V>(m: map<nat, V>, finalized: nat) returns (out: map<nat, V>)
    ensures out == Kept(m, finalized)
  {
    out := m;
    var rest := m.Keys;
    while rest != {}
      invariant rest <= m.Keys
      invariant out == map epoch | epoch in m && (epoch in rest || !Removes(finalized, epoch)) :: m[epoch]
      decreases |rest|
    {
      var epoch :| epoch in rest;
      if epoch + KeepRecentEpochs < finalized {
        out := out - {epoch};
      }
      rest := rest - {epoch};
    }
  }

  class EpochStore {
    const vset: ValidatorSet
    var epochValidationSignatures: map<nat, Shelf>
    var epochIntents: map<nat, seq<string>>
    var epochSubmissionTriggered: map<nat, bool>
    ghost var waiting: map<nat, Observation>

    ghost function Now(): State
      reads this
    {
      State(epochValidationSignatures, epochIntents, epochSubmissionTriggered.Keys, waiting)
    }

    /** The flag is only ever set to true. */
    ghost predicate Valid()
      reads this
    {
      vset.Valid() && forall epoch :: epoch in epochSubmissionTriggered ==> epochSubmissionTriggered[epoch]
    }

    constructor (vset: ValidatorSet)
      requires vset.Valid()
      ensures Valid() && Now() == Init() && this.vset == vset
    {
      this.vset := vset;
      epochValidationSignatures, epochIntents, epochSubmissionTriggered, waiting := map[], map[], map[], map[];
    }

    /** `storeEpochValidationSignature` behind the screening of its callers. */
    method Store(sig: BundleSignature, local: bool, ghost g: nat) returns (reached: bool, count: nat)
      requires Valid() && g !in waiting
      modifies this
      ensures Valid() && Now() == Step(vset, old(Now()), Receive(g, sig, local))
      ensures reached <==> g in waiting
      ensures Screened(sig, local) ==> count == |ShelfOf(epochValidationSignatures, sig.epoch)|
      ensures !local && (sig.address == "" || sig.signature == []) ==>
                !reached && epochValidationSignatures == old(epochValidationSignatures)
      ensures local || (sig.address != "" && sig.signature != []) ==>
                && sig.epoch in epochValidationSignatures && sig.address in epochValidationSignatures[sig.epoch]
                && (reached <==> |epochValidationSignatures[sig.epoch]| >= RequiredSignatures(vset))
    {
      if !local && (sig.address == "" || |sig.signature| == 0) { return false, 0; }
      if sig.epoch !in epochValidationSignatures {
        epochValidationSignatures := epochValidationSignatures[sig.epoch := map[]];
      }
      var signatures := epochValidationSignatures[sig.epoch];
      if sig.address !in signatures {
        signatures := signatures[sig.address := sig.signature];
        epochValidationSignatures := epochValidationSignatures[sig.epoch := signatures];
      }
      assert signatures == Put(ShelfOf(old(epochValidationSignatures), sig.epoch), sig);
      assert epochValidationSignatures == old(epochValidationSignatures)[sig.epoch := signatures];
      count := |signatures|;
      reached := CheckThreshold(vset, count);
      if reached { waiting := waiting[g := Observation(sig.epoch, signatures.Keys)]; }
    }

    method RecordIntents(epoch: nat, keys: seq<string>)
      requires Valid()
      modifies this
      ensures Valid() && Now() == Step(vset, old(Now()), Record(epoch, keys))
    {
      epochIntents := epochIntents[epoch := keys];
    }

    /** The test-and-set of the submission flag by a caller that saw the threshold reached. */
    method TriggerOnce(epoch: nat, leader: bool, ghost g: nat) returns (launch: bool)
      requires Valid() && g in waiting && waiting[g].epoch == epoch
      modifies this
      ensures Valid() && Now() == Step(vset, old(Now()), TestAndSet(g, leader))
      ensures launch == Fires(old(Now()), TestAndSet(g, leader))
      ensures launch == (leader && epoch !in old(epochSubmissionTriggered))
      ensures epoch in epochSubmissionTriggered <==> leader || epoch in old(epochSubmissionTriggered)
    {
      var alreadyTriggered := epoch in epochSubmissionTriggered && epochSubmissionTriggered[epoch];
      waiting := waiting - {g};
      launch := !alreadyTriggered && leader;
      if launch { epochSubmissionTriggered := epochSubmissionTriggered[epoch := true]; }
      assert Now().triggered == if leader then old(Now()).triggered + {epoch} else old(Now()).triggered;
    }

    method CleanupOldEpochData(finalized: nat)
      requires Valid()
      modifies this
      ensures Valid() && Now() == Step(vset, old(Now()), Cleanup(finalized))
    {
      if finalized > KeepRecentEpochs {
        epochValidationSignatures := DropOld(epochValidationSignatures, finalized);
        epochIntents := DropOld(epochIntents, finalized);
        epochSubmissionTriggered := DropOld(epochSubmissionTriggered, finalized);
      }
      assert Now().triggered == StepCleanup(old(Now()), finalized).triggered;
      assert Now().sigs == StepCleanup(old(Now()), finalized).sigs;
      assert Now().intents == StepCleanup(old(Now()), finalized).intents;
    }
  }
}
