/** The two signature-collecting machines (internal/consensus/fsm.go, internal/consensus/state_machine.go). */
module Collectors {
  import opened ByteStrings
  import opened Bitmaps
  import opened Validators
  import opened Hashing
  import opened SignerBitmap

  datatype Phase = Idle | Collecting | Finalized

  /** `FSM`: signers are kept only as a bitmap that grows on demand. */
  class Fsm {
    const vset: ValidatorSet
    const collectTimeout: int
    var state: Phase
    var header: Option<Header>
    var bitmap: Bitmap
    var collectDeadline: int
    var thresholdAt: Option<int>

    constructor (vset: ValidatorSet, collectTimeout: int)
      ensures this.vset == vset && this.collectTimeout == collectTimeout
      ensures state == Idle && header == None && bitmap == []
    {
      this.vset, this.collectTimeout := vset, collectTimeout;
      state, header, bitmap := Idle, None, [];
      collectDeadline, thresholdAt := 0, None;
    }

    /** The abstract state: which positions have signed. */
    ghost function Signers(): set<nat>
      reads this
    {
      Bits(bitmap)
    }

    method StartProposal(h: Option<Header>, now: int)
      modifies this
      ensures state == Collecting && header == h && Signers() == {} && bitmap == []
      ensures collectDeadline == now + collectTimeout && thresholdAt == None
    {
      state, header, bitmap := Collecting, h, [];
      collectDeadline, thresholdAt := now + collectTimeout, None;
    }

    /** `OnSignature`: ignored without a round; otherwise one signer is added and the threshold tested. */
    method OnSignature(idx: nat, now: int) returns (reached: bool, count: nat, required: nat)
      requires vset.Valid()
      modifies this
      ensures count == |Signers()| && required == RequiredSignatures(vset)
      ensures old(state == Idle || header == None) ==> !reached && unchanged(this)
      ensures old(!(state == Idle || header == None)) ==>
                && Signers() == old(Signers()) + {idx}
                && reached == (count >= required)
                && thresholdAt == (if reached then Some(now) else old(thresholdAt))
      ensures state == old(state) && header == old(header) && collectDeadline == old(collectDeadline)
    {
      required := RequiredSignatures(vset);
      if state == Idle || header == None {
        count := CountBits(bitmap);
        return false, count, required;
      }
      bitmap := SetBit(bitmap, idx);
      count := CountBits(bitmap);
      reached := count >= required;
      if reached { thresholdAt := Some(now); }
    }

    method Tick(now: int) returns (changed: bool)
      modifies this`state
      ensures changed == (old(state) == Collecting && now > collectDeadline)
      ensures state == if changed then Idle else old(state)
    {
      changed := state == Collecting && now > collectDeadline;
      if changed { state := Idle; }
    }

    method MoveToFinalized()
      modifies this`state
      ensures state == if old(state) == Collecting then Finalized else old(state)
    {
      if state == Collecting { state := Finalized; }
    }

    method Reset()
      modifies this
      ensures state == Idle && header == None && bitmap == [] && thresholdAt == None
    {
      state, header, bitmap := Idle, None, [];
      collectDeadline, thresholdAt := 0, None;
    }
  }

  /** `StateMachine`: signers are kept as a map of signatures and a bitmap of fixed size. */
  class StateMachine {
    const vset: ValidatorSet
    var state: Phase
    var header: Option<Header>
    var signatures: SignatureMap
    var signersBitmap: Bitmap

    ghost predicate Valid()
      reads this
    {
      && vset.Valid()
      && (state == Idle ==> signatures == map[])
      && Bits(signersBitmap) == SignerIndices(vset.validators, signatures.Keys)
      && (state != Idle ==> |signersBitmap| == BitmapSize(vset.validators))
    }

    constructor (vset: ValidatorSet)
      requires vset.Valid()
      ensures Valid() && this.vset == vset && state == Idle && header == None
    {
      this.vset := vset;
      state, header, signatures, signersBitmap := Idle, None, map[], [];
    }

    /** The abstract state: which positions of the set have signed. */
    ghost function Signers(): set<nat>
      reads this
    {
      SignerIndices(vset.validators, signatures.Keys)
    }

    method ProposeHeader(h: Option<Header>) returns (ok: bool)
      requires Valid()
      modifies this
      ensures Valid() && ok == (old(state) == Idle)
      ensures ok ==> state == Collecting && header == h && signatures == map[]
      ensures !ok ==> unchanged(this)
    {
      if state != Idle { return false; }
      header, signatures, state := h, map[], Collecting;
      signersBitmap := NoBits(BitmapSize(vset.validators));
      return true;
    }

    /** `AddSignature`: refused outside a round; the map and the bitmap stay in step. */
    method AddSignature(sig: Signature) returns (ok: bool)
      requires Valid()
      modifies this
      ensures Valid() && ok == (old(state) == Collecting)
      ensures !ok ==> unchanged(this)
      ensures ok ==> signatures == old(signatures)[sig.signerId := sig]
      ensures ok ==> var i := IndexFrom(vset.validators, sig.signerId);
                     Signers() == old(Signers()) + (if i >= 0 then {i as nat} else {})
      ensures state == old(state) && header == old(header)
    {
      if state != Collecting { return false; }
      SignerIndicesAdd(vset.validators, signatures.Keys, sig.signerId);
      assert signatures[sig.signerId := sig].Keys == signatures.Keys + {sig.signerId};
      signatures := signatures[sig.signerId := sig];
      var idx := IndexById(vset, sig.signerId);
      if idx >= 0 {
        signersBitmap := SetBit(signersBitmap, idx);
      }
      return true;
    }

    method HasThreshold() returns (ok: bool)
      requires Valid()
      ensures ok == CheckThreshold(vset, |signatures|)
    {
      ok := |signatures| >= RequiredSignatures(vset);
    }

    method Finalize() returns (ok: bool)
      requires Valid()
      modifies this`state
      ensures Valid() && ok == (old(state) == Collecting)
      ensures state == if ok then Finalized else old(state)
    {
      if state != Collecting { return false; }
      state := Finalized;
      return true;
    }

    method Reset()
      requires Valid()
      modifies this
      ensures Valid() && state == Idle && header == None && signatures == map[] && signersBitmap == []
    {
      state, header, signatures, signersBitmap := Idle, None, map[], [];
    }
  }

  // ---------------------------------------------------------------- one model for both

  lemma IndexOfIds(vs: seq<Validator>, ids: set<Id>)
    requires DistinctIds(vs)
    ensures |SignerIndices(vs, ids)| == CountOf(vs, ids)
    decreases |ids|
  {
    if ids == {} {
      EmptySums(vs);
      assert SignerIndices(vs, ids) == {};
    } else {
      var id :| id in ids;
      var rest := ids - {id};
      assert ids == rest + {id};
      IndexOfIds(vs, rest);
      AddOneId(vs, rest, id);
      SignerIndicesAdd(vs, rest, id);
      if IndexFrom(vs, id) >= 0 { assert IndexFrom(vs, id) !in SignerIndices(vs, rest); }
    }
  }

  /** The map counts every key, the bitmap only members: the two counts differ by the outsiders. */
  lemma CountsSplit(vs: ValidatorSet, ids: set<Id>)
    requires vs.Valid()
    ensures |ids| == |SignerIndices(vs.validators, ids)| + |ids - MemberIds(vs.validators)|
  {
    var m := MemberIds(vs.validators);
    IndexOfIds(vs.validators, ids);
    CountIsCardinality(vs.validators, ids);
    assert ids == (ids * m) + (ids - m);
    assert (ids * m) !! (ids - m);
  }

  /** The signers of the first k signatures. */
  function Ids(sigs: seq<Signature>, k: nat): (ids: set<Id>)
    requires k <= |sigs|
  {
    if k == 0 then {} else Ids(sigs, k - 1) + {sigs[k - 1].signerId}
  }

  /** The set-of-signers model: the positions that the first k signatures come from. */
  function Model(vs: ValidatorSet, sigs: seq<Signature>, k: nat): (s: set<nat>)
    requires k <= |sigs|
  {
    SignerIndices(vs.validators, Ids(sigs, k))
  }

  /** Distinct members among the first k signers. */
  function Members(vs: ValidatorSet, sigs: seq<Signature>, k: nat): (n: nat)
    requires k <= |sigs|
  {
    |Model(vs, sigs, k)|
  }

  /** Distinct signers among the first k that are not in the set. */
  function Outsiders(vs: ValidatorSet, sigs: seq<Signature>, k: nat): (n: nat)
    requires k <= |sigs|
  {
    |Ids(sigs, k) - MemberIds(vs.validators)|
  }

  /** Distinct members, and distinct signers of any kind, after a number of signatures of the sequence. */
  function MembersBy(vs: ValidatorSet, sigs: seq<Signature>): (count: nat -> nat) {
    (k: nat) => if k <= |sigs| then Members(vs, sigs, k) else 0
  }

  function SignersBy(vs: ValidatorSet, sigs: seq<Signature>): (count: nat -> nat) {
    (k: nat) => if k <= |sigs| then Members(vs, sigs, k) + Outsiders(vs, sigs, k) else 0
  }

  /** One report after each signature from the k-th to the n-th: has the count reached what is required? */
  function Reports(count: nat -> nat, required: nat, k: nat, n: nat): (r: seq<bool>)
    requires k <= n
    ensures |r| == n - k
    decreases n - k
  {
    if k == n then [] else [count(k + 1) >= required] + Reports(count, required, k + 1, n)
  }

  lemma {:induction false} ReportAt(count: nat -> nat, required: nat, k: nat, n: nat, j: nat)
    requires k <= j < n
    ensures Reports(count, required, k, n)[j - k] == (count(j + 1) >= required)
    decreases n - k
  {
    if k < j { ReportAt(count, required, k + 1, n, j); }
  }

  lemma ModelStep(vs: ValidatorSet, sigs: seq<Signature>, k: nat)
    requires k < |sigs| && vs.Valid()
    ensures var i := IndexFrom(vs.validators, sigs[k].signerId);
            Model(vs, sigs, k + 1) == Model(vs, sigs, k) + (if i >= 0 then {i as nat} else {})
  {
    SignerIndicesAdd(vs.validators, Ids(sigs, k), sigs[k].signerId);
  }

  /** The threshold of the set is this number. */
  ghost predicate Requires(vs: ValidatorSet, required: nat) {
    vs.Valid() && forall n: nat :: CheckThreshold(vs, n) <==> n >= required
  }

  /** The bitmap machine gets a signature only if it has a position for the signer; else its last report stands. */
  method OfferToFsm(fsm: Fsm, idx: int, now: int, was: bool, ghost required: nat) returns (reached: bool)
    requires Requires(fsm.vset, required) && fsm.state == Collecting && fsm.header != None
    requires was == (|fsm.Signers()| >= required)
    modifies fsm
    ensures fsm.state == Collecting && fsm.header == old(fsm.header) && fsm.collectDeadline == old(fsm.collectDeadline)
    ensures fsm.Signers() == old(fsm.Signers()) + (if idx >= 0 then {idx as nat} else {})
    ensures reached == (|fsm.Signers()| >= required)
  {
    if idx < 0 { return was; }
    var count, needed;
    reached, count, needed := fsm.OnSignature(idx, now);
    assert reached == CheckThreshold(fsm.vset, count);
  }

  /** The map machine gets every signature. */
  method OfferToMap(sm: StateMachine, sig: Signature, ghost required: nat) returns (enough: bool)
    requires sm.Valid() && sm.state == Collecting && Requires(sm.vset, required)
    modifies sm
    ensures sm.Valid() && sm.state == Collecting && sm.signatures.Keys == old(sm.signatures.Keys) + {sig.signerId}
    ensures enough == (|sm.signatures.Keys| >= required)
  {
    var _ := sm.AddSignature(sig);
    enough := sm.HasThreshold();
    assert |sm.signatures| == |sm.signatures.Keys|;
  }

  /** Both machines have seen the first k signatures of a round. */
  ghost predicate InStep(fsm: Fsm, sm: StateMachine, sigs: seq<Signature>, k: nat)
    reads fsm, sm
  {
    && k <= |sigs| && sm.Valid() && fsm.vset == sm.vset
    && fsm.state == Collecting && fsm.header != None && sm.state == Collecting
    && fsm.Signers() == Model(sm.vset, sigs, k) && sm.signatures.Keys == Ids(sigs, k)
  }

  /** One signature given to both machines, which keep the same member signers. */
  method OfferToBoth(fsm: Fsm, sm: StateMachine, sigs: seq<Signature>, k: nat, now: int, was: bool, ghost required: nat)
    returns (reached: bool, enough: bool)
    requires InStep(fsm, sm, sigs, k) && k < |sigs| && Requires(sm.vset, required)
    requires was == (|Model(sm.vset, sigs, k)| >= required)
    modifies fsm, sm
    ensures InStep(fsm, sm, sigs, k + 1) && fsm.collectDeadline == old(fsm.collectDeadline)
    ensures reached == (|Model(sm.vset, sigs, k + 1)| >= required) && enough == (|Ids(sigs, k + 1)| >= required)
  {
    ModelStep(sm.vset, sigs, k);
    var idx := IndexById(sm.vset, sigs[k].signerId);
    reached := OfferToFsm(fsm, idx, now, was, required);
    enough := OfferToMap(sm, sigs[k], required);
  }

  lemma CountsAfter(vs: ValidatorSet, sigs: seq<Signature>, k: nat)
    requires vs.Valid() && k <= |sigs|
    ensures MembersBy(vs, sigs)(k) == |Model(vs, sigs, k)| && SignersBy(vs, sigs)(k) == |Ids(sigs, k)|
  {
    CountsSplit(vs, Ids(sigs, k));
  }

  lemma ReportNext(vs: ValidatorSet, sigs: seq<Signature>, k: nat, required: nat, reached: bool, enough: bool)
    requires vs.Valid() && k < |sigs|
    requires reached == (|Model(vs, sigs, k + 1)| >= required) && enough == (|Ids(sigs, k + 1)| >= required)
    ensures var members, signers, n := MembersBy(vs, sigs), SignersBy(vs, sigs), |sigs|;
            && Reports(members, required, k, n) == [reached] + Reports(members, required, k + 1, n)
            && Reports(signers, required, k, n) == [enough] + Reports(signers, required, k + 1, n)
  {
    CountsAfter(vs, sigs, k + 1);
  }

  /** The rest of the signatures, one after the other. */
  method OfferRest(fsm: Fsm, sm: StateMachine, sigs: seq<Signature>, k: nat, now: int, was: bool, ghost required: nat)
    returns (byFsm: seq<bool>, bySm: seq<bool>)
    requires InStep(fsm, sm, sigs, k) && Requires(sm.vset, required) && was == (|Model(sm.vset, sigs, k)| >= required)
    modifies fsm, sm
    ensures InStep(fsm, sm, sigs, |sigs|) && fsm.collectDeadline == old(fsm.collectDeadline)
    ensures byFsm == Reports(MembersBy(sm.vset, sigs), required, k, |sigs|)
    ensures bySm == Reports(SignersBy(sm.vset, sigs), required, k, |sigs|)
    decreases |sigs| - k
  {
    if k == |sigs| { return [], []; }
    var reached, enough := OfferToBoth(fsm, sm, sigs, k, now, was, required);
    byFsm, bySm := OfferRest(fsm, sm, sigs, k + 1, now, reached, required);
    ReportNext(sm.vset, sigs, k, required, reached, enough);
    byFsm, bySm := [reached] + byFsm, [enough] + bySm;
  }

  /**
   * Both machines run side by side on any sequence of signatures, repeats and outsiders included. After every
   * step they hold the same member signers; the bitmap machine reports what members decide, the map machine what
   * members and outsiders decide; at the end the bitmaps agree up to trailing zero bytes.
   */
  method CollectBoth(fsm: Fsm, sm: StateMachine, sigs: seq<Signature>, now: int)
    returns (byFsm: seq<bool>, bySm: seq<bool>)
    requires sm.Valid() && fsm.vset == sm.vset
    requires fsm.state == Collecting && fsm.header != None && fsm.Signers() == {}
    requires sm.state == Collecting && sm.signatures == map[]
    modifies fsm, sm
    ensures sm.Valid() && fsm.state == sm.state == Collecting && fsm.collectDeadline == old(fsm.collectDeadline)
    ensures byFsm == FsmReports(sm.vset, sigs) && bySm == MapReports(sm.vset, sigs)
    ensures fsm.Signers() == sm.Signers() == Model(sm.vset, sigs, |sigs|)
    ensures SameUpToZeros(fsm.bitmap, sm.signersBitmap)
  {
    NothingReached(sm.vset, sigs);
    byFsm, bySm := OfferRest(fsm, sm, sigs, 0, now, false, RequiredSignatures(sm.vset));
    SameBitsSameBytes(fsm.bitmap, sm.signersBitmap);
  }

  lemma NothingReached(vs: ValidatorSet, sigs: seq<Signature>)
    requires vs.Valid()
    ensures Model(vs, sigs, 0) == {} && Outsiders(vs, sigs, 0) == 0 && Members(vs, sigs, 0) == 0 < RequiredSignatures(vs)
  {
    assert Model(vs, sigs, 0) == {};
    assert Ids(sigs, 0) - MemberIds(vs.validators) == {};
  }

  lemma {:induction false} NoOutsiders(vs: ValidatorSet, sigs: seq<Signature>, k: nat)
    requires k <= |sigs| && forall i :: 0 <= i < k ==> IndexFrom(vs.validators, sigs[i].signerId) >= 0
    ensures Ids(sigs, k) <= MemberIds(vs.validators)
  {
    if k > 0 { NoOutsiders(vs, sigs, k - 1); }
  }

  /** The reports of the bitmap machine and of the map machine in a run on these signatures. */
  function FsmReports(vs: ValidatorSet, sigs: seq<Signature>): (r: seq<bool>)
    requires vs.Valid()
    ensures |r| == |sigs|
  {
    Reports(MembersBy(vs, sigs), RequiredSignatures(vs), 0, |sigs|)
  }

  function MapReports(vs: ValidatorSet, sigs: seq<Signature>): (r: seq<bool>)
    requires vs.Valid()
    ensures |r| == |sigs|
  {
    Reports(SignersBy(vs, sigs), RequiredSignatures(vs), 0, |sigs|)
  }

  /**
   * In any run the reports of the two machines differ at a step exactly if members alone are still short of the
   * threshold and outsiders make up for it.
   */
  lemma OutsidersDecideDisagreement(vs: ValidatorSet, sigs: seq<Signature>, j: nat)
    requires vs.Valid() && j < |sigs|
    ensures FsmReports(vs, sigs)[j] != MapReports(vs, sigs)[j]
            <==> var members := Members(vs, sigs, j + 1);
                 members < RequiredSignatures(vs) <= members + Outsiders(vs, sigs, j + 1)
  {
    assert MembersBy(vs, sigs)(j + 1) == Members(vs, sigs, j + 1);
    assert SignersBy(vs, sigs)(j + 1) == Members(vs, sigs, j + 1) + Outsiders(vs, sigs, j + 1);
    ReportAt(MembersBy(vs, sigs), RequiredSignatures(vs), 0, |sigs|, j);
    ReportAt(SignersBy(vs, sigs), RequiredSignatures(vs), 0, |sigs|, j);
  }

  /** While only members have signed the reports never differ. */
  lemma MembersReportAlike(vs: ValidatorSet, sigs: seq<Signature>, j: nat)
    requires vs.Valid() && j < |sigs|
    requires forall i :: 0 <= i <= j ==> IndexFrom(vs.validators, sigs[i].signerId) >= 0
    ensures FsmReports(vs, sigs)[j] == MapReports(vs, sigs)[j]
  {
    NoOutsiders(vs, sigs, j + 1);
    assert Ids(sigs, j + 1) - MemberIds(vs.validators) == {};
    OutsidersDecideDisagreement(vs, sigs, j);
  }

  /** The report after the last signature; there is none without signatures. */
  predicate Final(r: seq<bool>) { |r| > 0 && r[|r| - 1] }

  lemma FinalReport(count: nat -> nat, required: nat, n: nat)
    requires count(0) < required
    ensures Final(Reports(count, required, 0, n)) <==> count(n) >= required
  {
    if n > 0 { ReportAt(count, required, 0, n, n - 1); }
  }

  /** The last report of the bitmap machine is about members, that of the map machine about all signers. */
  lemma FinalReports(vs: ValidatorSet, sigs: seq<Signature>)
    requires vs.Valid()
    ensures var members := Members(vs, sigs, |sigs|);
            && (Final(FsmReports(vs, sigs)) <==> members >= RequiredSignatures(vs))
            && (Final(MapReports(vs, sigs)) <==> members + Outsiders(vs, sigs, |sigs|) >= RequiredSignatures(vs))
  {
    NothingReached(vs, sigs);
    FinalReport(MembersBy(vs, sigs), RequiredSignatures(vs), |sigs|);
    FinalReport(SignersBy(vs, sigs), RequiredSignatures(vs), |sigs|);
  }

  // ---------------------------------------------------------------- a sequence that separates them

  /** Signatures of `n` distinct signers with names longer than `longest`. */
  function Strangers(longest: nat, n: nat): (sigs: seq<Signature>)
    ensures |sigs| == n && forall i :: 0 <= i < n ==> |sigs[i].signerId| == longest + i + 1
  {
    if n == 0 then [] else Strangers(longest, n - 1) + [Signature(Name(longest + n), [1], [])]
  }

  function Longest(vs: seq<Validator>): (n: nat)
    ensures forall i :: 0 <= i < |vs| ==> |vs[i].id| <= n
  {
    if vs == [] then 0
    else
      var rest := Longest(vs[1..]);
      if |vs[0].id| > rest then |vs[0].id| else rest
  }

  lemma {:induction false} StrangerIds(sigs: seq<Signature>, longest: nat, k: nat)
    requires k <= |sigs| && forall i :: 0 <= i < |sigs| ==> |sigs[i].signerId| == longest + i + 1
    ensures |Ids(sigs, k)| == k && forall id :: id in Ids(sigs, k) ==> longest < |id| <= longest + k
  {
    if k > 0 { StrangerIds(sigs, longest, k - 1); }
  }

  lemma StrangersCount(vs: ValidatorSet, n: nat)
    requires vs.Valid()
    ensures var sigs := Strangers(Longest(vs.validators), n); Members(vs, sigs, n) == 0 && Outsiders(vs, sigs, n) == n
  {
    var longest := Longest(vs.validators);
    var sigs := Strangers(longest, n);
    StrangerIds(sigs, longest, n);
    assert Model(vs, sigs, n) == {};
    CountsSplit(vs, Ids(sigs, n));
  }

  /** For every set there is a sequence, all from outsiders, after which only the map machine reports the threshold. */
  lemma StrangersSeparate(vs: ValidatorSet) returns (sigs: seq<Signature>)
    requires vs.Valid()
    ensures !Final(FsmReports(vs, sigs)) && Final(MapReports(vs, sigs))
  {
    var n := RequiredSignatures(vs);
    sigs := Strangers(Longest(vs.validators), n);
    StrangersCount(vs, n);
    FinalReports(vs, sigs);
  }

  // ---------------------------------------------------------------- a whole round

  /** Finalize whichever machine reported the threshold last; otherwise the bitmap machine's clock runs on. */
  method EndRound(fsm: Fsm, sm: StateMachine, reached: bool, enough: bool, end: int)
    requires sm.Valid() && fsm.state == sm.state == Collecting
    modifies fsm`state, sm`state
    ensures sm.Valid() && (fsm.state == Finalized <==> reached) && (sm.state == Finalized <==> enough)
    ensures fsm.state == Idle <==> !reached && end > fsm.collectDeadline
  {
    if reached {
      fsm.MoveToFinalized();
    } else {
      var _ := fsm.Tick(end);
    }
    if enough {
      var _ := sm.Finalize();
    }
  }

  /**
   * One round on both machines: start, collect, end. Each ends finalized exactly if its last report says so;
   * short of that the bitmap machine goes idle exactly if its deadline has passed.
   */
  method RunRound(fsm: Fsm, sm: StateMachine, h: Header, sigs: seq<Signature>, now: int, end: int)
    requires sm.Valid() && fsm.vset == sm.vset && sm.state == Idle
    modifies fsm, sm
    ensures sm.Valid() && (sm.state == Finalized <==> Final(MapReports(sm.vset, sigs)))
    ensures fsm.state == Finalized <==> Final(FsmReports(sm.vset, sigs))
    ensures fsm.state == Idle <==> !Final(FsmReports(sm.vset, sigs)) && end > now + fsm.collectTimeout
  {
    fsm.StartProposal(Some(h), now);
    var _ := sm.ProposeHeader(Some(h));
    var byFsm, bySm := CollectBoth(fsm, sm, sigs, now);
    EndRound(fsm, sm, Final(byFsm), Final(bySm), end);
  }

  /**
   * A round ends with the map machine finalized and the bitmap machine not exactly if members alone are short of
   * the threshold and outsiders make up for it; the opposite never happens.
   */
  lemma RoundsEndApart(vs: ValidatorSet, sigs: seq<Signature>)
    requires vs.Valid()
    ensures !Final(FsmReports(vs, sigs)) && Final(MapReports(vs, sigs))
            <==> var members := Members(vs, sigs, |sigs|);
                 members < RequiredSignatures(vs) <= members + Outsiders(vs, sigs, |sigs|)
    ensures Final(FsmReports(vs, sigs)) ==> Final(MapReports(vs, sigs))
  {
    FinalReports(vs, sigs);
  }
}
