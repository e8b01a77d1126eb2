/** What a finalizer copies after a reset, and how often finalizers are launched between resets. */
module CheckpointResets {
  import opened ByteStrings
  import opened Sets
  import opened Validators
  import opened Hashing
  import opened SignerBitmap
  import opened CheckpointProtocol
  import opened CheckpointTheorems

  // ---------------------------------------------------------------- the signers since a reset

  /** The threshold test on a set of signers. */
  predicate ReachedBy(vset: ValidatorSet, ids: set<Id>)
    requires vset.Valid()
  {
    if TotalWeight(vset.validators) > 0 then MeetsWeight(vset, ids) else CheckThreshold(vset, |ids|)
  }

  lemma ReachedIsByIds(vset: ValidatorSet, sigs: SignatureMap)
    requires vset.Valid()
    ensures Reached(vset, sigs) <==> ReachedBy(vset, sigs.Keys)
  {
    assert |sigs| == |sigs.Keys|;
  }

  /** The header that a reset makes current. */
  function NewHeader(cfg: Config, s: State, e: Event): (h: Header)
    requires Resets(e) && (e.Install? ==> e.k in s.built)
  {
    match e
    case Commit(h, _) => Committed(cfg.hash, s.log, h)
    case Install(k, der, bitmap) =>
      s.built[k].(signatures := Some(Signatures([der.value], Some(bitmap), 1, OwnWeight(cfg))))
  }

  function OwnSigner(cfg: Config, e: Event): (ids: set<Id>)
    requires Resets(e)
  {
    if e.der.Some? then {cfg.id} else {}
  }

  /** The event brings a good signature for this header. */
  predicate Brings(cfg: Config, h: Header, e: Event) {
    e.Gossip? && Passes(cfg, h, e.sig, e.claimed)
  }

  /** The signers whose good signatures for this header arrive in these events. */
  function Offered(cfg: Config, h: Header, es: seq<Event>): (ids: set<Id>) {
    if es == [] then {}
    else
      var last := es[|es| - 1];
      Offered(cfg, h, es[..|es| - 1]) + (if Brings(cfg, h, last) then {last.sig.signerId} else {})
  }

  lemma ResetLeavesOwn(cfg: Config, s: State, e: Event)
    requires cfg.vset.Valid() && Enabled(cfg, s, e) && Resets(e)
    ensures var s' := Step(cfg, s, e);
            s'.current == Some(NewHeader(cfg, s, e)) && s'.sigs.Keys == OwnSigner(cfg, e) && s'.launches == s.launches
  {
  }

  lemma StepSigners(cfg: Config, s: State, e: Event)
    requires cfg.vset.Valid() && Enabled(cfg, s, e) && !Resets(e) && s.current.Some?
    ensures var s' := Step(cfg, s, e);
            && s'.current == s.current
            && s'.sigs.Keys == s.sigs.Keys + (if Brings(cfg, s.current.value, e) then {e.sig.signerId} else {})
  {
  }

  lemma {:induction false} SignersSince(cfg: Config, s: State, es: seq<Event>)
    requires cfg.vset.Valid() && s.current.Some? && NoReset(es) && Exec(cfg, s, es).Some?
    ensures var s' := Exec(cfg, s, es).value;
            s'.current == s.current && s'.sigs.Keys == s.sigs.Keys + Offered(cfg, s.current.value, es)
  {
    if es != [] {
      SignersSince(cfg, s, es[..|es| - 1]);
      StepSigners(cfg, Exec(cfg, s, es[..|es| - 1]).value, es[|es| - 1]);
    }
  }

  /**
   * Whatever happens between a reset and a copy, short of another reset, the finalizer copies the new header. Its
   * signers are the node itself, if it signed, and those whose good signatures arrived since; the copy has a
   * quorum exactly if these reach the threshold.
   */
  lemma ResetBeforeCopy(cfg: Config, s: State, e: Event, more: seq<Event>, s': State)
    requires cfg.vset.Valid() && Enabled(cfg, s, e) && Resets(e)
    requires NoReset(more) && Exec(cfg, Step(cfg, s, e), more) == Some(s') && Enabled(cfg, s', Copy)
    ensures var h := NewHeader(cfg, s, e);
            var ids := OwnSigner(cfg, e) + Offered(cfg, h, more);
            && s'.current == Some(h)
            && var copy := StepCopy(s').copies[|s'.copies|];
               copy.header == h && copy.sigs.Keys == ids && (Reached(cfg.vset, copy.sigs) <==> ReachedBy(cfg.vset, ids))
  {
    ResetLeavesOwn(cfg, s, e);
    SignersSince(cfg, Step(cfg, s, e), more);
    ReachedIsByIds(cfg.vset, s'.sigs);
  }

  // ---------------------------------------------------------------- launches between resets

  function Checks(es: seq<Event>): (n: nat) {
    if es == [] then 0 else Checks(es[..|es| - 1]) + (if es[|es| - 1].Check? then 1 else 0)
  }

  lemma StepLaunches(cfg: Config, s: State, e: Event)
    requires cfg.vset.Valid() && Enabled(cfg, s, e) && !Resets(e)
    ensures var s' := Step(cfg, s, e);
            |s'.launches| - |s.launches| <= |s'.sigs| - |s.sigs| + (if e.Check? then 1 else 0)
  {
    if e.Gossip? && Accepts(cfg, s, e.sig, e.claimed) {
      assert |s.sigs[e.sig.signerId := e.sig]| == |s.sigs| + 1;
    }
  }

  lemma {:induction false} LaunchesSince(cfg: Config, s: State, es: seq<Event>)
    requires cfg.vset.Valid() && NoReset(es) && Exec(cfg, s, es).Some?
    ensures var s' := Exec(cfg, s, es).value;
            |s'.launches| - |s.launches| <= |s'.sigs| - |s.sigs| + Checks(es)
  {
    if es != [] {
      LaunchesSince(cfg, s, es[..|es| - 1]);
      StepLaunches(cfg, Exec(cfg, s, es[..|es| - 1]).value, es[|es| - 1]);
    }
  }

  lemma {:induction false} OfferedAreMembers(cfg: Config, h: Header, es: seq<Event>)
    ensures Offered(cfg, h, es) <= MemberIds(cfg.vset.validators)
  {
    if es != [] { OfferedAreMembers(cfg, h, es[..|es| - 1]); }
  }

  lemma MembersAtMost(vs: seq<Validator>)
    requires DistinctIds(vs)
    ensures |MemberIds(vs)| <= |vs|
  {
    CountIsCardinality(vs, MemberIds(vs));
    assert MemberIds(vs) * MemberIds(vs) == MemberIds(vs);
  }

  /**
   * Every signature past the threshold launches again, but not without end: the launches for one header are at
   * most one for each other validator whose good signature arrived and one for each post-commit check.
   */
  lemma LaunchesPerHeader(cfg: Config, s: State, e: Event, more: seq<Event>, s': State)
    requires cfg.vset.Valid() && Enabled(cfg, s, e) && Resets(e)
    requires NoReset(more) && Exec(cfg, Step(cfg, s, e), more) == Some(s')
    ensures var others := Offered(cfg, NewHeader(cfg, s, e), more) - OwnSigner(cfg, e);
            && |s'.launches| - |s.launches| <= |others| + Checks(more)
            && |others| <= |cfg.vset.validators|
  {
    ResetLeavesOwn(cfg, s, e);
    LaunchesOnHeader(cfg, Step(cfg, s, e), more);
    OfferedAreMembers(cfg, NewHeader(cfg, s, e), more);
    MembersAtMost(cfg.vset.validators);
    SubsetSize(Offered(cfg, NewHeader(cfg, s, e), more) - OwnSigner(cfg, e), MemberIds(cfg.vset.validators));
  }

  lemma LaunchesOnHeader(cfg: Config, s: State, es: seq<Event>)
    requires cfg.vset.Valid() && s.current.Some? && NoReset(es) && Exec(cfg, s, es).Some?
    ensures var s' := Exec(cfg, s, es).value;
            |s'.launches| - |s.launches| <= |Offered(cfg, s.current.value, es) - s.sigs.Keys| + Checks(es)
  {
    SignersSince(cfg, s, es);
    LaunchesSince(cfg, s, es);
    SizeOfUnion(s.sigs.Keys, Offered(cfg, s.current.value, es));
    assert |s.sigs| == |s.sigs.Keys|;
    var more := Exec(cfg, s, es).value.sigs;
    assert |more| == |more.Keys|;
  }

  lemma SizeOfUnion<T>(a: set<T>, b: set<T>)
    ensures |a + b| == |a| + |b - a|
  {
    assert a + b == a + (b - a);
  }

  // ---------------------------------------------------------------- the exact number of launches

  /** What a leading node does with an event when these have signed for its header. */
  predicate Launches(cfg: Config, h: Header, signed: set<Id>, e: Event)
    requires cfg.vset.Valid()
  {
    || (e.Check? && ReachedBy(cfg.vset, signed))
    || (Brings(cfg, h, e) && e.sig.signerId !in signed && ReachedBy(cfg.vset, signed + {e.sig.signerId}))
  }

  /** How many of the events launch: checks, and good signatures of new signers, at which the threshold is reached. */
  function LaunchCount(cfg: Config, h: Header, signed: set<Id>, es: seq<Event>): (n: nat)
    requires cfg.vset.Valid()
  {
    if es == [] then 0
    else
      var front, last := es[..|es| - 1], es[|es| - 1];
      LaunchCount(cfg, h, signed, front) + (if Launches(cfg, h, signed + Offered(cfg, h, front), last) then 1 else 0)
  }

  lemma GossipLaunchesExactly(cfg: Config, s: State, sig: Signature, claimed: Bytes)
    requires cfg.vset.Valid() && s.current.Some?
    ensures |StepGossip(cfg, s, sig, claimed, true).launches| ==
            |s.launches| + (if Launches(cfg, s.current.value, s.sigs.Keys, Gossip(sig, claimed, true)) then 1 else 0)
  {
    var more := s.sigs[sig.signerId := sig];
    assert more.Keys == s.sigs.Keys + {sig.signerId};
    ReachedIsByIds(cfg.vset, more);
  }

  lemma CheckLaunchesExactly(cfg: Config, s: State)
    requires cfg.vset.Valid() && s.current.Some?
    ensures |LaunchIf(cfg, s, true).launches| == |s.launches| + (if ReachedBy(cfg.vset, s.sigs.Keys) then 1 else 0)
  {
    ReachedIsByIds(cfg.vset, s.sigs);
  }

  lemma StepLaunchesExactly(cfg: Config, s: State, e: Event)
    requires cfg.vset.Valid() && Enabled(cfg, s, e) && !Resets(e) && s.current.Some? && ((e.Gossip? || e.Check?) ==> e.leader)
    ensures |Step(cfg, s, e).launches| ==
            |s.launches| + (if Launches(cfg, s.current.value, s.sigs.Keys, e) then 1 else 0)
  {
    match e
    case Gossip(sig, claimed, leader) => GossipLaunchesExactly(cfg, s, sig, claimed);
    case Check(leader) => CheckLaunchesExactly(cfg, s.(checks := s.checks - 1));
    case _ =>
  }

  lemma {:induction false} LaunchesExactly(cfg: Config, s: State, es: seq<Event>)
    requires cfg.vset.Valid() && s.current.Some? && NoReset(es) && AlwaysLeads(es) && Exec(cfg, s, es).Some?
    ensures |Exec(cfg, s, es).value.launches| == |s.launches| + LaunchCount(cfg, s.current.value, s.sigs.Keys, es)
  {
    if es != [] {
      var front := es[..|es| - 1];
      LaunchesExactly(cfg, s, front);
      SignersSince(cfg, s, front);
      StepLaunchesExactly(cfg, Exec(cfg, s, front).value, es[|es| - 1]);
    }
  }

  /** On a node that leads, the launches for a header are exactly the events at which its signers reach the threshold. */
  lemma LaunchesPerHeaderExactly(cfg: Config, s: State, e: Event, more: seq<Event>, s': State)
    requires cfg.vset.Valid() && Enabled(cfg, s, e) && Resets(e)
    requires NoReset(more) && AlwaysLeads(more) && Exec(cfg, Step(cfg, s, e), more) == Some(s')
    ensures |s'.launches| == |s.launches| + LaunchCount(cfg, NewHeader(cfg, s, e), OwnSigner(cfg, e), more)
  {
    ResetLeavesOwn(cfg, s, e);
    LaunchesExactly(cfg, Step(cfg, s, e), more);
  }

  // ---------------------------------------------------------------- two runs

  /** Before the first commit nothing is refused, so the header becomes current as it is. */
  lemma FirstCommit(cfg: Config, h: Header, der: Bytes)
    requires cfg.vset.Valid() && cfg.signs(ComputeHash(cfg.hash, h), der)
    ensures Reachable(cfg, [Commit(h, Some(der))], Step(cfg, Init(), Commit(h, Some(der))))
    ensures var s := Step(cfg, Init(), Commit(h, Some(der)));
            && s.current == Some(h) && s.sigs.Keys == {cfg.id} && s.log == [h] && s.launches == [] && s.copies == []
            && s.running == 0 && s.checks == 1
  {
    assert Reachable(cfg, [], Init());
    ExecSnoc(cfg, [], Init(), Commit(h, Some(der)));
    assert [] + [Commit(h, Some(der))] == [Commit(h, Some(der))];
  }

  /** A good signature of another validator, which completes a quorum on a leader. */
  lemma GossipLaunches(cfg: Config, s: State, sig: Signature)
    requires cfg.vset.Valid() && s.current.Some? && s.sigs.Keys == {cfg.id} && sig.signerId != cfg.id
    requires Passes(cfg, s.current.value, sig, []) && ReachedBy(cfg.vset, {cfg.id, sig.signerId})
    ensures var s' := Step(cfg, s, Gossip(sig, [], true));
            && s'.launches == s.launches + [Pair(s.current.value, s'.sigs)] && s'.running == s.running + 1
            && s'.sigs.Keys == {cfg.id, sig.signerId} && Reached(cfg.vset, s'.sigs)
            && s'.current == s.current && s'.log == s.log && s'.copies == s.copies
  {
    var more := s.sigs[sig.signerId := sig];
    assert more.Keys == {cfg.id, sig.signerId};
    ReachedIsByIds(cfg.vset, more);
  }

  /**
   * A run from the start in which a launched finalizer copies a pair without a quorum: commit, the signature that
   * completes a quorum and the launch, another commit, the copy. For any node that is not a quorum by itself, any
   * hash and any keys that produce and accept the signatures used.
   */
  lemma QuorumLostInARun(cfg: Config, g: Header, h: Header, sig: Signature, first: Bytes, second: Bytes)
    returns (es: seq<Event>, s: State)
    requires cfg.vset.Valid() && sig.signerId != cfg.id
    requires !ReachedBy(cfg.vset, {cfg.id}) && ReachedBy(cfg.vset, {cfg.id, sig.signerId})
    requires cfg.signs(ComputeHash(cfg.hash, g), first) && Passes(cfg, g, sig, [])
    requires cfg.signs(ComputeHash(cfg.hash, Committed(cfg.hash, [g], h)), second)
    ensures Reachable(cfg, es, s) && |s.launches| == 1 && |s.copies| == 1
    ensures Reached(cfg.vset, s.launches[0].sigs) && s.launches[0].header == g
    ensures !Reached(cfg.vset, s.copies[0].sigs)
  {
    var e1, e2, e3 := Commit(g, Some(first)), Gossip(sig, [], true), Commit(h, Some(second));
    FirstCommit(cfg, g, first);
    var s1 := Step(cfg, Init(), e1);
    GossipLaunches(cfg, s1, sig);
    ExecSnoc(cfg, [e1], s1, e2);
    var s2 := Step(cfg, s1, e2);
    ExecSnoc(cfg, [e1] + [e2], s2, e3);
    var s3 := Step(cfg, s2, e3);
    ExecSnoc(cfg, [e1] + [e2] + [e3], s3, Copy);
    es, s := [e1] + [e2] + [e3] + [Copy], Step(cfg, s3, Copy);
    assert s.copies[0].sigs.Keys == {cfg.id};
    ReachedIsByIds(cfg.vset, s.copies[0].sigs);
  }

  /**
   * A run in which one header is launched twice: by the post-commit check of a node that is a quorum by itself, and
   * by the signature that follows.
   */
  lemma LaunchedTwiceInARun(cfg: Config, h: Header, sig: Signature, der: Bytes) returns (es: seq<Event>, s: State)
    requires cfg.vset.Valid() && sig.signerId != cfg.id
    requires ReachedBy(cfg.vset, {cfg.id}) && ReachedBy(cfg.vset, {cfg.id, sig.signerId})
    requires cfg.signs(ComputeHash(cfg.hash, h), der) && Passes(cfg, h, sig, [])
    ensures Reachable(cfg, es, s) && |s.launches| == 2 && s.launches[0].header == s.launches[1].header == h
  {
    var e1, e2, e3 := Commit(h, Some(der)), Check(true), Gossip(sig, [], true);
    FirstCommit(cfg, h, der);
    var s1 := Step(cfg, Init(), e1);
    ReachedIsByIds(cfg.vset, s1.sigs);
    ExecSnoc(cfg, [e1], s1, e2);
    var s2 := Step(cfg, s1, e2);
    GossipLaunches(cfg, s2, sig);
    ExecSnoc(cfg, [e1] + [e2], s2, e3);
    es, s := [e1] + [e2] + [e3], Step(cfg, s2, e3);
  }

  /** Two validators of weight one, whatever the hash, the keys and what they accept. */
  ghost predicate TwoValidators(cfg: Config, num: int, den: int) {
    && cfg.id == "a" && cfg.vset.num == num && cfg.vset.den == den && cfg.vset.minValidators <= 2
    && |cfg.vset.validators| == 2 && cfg.vset.validators[0].id == "a" && cfg.vset.validators[1].id == "b"
    && cfg.vset.validators[0].weight == 1 && cfg.vset.validators[1].weight == 1
  }

  lemma TwoWeights(cfg: Config, num: int, den: int)
    requires TwoValidators(cfg, num, den)
    ensures var vs := cfg.vset.validators; TotalWeight(vs) == 2 && WeightOf(vs, {"a"}) == 1 && WeightOf(vs, {"a", "b"}) == 2
  {
    var vs := cfg.vset.validators;
    var tail := vs[1..];
    assert tail[0] == vs[1] && tail[1..] == [];
    assert TotalWeight(tail) == 1 + TotalWeight([]);
    assert WeightOf(tail, {"a"}) == 0 + WeightOf([], {"a"}) && WeightOf(tail, {"a", "b"}) == 1 + WeightOf([], {"a", "b"});
  }

  /** Sets as the two runs need them: of two validators both are required, or one of them is enough. */
  lemma TwoThresholds(cfg: Config)
    ensures TwoValidators(cfg, 1, 1) ==> cfg.vset.Valid() && !ReachedBy(cfg.vset, {"a"}) && ReachedBy(cfg.vset, {"a", "b"})
    ensures TwoValidators(cfg, 1, 2) ==> cfg.vset.Valid() && ReachedBy(cfg.vset, {"a"}) && ReachedBy(cfg.vset, {"a", "b"})
  {
    if TwoValidators(cfg, 1, 1) {
      TwoWeights(cfg, 1, 1);
      assert RequiredWeight(cfg.vset) == 2;
    } else if TwoValidators(cfg, 1, 2) {
      TwoWeights(cfg, 1, 2);
      assert RequiredWeight(cfg.vset) == 1;
    }
  }
}
