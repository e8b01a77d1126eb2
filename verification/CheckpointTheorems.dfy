/** What the checkpoint protocol guarantees over every run. */
module CheckpointTheorems {
  import opened ByteStrings
  import opened Sets
  import opened Sorting
  import opened Validators
  import opened Hashing
  import opened SignerBitmap
  import opened Chain
  import opened CheckpointProtocol

  ghost predicate Reachable(cfg: Config, es: seq<Event>, s: State) {
    cfg.vset.Valid() && Exec(cfg, Init(), es) == Some(s)
  }

  // ---------------------------------------------------------------- signatures, launches, copies

  /** Every collected signature is the node's own over the current header's hash or was verified against it. */
  lemma CollectedSignaturesCertified(cfg: Config, es: seq<Event>, s: State, id: Id)
    requires Reachable(cfg, es, s) && id in s.sigs
    ensures s.current.Some? && Certified(cfg, s.current.value, id, s.sigs[id])
  {
    RunsKeepInv(cfg, es);
  }

  /**
   * The signature was made by the node's own key over this header's hash, or the key of the validator with this id
   * accepts it over this header's hash.
   */
  ghost predicate SignedOver(cfg: Config, h: Header, id: Id, sig: Signature) {
    && sig.signerId == id
    && (|| (id == cfg.id && cfg.signs(cfg.hash(Preimage(h)), sig.der))
        || exists i :: 0 <= i < |cfg.vset.validators| && cfg.vset.validators[i].id == id && sig.der != []
                       && cfg.verify(cfg.vset.validators[i].pubKey, cfg.hash(Preimage(h)), sig.der))
  }

  ghost predicate AllSignedOver(cfg: Config, h: Header, sigs: SignatureMap) {
    forall id :: id in sigs ==> SignedOver(cfg, h, id, sigs[id])
  }

  lemma ConsistentIsSigned(cfg: Config, p: Pair)
    requires Consistent(cfg, p)
    ensures AllSignedOver(cfg, p.header, p.sigs)
  {
    forall id | id in p.sigs ensures SignedOver(cfg, p.header, id, p.sigs[id]) {
      assert Certified(cfg, p.header, id, p.sigs[id]);
    }
  }

  /**
   * Over every run, whatever the message hash a signature claims: what the node holds is signed over the hash of its
   * current header, what it held at a launch over that of the header launched, and what a finalizer took over that of
   * the header it took.
   */
  lemma SignedOverTheirHeader(cfg: Config, es: seq<Event>, s: State)
    requires Reachable(cfg, es, s)
    ensures s.sigs != map[] ==> s.current.Some? && AllSignedOver(cfg, s.current.value, s.sigs)
    ensures forall i :: 0 <= i < |s.launches| ==> AllSignedOver(cfg, s.launches[i].header, s.launches[i].sigs)
    ensures forall i :: 0 <= i < |s.copies| ==> AllSignedOver(cfg, s.copies[i].header, s.copies[i].sigs)
  {
    RunsKeepInv(cfg, es);
    if s.current.Some? { ConsistentIsSigned(cfg, Pair(s.current.value, s.sigs)); }
    forall i | 0 <= i < |s.launches| ensures AllSignedOver(cfg, s.launches[i].header, s.launches[i].sigs) {
      ConsistentIsSigned(cfg, s.launches[i]);
    }
    forall i | 0 <= i < |s.copies| ensures AllSignedOver(cfg, s.copies[i].header, s.copies[i].sigs) {
      ConsistentIsSigned(cfg, s.copies[i]);
    }
  }

  /** A set member's signature, not held yet, which the member's key accepts over the current header's hash. */
  ghost predicate Welcome(cfg: Config, s: State, sig: Signature, claimed: Bytes) {
    && s.current.Some? && sig.signerId != "" && sig.der != [] && sig.signerId !in s.sigs
    && (claimed == [] || claimed == cfg.hash(Preimage(s.current.value)))
    && exists i :: 0 <= i < |cfg.vset.validators| && cfg.vset.validators[i].id == sig.signerId
                   && cfg.verify(cfg.vset.validators[i].pubKey, cfg.hash(Preimage(s.current.value)), sig.der)
  }

  /** Exactly these gossiped signatures are added, as they came; no other changes anything. */
  lemma GossipAddsExactlyIf(cfg: Config, s: State, sig: Signature, claimed: Bytes, leader: bool)
    requires cfg.vset.Valid()
    ensures var s' := Step(cfg, s, Gossip(sig, claimed, leader));
            s'.sigs == if Welcome(cfg, s, sig, claimed) then s.sigs[sig.signerId := sig] else s.sigs
    ensures !Welcome(cfg, s, sig, claimed) ==> Step(cfg, s, Gossip(sig, claimed, leader)) == s
  {
    WelcomeIsAccepted(cfg, s, sig, claimed);
  }

  lemma WelcomeIsAccepted(cfg: Config, s: State, sig: Signature, claimed: Bytes)
    requires cfg.vset.Valid()
    ensures Welcome(cfg, s, sig, claimed) <==> Accepts(cfg, s, sig, claimed)
  {
    var vs := cfg.vset.validators;
    if i :| 0 <= i < |vs| && vs[i].id == sig.signerId { IndexOfOwnId(vs, i); }
  }

  /** The threshold: at least num/den of the weight if there is any, else of the validators, and never nobody. */
  lemma ThresholdExactly(vset: ValidatorSet, sigs: SignatureMap)
    requires vset.Valid()
    ensures var vs := vset.validators; var total := TotalWeight(vs);
            Reached(vset, sigs) <==>
            if total > 0 then WeightOf(vs, sigs.Keys) * vset.den >= total * vset.num
            else |sigs| >= 1 && |sigs| * vset.den >= |vs| * vset.num
  {
    RequiredWeightExact(vset, sigs.Keys);
    CeilShareIsLeast(|vset.validators|, vset.num, vset.den, |sigs|);
  }

  lemma {:induction false} OutsidersWeighNothing(vs: seq<Validator>, ids: set<Id>, members: set<Id>)
    requires forall i :: 0 <= i < |vs| ==> vs[i].id in members
    ensures WeightOf(vs, ids * members) == WeightOf(vs, ids)
  {
    if vs != [] { OutsidersWeighNothing(vs[1..], ids, members); }
  }

  /**
   * A finalizer is launched only for a header whose certified signers include distinct set members that carry
   * the required weight, which is positive.
   */
  lemma LaunchNeedsQuorum(cfg: Config, es: seq<Event>, s: State, i: nat)
    requires Reachable(cfg, es, s) && i < |s.launches| && TotalWeight(cfg.vset.validators) > 0
    ensures var p, vs := s.launches[i], cfg.vset.validators;
            && Consistent(cfg, p)
            && WeightOf(vs, p.sigs.Keys * MemberIds(vs)) >= RequiredWeight(cfg.vset) > 0
  {
    RunsKeepInv(cfg, es);
    var vs := cfg.vset.validators;
    CeilShareBounds(TotalWeight(vs), cfg.vset.num, cfg.vset.den);
    forall k | 0 <= k < |vs| ensures vs[k].id in MemberIds(vs) { }
    OutsidersWeighNothing(vs, s.launches[i].sigs.Keys, MemberIds(vs));
  }

  /** Without any weight the number of signatures decides; the node's own counts even if it is no member. */
  lemma UnweightedLaunch(cfg: Config, es: seq<Event>, s: State, i: nat)
    requires Reachable(cfg, es, s) && i < |s.launches| && TotalWeight(cfg.vset.validators) == 0
    ensures Consistent(cfg, s.launches[i]) && |s.launches[i].sigs| >= RequiredSignatures(cfg.vset)
    ensures s.launches[i].sigs.Keys <= MemberIds(cfg.vset.validators) + {cfg.id}
  {
    RunsKeepInv(cfg, es);
    var p := s.launches[i];
    forall id | id in p.sigs ensures id in MemberIds(cfg.vset.validators) + {cfg.id} {
      assert Certified(cfg, p.header, id, p.sigs[id]);
    }
  }

  /** What a finalizer copies is always a header and signatures certified for that very header. */
  lemma CopiesAreConsistent(cfg: Config, es: seq<Event>, s: State, i: nat)
    requires Reachable(cfg, es, s) && i < |s.copies|
    ensures Consistent(cfg, s.copies[i])
  {
    RunsKeepInv(cfg, es);
  }

  /** The new entry, if there is one, shows the node as it is after the step. */
  ghost predicate Appends(before: seq<Pair>, s: State, after: seq<Pair>) {
    after == before || (s.current.Some? && after == before + [Pair(s.current.value, s.sigs)])
  }

  lemma StepHistory(cfg: Config, s: State, e: Event)
    requires cfg.vset.Valid() && Enabled(cfg, s, e) && (s.running > 0 ==> s.current.Some?)
    requires |s.launches| == |s.copies| + s.running
    ensures var s' := Step(cfg, s, e);
            && |s'.launches| == |s'.copies| + s'.running
            && Appends(s.launches, s', s'.launches) && Appends(s.copies, s', s'.copies)
  {
  }

  /** Launches and copies show the node as it was at that step, and each launch is copied or still running. */
  lemma {:induction false} HistoryIsExact(cfg: Config, es: seq<Event>, s: State)
    requires Reachable(cfg, es, s)
    ensures |s.launches| == |s.copies| + s.running
    ensures es != [] ==>
              var before := Exec(cfg, Init(), es[..|es| - 1]).value;
              Appends(before.launches, s, s.launches) && Appends(before.copies, s, s.copies)
  {
    if es != [] {
      var before := Exec(cfg, Init(), es[..|es| - 1]).value;
      HistoryIsExact(cfg, es[..|es| - 1], before);
      RunsKeepInv(cfg, es[..|es| - 1]);
      StepHistory(cfg, before, es[|es| - 1]);
    }
  }

  // ---------------------------------------------------------------- between launch and copy

  /** Events that replace the current header and its signatures. */
  predicate Resets(e: Event) {
    e.Commit? || (e.Install? && e.der.Some?)
  }

  ghost predicate NoReset(es: seq<Event>) {
    forall i :: 0 <= i < |es| ==> !Resets(es[i])
  }

  ghost predicate Includes(sigs: SignatureMap, more: SignatureMap) {
    forall id :: id in sigs ==> id in more && more[id] == sigs[id]
  }

  lemma StepCollects(cfg: Config, s: State, e: Event)
    requires cfg.vset.Valid() && Enabled(cfg, s, e) && !Resets(e)
    ensures var s' := Step(cfg, s, e); s'.current == s.current && Includes(s.sigs, s'.sigs) && s'.log == s.log
  {
  }

  /** Until the next reset the header stays and the first signature of each signer is never replaced. */
  lemma {:induction false} FirstSignatureKept(cfg: Config, s: State, es: seq<Event>)
    requires cfg.vset.Valid() && Exec(cfg, s, es).Some? && NoReset(es)
    ensures var s' := Exec(cfg, s, es).value; s'.current == s.current && Includes(s.sigs, s'.sigs) && s'.log == s.log
  {
    if es != [] {
      FirstSignatureKept(cfg, s, es[..|es| - 1]);
      StepCollects(cfg, Exec(cfg, s, es[..|es| - 1]).value, es[|es| - 1]);
    }
  }

  lemma {:induction false} WeightGrows(vs: seq<Validator>, a: set<Id>, b: set<Id>)
    requires a <= b
    ensures WeightOf(vs, a) <= WeightOf(vs, b)
  {
    if vs != [] { WeightGrows(vs[1..], a, b); }
  }

  lemma ReachedGrows(vset: ValidatorSet, sigs: SignatureMap, more: SignatureMap)
    requires vset.Valid() && Reached(vset, sigs) && Includes(sigs, more)
    ensures Reached(vset, more)
  {
    WeightGrows(vset.validators, sigs.Keys, more.Keys);
    SubsetSize(sigs.Keys, more.Keys);
    assert |sigs| == |sigs.Keys| && |more| == |more.Keys|;
  }

  /** A finalizer that copies before the next reset takes the header it was launched for, with a quorum. */
  lemma QuorumHeldUntilReset(cfg: Config, s: State, es: seq<Event>, s': State)
    requires cfg.vset.Valid() && s.launches != [] && s.launches[|s.launches| - 1].sigs == s.sigs
    requires s.current == Some(s.launches[|s.launches| - 1].header) && Reached(cfg.vset, s.sigs)
    requires NoReset(es) && Exec(cfg, s, es) == Some(s') && Enabled(cfg, s', Copy)
    ensures s'.current.Some?
    ensures var copy := StepCopy(s').copies[|s'.copies|];
            && copy.header == s.launches[|s.launches| - 1].header
            && Includes(s.sigs, copy.sigs) && Reached(cfg.vset, copy.sigs)
  {
    FirstSignatureKept(cfg, s, es);
    ReachedGrows(cfg.vset, s.sigs, s'.sigs);
  }

  lemma NobodyIsNoQuorum(vset: ValidatorSet)
    requires vset.Valid()
    ensures !Reached(vset, map[])
  {
    var none: SignatureMap := map[];
    EmptySums(vset.validators);
    CeilShareBounds(TotalWeight(vset.validators), vset.num, vset.den);
    assert none.Keys == {};
  }

  // ---------------------------------------------------------------- no quorum is missed

  ghost predicate AlwaysLeads(es: seq<Event>) {
    forall i :: 0 <= i < |es| ==> (es[i].Gossip? || es[i].Check?) ==> es[i].leader
  }

  /** The current header got there by a commit. */
  predicate FromCommit(es: seq<Event>) {
    es != [] && (if Resets(es[|es| - 1]) then es[|es| - 1].Commit? else FromCommit(es[..|es| - 1]))
  }

  /** The latest launch was for the current header, with signatures the node still holds. */
  ghost predicate Covered(s: State) {
    && s.launches != [] && s.current == Some(s.launches[|s.launches| - 1].header)
    && Includes(s.launches[|s.launches| - 1].sigs, s.sigs)
  }

  lemma LaunchCovers(cfg: Config, s: State)
    requires cfg.vset.Valid() && s.current.Some?
    ensures Covered(LaunchIf(cfg, s, true)) || !Reached(cfg.vset, LaunchIf(cfg, s, true).sigs)
  {
  }

  lemma StepMissesNoQuorum(cfg: Config, s: State, e: Event)
    requires cfg.vset.Valid() && Inv(cfg, s) && Enabled(cfg, s, e) && ((e.Gossip? || e.Check?) ==> e.leader)
    requires s.checks > 0 || !Reached(cfg.vset, s.sigs) || Covered(s) || e.Commit?
    requires Resets(e) ==> e.Commit?
    ensures var s' := Step(cfg, s, e); s'.checks > 0 || !Reached(cfg.vset, s'.sigs) || Covered(s')
  {
    match e
    case Commit(h, der) => if der.None? { NobodyIsNoQuorum(cfg.vset); }
    case Check(leader) => LaunchCovers(cfg, s.(checks := s.checks - 1));
    case Gossip(sig, claimed, leader) =>
      if Accepts(cfg, s, sig, claimed) { LaunchCovers(cfg, s.(sigs := s.sigs[sig.signerId := sig])); }
    case Build(k, _, _, _) =>
    case Install(k, der, _) =>
    case Copy =>
  }

  /**
   * On a node that leads throughout, a committed header whose signatures form a quorum has had its finalizer
   * launched as soon as no post-commit check is outstanding.
   */
  lemma {:induction false} NoQuorumMissed(cfg: Config, es: seq<Event>, s: State)
    requires Reachable(cfg, es, s) && AlwaysLeads(es) && FromCommit(es)
    ensures s.checks > 0 || !Reached(cfg.vset, s.sigs) || Covered(s)
  {
    var front, last := es[..|es| - 1], es[|es| - 1];
    var before := Exec(cfg, Init(), front).value;
    RunsKeepInv(cfg, front);
    if !last.Commit? { NoQuorumMissed(cfg, front, before); }
    StepMissesNoQuorum(cfg, before, last);
  }

  // ---------------------------------------------------------------- two validators

  /**
   * Two launches on any two nodes over one validator set with a majority threshold share a member of positive
   * weight, certified by each node for its own header: finalizing two different headers takes a double signer.
   */
  lemma LaunchesShareSigner(a: Config, ea: seq<Event>, sa: State, i: nat, b: Config, eb: seq<Event>, sb: State, j: nat)
    returns (id: Id)
    requires Reachable(a, ea, sa) && Reachable(b, eb, sb) && i < |sa.launches| && j < |sb.launches|
    requires a.vset == b.vset && 2 * a.vset.num > a.vset.den && TotalWeight(a.vset.validators) > 0
    ensures var k := IndexFrom(a.vset.validators, id); k >= 0 && a.vset.validators[k].weight > 0
    ensures id in sa.launches[i].sigs && Certified(a, sa.launches[i].header, id, sa.launches[i].sigs[id])
    ensures id in sb.launches[j].sigs && Certified(b, sb.launches[j].header, id, sb.launches[j].sigs[id])
  {
    RunsKeepInv(a, ea);
    RunsKeepInv(b, eb);
    var p, q, vs := sa.launches[i], sb.launches[j], a.vset.validators;
    assert Consistent(a, p) && Consistent(b, q);
    WeightedQuorumsIntersect(a.vset, p.sigs.Keys, q.sigs.Keys);
    var k :| 0 <= k < |vs| && vs[k].id in p.sigs.Keys * q.sigs.Keys && vs[k].weight > 0;
    id := vs[k].id;
    IndexOfOwnId(vs, k);
  }

  /** The headers committed in a run, in order. */
  function Commits(es: seq<Event>): (hs: seq<Header>) {
    if es == [] then []
    else
      var last := es[|es| - 1];
      Commits(es[..|es| - 1]) + (if last.Commit? then [last.header] else [])
  }

  function EpochAfter(hs: seq<Header>): (e: nat) {
    if hs == [] then 0 else NextEpoch(EpochAfter(hs[..|hs| - 1]), hs[|hs| - 1])
  }

  /** Chain and epoch of a node are a function of what was committed, whatever else happened in between. */
  lemma {:induction false} ChainFollowsCommits(cfg: Config, es: seq<Event>, s: State)
    requires Reachable(cfg, es, s)
    ensures s.log == Replay(cfg.hash, Commits(es)) && s.currentEpoch == EpochAfter(Commits(es))
  {
    if es != [] {
      var front, last := es[..|es| - 1], es[|es| - 1];
      var before := Exec(cfg, Init(), front).value;
      ChainFollowsCommits(cfg, front, before);
      if last.Commit? {
        var hs := Commits(es);
        assert hs[..|hs| - 1] == Commits(front) && hs[|hs| - 1] == last.header;
      } else {
        assert Commits(es) == Commits(front);
        OnlyCommitsMoveTheChain(cfg, before, last);
      }
    }
  }

  lemma OnlyCommitsMoveTheChain(cfg: Config, s: State, e: Event)
    requires cfg.vset.Valid() && Enabled(cfg, s, e) && !e.Commit?
    ensures Step(cfg, s, e).log == s.log && Step(cfg, s, e).currentEpoch == s.currentEpoch
  {
  }

  /** Replicas to which the same headers were committed in the same order have equal chains and epochs. */
  lemma ReplicasAgree(a: Config, ea: seq<Event>, sa: State, b: Config, eb: seq<Event>, sb: State)
    requires Reachable(a, ea, sa) && Reachable(b, eb, sb) && a.hash == b.hash && Commits(ea) == Commits(eb)
    ensures sa.log == sb.log && sa.currentEpoch == sb.currentEpoch
  {
    ChainFollowsCommits(a, ea, sa);
    ChainFollowsCommits(b, eb, sb);
  }

  lemma ReplayTwo(hash: Hash, pre: seq<Header>, g: Header, h: Header, post: seq<Header>)
    ensures Replay(hash, pre + [g, h] + post) == ReplayOn(hash, ExtendTwice(hash, Replay(hash, pre), g, h), post)
  {
    ReplaySnoc(hash, pre, g);
    ReplaySnoc(hash, pre + [g], h);
    assert pre + [g] + [h] == pre + [g, h];
    ReplayContinues(hash, pre + [g, h], post);
  }

  /** The epoch is one more than the newest committed, so it does not depend on the order of the commits. */
  lemma {:induction false} EpochIsNewest(hs: seq<Header>)
    ensures forall i :: 0 <= i < |hs| ==> hs[i].epoch < EpochAfter(hs)
    ensures if hs == [] then EpochAfter(hs) == 0
            else exists i :: 0 <= i < |hs| && EpochAfter(hs) == hs[i].epoch + 1
  {
    if hs != [] {
      var front := hs[..|hs| - 1];
      EpochIsNewest(front);
      if EpochAfter(hs) == EpochAfter(front) && front != [] {
        var i :| 0 <= i < |front| && EpochAfter(front) == front[i].epoch + 1;
        assert hs[i] == front[i];
      } else {
        assert EpochAfter(hs) == hs[|hs| - 1].epoch + 1;
      }
    }
  }

  lemma EpochIgnoresOrder(hs: seq<Header>, ks: seq<Header>)
    requires multiset(hs) == multiset(ks)
    ensures EpochAfter(hs) == EpochAfter(ks)
  {
    SameLength(hs, ks);
    EpochIsNewest(hs);
    EpochIsNewest(ks);
    if hs != [] {
      SameElements(hs, ks);
      var i :| 0 <= i < |hs| && EpochAfter(hs) == hs[i].epoch + 1;
      var j :| 0 <= j < |ks| && EpochAfter(ks) == ks[j].epoch + 1;
      assert hs[i] in ks && ks[j] in hs;
    }
  }

  /**
   * Two handlers that run the other way round, with any commits before and after them: the epochs still agree, and
   * the chains agree exactly if the older header is refused anyway, or the newer one is refused before it and what it
   * adds after it, if anything, is made up for by the commits that follow.
   */
  lemma ReplicasInOtherOrder(
    a: Config, ea: seq<Event>, sa: State, b: Config, eb: seq<Event>, sb: State,
    pre: seq<Header>, g: Header, h: Header, post: seq<Header>)
    requires Reachable(a, ea, sa) && Reachable(b, eb, sb) && a.hash == b.hash && g.epoch < h.epoch
    requires Commits(ea) == pre + [g, h] + post && Commits(eb) == pre + [h, g] + post
    ensures sa.currentEpoch == sb.currentEpoch
    ensures sa.log == sb.log <==>
              var log := Replay(a.hash, pre);
              || !Admits(a.hash, log, g)
              || (!Admits(a.hash, log, h)
                  && var short := Extend(a.hash, log, g);
                     Recovers(a.hash, short, ExtendTwice(a.hash, log, g, h)[|short|..], post))
  {
    ChainFollowsCommits(a, ea, sa);
    ChainFollowsCommits(b, eb, sb);
    ReplayTwo(a.hash, pre, g, h, post);
    ReplayTwo(a.hash, pre, h, g, post);
    ReplayIsLinked(a.hash, pre);
    SwapAndContinue(a.hash, Replay(a.hash, pre), g, h, post);
    assert multiset(pre + [g, h] + post) == multiset(pre) + multiset{g, h} + multiset(post);
    assert multiset(pre + [h, g] + post) == multiset(pre) + multiset{g, h} + multiset(post);
    EpochIgnoresOrder(pre + [g, h] + post, pre + [h, g] + post);
  }

  /**
   * The ordinary case: every header names its predecessor. The replica whose handlers of two commits were swapped
   * has the chain up to the first of them and refuses everything that is built on the second.
   */
  lemma SwappedReplicaStaysBehind(
    a: Config, ea: seq<Event>, sa: State, b: Config, eb: seq<Event>, sb: State,
    pre: seq<Header>, g: Header, h: Header, post: seq<Header>)
    requires Reachable(a, ea, sa) && Reachable(b, eb, sb) && a.hash == b.hash
    requires Commits(ea) == pre + [g, h] + post && Commits(eb) == pre + [h, g] + post
    requires Replay(a.hash, pre) != [] && Sound(a.hash, Replay(a.hash, pre) + [g] + [h] + post)
    ensures sa.log == Replay(a.hash, pre) + [g] + [h] + post && sb.log == Replay(a.hash, pre) + [g]
  {
    var hash, log := a.hash, Replay(a.hash, pre);
    ChainFollowsCommits(a, ea, sa);
    ChainFollowsCommits(b, eb, sb);
    ReplayTwo(hash, pre, g, h, post);
    ReplayTwo(hash, pre, h, g, post);
    SwappedLinked(hash, log, g, h, post);
    StaysBehind(hash, log + [g], h, post);
  }

  lemma TwoLinks(hash: Hash, all: seq<Header>, n: nat)
    requires Sound(hash, all) && 0 < n && n + 1 < |all|
    ensures all[n - 1].epoch < all[n].epoch < all[n + 1].epoch
    ensures all[n].parent == HeaderHash(hash, all[n - 1]) != HeaderHash(hash, all[n]) == all[n + 1].parent
  {
    LinkAt(hash, all, n);
    LinkAt(hash, all, n + 1);
    EntriesHashApart(hash, all, n - 1, n);
  }

  lemma SwappedLinked(hash: Hash, log: seq<Header>, g: Header, h: Header, post: seq<Header>)
    requires log != [] && Sound(hash, log + [g] + [h] + post)
    ensures ExtendTwice(hash, log, g, h) == log + [g] + [h] && ExtendTwice(hash, log, h, g) == log + [g]
  {
    var all, n := log + [g] + [h] + post, |log|;
    TwoLinks(hash, all, n);
    assert all[n - 1] == log[n - 1] && all[n] == g && all[n + 1] == h;
    SwapOfLinked(hash, log, g, h);
  }

  lemma SwapOfLinked(hash: Hash, log: seq<Header>, g: Header, h: Header)
    requires log != [] && log[|log| - 1].epoch < g.epoch < h.epoch
    requires g.parent == HeaderHash(hash, log[|log| - 1]) != HeaderHash(hash, g) == h.parent
    ensures ExtendTwice(hash, log, g, h) == log + [g] + [h] && ExtendTwice(hash, log, h, g) == log + [g]
  {
    ExtendsByLinked(hash, log, g);
    ExtendsByLinked(hash, log + [g], h);
    assert |h.parent| == 32;
    ExtendsByLinked(hash, log, h);
  }

  lemma ExecSnoc(cfg: Config, es: seq<Event>, s: State, e: Event)
    requires Reachable(cfg, es, s) && Enabled(cfg, s, e)
    ensures Reachable(cfg, es + [e], Step(cfg, s, e))
  {
    assert (es + [e])[..|es|] == es;
  }

  /**
   * From every reachable state the two orders of a header and the one built on it lead to nodes whose chains
   * differ in length: only the right order takes both.
   */
  lemma OutOfOrderHandlersDiverge(cfg: Config, es: seq<Event>, s: State, g: Header, h: Header)
    returns (ordered: State, swapped: State)
    requires Reachable(cfg, es, s) && g.epoch < h.epoch && Admits(cfg.hash, s.log, g)
    requires var longer := Extend(cfg.hash, s.log, g); h.parent == HeaderHash(cfg.hash, longer[|longer| - 1])
    ensures Reachable(cfg, es + [Commit(g, None)] + [Commit(h, None)], ordered) && |ordered.log| == |s.log| + 2
    ensures Reachable(cfg, es + [Commit(h, None)] + [Commit(g, None)], swapped) && |swapped.log| <= |s.log| + 1
  {
    var s1, s2 := StepCommit(cfg, s, g, None), StepCommit(cfg, s, h, None);
    ExecSnoc(cfg, es, s, Commit(g, None));
    ExecSnoc(cfg, es, s, Commit(h, None));
    ordered, swapped := StepCommit(cfg, s1, h, None), StepCommit(cfg, s2, g, None);
    ExecSnoc(cfg, es + [Commit(g, None)], s1, Commit(h, None));
    ExecSnoc(cfg, es + [Commit(h, None)], s2, Commit(g, None));
    LinkedPairDoesNotCommute(cfg.hash, s.log, g, h);
  }

  /** The next header committed to both becomes the same current header, so both sign the same hash. */
  lemma ReplicasSignTheSame(a: Config, ea: seq<Event>, sa: State, b: Config, eb: seq<Event>, sb: State, h: Header)
    requires Reachable(a, ea, sa) && Reachable(b, eb, sb) && a.hash == b.hash && Commits(ea) == Commits(eb)
    ensures forall x, y :: StepCommit(a, sa, h, x).current == StepCommit(b, sb, h, y).current
  {
    ReplicasAgree(a, ea, sa, b, eb, sb);
  }

  // ---------------------------------------------------------------- proposing on the tip

  lemma {:induction false} GrowsFrom(cfg: Config, s: State, more: seq<Event>)
    requires cfg.vset.Valid() && Exec(cfg, s, more).Some?
    ensures s.log <= Exec(cfg, s, more).value.log
    ensures Inv(cfg, s) ==> Inv(cfg, Exec(cfg, s, more).value)
  {
    if more != [] {
      var before := Exec(cfg, s, more[..|more| - 1]).value;
      GrowsFrom(cfg, s, more[..|more| - 1]);
      if Inv(cfg, s) { StepKeepsInv(cfg, before, more[|more| - 1]); }
    }
  }

  /** The bytes hashed for two tips. */
  function TipInputs(hash: Hash, a: seq<Header>, b: seq<Header>): (s: set<Bytes>) {
    (if a == [] then {} else HeaderInputs(hash, a[|a| - 1])) + (if b == [] then {} else HeaderInputs(hash, b[|b| - 1]))
  }

  lemma DistinctTipsHashApart(hash: Hash, a: seq<Header>, b: seq<Header>)
    requires Linked(hash, b) && a < b && a != []
    requires CollisionFree(hash, TipInputs(hash, a, b)) && InRange(a[|a| - 1]) && InRange(b[|b| - 1])
    ensures HeaderHash(hash, a[|a| - 1]) != HeaderHash(hash, b[|b| - 1])
  {
    var g, h := a[|a| - 1], b[|b| - 1];
    assert g == b[|a| - 1] && g.epoch < h.epoch;
    if HeaderHash(hash, g) == HeaderHash(hash, h) {
      EqualHashEqualPreimages(hash, g, h, TipInputs(hash, a, b));
      PreimageDeterminesHeader(g, h);
    }
  }

  /** A header built on the tip, with any signature section, is accepted if the chain has not moved since. */
  lemma BuiltHeaderAccepted(
    cfg: Config, es: seq<Event>, s: State, more: seq<Event>, s': State,
    subnetId: Bytes, timestamp: int, roots: Roots, sigs: Option<Signatures>)
    requires Reachable(cfg, es, s) && Exec(cfg, s, more) == Some(s') && s'.log == s.log
    ensures var h := BuildHeader(cfg.hash, s, subnetId, timestamp, roots).(signatures := sigs);
            Extend(cfg.hash, s'.log, h) == s'.log + [h]
  {
    RunsKeepInv(cfg, es);
    AdmitsBuilt(cfg.hash, s, BuildHeader(cfg.hash, s, subnetId, timestamp, roots), sigs);
  }

  lemma AdmitsBuilt(hash: Hash, s: State, built: Header, sigs: Option<Signatures>)
    requires ChainOk(hash, s) && built.epoch == s.currentEpoch
    requires built.parent == if s.log == [] then [] else HeaderHash(hash, s.log[|s.log| - 1])
    ensures Extend(hash, s.log, built.(signatures := sigs)) == s.log + [built.(signatures := sigs)]
  {
  }

  lemma ChainMoves(cfg: Config, es: seq<Event>, s: State, more: seq<Event>, s': State)
    requires Reachable(cfg, es, s) && Exec(cfg, s, more) == Some(s')
    ensures ChainOk(cfg.hash, s) && s.log <= s'.log && Linked(cfg.hash, s'.log)
  {
    RunsKeepInv(cfg, es);
    GrowsFrom(cfg, s, more);
  }

  /** Both tips fit the 64-bit encoding and do not collide. */
  ghost predicate TipsApart(hash: Hash, a: seq<Header>, b: seq<Header>) {
    a != [] && b != [] ==>
      CollisionFree(hash, TipInputs(hash, a, b)) && InRange(a[|a| - 1]) && InRange(b[|b| - 1])
  }

  lemma RefusesMoved(hash: Hash, s: State, log: seq<Header>, subnetId: Bytes, timestamp: int, roots: Roots, sigs: Option<Signatures>)
    requires ChainOk(hash, s) && s.log < log && Linked(hash, log) && TipsApart(hash, s.log, log)
    ensures Extend(hash, log, BuildHeader(hash, s, subnetId, timestamp, roots).(signatures := sigs)) == log
  {
    if s.log != [] { DistinctTipsHashApart(hash, s.log, log); }
    RefusesStale(hash, s, log, BuildHeader(hash, s, subnetId, timestamp, roots), sigs);
  }

  /** And it is refused once the chain has moved, unless the old tip and the new one collide. */
  lemma StaleHeaderRefused(
    cfg: Config, es: seq<Event>, s: State, more: seq<Event>, s': State,
    subnetId: Bytes, timestamp: int, roots: Roots, sigs: Option<Signatures>)
    requires Reachable(cfg, es, s) && Exec(cfg, s, more) == Some(s') && s'.log != s.log
    requires TipsApart(cfg.hash, s.log, s'.log)
    ensures Extend(cfg.hash, s'.log, BuildHeader(cfg.hash, s, subnetId, timestamp, roots).(signatures := sigs)) == s'.log
  {
    ChainMoves(cfg, es, s, more, s');
    RefusesMoved(cfg.hash, s, s'.log, subnetId, timestamp, roots, sigs);
  }

  lemma RefusesStale(hash: Hash, s: State, log: seq<Header>, built: Header, sigs: Option<Signatures>)
    requires ChainOk(hash, s) && s.log < log && built.epoch == s.currentEpoch
    requires built.parent == if s.log == [] then [] else HeaderHash(hash, s.log[|s.log| - 1])
    requires s.log != [] ==> HeaderHash(hash, s.log[|s.log| - 1]) != HeaderHash(hash, log[|log| - 1])
    ensures Extend(hash, log, built.(signatures := sigs)) == log
  {
    if s.log != [] { assert |HeaderHash(hash, s.log[|s.log| - 1])| == 32; }
  }
}
