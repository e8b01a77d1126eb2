/** The validator node of internal/validator/node.go: fields updated in place, each method one protocol step. */
module CheckpointNode {
  import opened ByteStrings
  import opened Validators
  import opened Bitmaps
  import opened Hashing
  import opened SignerBitmap
  import opened Chain
  import opened CheckpointProtocol
  import opened CheckpointTheorems

  /** The sum that decides whether weights are in use. */
  method SumWeights(vs: seq<Validator>) returns (total: nat)
    ensures total == TotalWeight(vs)
  {
    total := 0;
    for i := 0 to |vs|
      invariant total + TotalWeight(vs[i..]) == TotalWeight(vs)
    {
      assert vs[i..][0] == vs[i] && vs[i..][1..] == vs[i + 1..];
      total := total + vs[i].weight;
    }
  }

  method ThresholdReached(vset: ValidatorSet, sigs: SignatureMap) returns (reached: bool)
    requires vset.Valid()
    ensures reached == Reached(vset, sigs)
  {
    var total := SumWeights(vset.validators);
    if total > 0 {
      reached := CheckWeightedThreshold(vset, sigs.Keys);
    } else {
      reached := CheckThreshold(vset, |sigs|);
    }
  }

  class Node {
    const cfg: Config
    const chain: ChainManager
    var current: Option<Header>
    var sigs: SignatureMap
    var currentEpoch: nat
    ghost var built: map<nat, Header>
    ghost var checks: nat
    ghost var running: nat
    ghost var launches: seq<Pair>
    ghost var copies: seq<Pair>

    ghost function Now(): State
      reads this, chain
    {
      State(current, sigs, chain.log, currentEpoch, built, checks, running, launches, copies)
    }

    ghost predicate Valid()
      reads this, chain, chain.store
    {
      cfg.vset.Valid() && chain.hash == cfg.hash && chain.Valid() && Inv(cfg, Now())
    }

    constructor (cfg: Config, chain: ChainManager)
      requires cfg.vset.Valid() && chain.hash == cfg.hash && chain.Valid() && chain.log == []
      ensures Valid() && Now() == Init() && this.cfg == cfg && this.chain == chain
    {
      this.cfg, this.chain := cfg, chain;
      current, sigs, currentEpoch := None, map[], 0;
      built, checks, running, launches, copies := map[], 0, 0, [], [];
    }

    /** `buildCheckpointHeader` on the tip of the chain. */
    method BuildCheckpointHeader(ghost k: nat, subnetId: Bytes, timestamp: int, roots: Roots) returns (h: Header)
      requires Valid() && k !in built
      modifies this`built
      ensures Valid() && Now() == Step(cfg, old(Now()), Build(k, subnetId, timestamp, roots))
      ensures k in built && built[k] == h
      ensures h.epoch == currentEpoch && h.subnetId == subnetId && h.timestamp == timestamp && h.roots == Some(roots)
      ensures h.parent == if chain.log == [] then [] else HeaderHash(cfg.hash, chain.log[|chain.log| - 1])
    {
      h := HeaderOnTip(subnetId, timestamp, roots);
      InvIgnores(cfg, Now(), built[k := h], checks);
      built := built[k := h];
    }

    method HeaderOnTip(subnetId: Bytes, timestamp: int, roots: Roots) returns (h: Header)
      requires chain.Valid() && chain.hash == cfg.hash
      ensures h.epoch == currentEpoch && h.subnetId == subnetId && h.timestamp == timestamp && h.roots == Some(roots)
      ensures h.parent == if chain.log == [] then [] else HeaderHash(cfg.hash, chain.log[|chain.log| - 1])
      ensures h.signatures == None
    {
      var parent, _ := chain.GetLatest();
      var parentHash: Bytes := [];
      if parent.Some? {
        parentHash := WriteHeaderAndSignatures(cfg.hash, parent.value);
      }
      h := Header(currentEpoch, subnetId, timestamp, parentHash, Some(roots), None);
    }

    /** The rest of `proposeCheckpointRaft`: sign, reset the signatures to the node's own, make it current. */
    method InstallProposal(ghost k: nat, h: Header, der: Option<Bytes>) returns (bitmap: Bitmap)
      requires Valid() && k in built && built[k] == h
      requires der.Some? ==> cfg.signs(ComputeHash(cfg.hash, h), der.value)
      modifies this
      ensures Valid() && Enabled(cfg, old(Now()), Install(k, der, bitmap))
      ensures Now() == Step(cfg, old(Now()), Install(k, der, bitmap))
      ensures der.Some? ==>
                && sigs == map[cfg.id := Signature(cfg.id, der.value, cfg.hash(Preimage(h)))]
                && current.Some? && current.value == h.(signatures := current.value.signatures)
                && current.value.signatures.Some? && current.value.signatures.value.ecdsa == [der.value]
                && current.value.signatures.value.count == 1 && current.value.signatures.value.bitmap == Some(bitmap)
                && (forall i :: 0 <= i < |cfg.vset.validators| && cfg.vset.validators[i].id == cfg.id ==>
                      current.value.signatures.value.totalWeight == cfg.vset.validators[i].weight)
      ensures der.None? ==> sigs == old(sigs) && current == old(current)
    {
      var own: SignatureMap := map[cfg.id := Signature(cfg.id, if der.Some? then der.value else [], [])];
      assert own.Keys == {cfg.id};
      bitmap := CreateSignersBitmap(cfg.vset.validators, own);
      InstallKeepsInv(cfg, Now(), k, der, bitmap);
      built := built - {k};
      if der.Some? { SetProposal(h, der.value, bitmap); }
    }

    /** The node's own signature as the only one, and the header with its signature section filled in. */
    method SetProposal(h: Header, der: Bytes, bitmap: Bitmap)
      requires cfg.vset.Valid()
      modifies this`sigs, this`current
      ensures sigs == map[cfg.id := Signature(cfg.id, der, cfg.hash(Preimage(h)))]
      ensures current == Some(h.(signatures := Some(Signatures([der], Some(bitmap), 1, OwnWeight(cfg)))))
      ensures forall i :: 0 <= i < |cfg.vset.validators| && cfg.vset.validators[i].id == cfg.id ==>
                OwnWeight(cfg) == cfg.vset.validators[i].weight
    {
      var msgHash := WriteHeader(cfg.hash, h);
      sigs := map[cfg.id := Signature(cfg.id, der, msgHash)];
      var i := IndexById(cfg.vset, cfg.id);
      var weight := if i >= 0 then cfg.vset.validators[i].weight else 1;
      current := Some(h.(signatures := Some(Signatures([der], Some(bitmap), 1, weight))));
    }

    /**
     * `handleCommittedCheckpoint` up to its unlock. The signer works on the copy that `AddCheckpoint` may have
     * completed with a parent hash; `der` is what it returns.
     */
    method HandleCommittedCheckpoint(h: Header, der: Option<Bytes>, saveOk: bool)
      requires Valid() && Enabled(cfg, Now(), Commit(h, der))
      modifies this, chain, chain.store
      ensures Valid() && Now() == Step(cfg, old(Now()), Commit(h, der))
      ensures current == Some(if chain.log == old(chain.log) then h else chain.log[|chain.log| - 1])
      ensures currentEpoch == if h.epoch >= old(currentEpoch) then h.epoch + 1 else old(currentEpoch)
      ensures sigs == if der.None? then map[]
                      else map[cfg.id := Signature(cfg.id, der.value, cfg.hash(Preimage(current.value)))]
    {
      CommitKeepsInv(cfg, Now(), h, der);
      CommitLocked(h, der, saveOk);
    }

    method CommitLocked(h: Header, der: Option<Bytes>, saveOk: bool)
      requires chain.hash == cfg.hash && chain.Valid()
      modifies this, chain, chain.store
      ensures chain.Valid() && Now() == StepCommit(cfg, old(Now()), h, der)
    {
      var r, _ := chain.AddCheckpoint(h, saveOk);
      SetCommitted(if r.Admitted? then r.header else h, h.epoch, der);
    }

    method SetCommitted(headerCopy: Header, epoch: nat, der: Option<Bytes>)
      modifies this
      ensures current == Some(headerCopy) && currentEpoch == if epoch >= old(currentEpoch) then epoch + 1 else old(currentEpoch)
      ensures sigs == if der.None? then map[] else map[cfg.id := OwnSignature(cfg, headerCopy, der.value)]
      ensures checks == if der.None? then old(checks) else old(checks) + 1
      ensures built == old(built) && running == old(running) && launches == old(launches) && copies == old(copies)
    {
      current := Some(headerCopy);
      if epoch >= currentEpoch {
        currentEpoch := epoch + 1;
      }
      sigs := map[];
      if der.None? { return; }
      var msgHash := WriteHeader(cfg.hash, headerCopy);
      sigs := sigs[cfg.id := Signature(cfg.id, der.value, msgHash)];
      checks := checks + 1;
    }

    /** The threshold test and the launch that follows it on a leader. */
    method FinalizeIfReached(leader: bool) returns (launched: bool)
      requires cfg.vset.Valid() && current.Some?
      modifies this`running, this`launches
      ensures Now() == LaunchIf(cfg, old(Now()), leader)
      ensures launched == (leader && Reached(cfg.vset, sigs))
    {
      launched := ThresholdReached(cfg.vset, sigs);
      launched := launched && leader;
      if launched {
        running := running + 1;
        launches := launches + [Pair(current.value, sigs)];
      }
    }

    /** The check after the commit broadcast, which serves a set of one validator. */
    method CheckAfterCommit(leader: bool) returns (launched: bool)
      requires Valid() && checks > 0
      modifies this
      ensures Valid() && Now() == Step(cfg, old(Now()), Check(leader))
      ensures launched == (leader && Reached(cfg.vset, sigs))
    {
      StepKeepsInv(cfg, Now(), Check(leader));
      checks := checks - 1;
      launched := FinalizeIfReached(leader);
    }

    /** `verifySignature` against the current header; the message hash the signature names is not used. */
    method VerifySignature(sig: Signature) returns (ok: bool)
      ensures ok == (current.Some? && Verified(cfg, current.value, sig))
      ensures ok ==> exists i :: 0 <= i < |cfg.vset.validators| && cfg.vset.validators[i].id == sig.signerId
                                 && cfg.verify(cfg.vset.validators[i].pubKey, cfg.hash(Preimage(current.value)), sig.der)
    {
      var i := IndexById(cfg.vset, sig.signerId);
      if i < 0 { return false; }
      if |sig.der| == 0 { return false; }
      if current.None? { return false; }
      var msgHash := WriteHeader(cfg.hash, current.value);
      return cfg.verify(cfg.vset.validators[i].pubKey, msgHash, sig.der);
    }

    /** The checks of `onGossipSignatureReceived`, in their order. */
    method Screen(sig: Signature, claimed: Bytes) returns (ok: bool)
      ensures ok == Accepts(cfg, Now(), sig, claimed)
    {
      if sig.signerId == "" || |sig.der| == 0 { return false; }
      var i := IndexById(cfg.vset, sig.signerId);
      if i < 0 { return false; }
      if current.None? { return false; }
      var currentHash := WriteHeader(cfg.hash, current.value);
      if |claimed| > 0 && currentHash != claimed { return false; }
      var verified := VerifySignature(sig);
      if !verified { return false; }
      return sig.signerId !in sigs;
    }

    method OnGossipSignatureReceived(sig: Signature, claimed: Bytes, leader: bool) returns (added: bool, launched: bool)
      requires Valid()
      modifies this
      ensures Valid() && Now() == Step(cfg, old(Now()), Gossip(sig, claimed, leader))
      ensures added == Accepts(cfg, old(Now()), sig, claimed) == Welcome(cfg, old(Now()), sig, claimed)
      ensures sigs == if added then old(sigs)[sig.signerId := sig] else old(sigs)
      ensures launched == (added && leader && Reached(cfg.vset, sigs))
    {
      GossipKeepsInv(cfg, Now(), sig, claimed, leader);
      WelcomeIsAccepted(cfg, Now(), sig, claimed);
      launched := false;
      added := Screen(sig, claimed);
      if !added { return; }
      sigs := sigs[sig.signerId := sig];
      launched := FinalizeIfReached(leader);
    }

    /** `finalizeCheckpointAfterGossip` under its read lock: the pair handed to the submission. */
    method CopyForFinalization() returns (copy: Option<Pair>)
      requires Valid() && running > 0
      modifies this`running, this`copies
      ensures Valid() && Now() == Step(cfg, old(Now()), Copy)
      ensures copy.Some? && Consistent(cfg, copy.value) && copies == old(copies) + [copy.value]
    {
      StepKeepsInv(cfg, Now(), Copy);
      running := running - 1;
      if current.None? { return None; }
      copy := Some(Pair(current.value, sigs));
      copies := copies + [copy.value];
    }
  }
}
