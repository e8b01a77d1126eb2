/**
 * The checkpoint protocol on the Raft and gossip path (internal/validator/node.go) as a state machine of one
 * validator. Every region that holds the node's lock is one step; whatever the environment decides (leadership,
 * signing, the order of arrivals) is a parameter of an event.
 */
module CheckpointProtocol {
  import opened ByteStrings
  import opened Validators
  import opened Bitmaps
  import opened Hashing
  import opened SignerBitmap
  import opened Chain

  /** `signs(h, d)`: the node's key may produce `d` over `h`. `verify(k, h, d)`: key `k` accepts `d` over `h`. */
  datatype Config = Config(
    id: Id, vset: ValidatorSet, hash: Hash,
    signs: (Bytes, Bytes) -> bool, verify: (Bytes, Bytes, Bytes) -> bool)

  /** A header together with the signatures held for it. */
  datatype Pair = Pair(header: Header, sigs: SignatureMap)

  /**
   * `built` are proposals not yet installed, `checks` the committed checkpoints whose threshold is still to be
   * looked at, `running` the finalizers launched that have not copied yet. `launches` and `copies` are history:
   * what the node held at each launch, and what each finalizer took.
   */
  datatype State = State(
    current: Option<Header>,
    sigs: SignatureMap,
    log: seq<Header>,
    currentEpoch: nat,
    built: map<nat, Header>,
    checks: nat,
    running: nat,
    launches: seq<Pair>,
    copies: seq<Pair>)

  function Init(): (s: State) {
    State(None, map[], [], 0, map[], 0, 0, [], [])
  }

  datatype Event =
    | Build(k: nat, subnetId: Bytes, timestamp: int, roots: Roots)
    | Install(k: nat, der: Option<Bytes>, bitmap: Bitmap)
    | Commit(header: Header, der: Option<Bytes>)
    | Check(leader: bool)
    | Gossip(sig: Signature, claimed: Bytes, leader: bool)
    | Copy

  // ---------------------------------------------------------------- the steps

  /** The threshold test: by weight when there is any weight, else by the number of signatures. */
  predicate Reached(vset: ValidatorSet, sigs: SignatureMap)
    requires vset.Valid()
  {
    if TotalWeight(vset.validators) > 0 then MeetsWeight(vset, sigs.Keys) else CheckThreshold(vset, |sigs|)
  }

  /** `buildCheckpointHeader`. */
  function BuildHeader(hash: Hash, s: State, subnetId: Bytes, timestamp: int, roots: Roots): (h: Header) {
    var parent := if s.log == [] then [] else HeaderHash(hash, s.log[|s.log| - 1]);
    Header(s.currentEpoch, subnetId, timestamp, parent, Some(roots), None)
  }

  function OwnWeight(cfg: Config): (w: nat) {
    var i := IndexFrom(cfg.vset.validators, cfg.id);
    if i >= 0 then cfg.vset.validators[i].weight else 1
  }

  function OwnSignature(cfg: Config, h: Header, der: Bytes): (sig: Signature) {
    Signature(cfg.id, der, ComputeHash(cfg.hash, h))
  }

  /** The locked part of `proposeCheckpointRaft`; nothing happens when signing failed. */
  function StepInstall(cfg: Config, s: State, k: nat, der: Option<Bytes>, bitmap: Bitmap): (s': State)
    requires k in s.built
  {
    var s1 := s.(built := s.built - {k});
    if der.None? then s1
    else
      var h := s.built[k];
      s1.(sigs := map[cfg.id := OwnSignature(cfg, h, der.value)],
          current := Some(h.(signatures := Some(Signatures([der.value], Some(bitmap), 1, OwnWeight(cfg))))))
  }

  /** The header a commit makes current: with the parent the chain filled in, or as it came when refused. */
  function Committed(hash: Hash, log: seq<Header>, h: Header): (c: Header) {
    match Admit(hash, Tip(log), h)
    case Admitted(h') => h'
    case Refused(_) => h
  }

  function NextEpoch(epoch: nat, h: Header): (e: nat) {
    if h.epoch >= epoch then h.epoch + 1 else epoch
  }

  /** `handleCommittedCheckpoint` up to its unlock; a refused header becomes current all the same. */
  function StepCommit(cfg: Config, s: State, h: Header, der: Option<Bytes>): (s': State) {
    var c := Committed(cfg.hash, s.log, h);
    var s1 := s.(log := Extend(cfg.hash, s.log, h), current := Some(c), currentEpoch := NextEpoch(s.currentEpoch, h),
                 sigs := map[]);
    if der.None? then s1
    else s1.(sigs := map[cfg.id := OwnSignature(cfg, c, der.value)], checks := s.checks + 1)
  }

  /** Start a finalizer if this node leads and the signatures suffice. */
  function LaunchIf(cfg: Config, s: State, leader: bool): (s': State)
    requires cfg.vset.Valid()
  {
    if leader && s.current.Some? && Reached(cfg.vset, s.sigs)
    then s.(running := s.running + 1, launches := s.launches + [Pair(s.current.value, s.sigs)])
    else s
  }

  /** A signature from the outside passes for the current header. */
  predicate Passes(cfg: Config, current: Header, sig: Signature, claimed: Bytes) {
    && sig.signerId != "" && sig.der != []
    && IndexFrom(cfg.vset.validators, sig.signerId) >= 0
    && (claimed == [] || claimed == ComputeHash(cfg.hash, current))
    && Verified(cfg, current, sig)
  }

  predicate Verified(cfg: Config, current: Header, sig: Signature) {
    var i := IndexFrom(cfg.vset.validators, sig.signerId);
    i >= 0 && sig.der != [] && cfg.verify(cfg.vset.validators[i].pubKey, ComputeHash(cfg.hash, current), sig.der)
  }

  predicate Accepts(cfg: Config, s: State, sig: Signature, claimed: Bytes) {
    s.current.Some? && Passes(cfg, s.current.value, sig, claimed) && sig.signerId !in s.sigs
  }

  /** `onGossipSignatureReceived`. */
  function StepGossip(cfg: Config, s: State, sig: Signature, claimed: Bytes, leader: bool): (s': State)
    requires cfg.vset.Valid()
  {
    if !Accepts(cfg, s, sig, claimed) then s
    else LaunchIf(cfg, s.(sigs := s.sigs[sig.signerId := sig]), leader)
  }

  /** `finalizeCheckpointAfterGossip` under its read lock. */
  function StepCopy(s: State): (s': State)
    requires s.running > 0
  {
    s.(running := s.running - 1,
       copies := if s.current.None? then s.copies else s.copies + [Pair(s.current.value, s.sigs)])
  }

  ghost predicate Enabled(cfg: Config, s: State, e: Event) {
    match e
    case Build(k, _, _, _) => k !in s.built
    case Install(k, der, bitmap) =>
      && k in s.built
      && (der.Some? ==> cfg.signs(ComputeHash(cfg.hash, s.built[k]), der.value))
      && Bits(bitmap) == SignerIndices(cfg.vset.validators, {cfg.id})
    case Commit(h, der) =>
      der.Some? ==> cfg.signs(ComputeHash(cfg.hash, Committed(cfg.hash, s.log, h)), der.value)
    case Check(_) => s.checks > 0
    case Gossip(_, _, _) => true
    case Copy => s.running > 0
  }

  ghost function Step(cfg: Config, s: State, e: Event): (s': State)
    requires cfg.vset.Valid() && Enabled(cfg, s, e)
  {
    match e
    case Build(k, subnetId, timestamp, roots) =>
      s.(built := s.built[k := BuildHeader(cfg.hash, s, subnetId, timestamp, roots)])
    case Install(k, der, bitmap) => StepInstall(cfg, s, k, der, bitmap)
    case Commit(h, der) => StepCommit(cfg, s, h, der)
    case Check(leader) => LaunchIf(cfg, s.(checks := s.checks - 1), leader)
    case Gossip(sig, claimed, leader) => StepGossip(cfg, s, sig, claimed, leader)
    case Copy => StepCopy(s)
  }

  /** The state after a sequence of events, if each was possible when it came. */
  ghost function Exec(cfg: Config, s: State, es: seq<Event>): (r: Option<State>)
    requires cfg.vset.Valid()
  {
    if es == [] then Some(s)
    else
      var last := es[|es| - 1];
      match Exec(cfg, s, es[..|es| - 1])
      case None => None
      case Some(m) => if Enabled(cfg, m, last) then Some(Step(cfg, m, last)) else None
  }

  // ---------------------------------------------------------------- what every run keeps

  /** The signature is the node's own over this header, or a set member's that the member's key accepts. */
  ghost predicate Certified(cfg: Config, h: Header, id: Id, sig: Signature) {
    && sig.signerId == id
    && ((id == cfg.id && cfg.signs(ComputeHash(cfg.hash, h), sig.der)) || Verified(cfg, h, sig))
  }

  ghost predicate Consistent(cfg: Config, p: Pair) {
    forall id :: id in p.sigs ==> Certified(cfg, p.header, id, p.sigs[id])
  }

  ghost predicate ChainOk(hash: Hash, s: State) {
    && Linked(hash, s.log)
    && (if s.log == [] then s.currentEpoch == 0 else s.currentEpoch > s.log[|s.log| - 1].epoch)
  }

  ghost predicate Inv(cfg: Config, s: State)
    requires cfg.vset.Valid()
  {
    && (s.current.None? ==> s.sigs == map[])
    && (s.current.Some? ==> Consistent(cfg, Pair(s.current.value, s.sigs)))
    && (forall i :: 0 <= i < |s.launches| ==>
          Consistent(cfg, s.launches[i]) && Reached(cfg.vset, s.launches[i].sigs))
    && (forall i :: 0 <= i < |s.copies| ==> Consistent(cfg, s.copies[i]))
    && ChainOk(cfg.hash, s)
    && (s.current.None? ==> s.running == 0 && s.checks == 0)
  }

  lemma LaunchKeepsInv(cfg: Config, s: State, leader: bool)
    requires cfg.vset.Valid() && Inv(cfg, s)
    ensures Inv(cfg, LaunchIf(cfg, s, leader))
  {
  }

  /** The hash that is signed leaves the signature section out, so filling it in keeps a signature good. */
  lemma InstallKeepsInv(cfg: Config, s: State, k: nat, der: Option<Bytes>, bitmap: Bitmap)
    requires cfg.vset.Valid() && Inv(cfg, s) && Enabled(cfg, s, Install(k, der, bitmap))
    ensures Inv(cfg, StepInstall(cfg, s, k, der, bitmap))
  {
    var s' := StepInstall(cfg, s, k, der, bitmap);
    if der.Some? {
      SigningIgnoresSignatures(cfg.hash, s.built[k], s'.current.value.signatures);
    }
  }

  lemma CommitKeepsChain(cfg: Config, s: State, h: Header, der: Option<Bytes>)
    requires ChainOk(cfg.hash, s)
    ensures ChainOk(cfg.hash, StepCommit(cfg, s, h, der))
  {
    ExtendKeepsLinks(cfg.hash, s.log, h);
  }

  lemma CommitKeepsInv(cfg: Config, s: State, h: Header, der: Option<Bytes>)
    requires cfg.vset.Valid() && Inv(cfg, s) && Enabled(cfg, s, Commit(h, der))
    ensures Inv(cfg, StepCommit(cfg, s, h, der))
  {
    CommitKeepsChain(cfg, s, h, der);
  }

  lemma GossipKeepsInv(cfg: Config, s: State, sig: Signature, claimed: Bytes, leader: bool)
    requires cfg.vset.Valid() && Inv(cfg, s)
    ensures Inv(cfg, StepGossip(cfg, s, sig, claimed, leader))
  {
    if Accepts(cfg, s, sig, claimed) {
      var s1 := s.(sigs := s.sigs[sig.signerId := sig]);
      assert Consistent(cfg, Pair(s.current.value, s.sigs));
      assert Inv(cfg, s1);
      LaunchKeepsInv(cfg, s1, leader);
    }
  }

  lemma CopyKeepsInv(cfg: Config, s: State)
    requires cfg.vset.Valid() && Inv(cfg, s) && s.running > 0
    ensures Inv(cfg, StepCopy(s))
  {
  }

  /** Fields the invariant does not mention may change. */
  lemma InvIgnores(cfg: Config, s: State, built: map<nat, Header>, checks: nat)
    requires cfg.vset.Valid() && Inv(cfg, s) && checks <= s.checks
    ensures Inv(cfg, s.(built := built)) && Inv(cfg, s.(checks := checks))
  {
  }

  lemma StepKeepsInv(cfg: Config, s: State, e: Event)
    requires cfg.vset.Valid() && Inv(cfg, s) && Enabled(cfg, s, e)
    ensures Inv(cfg, Step(cfg, s, e))
  {
    match e
    case Build(k, _, _, _) => InvIgnores(cfg, s, Step(cfg, s, e).built, s.checks);
    case Install(k, der, bitmap) => InstallKeepsInv(cfg, s, k, der, bitmap);
    case Commit(h, der) => CommitKeepsInv(cfg, s, h, der);
    case Check(leader) =>
      InvIgnores(cfg, s, s.built, s.checks - 1);
      LaunchKeepsInv(cfg, s.(checks := s.checks - 1), leader);
    case Gossip(sig, claimed, leader) => GossipKeepsInv(cfg, s, sig, claimed, leader);
    case Copy => CopyKeepsInv(cfg, s);
  }

  /** From a fresh start the invariant holds after every possible sequence of events. */
  lemma {:induction false} RunsKeepInv(cfg: Config, es: seq<Event>)
    requires cfg.vset.Valid() && Exec(cfg, Init(), es).Some?
    ensures Inv(cfg, Exec(cfg, Init(), es).value)
  {
    if es != [] {
      RunsKeepInv(cfg, es[..|es| - 1]);
      StepKeepsInv(cfg, Exec(cfg, Init(), es[..|es| - 1]).value, es[|es| - 1]);
    }
  }
}
