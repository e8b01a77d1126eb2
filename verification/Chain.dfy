/** The checkpoint chain (internal/consensus/chain_manager.go). */
module Chain {
  import opened ByteStrings
  import opened Hashing
  import opened Sequences
  import opened Stores

  // ---------------------------------------------------------------- the accepted log

  datatype AddError = BadEpoch | BadParent

  datatype Admission = Admitted(header: Header) | Refused(error: AddError)

  /** The continuity checks of `AddCheckpoint`, and the parent hash it fills in. */
  function Admit(hash: Hash, latest: Option<Header>, h: Header): (r: Admission) {
    if latest.None? then Admitted(h)
    else if h.epoch <= latest.value.epoch then Refused(BadEpoch)
    else if h.parent == [] then Admitted(h.(parent := HeaderHash(hash, latest.value)))
    else if h.parent == HeaderHash(hash, latest.value) then Admitted(h)
    else Refused(BadParent)
  }

  function Tip(log: seq<Header>): (tip: Option<Header>) {
    if log == [] then None else Some(log[|log| - 1])
  }

  /** What `AddCheckpoint` makes of a header on top of the accepted log. */
  function Extend(hash: Hash, log: seq<Header>, h: Header): (longer: seq<Header>) {
    match Admit(hash, Tip(log), h)
    case Admitted(h') => log + [h']
    case Refused(_) => log
  }

  /** The log after a whole sequence of offered headers. */
  function Replay(hash: Hash, offered: seq<Header>): (log: seq<Header>) {
    if offered == [] then []
    else Extend(hash, Replay(hash, offered[..|offered| - 1]), offered[|offered| - 1])
  }

  /** Strictly increasing epochs and exact parent links. */
  ghost predicate Linked(hash: Hash, log: seq<Header>) {
    && (forall i, j :: 0 <= i < j < |log| ==> log[i].epoch < log[j].epoch)
    && (forall i :: 0 < i < |log| ==> log[i].parent == HeaderHash(hash, log[i - 1]))
  }

  lemma LinkAt(hash: Hash, log: seq<Header>, i: nat)
    requires Linked(hash, log) && 0 < i < |log|
    ensures log[i - 1].epoch < log[i].epoch && log[i].parent == HeaderHash(hash, log[i - 1])
  {
  }

  lemma LinkedSnoc(hash: Hash, log: seq<Header>, h: Header)
    requires Linked(hash, log)
    requires log != [] ==> log[|log| - 1].epoch < h.epoch && h.parent == HeaderHash(hash, log[|log| - 1])
    ensures Linked(hash, log + [h])
  {
    var longer := log + [h];
    forall i, j | 0 <= i < j < |longer| ensures longer[i].epoch < longer[j].epoch {
      if j == |log| && i < |log| - 1 { assert log[i].epoch < log[|log| - 1].epoch; }
    }
  }

  lemma ExtendKeepsLinks(hash: Hash, log: seq<Header>, h: Header)
    requires Linked(hash, log)
    ensures Linked(hash, Extend(hash, log, h)) && log <= Extend(hash, log, h)
  {
    match Admit(hash, Tip(log), h)
    case Admitted(h') => LinkedSnoc(hash, log, h');
    case Refused(_) =>
  }

  /** Whatever is offered, in whatever order, the log is linked. */
  lemma {:induction false} ReplayIsLinked(hash: Hash, offered: seq<Header>)
    ensures Linked(hash, Replay(hash, offered))
  {
    if offered != [] {
      ReplayIsLinked(hash, offered[..|offered| - 1]);
      ExtendKeepsLinks(hash, Replay(hash, offered[..|offered| - 1]), offered[|offered| - 1]);
    }
  }

  /** Accepted checkpoints are never dropped or replaced by later offers. */
  lemma {:induction false} ReplayOnlyGrows(hash: Hash, offered: seq<Header>, more: seq<Header>)
    ensures Replay(hash, offered) <= Replay(hash, offered + more)
    decreases |more|
  {
    if more == [] {
      assert offered + more == offered;
    } else {
      var front := more[..|more| - 1];
      ReplayOnlyGrows(hash, offered, front);
      assert (offered + more)[..|offered + more| - 1] == offered + front;
      ReplayIsLinked(hash, offered + front);
      ExtendKeepsLinks(hash, Replay(hash, offered + front), more[|more| - 1]);
    }
  }

  // ---------------------------------------------------------------- what an offer does

  /**
   * Exactly what becomes of an offer: anything starts a chain; after that an offer is taken if it is newer than the
   * tip and names the tip's hash as its parent or no parent at all, in which case the hash is filled in and nothing
   * else changes.
   */
  lemma OfferExactly(hash: Hash, log: seq<Header>, h: Header)
    ensures log == [] ==> Extend(hash, log, h) == [h]
    ensures log != [] ==>
              var tip := log[|log| - 1];
              Extend(hash, log, h) ==
              if h.epoch > tip.epoch && h.parent == [] then log + [h.(parent := HeaderHash(hash, tip))]
              else if h.epoch > tip.epoch && h.parent == HeaderHash(hash, tip) then log + [h]
              else log
  {
  }

  // ---------------------------------------------------------------- the order of application

  /** The chain after two offers. */
  function ExtendTwice(hash: Hash, log: seq<Header>, g: Header, h: Header): (longer: seq<Header>) {
    Extend(hash, Extend(hash, log, g), h)
  }

  predicate Admits(hash: Hash, log: seq<Header>, h: Header) { Admit(hash, Tip(log), h).Admitted? }

  lemma ExtendShape(hash: Hash, log: seq<Header>, h: Header)
    ensures if Admits(hash, log, h) then |Extend(hash, log, h)| == |log| + 1 && Extend(hash, log, h)[|log|].epoch == h.epoch
            else Extend(hash, log, h) == log
  {
  }

  /** An offer is refused on any chain whose tip is at least as new. */
  lemma OldIsRefused(hash: Hash, log: seq<Header>, h: Header)
    requires log != [] && h.epoch <= log[|log| - 1].epoch
    ensures !Admits(hash, log, h)
  {
  }

  /**
   * On every chain, two offers of different epochs may be swapped exactly if the older one is refused anyway, or
   * the newer one is refused both before and after it.
   */
  lemma OrderMatters(hash: Hash, log: seq<Header>, g: Header, h: Header)
    requires g.epoch < h.epoch
    ensures ExtendTwice(hash, log, g, h) == ExtendTwice(hash, log, h, g)
            <==> !Admits(hash, log, g) || (!Admits(hash, log, h) && !Admits(hash, Extend(hash, log, g), h))
  {
    ExtendShape(hash, log, g);
    ExtendShape(hash, log, h);
    ExtendShape(hash, Extend(hash, log, g), h);
    if Admits(hash, log, h) {
      OldIsRefused(hash, Extend(hash, log, h), g);
      if !Admits(hash, log, g) { assert Extend(hash, log, g) == log; }
    } else if !Admits(hash, log, g) {
      assert Extend(hash, log, g) == Extend(hash, log, h) == log;
    }
  }

  /** Two offers of one epoch: the first admitted wins, so the order matters unless one is refused or both are equal. */
  lemma OrderMattersWithinEpoch(hash: Hash, log: seq<Header>, g: Header, h: Header)
    requires g.epoch == h.epoch
    ensures ExtendTwice(hash, log, g, h) == ExtendTwice(hash, log, h, g)
            <==> !Admits(hash, log, g) || !Admits(hash, log, h) || Extend(hash, log, g) == Extend(hash, log, h)
  {
    ExtendShape(hash, log, g);
    ExtendShape(hash, log, h);
    if Admits(hash, log, g) { OldIsRefused(hash, Extend(hash, log, g), h); }
    if Admits(hash, log, h) { OldIsRefused(hash, Extend(hash, log, h), g); }
  }

  /** The ordinary case: a header that carries its predecessor's hash never commutes with that predecessor. */
  lemma LinkedPairDoesNotCommute(hash: Hash, log: seq<Header>, g: Header, h: Header)
    requires g.epoch < h.epoch && Admits(hash, log, g)
    requires var longer := Extend(hash, log, g); h.parent == HeaderHash(hash, longer[|longer| - 1])
    ensures |ExtendTwice(hash, log, g, h)| == |log| + 2 && |ExtendTwice(hash, log, h, g)| <= |log| + 1
  {
    ExtendShape(hash, log, g);
    ExtendShape(hash, log, h);
    var longer := Extend(hash, log, g);
    assert Admits(hash, longer, h);
    ExtendShape(hash, longer, h);
    if Admits(hash, log, h) {
      OldIsRefused(hash, Extend(hash, log, h), g);
    }
  }

  // ---------------------------------------------------------------- what follows a swap

  /** The log after more offers on top of a given one. */
  function ReplayOn(hash: Hash, log: seq<Header>, offered: seq<Header>): (longer: seq<Header>)
    decreases |offered|
  {
    if offered == [] then log else ReplayOn(hash, Extend(hash, log, offered[0]), offered[1..])
  }

  lemma ReplaySnoc(hash: Hash, pre: seq<Header>, h: Header)
    ensures Replay(hash, pre + [h]) == Extend(hash, Replay(hash, pre), h)
  {
    assert (pre + [h])[..|pre|] == pre;
  }

  lemma {:induction false} ReplayContinues(hash: Hash, pre: seq<Header>, post: seq<Header>)
    ensures Replay(hash, pre + post) == ReplayOn(hash, Replay(hash, pre), post)
    decreases |post|
  {
    if post == [] {
      assert pre + post == pre;
    } else {
      ReplaySnoc(hash, pre, post[0]);
      assert pre + post == (pre + [post[0]]) + post[1..];
      ReplayContinues(hash, pre + [post[0]], post[1..]);
    }
  }

  /** Chains that differ somewhere differ there for ever. */
  lemma {:induction false} DivergedStay(hash: Hash, a: seq<Header>, b: seq<Header>, post: seq<Header>, i: nat)
    requires i < |a| && i < |b| && a[i] != b[i]
    ensures ReplayOn(hash, a, post) != ReplayOn(hash, b, post)
    decreases |post|
  {
    if post != [] {
      ExtendShape(hash, a, post[0]);
      ExtendShape(hash, b, post[0]);
      ExtendPrefix(hash, a, post[0], i);
      ExtendPrefix(hash, b, post[0], i);
      DivergedStay(hash, Extend(hash, a, post[0]), Extend(hash, b, post[0]), post[1..], i);
    }
  }

  lemma ExtendPrefix(hash: Hash, log: seq<Header>, h: Header, i: nat)
    requires i < |log|
    ensures i < |Extend(hash, log, h)| && Extend(hash, log, h)[i] == log[i]
  {
  }

  /**
   * A chain that is a part of another catches up: of the further offers it admits exactly the headers it is missing,
   * in their order. What the longer chain admits meanwhile is missing as well.
   */
  predicate Recovers(hash: Hash, short: seq<Header>, missing: seq<Header>, post: seq<Header>)
    decreases |post|
  {
    if missing == [] then true
    else if post == [] then false
    else
      match Admit(hash, Tip(short), post[0])
      case Admitted(h) => h == missing[0] && Recovers(hash, short + [h], missing[1..], post[1..])
      case Refused(_) => Recovers(hash, short, Extend(hash, short + missing, post[0])[|short|..], post[1..])
  }

  lemma RecoverByAdmission(hash: Hash, short: seq<Header>, missing: seq<Header>, p: Header, h: Header)
    requires missing != [] && Linked(hash, short + missing) && Admit(hash, Tip(short), p) == Admitted(h)
    ensures h == missing[0] ==> Extend(hash, short + missing, p) == (short + [h]) + missing[1..]
    ensures h != missing[0] ==> Extend(hash, short, p)[|short|] == h && (short + missing)[|short|] == missing[0]
  {
    var long := short + missing;
    if h == missing[0] {
      assert long[|short|] == missing[0] && (|missing| > 1 ==> long[|short|].epoch < long[|long| - 1].epoch);
      OldIsRefused(hash, long, p);
    }
  }

  /** Two chains, one a part of the other, end up equal exactly if the shorter one recovers. */
  lemma {:induction false} RecoversExactly(hash: Hash, short: seq<Header>, missing: seq<Header>, post: seq<Header>)
    requires Linked(hash, short + missing)
    ensures ReplayOn(hash, short, post) == ReplayOn(hash, short + missing, post) <==> Recovers(hash, short, missing, post)
    decreases |post|
  {
    var long := short + missing;
    if missing == [] {
      assert long == short;
    } else if post != [] {
      var p := post[0];
      match Admit(hash, Tip(short), p)
      case Admitted(h) =>
        RecoverByAdmission(hash, short, missing, p, h);
        if h == missing[0] {
          assert (short + [h]) + missing[1..] == long;
          RecoversExactly(hash, short + [h], missing[1..], post[1..]);
        } else {
          ExtendPrefix(hash, long, p, |short|);
          DivergedStay(hash, Extend(hash, short, p), Extend(hash, long, p), post[1..], |short|);
        }
      case Refused(_) =>
        var longer := Extend(hash, long, p);
        ExtendKeepsLinks(hash, long, p);
        assert short + longer[|short|..] == longer;
        RecoversExactly(hash, short, longer[|short|..], post[1..]);
    }
  }

  /**
   * Two swapped offers and whatever follows: the chains end up equal exactly if the older header was refused anyway,
   * or the newer one was refused before it and the rest makes up for what it added after it, if anything.
   */
  lemma SwapAndContinue(hash: Hash, log: seq<Header>, g: Header, h: Header, post: seq<Header>)
    requires Linked(hash, log) && g.epoch < h.epoch
    ensures ReplayOn(hash, ExtendTwice(hash, log, g, h), post) == ReplayOn(hash, ExtendTwice(hash, log, h, g), post)
            <==> !Admits(hash, log, g)
                 || (!Admits(hash, log, h)
                     && var short := Extend(hash, log, g);
                        Recovers(hash, short, ExtendTwice(hash, log, g, h)[|short|..], post))
  {
    var a, b, short := ExtendTwice(hash, log, g, h), ExtendTwice(hash, log, h, g), Extend(hash, log, g);
    ExtendShape(hash, log, g);
    ExtendShape(hash, log, h);
    ExtendShape(hash, short, h);
    if !Admits(hash, log, g) {
      OrderMatters(hash, log, g, h);
    } else if Admits(hash, log, h) {
      OldIsRefused(hash, Extend(hash, log, h), g);
      ExtendPrefix(hash, short, h, |log|);
      DivergedStay(hash, a, b, post, |log|);
    } else {
      ExtendKeepsLinks(hash, log, g);
      ExtendKeepsLinks(hash, short, h);
      assert b == short && a == short + a[|short|..];
      RecoversExactly(hash, short, a[|short|..], post);
    }
  }

  lemma ExtendsByLinked(hash: Hash, log: seq<Header>, h: Header)
    requires log != [] && log[|log| - 1].epoch < h.epoch
    ensures h.parent == HeaderHash(hash, log[|log| - 1]) ==> Extend(hash, log, h) == log + [h]
    ensures h.parent != [] && h.parent != HeaderHash(hash, log[|log| - 1]) ==> Extend(hash, log, h) == log
  {
    assert |HeaderHash(hash, log[|log| - 1])| == 32;
  }

  /** A chain refuses a continuation of which no header names its tip as parent. */
  lemma {:induction false} RefusesContinuation(hash: Hash, log: seq<Header>, post: seq<Header>)
    requires log != [] && NamesNot(post, HeaderHash(hash, log[|log| - 1]))
    ensures ReplayOn(hash, log, post) == log
    decreases |post|
  {
    if post != [] {
      assert Extend(hash, log, post[0]) == log;
      RefusesContinuation(hash, log, post[1..]);
    }
  }

  lemma NextIsAdmitted(hash: Hash, all: seq<Header>, n: nat)
    requires 0 < n < |all| && Linked(hash, all)
    ensures Extend(hash, all[..n], all[n]) == all[..n + 1]
  {
    LinkAt(hash, all, n);
    assert all[..n][n - 1] == all[n - 1];
    ExtendsByLinked(hash, all[..n], all[n]);
    assert all[..n] + [all[n]] == all[..n + 1];
  }

  lemma {:induction false} AdmitsFrom(hash: Hash, all: seq<Header>, n: nat)
    requires 0 < n <= |all| && Linked(hash, all)
    ensures ReplayOn(hash, all[..n], all[n..]) == all
    decreases |all| - n
  {
    if n == |all| {
      assert all[..n] == all && all[n..] == [];
    } else {
      NextIsAdmitted(hash, all, n);
      assert all[n..][0] == all[n] && all[n..][1..] == all[n + 1..];
      AdmitsFrom(hash, all, n + 1);
    }
  }

  /** A chain admits a continuation in which every header carries its predecessor's hash. */
  lemma AdmitsContinuation(hash: Hash, log: seq<Header>, post: seq<Header>)
    requires log != [] && Linked(hash, log + post)
    ensures ReplayOn(hash, log, post) == log + post
  {
    var all, n := log + post, |log|;
    AdmitsFrom(hash, all, n);
    assert all[..n] == log && all[n..] == post;
  }

  // ---------------------------------------------------------------- hashes identify histories

  function HeaderInputs(hash: Hash, h: Header): (s: set<Bytes>) {
    {Preimage(h), FullPreimage(hash, h)}
  }

  /** Every input hashed for the headers of a log. */
  function LogInputs(hash: Hash, log: seq<Header>): (s: set<Bytes>) {
    if log == [] then {}
    else LogInputs(hash, log[..|log| - 1]) + HeaderInputs(hash, log[|log| - 1])
  }

  /** Two headers that hash alike write the same bytes, hence agree on parent and canonical fields. */
  ghost predicate SamePreimages(hash: Hash, g: Header, h: Header) {
    Preimage(g) == Preimage(h) && FullPreimage(hash, g) == FullPreimage(hash, h)
  }

  lemma EqualHashEqualPreimages(hash: Hash, g: Header, h: Header, inputs: set<Bytes>)
    requires HeaderInputs(hash, g) + HeaderInputs(hash, h) <= inputs && CollisionFree(hash, inputs)
    requires HeaderHash(hash, g) == HeaderHash(hash, h)
    ensures SamePreimages(hash, g, h) && Fixed32(g.parent) == Fixed32(h.parent)
  {
    assert FullPreimage(hash, g) in inputs && FullPreimage(hash, h) in inputs;
    SplitEqual(ComputeHash(hash, g), SignatureSection(g.signatures),
               ComputeHash(hash, h), SignatureSection(h.signatures));
    assert Preimage(g) in inputs && Preimage(h) in inputs;
    DecodePreimage(g);
    DecodePreimage(h);
  }

  ghost function Matching(hash: Hash): (same: (Header, Header) -> bool) {
    (g: Header, h: Header) => SamePreimages(hash, g, h)
  }

  /** `a` matches the end of `b`, preimage by preimage. */
  ghost predicate SharesEnd(hash: Hash, a: seq<Header>, b: seq<Header>) {
    SuffixOf(Matching(hash), a, b)
  }

  lemma SharedEntry(hash: Hash, a: seq<Header>, b: seq<Header>, i: nat)
    requires SharesEnd(hash, a, b) && i < |a| <= |b|
    ensures SamePreimages(hash, a[i], b[|b| - |a| + i])
  {
    SuffixEntry(Matching(hash), a, b, i);
  }

  lemma PrefixLinked(hash: Hash, log: seq<Header>)
    requires Linked(hash, log) && log != []
    ensures Linked(hash, log[..|log| - 1])
  {
  }

  lemma ParentsHashAlike(hash: Hash, a: seq<Header>, b: seq<Header>)
    requires Linked(hash, a) && Linked(hash, b) && |a| > 1 && |b| > 1
    requires Fixed32(a[|a| - 1].parent) == Fixed32(b[|b| - 1].parent)
    ensures HeaderHash(hash, a[|a| - 2]) == HeaderHash(hash, b[|b| - 2])
  {
    assert a[|a| - 1].parent == HeaderHash(hash, a[|a| - 2]);
    assert b[|b| - 1].parent == HeaderHash(hash, b[|b| - 2]);
  }

  /**
   * Without collisions among the bytes hashed for two chains, equal tip hashes make the shorter chain a
   * suffix of the longer one, up to equal preimages.
   */
  lemma {:induction false} EqualTipsShareHistory(hash: Hash, a: seq<Header>, b: seq<Header>, inputs: set<Bytes>)
    requires Linked(hash, a) && Linked(hash, b) && 0 < |a| <= |b|
    requires LogInputs(hash, a) <= inputs && LogInputs(hash, b) <= inputs && CollisionFree(hash, inputs)
    requires HeaderHash(hash, a[|a| - 1]) == HeaderHash(hash, b[|b| - 1])
    ensures SharesEnd(hash, a, b)
    decreases |a|
  {
    EqualHashEqualPreimages(hash, a[|a| - 1], b[|b| - 1], inputs);
    if |a| > 1 {
      PrefixLinked(hash, a);
      PrefixLinked(hash, b);
      ParentsHashAlike(hash, a, b);
      EqualTipsShareHistory(hash, a[..|a| - 1], b[..|b| - 1], inputs);
    }
  }

  /** For headers in Go's integer ranges the shared part agrees on every canonical field. */
  lemma SharedHistoryAgrees(hash: Hash, a: seq<Header>, b: seq<Header>, k: nat)
    requires SharesEnd(hash, a, b) && k < |a| <= |b|
    requires InRange(a[k]) && InRange(b[|b| - |a| + k])
    ensures CanonicalOf(a[k]) == CanonicalOf(b[|b| - |a| + k])
  {
    SharedEntry(hash, a, b, k);
    PreimageDeterminesHeader(a[k], b[|b| - |a| + k]);
  }

  lemma {:induction false} InputsOfEntry(hash: Hash, log: seq<Header>, i: nat)
    requires i < |log|
    ensures HeaderInputs(hash, log[i]) <= LogInputs(hash, log)
  {
    if i < |log| - 1 { InputsOfEntry(hash, log[..|log| - 1], i); }
  }

  ghost predicate AllInRange(log: seq<Header>) {
    forall i :: 0 <= i < |log| ==> InRange(log[i])
  }

  /** Without collisions no two headers of one chain have the same hash. */
  lemma EntriesHashApart(hash: Hash, log: seq<Header>, i: nat, j: nat)
    requires Linked(hash, log) && i < j < |log| && CollisionFree(hash, LogInputs(hash, log)) && AllInRange(log)
    ensures HeaderHash(hash, log[i]) != HeaderHash(hash, log[j])
  {
    InputsOfEntry(hash, log, i);
    InputsOfEntry(hash, log, j);
    if HeaderHash(hash, log[i]) == HeaderHash(hash, log[j]) {
      EqualHashEqualPreimages(hash, log[i], log[j], LogInputs(hash, log));
      PreimageDeterminesHeader(log[i], log[j]);
    }
  }

  /** A chain whose headers fit their encoding and hash without collisions. */
  ghost predicate Sound(hash: Hash, log: seq<Header>) {
    Linked(hash, log) && CollisionFree(hash, LogInputs(hash, log)) && AllInRange(log)
  }

  /** Later headers of a chain name neither nothing nor an early header as parent. */
  lemma ParentsSkip(hash: Hash, all: seq<Header>, i: nat, j: nat)
    requires Sound(hash, all) && i + 1 < j < |all|
    ensures all[j].parent != [] && all[j].parent != HeaderHash(hash, all[i])
  {
    LinkAt(hash, all, j);
    EntriesHashApart(hash, all, i, j - 1);
    assert |HeaderHash(hash, all[j - 1])| == 32;
  }

  ghost predicate NamesNot(post: seq<Header>, parent: Bytes) {
    forall i :: 0 <= i < |post| ==> post[i].parent != [] && post[i].parent != parent
  }

  lemma RestSkips(hash: Hash, all: seq<Header>, i: nat)
    requires Sound(hash, all) && i + 2 <= |all|
    ensures NamesNot(all[i + 2..], HeaderHash(hash, all[i]))
  {
    var rest := all[i + 2..];
    forall j | 0 <= j < |rest| ensures rest[j].parent != [] && rest[j].parent != HeaderHash(hash, all[i]) {
      ParentsSkip(hash, all, i, i + 2 + j);
    }
  }

  /**
   * A chain that missed one header stays behind for as long as the others only build on: it refuses every header of
   * the continuation, which the complete chain admits.
   */
  lemma StaysBehind(hash: Hash, log: seq<Header>, next: Header, post: seq<Header>)
    requires log != [] && Sound(hash, log + [next] + post)
    ensures ReplayOn(hash, log, post) == log && ReplayOn(hash, log + [next], post) == log + [next] + post
  {
    var all, n := log + [next] + post, |log|;
    RestSkips(hash, all, n - 1);
    assert all[n - 1] == log[n - 1] && all[n + 1..] == post;
    RefusesContinuation(hash, log, post);
    AdmitsContinuation(hash, log + [next], post);
  }

  /** It recovers as soon as the missing header is offered again before the others build on it. */
  lemma RecoversWhenOffered(hash: Hash, log: seq<Header>, next: Header, h: Header, post: seq<Header>)
    requires Linked(hash, log + [next]) && Admit(hash, Tip(log), h) == Admitted(next)
    ensures ReplayOn(hash, log, [h] + post) == ReplayOn(hash, log + [next], [h] + post)
  {
    RecoversExactly(hash, log, [next], [h] + post);
  }

  // ---------------------------------------------------------------- storage form

  /** `convertToTypesHeader`. */
  function ToStored(h: Header): (s: StoredHeader) {
    var r := if h.roots.Some? then h.roots.value else Roots([], [], []);
    StoredHeader(h.epoch, h.subnetId, h.timestamp, HexEncode(h.parent),
                 HexEncode(r.state), HexEncode(r.agent), HexEncode(r.event),
                 if h.signatures.None? then None
                 else Some(StoredSignatures(h.signatures.value.ecdsa, h.signatures.value.bitmap,
                                            h.signatures.value.totalWeight)))
  }

  /** `convertFromTypesHeader`: three empty roots come back as no roots at all. */
  function FromStored(s: StoredHeader): (h: Header) {
    Header(s.epoch, s.subnetId, s.timestamp, HexDecode(s.parentHex),
           if s.stateHex == "" && s.agentHex == "" && s.eventHex == "" then None
           else Some(Roots(HexDecode(s.stateHex), HexDecode(s.agentHex), HexDecode(s.eventHex))),
           if s.signatures.None? then None
           else Some(Signatures(s.signatures.value.ecdsa, s.signatures.value.bitmap, 0,
                                s.signatures.value.totalWeight)))
  }

  /** Each field of the stored form is the header's own, binary ones as hexadecimal text. */
  lemma StoredFields(h: Header)
    ensures var s := ToStored(h);
            && s.epoch == h.epoch && s.subnetId == h.subnetId && s.timestamp == h.timestamp
            && s.parentHex == HexEncode(h.parent)
            && (h.roots.Some? ==>
                  && s.stateHex == HexEncode(h.roots.value.state) && s.agentHex == HexEncode(h.roots.value.agent)
                  && s.eventHex == HexEncode(h.roots.value.event))
            && (h.roots.None? ==> s.stateHex == s.agentHex == s.eventHex == "")
            && (s.signatures.None? <==> h.signatures.None?)
            && (h.signatures.Some? ==>
                  && s.signatures.value.ecdsa == h.signatures.value.ecdsa
                  && s.signatures.value.bitmap == h.signatures.value.bitmap
                  && s.signatures.value.totalWeight == h.signatures.value.totalWeight)
  {
  }

  /** Exactly what a header loses on its way through storage: the signature count and empty roots. */
  lemma ReloadedHeader(h: Header)
    ensures FromStored(ToStored(h)) == h.(
              roots := if h.roots == Some(Roots([], [], [])) then None else h.roots,
              signatures := if h.signatures.None? then None else Some(h.signatures.value.(count := 0)))
  {
    var r := if h.roots.Some? then h.roots.value else Roots([], [], []);
    HexRoundTrip(h.parent);
    HexRoundTrip(r.state);
    HexRoundTrip(r.agent);
    HexRoundTrip(r.event);
  }

  /** The hash survives: a reloaded header still links to its parent and to its child. */
  lemma ReloadKeepsHash(hash: Hash, h: Header)
    ensures HeaderHash(hash, FromStored(ToStored(h))) == HeaderHash(hash, h)
    ensures FromStored(ToStored(h)).parent == h.parent && FromStored(ToStored(h)).epoch == h.epoch
  {
    ReloadedHeader(h);
    assert RootsOf(FromStored(ToStored(h))) == RootsOf(h);
  }

  function Reload(log: seq<Header>): (reloaded: seq<Header>)
    ensures |reloaded| == |log| && forall i :: 0 <= i < |log| ==> reloaded[i] == FromStored(ToStored(log[i]))
  {
    if log == [] then [] else [FromStored(ToStored(log[0]))] + Reload(log[1..])
  }

  /** A whole chain read back from storage is linked again. */
  lemma ReloadedChainLinks(hash: Hash, log: seq<Header>)
    requires Linked(hash, log)
    ensures Linked(hash, Reload(log))
  {
    forall i | 0 <= i < |log|
      ensures Reload(log)[i].epoch == log[i].epoch && Reload(log)[i].parent == log[i].parent
      ensures HeaderHash(hash, Reload(log)[i]) == HeaderHash(hash, log[i])
    {
      ReloadKeepsHash(hash, log[i]);
    }
  }

  // ---------------------------------------------------------------- the chain manager

  /** Every accepted header is found under its epoch. */
  ghost predicate Cached(checkpoints: map<nat, Header>, log: seq<Header>) {
    forall i :: 0 <= i < |log| ==> log[i].epoch in checkpoints && checkpoints[log[i].epoch] == log[i]
  }

  lemma CacheExtends(hash: Hash, checkpoints: map<nat, Header>, log: seq<Header>, h: Header)
    requires Cached(checkpoints, log) && Linked(hash, log + [h])
    ensures Cached(checkpoints[h.epoch := h], log + [h])
  {
    var longer := log + [h];
    forall i | 0 <= i < |log| ensures log[i].epoch != h.epoch {
      assert longer[i].epoch < longer[|log|].epoch;
    }
  }

  /** A store fed by one chain: increasing epochs, none beyond the tip. */
  ghost predicate FedBy(hdrs: seq<StoredHeader>, log: seq<Header>) {
    && Increasing(hdrs)
    && (hdrs != [] ==> log != [] && hdrs[|hdrs| - 1].epoch <= log[|log| - 1].epoch)
  }

  lemma FedExtends(hash: Hash, hdrs: seq<StoredHeader>, log: seq<Header>, h: Header)
    requires FedBy(hdrs, log) && Linked(hash, log + [h])
    ensures FedBy(hdrs, log + [h]) && FedBy(hdrs + [ToStored(h)], log + [h])
  {
    var longer := log + [h];
    if hdrs != [] {
      assert longer[|log| - 1].epoch < longer[|log|].epoch;
    }
  }

  class ChainManager {
    const hash: Hash
    const store: InMemory?
    var checkpoints: map<nat, Header>
    var latest: Option<Header>
    ghost var log: seq<Header>

    /** The cache holds every accepted header under its epoch; the store lists increasing epochs. */
    ghost predicate Valid()
      reads this, store
    {
      && Linked(hash, log)
      && latest == Tip(log)
      && Cached(checkpoints, log)
    }

    /** True as long as everything in the store was saved by this chain. */
    ghost predicate OwnStore()
      reads this, store
    {
      store != null ==> FedBy(store.hdrs, log)
    }

    constructor (hash: Hash, store: InMemory?)
      ensures Valid() && log == [] && this.hash == hash && this.store == store && checkpoints == map[]
      ensures (store != null ==> store.hdrs == []) ==> OwnStore()
    {
      this.hash, this.store := hash, store;
      checkpoints, latest, log := map[], None, [];
    }

    /** The checks of `AddCheckpoint` against the latest header, whose hash is computed on the way. */
    method CheckContinuity(h: Header) returns (r: Admission)
      ensures r == Admit(hash, latest, h)
    {
      if latest.Some? {
        if h.epoch <= latest.value.epoch { return Refused(BadEpoch); }
        var latestHash := WriteHeaderAndSignatures(hash, latest.value);
        if |h.parent| > 0 {
          if h.parent != latestHash { return Refused(BadParent); }
        } else {
          return Admitted(h.(parent := latestHash));
        }
      }
      return Admitted(h);
    }

    /** `AddCheckpoint`: the outcome, and whether the store accepts the header (`saveOk`) if there is one. */
    method AddCheckpoint(h: Header, saveOk: bool) returns (r: Admission, saved: bool)
      requires Valid()
      modifies this, store
      ensures Valid() && r == Admit(hash, old(latest), h)
      ensures log == Extend(hash, old(log), h)
      ensures r.Refused? ==> checkpoints == old(checkpoints) && latest == old(latest)
      ensures saved == (r.Admitted? && store != null && saveOk)
      ensures store != null ==> store.hdrs == old(store.hdrs) + (if saved then [ToStored(r.header)] else [])
      ensures old(OwnStore()) ==> OwnStore()
    {
      saved := false;
      r := CheckContinuity(h);
      if r.Refused? { return; }
      ExtendKeepsLinks(hash, log, h);
      CacheExtends(hash, checkpoints, log, r.header);
      if OwnStore() && store != null { FedExtends(hash, store.hdrs, log, r.header); }
      checkpoints := checkpoints[r.header.epoch := r.header];
      latest := Some(r.header);
      log := log + [r.header];
      if store != null && saveOk {
        store.SaveHeader(ToStored(r.header));
        saved := true;
      }
    }

    /** `GetCheckpoint`: the cache first, then the store, whose answer is cached without touching the log. */
    method GetCheckpoint(epoch: nat) returns (r: Option<Header>)
      requires Valid()
      modifies this`checkpoints
      ensures Valid()
      ensures epoch in old(checkpoints) ==> r == Some(old(checkpoints)[epoch]) && checkpoints == old(checkpoints)
      ensures epoch !in old(checkpoints) ==>
                var found := if store == null then None else FindEpoch(store.hdrs, epoch);
                && r == (if found.None? then None else Some(FromStored(found.value)))
                && checkpoints == (if r.None? then old(checkpoints) else old(checkpoints)[epoch := r.value])
    {
      if epoch in checkpoints { return Some(checkpoints[epoch]); }
      if store != null {
        var found := store.GetHeader(epoch);
        if found.Some? {
          checkpoints := checkpoints[epoch := FromStored(found.value)];
          return Some(checkpoints[epoch]);
        }
      }
      return None;
    }

    /** `GetLatest` and `GetHeight`. */
    method GetLatest() returns (r: Option<Header>, height: nat)
      requires Valid()
      ensures r == Tip(log)
      ensures height == if log == [] then 0 else log[|log| - 1].epoch
    {
      r := latest;
      height := if latest.None? then 0 else latest.value.epoch;
    }
  }
}
