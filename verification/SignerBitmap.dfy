/** The signer bitmap and the ordered signature list of a checkpoint (internal/validator/node.go). */
module SignerBitmap {
  import opened ByteStrings
  import opened Bitmaps
  import opened Validators
  import opened Hashing

  type SignatureMap = map<Id, Signature>

  /** Positions of the validators that signed. */
  function SignerIndices(vs: seq<Validator>, ids: set<Id>): (s: set<nat>)
    ensures forall i :: i in s <==> 0 <= i < |vs| && vs[i].id in ids
  {
    set i: nat | i < |vs| && vs[i].id in ids
  }

  lemma SignerIndicesAdd(vs: seq<Validator>, ids: set<Id>, id: Id)
    requires DistinctIds(vs)
    ensures var i := IndexFrom(vs, id);
            SignerIndices(vs, ids + {id}) == SignerIndices(vs, ids) + (if i >= 0 then {i as nat} else {})
  {
  }

  function BitmapSize(vs: seq<Validator>): nat { (|vs| + 7) / 8 }

  /** `createSignersBitmapLocked`: signer ids in any order, each looked up by a linear search. */
  method CreateSignersBitmap(vs: seq<Validator>, sigs: SignatureMap) returns (bitmap: Bitmap)
    requires DistinctIds(vs)
    ensures Bits(bitmap) == SignerIndices(vs, sigs.Keys)
    ensures |bitmap| == if sigs == map[] then 0 else (|vs| + 7) / 8
  {
    if |sigs| == 0 { return []; }
    bitmap := NoBits(BitmapSize(vs));
    var rest := sigs.Keys;
    assert sigs.Keys - rest == {};
    while rest != {}
      invariant rest <= sigs.Keys && |bitmap| == BitmapSize(vs)
      invariant Bits(bitmap) == SignerIndices(vs, sigs.Keys - rest)
      decreases |rest|
    {
      var id :| id in rest;
      assert sigs.Keys - (rest - {id}) == (sigs.Keys - rest) + {id};
      SignerIndicesAdd(vs, sigs.Keys - rest, id);
      for idx := 0 to |vs|
        invariant forall k :: 0 <= k < idx ==> vs[k].id != id
        invariant |bitmap| == BitmapSize(vs) && Bits(bitmap) == SignerIndices(vs, sigs.Keys - rest)
      {
        if vs[idx].id == id {
          assert IndexFrom(vs, id) == idx;
          bitmap := SetBit(bitmap, idx);
          break;
        }
      }
      rest := rest - {id};
    }
    assert sigs.Keys - rest == sigs.Keys;
  }

  function NoBits(n: nat): (bitmap: Bitmap)
    ensures |bitmap| == n && Bits(bitmap) == {}
  {
    if n == 0 then []
    else
      var shorter := NoBits(n - 1);
      var longer := shorter + [0];
      assert forall i: nat :: BitIsSet(longer, i) ==> BitIsSet(shorter, i) by {
        forall i: nat | BitIsSet(longer, i) ensures BitIsSet(shorter, i) { ZeroHasNoBit(i % 8); }
      }
      longer
  }

  /** Signatures of the signers, in validator order. */
  function OrderedList(vs: seq<Validator>, sigs: SignatureMap): (list: seq<Bytes>) {
    if vs == [] then []
    else (if vs[0].id in sigs then [sigs[vs[0].id].der] else []) + OrderedList(vs[1..], sigs)
  }

  /** The loop of `finalizeCheckpoint` over the validator set. */
  method ListSignatures(vs: seq<Validator>, sigs: SignatureMap) returns (list: seq<Bytes>, weight: nat)
    ensures list == OrderedList(vs, sigs) && weight == WeightOf(vs, sigs.Keys)
  {
    list, weight := [], 0;
    for i := 0 to |vs|
      invariant list + OrderedList(vs[i..], sigs) == OrderedList(vs, sigs)
      invariant weight + WeightOf(vs[i..], sigs.Keys) == WeightOf(vs, sigs.Keys)
    {
      assert vs[i..][0] == vs[i] && vs[i..][1..] == vs[i + 1..];
      ghost var tail := OrderedList(vs[i + 1..], sigs);
      if vs[i].id in sigs {
        assert list + ([sigs[vs[i].id].der] + tail) == (list + [sigs[vs[i].id].der]) + tail;
        list := list + [sigs[vs[i].id].der];
        weight := weight + vs[i].weight;
      } else {
        assert list + ([] + tail) == list + tail;
      }
    }
  }

  /** The signature part of `finalizeCheckpoint`: bitmap, count, ordered list and total weight. */
  method CollectSignatures(vs: seq<Validator>, sigs: SignatureMap) returns (s: Signatures)
    requires DistinctIds(vs)
    ensures s.bitmap.Some? && Bits(s.bitmap.value) == SignerIndices(vs, sigs.Keys)
    ensures s.ecdsa == OrderedList(vs, sigs)
    ensures s.count == |sigs| && s.totalWeight == WeightOf(vs, sigs.Keys)
  {
    var bitmap := CreateSignersBitmap(vs, sigs);
    var list, weight := ListSignatures(vs, sigs);
    s := Signatures(list, Some(bitmap), |sigs|, weight);
  }

  // ---------------------------------------------------------------- reading it back

  /** A verifier's reading: walk the validators, each set bit takes the next listed signature. */
  function DecodeFrom(vs: seq<Validator>, bits: set<nat>, list: seq<Bytes>, from: nat): (m: map<Id, Bytes>)
    requires from <= |vs|
    decreases |vs| - from
  {
    if from == |vs| || list == [] then map[]
    else if from in bits then DecodeFrom(vs, bits, list[1..], from + 1)[vs[from].id := list[0]]
    else DecodeFrom(vs, bits, list, from + 1)
  }

  function RestrictedFrom(vs: seq<Validator>, sigs: SignatureMap, from: nat): (m: map<Id, Bytes>) {
    map id | id in sigs && IndexFrom(vs, id) >= from :: sigs[id].der
  }

  lemma IndexOfOwnId(vs: seq<Validator>, i: nat)
    requires DistinctIds(vs) && i < |vs|
    ensures IndexFrom(vs, vs[i].id) == i
  {
  }

  lemma RestrictedStep(vs: seq<Validator>, sigs: SignatureMap, from: nat)
    requires DistinctIds(vs) && from < |vs|
    ensures var id := vs[from].id; var rest := RestrictedFrom(vs, sigs, from + 1);
            RestrictedFrom(vs, sigs, from) == if id in sigs then rest[id := sigs[id].der] else rest
  {
    IndexOfOwnId(vs, from);
    forall id | IndexFrom(vs, id) == from ensures id == vs[from].id {
    }
  }

  lemma OrderedListStep(vs: seq<Validator>, sigs: SignatureMap, from: nat)
    requires from < |vs|
    ensures var id := vs[from].id; var rest := OrderedList(vs[from + 1..], sigs);
            OrderedList(vs[from..], sigs) == if id in sigs then [sigs[id].der] + rest else rest
  {
    assert vs[from..][0] == vs[from] && vs[from..][1..] == vs[from + 1..];
  }

  lemma {:induction false} EmptyListNoSigners(vs: seq<Validator>, sigs: SignatureMap, from: nat)
    requires DistinctIds(vs) && from <= |vs| && OrderedList(vs[from..], sigs) == []
    ensures RestrictedFrom(vs, sigs, from) == map[]
    decreases |vs| - from
  {
    if from < |vs| {
      OrderedListStep(vs, sigs, from);
      RestrictedStep(vs, sigs, from);
      EmptyListNoSigners(vs, sigs, from + 1);
    }
  }

  lemma {:induction false} DecodeRecovers(vs: seq<Validator>, sigs: SignatureMap, bits: set<nat>, from: nat)
    requires DistinctIds(vs) && from <= |vs| && bits == SignerIndices(vs, sigs.Keys)
    ensures DecodeFrom(vs, bits, OrderedList(vs[from..], sigs), from) == RestrictedFrom(vs, sigs, from)
    decreases |vs| - from
  {
    var list := OrderedList(vs[from..], sigs);
    if list == [] {
      EmptyListNoSigners(vs, sigs, from);
    } else {
      OrderedListStep(vs, sigs, from);
      RestrictedStep(vs, sigs, from);
      DecodeRecovers(vs, sigs, bits, from + 1);
      if from in bits { assert list[1..] == OrderedList(vs[from + 1..], sigs); }
    }
  }

  /** The bits and the list together give back exactly the signature map restricted to the set. */
  lemma SignaturesRoundTrip(vs: seq<Validator>, sigs: SignatureMap, bits: set<nat>)
    requires DistinctIds(vs) && bits == SignerIndices(vs, sigs.Keys)
    ensures DecodeFrom(vs, bits, OrderedList(vs, sigs), 0)
            == map id | id in sigs && id in MemberIds(vs) :: sigs[id].der
  {
    assert vs[0..] == vs;
    DecodeRecovers(vs, sigs, bits, 0);
  }

  /** How many of the next n positions have their bit set. */
  function SetAmong(bits: set<nat>, from: nat, n: nat): (c: nat)
    decreases n
  {
    if n == 0 then 0 else (if from in bits then 1 else 0) + SetAmong(bits, from + 1, n - 1)
  }

  lemma {:induction false} SetAmongCounts(bits: set<nat>, from: nat, n: nat)
    ensures CountBelow(bits, from + n) == CountBelow(bits, from) + SetAmong(bits, from, n)
    decreases n
  {
    if n > 0 { SetAmongCounts(bits, from + 1, n - 1); }
  }

  lemma {:induction false} OrderedListAt(vs: seq<Validator>, sigs: SignatureMap, bits: set<nat>, from: nat, i: nat)
    requires from <= i < |vs| && bits == SignerIndices(vs, sigs.Keys) && i in bits
    ensures var list, at := OrderedList(vs[from..], sigs), SetAmong(bits, from, i - from);
            at < |list| && list[at] == sigs[vs[i].id].der
    decreases i - from
  {
    OrderedListStep(vs, sigs, from);
    if from < i { OrderedListAt(vs, sigs, bits, from + 1, i); }
  }

  /** The k-th set bit owns the k-th listed signature. */
  lemma SetBitOwnsListEntry(vs: seq<Validator>, sigs: SignatureMap, bits: set<nat>, i: nat)
    requires bits == SignerIndices(vs, sigs.Keys) && i in bits
    ensures var k := CountBelow(bits, i);
            k < |OrderedList(vs, sigs)| && OrderedList(vs, sigs)[k] == sigs[vs[i].id].der
  {
    assert vs[0..] == vs;
    OrderedListAt(vs, sigs, bits, 0, i);
    SetAmongCounts(bits, 0, i);
  }

  function WeightOfBits(vs: seq<Validator>, bits: set<nat>, from: nat): (w: nat)
    requires from <= |vs|
    decreases |vs| - from
  {
    if from == |vs| then 0
    else (if from in bits then vs[from].weight else 0) + WeightOfBits(vs, bits, from + 1)
  }

  /** The recorded total weight is the sum over the set bits. */
  lemma {:induction false} WeightIsOverSetBits(vs: seq<Validator>, ids: set<Id>, from: nat)
    requires from <= |vs|
    ensures WeightOfBits(vs, SignerIndices(vs, ids), from) == WeightOf(vs[from..], ids)
    decreases |vs| - from
  {
    if from < |vs| {
      WeightIsOverSetBits(vs, ids, from + 1);
      assert vs[from..][0] == vs[from] && vs[from..][1..] == vs[from + 1..];
    }
  }
}
