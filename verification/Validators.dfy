/** The validator set of internal/types: thresholds by count and by weight, and quorum intersection. */
module Validators {
  import opened ByteStrings

  type Id = string

  datatype Validator = Validator(id: Id, pubKey: Bytes, weight: nat)

  /** A validator's signature; `msgHash` is what the signer says it signed and is not trusted. */
  datatype Signature = Signature(signerId: Id, der: Bytes, msgHash: Bytes)

  datatype ValidatorSet = ValidatorSet(validators: seq<Validator>, minValidators: int, num: int, den: int) {

    /** Exactly what `Validate` accepts. */
    ghost predicate Valid() {
      && |validators| >= minValidators
      && 0 < num <= den
      && DistinctIds(validators)
    }
  }

  ghost predicate DistinctIds(vs: seq<Validator>) {
    forall i, j :: 0 <= i < j < |vs| ==> vs[i].id != vs[j].id
  }

  datatype SetError = TooFewValidators | BadThreshold | DuplicateId(id: Id)

  /** `Validate`: the checks in source order, with the map of ids already seen. */
  method Validate(vs: ValidatorSet) returns (err: Option<SetError>)
    ensures err.None? <==> vs.Valid()
    ensures err.None? <==>
              && |vs.validators| >= vs.minValidators && vs.num > 0 && vs.den > 0 && vs.num <= vs.den
              && forall i, j :: 0 <= i < j < |vs.validators| ==> vs.validators[i].id != vs.validators[j].id
  {
    if |vs.validators| < vs.minValidators { return Some(TooFewValidators); }
    if vs.num <= 0 || vs.den <= 0 { return Some(BadThreshold); }
    if vs.num > vs.den { return Some(BadThreshold); }
    var seen: set<Id> := {};
    for i := 0 to |vs.validators|
      invariant DistinctIds(vs.validators[..i])
      invariant seen == set k | 0 <= k < i :: vs.validators[k].id
    {
      var id := vs.validators[i].id;
      if id in seen {
        return Some(DuplicateId(id));
      }
      seen := seen + {id};
    }
    assert vs.validators[..|vs.validators|] == vs.validators;
    return None;
  }

  // ---------------------------------------------------------------- lookup

  /** The position of the first validator with this id, or -1 (`IndexByID`, `GetValidator`). */
  function IndexFrom(vs: seq<Validator>, id: Id): (i: int)
    ensures -1 <= i < |vs|
    ensures i >= 0 ==> vs[i].id == id && forall k :: 0 <= k < i ==> vs[k].id != id
    ensures i == -1 ==> forall k :: 0 <= k < |vs| ==> vs[k].id != id
  {
    if vs == [] then -1
    else if vs[0].id == id then 0
    else
      var r := IndexFrom(vs[1..], id);
      if r < 0 then -1 else r + 1
  }

  method IndexById(vs: ValidatorSet, id: Id) returns (i: int)
    ensures i == IndexFrom(vs.validators, id)
  {
    for k := 0 to |vs.validators|
      invariant forall j :: 0 <= j < k ==> vs.validators[j].id != id
    {
      if vs.validators[k].id == id { return k; }
    }
    return -1;
  }

  function MemberIds(vs: seq<Validator>): (s: set<Id>)
    ensures forall id :: id in s <==> IndexFrom(vs, id) >= 0
  {
    set i | 0 <= i < |vs| :: vs[i].id
  }

  // ---------------------------------------------------------------- sums over members

  /** Total weight of the validators whose id lies in `ids`. */
  function WeightOf(vs: seq<Validator>, ids: set<Id>): (w: nat) {
    if vs == [] then 0
    else (if vs[0].id in ids then vs[0].weight else 0) + WeightOf(vs[1..], ids)
  }

  /** Number of validators whose id lies in `ids`. */
  function CountOf(vs: seq<Validator>, ids: set<Id>): (c: nat)
    ensures c <= |vs|
  {
    if vs == [] then 0
    else (if vs[0].id in ids then 1 else 0) + CountOf(vs[1..], ids)
  }

  function TotalWeight(vs: seq<Validator>): (w: nat) {
    if vs == [] then 0 else vs[0].weight + TotalWeight(vs[1..])
  }

  lemma {:induction false} SumsDependOnMembers(vs: seq<Validator>, a: set<Id>, b: set<Id>)
    requires forall i :: 0 <= i < |vs| ==> (vs[i].id in a <==> vs[i].id in b)
    ensures WeightOf(vs, a) == WeightOf(vs, b) && CountOf(vs, a) == CountOf(vs, b)
  {
    if vs != [] {
      assert vs[0].id in a <==> vs[0].id in b;
      SumsDependOnMembers(vs[1..], a, b);
    }
  }

  /** One more id adds the weight of the validator that carries it, and nothing else. */
  lemma {:induction false} AddOneId(vs: seq<Validator>, ids: set<Id>, id: Id)
    requires DistinctIds(vs) && id !in ids
    ensures var i := IndexFrom(vs, id);
            && WeightOf(vs, ids + {id}) == WeightOf(vs, ids) + (if i >= 0 then vs[i].weight else 0)
            && CountOf(vs, ids + {id}) == CountOf(vs, ids) + (if i >= 0 then 1 else 0)
  {
    if vs != [] {
      if vs[0].id == id {
        SumsDependOnMembers(vs[1..], ids + {id}, ids);
      } else {
        AddOneId(vs[1..], ids, id);
      }
    }
  }

  lemma {:induction false} EmptySums(vs: seq<Validator>)
    ensures WeightOf(vs, {}) == 0 && CountOf(vs, {}) == 0
  {
    if vs != [] { EmptySums(vs[1..]); }
  }

  /** Counting positions and counting ids agree when ids are distinct. */
  lemma {:induction false} CountIsCardinality(vs: seq<Validator>, ids: set<Id>)
    requires DistinctIds(vs)
    ensures CountOf(vs, ids) == |ids * MemberIds(vs)|
    decreases |ids|
  {
    if ids == {} {
      EmptySums(vs);
      assert ids * MemberIds(vs) == {};
    } else {
      var id :| id in ids;
      var rest := ids - {id};
      assert rest + {id} == ids;
      CountIsCardinality(vs, rest);
      AddOneId(vs, rest, id);
      if IndexFrom(vs, id) >= 0 {
        assert ids * MemberIds(vs) == rest * MemberIds(vs) + {id};
      } else {
        assert ids * MemberIds(vs) == rest * MemberIds(vs);
      }
    }
  }

  /** Inclusion and exclusion: what two id sets share is at least their overlap beyond the whole. */
  lemma {:induction false} Overlap(vs: seq<Validator>, a: set<Id>, b: set<Id>)
    ensures WeightOf(vs, a * b) + TotalWeight(vs) >= WeightOf(vs, a) + WeightOf(vs, b)
    ensures CountOf(vs, a * b) + |vs| >= CountOf(vs, a) + CountOf(vs, b)
  {
    if vs != [] { Overlap(vs[1..], a, b); }
  }

  /** The total weight is the weight of all members. */
  lemma {:induction false} TotalIsOfAll(vs: seq<Validator>, ids: set<Id>)
    requires forall i :: 0 <= i < |vs| ==> vs[i].id in ids
    ensures TotalWeight(vs) == WeightOf(vs, ids)
  {
    if vs != [] { TotalIsOfAll(vs[1..], ids); }
  }

  // ---------------------------------------------------------------- thresholds

  /** Go's rounded-up quotient, written as the source does: the quotient, plus one for a remainder. */
  function CeilDiv(x: nat, den: nat): (r: nat)
    requires den > 0
  {
    x / den + (if x % den > 0 then 1 else 0)
  }

  function CeilShare(total: nat, num: nat, den: nat): (r: nat)
    requires 0 < num <= den
  {
    CeilDiv(total * num, den)
  }

  function RequiredSignatures(vs: ValidatorSet): (r: nat)
    requires vs.Valid()
  {
    var share := CeilShare(|vs.validators|, vs.num, vs.den);
    if share < 1 then 1 else share
  }

  function RequiredWeight(vs: ValidatorSet): (r: nat)
    requires vs.Valid()
  {
    CeilShare(TotalWeight(vs.validators), vs.num, vs.den)
  }

  predicate CheckThreshold(vs: ValidatorSet, count: int)
    requires vs.Valid()
  {
    count >= RequiredSignatures(vs)
  }

  /** The weight test against the set of ids that signed. */
  predicate MeetsWeight(vs: ValidatorSet, ids: set<Id>)
    requires vs.Valid()
  {
    WeightOf(vs.validators, ids) >= RequiredWeight(vs)
  }

  /** `CheckWeightedThreshold`: any enumeration of the map's keys gives the sum over set members. */
  method CheckWeightedThreshold(vs: ValidatorSet, ids: set<Id>) returns (ok: bool)
    requires vs.Valid()
    ensures ok == MeetsWeight(vs, ids)
  {
    var total, rest := 0, ids;
    EmptySums(vs.validators);
    assert ids - rest == {};
    while rest != {}
      invariant rest <= ids && total == WeightOf(vs.validators, ids - rest)
      decreases |rest|
    {
      var id :| id in rest;
      AddOneId(vs.validators, ids - rest, id);
      assert ids - (rest - {id}) == (ids - rest) + {id};
      var i := IndexById(vs, id);
      if i >= 0 { total := total + vs.validators[i].weight; }
      rest := rest - {id};
    }
    assert ids - rest == ids;
    return total >= RequiredWeight(vs);
  }

  /** The result is the least whole number that is at least num/den of the total. */
  lemma CeilShareIsLeast(total: nat, num: nat, den: nat, k: nat)
    requires 0 < num <= den
    ensures k >= CeilShare(total, num, den) <==> k * den >= total * num
  {
    var x := total * num;
    var q := x / den;
    assert x == q * den + x % den;
    if k <= q {
      Mono(k, q, den);
      if k < q { Mono(k + 1, q, den); }
    } else {
      Mono(q + 1, k, den);
    }
  }

  lemma CeilShareBounds(total: nat, num: nat, den: nat)
    requires 0 < num <= den
    ensures CeilShare(total, num, den) <= total
    ensures total > 0 ==> CeilShare(total, num, den) > 0
    ensures CeilShare(total, num, den) * den >= total * num
  {
    CeilShareIsLeast(total, num, den, total);
    Mono(num, den, total);
    CeilShareIsLeast(total, num, den, 0);
    if total > 0 { Mono(1, num, total); }
    CeilShareIsLeast(total, num, den, CeilShare(total, num, den));
  }

  /** The signature threshold is the least positive count reaching the share, and is attainable. */
  lemma RequiredSignaturesExact(vs: ValidatorSet, k: nat)
    requires vs.Valid() && |vs.validators| > 0
    ensures 1 <= RequiredSignatures(vs) <= |vs.validators|
    ensures CheckThreshold(vs, k) <==> k * vs.den >= |vs.validators| * vs.num
  {
    CeilShareBounds(|vs.validators|, vs.num, vs.den);
    CeilShareIsLeast(|vs.validators|, vs.num, vs.den, k);
  }

  /** The weight threshold, in the terms of the fraction: the signers' share of the weight is at least num/den. */
  lemma RequiredWeightExact(vs: ValidatorSet, ids: set<Id>)
    requires vs.Valid()
    ensures MeetsWeight(vs, ids) <==> WeightOf(vs.validators, ids) * vs.den >= TotalWeight(vs.validators) * vs.num
  {
    CeilShareIsLeast(TotalWeight(vs.validators), vs.num, vs.den, WeightOf(vs.validators, ids));
  }

  lemma MajorityScaled(r: nat, total: nat, num: nat, den: nat)
    requires r * den >= total * num && 2 * num > den && total > 0
    ensures 2 * r > total
  {
    if 2 * r <= total {
      Mono(2 * r, total, den);
      Mono(den + 1, 2 * num, total);
    }
  }

  /** Twice a majority share exceeds the whole. */
  lemma MajorityOverlap(total: nat, num: nat, den: nat)
    requires 0 < num <= den && 2 * num > den && total > 0
    ensures 2 * CeilShare(total, num, den) > total
  {
    CeilShareBounds(total, num, den);
    MajorityScaled(CeilShare(total, num, den), total, num, den);
  }

  /** Two signer counts that pass the threshold share 2*required - N members, at least one under a majority. */
  lemma QuorumsIntersect(vs: ValidatorSet, a: set<Id>, b: set<Id>)
    requires vs.Valid() && |vs.validators| > 0
    requires CheckThreshold(vs, |a * MemberIds(vs.validators)|)
    requires CheckThreshold(vs, |b * MemberIds(vs.validators)|)
    ensures |a * b * MemberIds(vs.validators)| >= 2 * RequiredSignatures(vs) - |vs.validators|
    ensures 2 * vs.num > vs.den ==> exists id :: id in a && id in b && id in MemberIds(vs.validators)
  {
    var m := MemberIds(vs.validators);
    CountIsCardinality(vs.validators, a);
    CountIsCardinality(vs.validators, b);
    CountIsCardinality(vs.validators, a * b);
    Overlap(vs.validators, a, b);
    if 2 * vs.num > vs.den {
      MajorityOverlap(|vs.validators|, vs.num, vs.den);
      var common := a * b * m;
      assert |common| > 0;
      var id :| id in common;
      assert id in a && id in b && id in m;
    }
  }

  lemma {:induction false} WeightWitness(vs: seq<Validator>, ids: set<Id>)
    requires WeightOf(vs, ids) > 0
    ensures exists i :: 0 <= i < |vs| && vs[i].id in ids && vs[i].weight > 0
  {
    if !(vs[0].id in ids && vs[0].weight > 0) {
      WeightWitness(vs[1..], ids);
      var i :| 0 <= i < |vs[1..]| && vs[1..][i].id in ids && vs[1..][i].weight > 0;
      assert vs[i + 1].id in ids;
    }
  }

  /** The same by weight: two weighted quorums share weight, and under a majority a common signer. */
  lemma WeightedQuorumsIntersect(vs: ValidatorSet, a: set<Id>, b: set<Id>)
    requires vs.Valid() && MeetsWeight(vs, a) && MeetsWeight(vs, b)
    ensures WeightOf(vs.validators, a * b) >= 2 * RequiredWeight(vs) - TotalWeight(vs.validators)
    ensures 2 * vs.num > vs.den && TotalWeight(vs.validators) > 0 ==>
              exists i :: 0 <= i < |vs.validators| && vs.validators[i].id in a * b && vs.validators[i].weight > 0
  {
    Overlap(vs.validators, a, b);
    if 2 * vs.num > vs.den && TotalWeight(vs.validators) > 0 {
      MajorityOverlap(TotalWeight(vs.validators), vs.num, vs.den);
      WeightWitness(vs.validators, a * b);
    }
  }

  lemma {:induction false} UniformSums(vs: seq<Validator>, ids: set<Id>, w: nat)
    requires forall i :: 0 <= i < |vs| ==> vs[i].weight == w
    ensures TotalWeight(vs) == |vs| * w && WeightOf(vs, ids) == CountOf(vs, ids) * w
  {
    if vs != [] { UniformSums(vs[1..], ids, w); }
  }

  lemma ScaledComparison(a: nat, b: nat, w: nat)
    requires w > 0
    ensures a * w >= b * w <==> a >= b
  {
    if a >= b { Mono(b, a, w); } else { Mono(a + 1, b, w); }
  }

  lemma SwapFactors(a: nat, b: nat, c: nat)
    ensures (a * b) * c == (a * c) * b
  {
  }

  lemma UniformShare(n: nat, c: nat, w: nat, num: nat, den: nat)
    requires w > 0 && 0 < num <= den
    ensures c * w >= CeilShare(n * w, num, den) <==> c * den >= n * num
  {
    CeilShareIsLeast(n * w, num, den, c * w);
    SwapFactors(c, w, den);
    SwapFactors(n, w, num);
    ScaledComparison(c * den, n * num, w);
  }

  /**
   * With equal positive weights the weighted test and the count test on set members decide alike
   * for every set of signers exactly when the set is not empty.
   */
  lemma UniformWeightsAgree(vs: ValidatorSet, w: nat)
    requires vs.Valid() && w > 0
    requires forall i :: 0 <= i < |vs.validators| ==> vs.validators[i].weight == w
    ensures |vs.validators| > 0 <==>
              forall ids :: MeetsWeight(vs, ids) <==> CheckThreshold(vs, |ids * MemberIds(vs.validators)|)
  {
    var n := |vs.validators|;
    if n > 0 {
      forall ids
        ensures MeetsWeight(vs, ids) <==> CheckThreshold(vs, |ids * MemberIds(vs.validators)|)
      {
        var c := CountOf(vs.validators, ids);
        UniformSums(vs.validators, ids, w);
        CountIsCardinality(vs.validators, ids);
        UniformShare(n, c, w, vs.num, vs.den);
        RequiredSignaturesExact(vs, c);
      }
    } else {
      var none: set<Id> := {};
      EmptySums(vs.validators);
      assert MeetsWeight(vs, none) && none * MemberIds(vs.validators) == {};
      assert !CheckThreshold(vs, |none * MemberIds(vs.validators)|);
    }
  }
}
