/** Header storage: the stored form of a header, the LevelDB key space and the in-memory slice. */
module Stores {
  import opened ByteStrings
  import opened Bitmaps
  import opened Sorting
  import opened Hashing

  datatype StoredSignatures = StoredSignatures(ecdsa: seq<Bytes>, bitmap: Option<Bitmap>, totalWeight: nat)

  /** types.CheckpointHeader, as far as the chain manager fills it: binary fields are hex text. */
  datatype StoredHeader = StoredHeader(
    epoch: nat, subnetId: Bytes, timestamp: int, parentHex: string,
    stateHex: string, agentHex: string, eventHex: string, signatures: Option<StoredSignatures>)

  // ---------------------------------------------------------------- keys

  const PREFIX: Bytes := [99, 112, 58, 101, 112, 111, 99, 104, 58] // "cp:epoch:"

  function Pow10(k: nat): (p: nat)
    ensures p > 0
  {
    if k == 0 then 1 else 10 * Pow10(k - 1)
  }

  /** The k low decimal digits of n as ASCII text, zero padded. */
  function Decimal(n: nat, k: nat): (s: Bytes)
    ensures |s| == k
  {
    if k == 0 then [] else Decimal(n / 10, k - 1) + [48 + n % 10]
  }

  /** `keyHeader`: "cp:epoch:%020d". */
  function KeyHeader(epoch: nat): (key: Bytes) {
    PREFIX + Decimal(epoch, 20)
  }

  lemma DivideByTen(n: nat, p: nat)
    requires p > 0
    ensures (n / 10) / p == n / (10 * p)
  {
    var q := n / 10;
    var a, b := q / p, q % p;
    assert q == a * p + b;
    assert n == a * (10 * p) + (10 * b + n % 10);
    QuotientIs(n, 10 * p, a, 10 * b + n % 10);
  }

  /** Zero-padded decimal digits, most significant first. */
  lemma {:induction false} DecimalDigit(n: nat, k: nat, i: nat)
    requires i < k
    ensures Decimal(n, k)[i] == 48 + n / Pow10(k - 1 - i) % 10
  {
    if i == k - 1 {
      assert Pow10(0) == 1;
    } else {
      DecimalDigit(n / 10, k - 1, i);
      DivideByTen(n, Pow10(k - 2 - i));
    }
  }

  /** The key is the text "cp:epoch:" and twenty digits. */
  lemma KeyText(epoch: nat, i: nat)
    ensures |KeyHeader(epoch)| == 29
    ensures i < 9 ==> KeyHeader(epoch)[i] == "cp:epoch:"[i] as int
    ensures i < 20 ==> KeyHeader(epoch)[9 + i] == '0' as int + epoch / Pow10(19 - i) % 10
  {
    if i < 20 { DecimalDigit(epoch, 20, i); }
  }

  lemma {:induction false} DecimalOrder(m: nat, n: nat, k: nat)
    requires m < Pow10(k) && n < Pow10(k)
    ensures LexLess(Decimal(m, k), Decimal(n, k)) <==> m < n
    decreases k
  {
    if k > 0 {
      var p, q := Decimal(m / 10, k - 1), Decimal(n / 10, k - 1);
      var a, b: Bytes := [48 + m % 10], [48 + n % 10];
      DecimalOrder(m / 10, n / 10, k - 1);
      DecimalOrder(n / 10, m / 10, k - 1);
      if m / 10 < n / 10 {
        LexLeadingDecides(p, q, a, b);
      } else if n / 10 < m / 10 {
        LexLeadingDecides(q, p, b, a);
        LexTrichotomy(p + a, q + b);
      } else {
        LexSamePrefix(p, a, b);
      }
    }
  }

  lemma TwentyDigitsSuffice()
    ensures TWO64 <= Pow10(20)
  {
    assert Pow10(4) == 1_0000;
    assert Pow10(8) == 1_0000 * Pow10(4) by { PowSum(4, 4); }
    assert Pow10(16) == Pow10(8) * Pow10(8) by { PowSum(8, 8); }
    assert Pow10(20) == 1_0000 * Pow10(16) by { PowSum(4, 16); }
  }

  lemma {:induction false} PowSum(j: nat, k: nat)
    ensures Pow10(j + k) == Pow10(j) * Pow10(k)
  {
    if j > 0 { PowSum(j - 1, k); }
  }

  /** Keys sort exactly as the uint64 epochs they are made of. */
  lemma KeyOrderIsEpochOrder(m: nat, n: nat)
    requires m < TWO64 && n < TWO64
    ensures LexLess(KeyHeader(m), KeyHeader(n)) <==> m < n
    ensures KeyHeader(m) == KeyHeader(n) <==> m == n
  {
    TwentyDigitsSuffice();
    DecimalOrder(m, n, 20);
    DecimalOrder(n, m, 20);
    LexSamePrefix(PREFIX, Decimal(m, 20), Decimal(n, 20));
    LexSamePrefix(PREFIX, Decimal(n, 20), Decimal(m, 20));
    LexIrreflexive(KeyHeader(m));
  }

  // ---------------------------------------------------------------- the two stores after any saves

  ghost predicate Increasing(hs: seq<StoredHeader>) {
    forall i, j :: 0 <= i < j < |hs| ==> hs[i].epoch < hs[j].epoch
  }

  ghost predicate Fits(hs: seq<StoredHeader>) {
    forall i :: 0 <= i < |hs| ==> hs[i].epoch < TWO64
  }

  type Db = map<Bytes, StoredHeader>

  /** The header records of the database after these saves. */
  function DbAfter(hs: seq<StoredHeader>): (db: Db) {
    if hs == [] then map[]
    else var last := hs[|hs| - 1]; DbAfter(hs[..|hs| - 1])[KeyHeader(last.epoch) := last]
  }

  /** `keys` is what a prefix iterator visits: every key once, in ascending byte order. */
  ghost predicate IteratorOrder(db: Db, keys: seq<Bytes>) {
    && (forall i, j :: 0 <= i < j < |keys| ==> LexLess(keys[i], keys[j]))
    && (forall k :: k in keys <==> k in db)
  }

  function Visit(db: Db, keys: seq<Bytes>): (hs: seq<StoredHeader>)
    requires forall k :: k in keys ==> k in db
    ensures |hs| == |keys| && forall i :: 0 <= i < |keys| ==> hs[i] == db[keys[i]]
  {
    if keys == [] then [] else [db[keys[0]]] + Visit(db, keys[1..])
  }

  /** Every record sits under the key of its own epoch and was saved. */
  lemma {:induction false} DbRecords(hs: seq<StoredHeader>)
    requires Fits(hs)
    ensures forall k :: k in DbAfter(hs) ==> DbAfter(hs)[k] in hs && k == KeyHeader(DbAfter(hs)[k].epoch)
    ensures forall h :: h in hs ==> KeyHeader(h.epoch) in DbAfter(hs)
  {
    if hs != [] {
      var front := hs[..|hs| - 1];
      DbRecords(front);
      assert hs == front + [hs[|hs| - 1]];
    }
  }

  /** What the database lists has strictly increasing epochs, whatever was saved. */
  lemma ListingIncreases(hs: seq<StoredHeader>, keys: seq<Bytes>)
    requires Fits(hs) && IteratorOrder(DbAfter(hs), keys)
    ensures Increasing(Visit(DbAfter(hs), keys))
  {
    var db, out := DbAfter(hs), Visit(DbAfter(hs), keys);
    DbRecords(hs);
    forall i, j | 0 <= i < j < |out| ensures out[i].epoch < out[j].epoch {
      assert keys[i] in db && keys[j] in db;
      assert out[i] in hs && out[j] in hs;
      KeyOrderIsEpochOrder(out[i].epoch, out[j].epoch);
    }
  }

  /** A strictly ascending enumeration of a set is unique. */
  lemma {:induction false} AscendingUnique(a: seq<Bytes>, b: seq<Bytes>)
    requires forall i, j :: 0 <= i < j < |a| ==> LexLess(a[i], a[j])
    requires forall i, j :: 0 <= i < j < |b| ==> LexLess(b[i], b[j])
    requires forall x :: x in a <==> x in b
    ensures a == b
  {
    assert a != [] ==> a[0] in b;
    assert b != [] ==> b[0] in a;
    if a != [] {
      LexTrichotomy(a[0], b[0]);
      forall x ensures x in a[1..] <==> x in b[1..] {
        LexIrreflexive(a[0]);
        assert x in a[1..] ==> x in a && LexLess(a[0], x);
        assert x in b[1..] ==> x in b && LexLess(b[0], x);
      }
      AscendingUnique(a[1..], b[1..]);
      assert a == [a[0]] + a[1..] && b == [b[0]] + b[1..];
    }
  }

  function KeysOf(hs: seq<StoredHeader>): (keys: seq<Bytes>)
    ensures |keys| == |hs| && forall i :: 0 <= i < |hs| ==> keys[i] == KeyHeader(hs[i].epoch)
  {
    if hs == [] then [] else [KeyHeader(hs[0].epoch)] + KeysOf(hs[1..])
  }

  /** With increasing epochs no save replaces another. */
  lemma {:induction false} NothingReplaced(hs: seq<StoredHeader>)
    requires Fits(hs) && Increasing(hs)
    ensures forall h :: h in hs ==> KeyHeader(h.epoch) in DbAfter(hs) && DbAfter(hs)[KeyHeader(h.epoch)] == h
  {
    if hs != [] {
      var front, last := hs[..|hs| - 1], hs[|hs| - 1];
      NothingReplaced(front);
      forall h | h in hs
        ensures KeyHeader(h.epoch) in DbAfter(hs) && DbAfter(hs)[KeyHeader(h.epoch)] == h
      {
        if h != last {
          assert h in front;
          KeyOrderIsEpochOrder(h.epoch, last.epoch);
        }
      }
    }
  }

  lemma OwnKeysIterate(hs: seq<StoredHeader>, keys: seq<Bytes>)
    requires Fits(hs) && Increasing(hs) && IteratorOrder(DbAfter(hs), keys)
    ensures keys == KeysOf(hs)
  {
    var own := KeysOf(hs);
    forall i, j | 0 <= i < j < |own| ensures LexLess(own[i], own[j]) {
      KeyOrderIsEpochOrder(hs[i].epoch, hs[j].epoch);
    }
    DbRecords(hs);
    forall k | k in own ensures k in keys {
      var i :| 0 <= i < |own| && own[i] == k;
      assert hs[i] in hs;
    }
    forall k | k in keys ensures k in own {
      assert k in DbAfter(hs);
      var i :| 0 <= i < |hs| && hs[i] == DbAfter(hs)[k];
      assert own[i] == k;
    }
    AscendingUnique(own, keys);
  }

  lemma IncreasingListing(hs: seq<StoredHeader>, keys: seq<Bytes>)
    requires Fits(hs) && Increasing(hs) && IteratorOrder(DbAfter(hs), keys)
    ensures Visit(DbAfter(hs), keys) == hs
  {
    OwnKeysIterate(hs, keys);
    NothingReplaced(hs);
    var out := Visit(DbAfter(hs), keys);
    forall i | 0 <= i < |hs| ensures out[i] == hs[i] {
      assert hs[i] in hs;
    }
  }

  /** The two stores list the same headers exactly when the epochs were saved in increasing order. */
  lemma ListsAgree(hs: seq<StoredHeader>, keys: seq<Bytes>)
    requires Fits(hs) && IteratorOrder(DbAfter(hs), keys)
    ensures Visit(DbAfter(hs), keys) == hs <==> Increasing(hs)
  {
    if Increasing(hs) { IncreasingListing(hs, keys); }
    ListingIncreases(hs, keys);
  }

  /** Linear search for the first header of an epoch. */
  function FindEpoch(hs: seq<StoredHeader>, epoch: nat): (r: Option<StoredHeader>)
    ensures r.Some? ==> r.value in hs && r.value.epoch == epoch
    ensures r.None? ==> forall h :: h in hs ==> h.epoch != epoch
  {
    if hs == [] then None else if hs[0].epoch == epoch then Some(hs[0]) else FindEpoch(hs[1..], epoch)
  }

  /** On increasing saves both stores answer every lookup alike. */
  lemma LookupsAgree(hs: seq<StoredHeader>, epoch: nat)
    requires Fits(hs) && Increasing(hs) && epoch < TWO64
    ensures FindEpoch(hs, epoch)
            == if KeyHeader(epoch) in DbAfter(hs) then Some(DbAfter(hs)[KeyHeader(epoch)]) else None
  {
    NothingReplaced(hs);
    DbRecords(hs);
    var key := KeyHeader(epoch);
    if key in DbAfter(hs) {
      var h := DbAfter(hs)[key];
      KeyOrderIsEpochOrder(h.epoch, epoch);
    }
  }

  /** The last header saved for an epoch. */
  function FindLast(hs: seq<StoredHeader>, epoch: nat): (r: Option<StoredHeader>)
    ensures r.Some? ==> r.value in hs && r.value.epoch == epoch
    ensures r.None? ==> forall h :: h in hs ==> h.epoch != epoch
  {
    if hs == [] then None
    else if hs[|hs| - 1].epoch == epoch then Some(hs[|hs| - 1])
    else FindLast(hs[..|hs| - 1], epoch)
  }

  function DbLookup(db: Db, epoch: nat): (r: Option<StoredHeader>) {
    if KeyHeader(epoch) in db then Some(db[KeyHeader(epoch)]) else None
  }

  /** Whatever was saved, the database holds the last header of an epoch. */
  lemma {:induction false} DbHoldsLast(hs: seq<StoredHeader>, epoch: nat)
    requires Fits(hs) && epoch < TWO64
    ensures DbLookup(DbAfter(hs), epoch) == FindLast(hs, epoch)
  {
    if hs != [] {
      DbHoldsLast(hs[..|hs| - 1], epoch);
      KeyOrderIsEpochOrder(hs[|hs| - 1].epoch, epoch);
    }
  }

  /** Whatever was saved, both stores answer a lookup alike exactly if the first and the last header of the epoch are equal. */
  lemma LookupsAgreeExactlyIf(hs: seq<StoredHeader>, epoch: nat)
    requires Fits(hs) && epoch < TWO64
    ensures FindEpoch(hs, epoch) == DbLookup(DbAfter(hs), epoch) <==> FindEpoch(hs, epoch) == FindLast(hs, epoch)
  {
    DbHoldsLast(hs, epoch);
  }

  // ---------------------------------------------------------------- the stores themselves

  class InMemory {
    var hdrs: seq<StoredHeader>

    constructor ()
      ensures hdrs == []
    {
      hdrs := [];
    }

    method SaveHeader(h: StoredHeader)
      modifies this
      ensures hdrs == old(hdrs) + [h]
    {
      hdrs := hdrs + [h];
    }

    method GetHeader(epoch: nat) returns (r: Option<StoredHeader>)
      ensures r == FindEpoch(hdrs, epoch)
    {
      for i := 0 to |hdrs|
        invariant FindEpoch(hdrs[i..], epoch) == FindEpoch(hdrs, epoch)
      {
        assert hdrs[i..][0] == hdrs[i] && hdrs[i..][1..] == hdrs[i + 1..];
        if hdrs[i].epoch == epoch { return Some(hdrs[i]); }
      }
      return None;
    }

    method LoadLatestHeader() returns (r: Option<StoredHeader>)
      ensures r == if hdrs == [] then None else Some(hdrs[|hdrs| - 1])
    {
      if |hdrs| == 0 { return None; }
      return Some(hdrs[|hdrs| - 1]);
    }

    /** `ListHeaders`: a copy of the slice. */
    method ListHeaders() returns (out: seq<StoredHeader>)
      ensures out == hdrs
    {
      out := hdrs;
    }
  }

  class LevelDb {
    var db: Db
    ghost var saves: seq<StoredHeader>

    ghost predicate Valid()
      reads this
    {
      Fits(saves) && db == DbAfter(saves)
    }

    constructor ()
      ensures Valid() && saves == []
    {
      db, saves := map[], [];
    }

    method SaveHeader(h: StoredHeader)
      requires Valid() && h.epoch < TWO64
      modifies this
      ensures Valid() && saves == old(saves) + [h]
    {
      db := db[KeyHeader(h.epoch) := h];
      saves := saves + [h];
      assert saves[..|saves| - 1] == old(saves);
    }

    method GetHeader(epoch: nat) returns (r: Option<StoredHeader>)
      requires Valid() && epoch < TWO64
      ensures r == if KeyHeader(epoch) in db then Some(db[KeyHeader(epoch)]) else None
      ensures Increasing(saves) ==> r == FindEpoch(saves, epoch)
    {
      r := if KeyHeader(epoch) in db then Some(db[KeyHeader(epoch)]) else None;
      if Increasing(saves) { LookupsAgree(saves, epoch); }
    }

    /** A prefix iterator visits the keys in byte order. */
    method Iterate() returns (keys: seq<Bytes>)
      ensures IteratorOrder(db, keys)
    {
      var rest, unordered := db.Keys, [];
      while rest != {}
        invariant rest <= db.Keys
        invariant forall k :: k in unordered <==> k in db && k !in rest
        invariant forall i, j :: 0 <= i < j < |unordered| ==> unordered[i] != unordered[j]
        decreases |rest|
      {
        var k :| k in rest;
        unordered, rest := unordered + [k], rest - {k};
      }
      LexLeqIsTotalOrder();
      keys := Sort(unordered, LexLeq);
      StrictlyAscending(unordered, keys);
    }

    method ReadAll(keys: seq<Bytes>) returns (out: seq<StoredHeader>)
      requires forall k :: k in keys ==> k in db
      ensures out == Visit(db, keys)
    {
      out := [];
      for i := 0 to |keys|
        invariant |out| == i && forall j :: 0 <= j < i ==> out[j] == db[keys[j]]
      {
        out := out + [db[keys[i]]];
      }
    }

    /** `ListHeaders`: the records in iteration order. */
    method ListHeaders() returns (out: seq<StoredHeader>)
      requires Valid()
      ensures Increasing(out)
      ensures out == saves <==> Increasing(saves)
    {
      var keys := Iterate();
      out := ReadAll(keys);
      ListingIncreases(saves, keys);
      ListsAgree(saves, keys);
    }

    /** `LoadLatestHeader`: iterate to the last record. */
    method LoadLatestHeader() returns (r: Option<StoredHeader>)
      requires Valid()
      ensures Increasing(saves) ==> r == if saves == [] then None else Some(saves[|saves| - 1])
    {
      var keys := Iterate();
      r := None;
      for i := 0 to |keys|
        invariant r == if i == 0 then None else Some(db[keys[i - 1]])
      {
        r := Some(db[keys[i]]);
      }
      ListsAgree(saves, keys);
    }
  }

  /** Sorting distinct keys leaves them strictly ascending. */
  lemma StrictlyAscending(s: seq<Bytes>, out: seq<Bytes>)
    requires IsSortOf(LexLeq, s, out)
    requires forall i, j :: 0 <= i < j < |s| ==> s[i] != s[j]
    ensures forall i, j :: 0 <= i < j < |out| ==> LexLess(out[i], out[j])
    ensures forall k :: k in out <==> k in s
  {
    SameElements(s, out);
    forall i, j | 0 <= i < j < |out| ensures LexLess(out[i], out[j]) {
      LexTrichotomy(out[i], out[j]);
      if out[i] == out[j] {
        CountTwice(out, i, j);
        DistinctCountsOnce(s, out[i]);
      }
    }
  }

  lemma CountTwice(s: seq<Bytes>, i: nat, j: nat)
    requires i < j < |s| && s[i] == s[j]
    ensures multiset(s)[s[i]] >= 2
  {
    assert s == s[..i] + [s[i]] + s[i + 1..j] + [s[j]] + s[j + 1..];
  }

  lemma {:induction false} DistinctCountsOnce(s: seq<Bytes>, x: Bytes)
    requires forall i, j :: 0 <= i < j < |s| ==> s[i] != s[j]
    ensures multiset(s)[x] <= 1
  {
    if s != [] {
      DistinctCountsOnce(s[1..], x);
      assert s == [s[0]] + s[1..];
      if x == s[0] { assert x !in s[1..]; }
    }
  }

  /** Saving one epoch twice already separates the stores: one keeps the first, one the last. */
  lemma RepeatedEpochSeparates(g: StoredHeader, h: StoredHeader)
    requires g.epoch == h.epoch < TWO64 && g != h
    ensures FindEpoch([g, h], g.epoch) == Some(g)
    ensures KeyHeader(g.epoch) in DbAfter([g, h]) && DbAfter([g, h])[KeyHeader(g.epoch)] == h
  {
    assert [g, h][..1] == [g];
  }
}
