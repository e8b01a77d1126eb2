/** First-in-first-out selection of intents for an epoch (signAndGossipValidationBundles in internal/validator/node.go). */
module IntentSelection {
  import opened ByteStrings
  import opened Sets
  import opened Sorting

  const MaxIntentsPerEpoch: nat := 10

  type Key = Bytes

  /** An intent group and the time at which its first report arrived; zero stands for unknown. */
  datatype Meta = Meta(key: Key, timestamp: int)

  /** The comparison passed to the sort: known times ascending, unknown ones last, ties by key. */
  predicate Before(a: Meta, b: Meta) {
    if a.timestamp == 0 && b.timestamp == 0 then LexLess(a.key, b.key)
    else if a.timestamp == 0 then false
    else if b.timestamp == 0 then true
    else if a.timestamp == b.timestamp then LexLess(a.key, b.key)
    else a.timestamp < b.timestamp
  }

  predicate AtMost(a: Meta, b: Meta) { a == b || Before(a, b) }

  lemma BeforeTransitive(a: Meta, b: Meta, c: Meta)
    requires Before(a, b) && Before(b, c)
    ensures Before(a, c)
  {
    if LexLess(a.key, b.key) && LexLess(b.key, c.key) { LexTransitive(a.key, b.key, c.key); }
  }

  lemma BeforeTrichotomy(a: Meta, b: Meta)
    ensures Before(a, b) || a == b || Before(b, a)
    ensures !(Before(a, b) && Before(b, a))
    ensures !Before(a, a)
  {
    LexTrichotomy(a.key, b.key);
    LexIrreflexive(a.key);
  }

  /** The comparison is a strict total order: irreflexive, asymmetric, transitive and total. */
  lemma BeforeIsStrictTotalOrder()
    ensures forall a, b :: Before(a, b) || a == b || Before(b, a)
    ensures forall a, b :: !(Before(a, b) && (a == b || Before(b, a)))
    ensures forall a, b, c :: Before(a, b) && Before(b, c) ==> Before(a, c)
  {
    forall a, b ensures (Before(a, b) || a == b || Before(b, a)) && !(Before(a, b) && (a == b || Before(b, a))) {
      BeforeTrichotomy(a, b);
    }
    forall a, b, c | Before(a, b) && Before(b, c) ensures Before(a, c) {
      BeforeTransitive(a, b, c);
    }
  }

  // ---------------------------------------------------------------- ranks

  function Earlier(pool: set<Meta>, x: Meta): (s: set<Meta>) {
    set m | m in pool && Before(m, x)
  }

  /** How many intents of the pool come before `x`. */
  function Rank(pool: set<Meta>, x: Meta): (r: nat) { |Earlier(pool, x)| }

  function Least(pool: set<Meta>, n: nat): (s: set<Meta>) {
    set m | m in pool && Rank(pool, m) < n
  }

  /** Ranks follow the order, so different intents have different ranks. */
  lemma RankFollowsOrder(pool: set<Meta>, x: Meta, y: Meta)
    requires x in pool && Before(x, y)
    ensures Rank(pool, x) < Rank(pool, y)
  {
    BeforeTrichotomy(x, x);
    forall m | m in Earlier(pool, x) ensures m in Earlier(pool, y) { BeforeTransitive(m, x, y); }
    assert x in Earlier(pool, y) && x !in Earlier(pool, x);
    SubsetSize(Earlier(pool, x), Earlier(pool, y));
  }

  lemma RankIdentifies(pool: set<Meta>, x: Meta, y: Meta)
    requires x in pool && y in pool && Rank(pool, x) == Rank(pool, y)
    ensures x == y
  {
    BeforeTrichotomy(x, y);
    if Before(x, y) {
      RankFollowsOrder(pool, x, y);
    } else if Before(y, x) {
      RankFollowsOrder(pool, y, x);
    }
  }

  lemma {:induction false} LastOf(pool: set<Meta>) returns (x: Meta)
    requires pool != {}
    ensures x in pool && forall m :: m in pool && m != x ==> Before(m, x)
    decreases |pool|
  {
    var some :| some in pool;
    var rest := pool - {some};
    x := some;
    if rest == {} {
      assert pool == {some} by { forall m | m in pool ensures m == some { assert m !in rest; } }
    } else {
      var y := LastOf(rest);
      BeforeTrichotomy(some, y);
      x := if Before(y, some) then some else y;
      forall m | m in pool && m != x ensures Before(m, x) {
        assert m == some || m == y || (m in rest && Before(m, y));
        if x == some && m != y { BeforeTransitive(m, y, some); }
      }
    }
  }

  lemma RankWithoutLast(pool: set<Meta>, last: Meta, m: Meta)
    requires last in pool && m in pool && (forall x :: x in pool && x != last ==> Before(x, last))
    ensures m != last ==> Rank(pool, m) == Rank(pool - {last}, m)
    ensures m == last ==> Rank(pool, m) == |pool| - 1
  {
    BeforeTrichotomy(m, last);
    if m == last {
      assert Earlier(pool, m) == pool - {last};
    } else {
      assert Earlier(pool, m) == Earlier(pool - {last}, m);
    }
  }

  /** The `n` least are as many as there can be. */
  lemma {:induction false} LeastSize(pool: set<Meta>, n: nat)
    ensures |Least(pool, n)| == if |pool| < n then |pool| else n
    decreases |pool|
  {
    if pool == {} {
      assert Least(pool, n) == {};
    } else {
      var last := LastOf(pool);
      var rest := pool - {last};
      LeastSize(rest, n);
      forall m | m in pool ensures m in Least(pool, n) <==> (if m == last then |pool| - 1 < n else m in Least(rest, n)) {
        RankWithoutLast(pool, last, m);
      }
      if |pool| - 1 < n {
        assert Least(pool, n) == Least(rest, n) + {last};
      } else {
        assert Least(pool, n) == Least(rest, n);
      }
    }
  }

  // ---------------------------------------------------------------- the selection

  function MetaOf(receivedAt: map<Key, int>, k: Key): (m: Meta) {
    Meta(k, if k in receivedAt then receivedAt[k] else 0)
  }

  function Pool(grouped: set<Key>, receivedAt: map<Key, int>): (pool: set<Meta>)
    ensures forall m :: m in pool <==> m.key in grouped && m == MetaOf(receivedAt, m.key)
  {
    set k | k in grouped :: MetaOf(receivedAt, k)
  }

  lemma {:induction false} PoolSize(grouped: set<Key>, receivedAt: map<Key, int>)
    ensures |Pool(grouped, receivedAt)| == |grouped|
  {
    if grouped != {} {
      var k :| k in grouped;
      PoolSize(grouped - {k}, receivedAt);
      assert Pool(grouped, receivedAt) == Pool(grouped - {k}, receivedAt) + {MetaOf(receivedAt, k)};
    }
  }

  /** The i-th key listed has rank i, and exactly the ten least intents are listed. */
  ghost predicate IsSelection(grouped: set<Key>, receivedAt: map<Key, int>, keys: seq<Key>) {
    var pool := Pool(grouped, receivedAt);
    && |keys| == (if |grouped| < MaxIntentsPerEpoch then |grouped| else MaxIntentsPerEpoch)
    && (forall i :: 0 <= i < |keys| ==> keys[i] in grouped && Rank(pool, MetaOf(receivedAt, keys[i])) == i)
    && (forall k :: k in grouped ==> (k in keys <==> Rank(pool, MetaOf(receivedAt, k)) < MaxIntentsPerEpoch))
  }

  /** There is only one selection, whatever the order in which the map is walked. */
  lemma SelectionUnique(grouped: set<Key>, receivedAt: map<Key, int>, a: seq<Key>, b: seq<Key>)
    requires IsSelection(grouped, receivedAt, a) && IsSelection(grouped, receivedAt, b)
    ensures a == b
  {
    forall i | 0 <= i < |a| ensures a[i] == b[i] {
      RankIdentifies(Pool(grouped, receivedAt), MetaOf(receivedAt, a[i]), MetaOf(receivedAt, b[i]));
    }
  }

  // ---------------------------------------------------------------- in terms of reception times

  function TimeOf(receivedAt: map<Key, int>, k: Key): (t: int) {
    if k in receivedAt then receivedAt[k] else 0
  }

  /** `a` was received earlier than `b`, or `b` at an unknown time; the smaller key goes first between equals. */
  predicate Precedes(receivedAt: map<Key, int>, a: Key, b: Key) {
    var s, t := TimeOf(receivedAt, a), TimeOf(receivedAt, b);
    || (s != 0 && t == 0)
    || (s != 0 && t != 0 && s < t)
    || (s == t && LexLess(a, b))
  }

  /** At most ten keys, the oldest first, those of unknown time last; whatever is left out comes after all of them. */
  ghost predicate OldestFirst(grouped: set<Key>, receivedAt: map<Key, int>, keys: seq<Key>) {
    && |keys| == (if |grouped| < 10 then |grouped| else 10)
    && (forall i :: 0 <= i < |keys| ==> keys[i] in grouped)
    && (forall i, j :: 0 <= i < j < |keys| ==> Precedes(receivedAt, keys[i], keys[j]))
    && (forall i, k :: 0 <= i < |keys| && k in grouped && k !in keys ==> Precedes(receivedAt, keys[i], k))
  }

  lemma LowerRankPrecedes(grouped: set<Key>, receivedAt: map<Key, int>, a: Key, b: Key)
    requires a in grouped && b in grouped
    requires var pool := Pool(grouped, receivedAt);
             Rank(pool, MetaOf(receivedAt, a)) < Rank(pool, MetaOf(receivedAt, b))
    ensures Precedes(receivedAt, a, b)
  {
    var x, y := MetaOf(receivedAt, a), MetaOf(receivedAt, b);
    BeforeTrichotomy(x, y);
    if Before(y, x) { RankFollowsOrder(Pool(grouped, receivedAt), y, x); }
  }

  lemma SelectionIsOldestFirst(grouped: set<Key>, receivedAt: map<Key, int>, keys: seq<Key>)
    requires IsSelection(grouped, receivedAt, keys)
    ensures OldestFirst(grouped, receivedAt, keys)
  {
    forall i, j | 0 <= i < j < |keys| ensures Precedes(receivedAt, keys[i], keys[j]) {
      LowerRankPrecedes(grouped, receivedAt, keys[i], keys[j]);
    }
    forall i, k | 0 <= i < |keys| && k in grouped && k !in keys ensures Precedes(receivedAt, keys[i], k) {
      LowerRankPrecedes(grouped, receivedAt, keys[i], k);
    }
  }

  lemma AtMostIsTotalOrder()
    ensures TotalPreorder(AtMost) && Antisymmetric(AtMost)
  {
    BeforeIsStrictTotalOrder();
  }

  lemma NoRepeats<T>(s: seq<T>, pool: set<T>, i: nat, j: nat)
    requires multiset(s) == multiset(pool) && i < j < |s|
    ensures s[i] != s[j]
  {
    RepeatsCount(s, i, j);
    assert multiset(pool)[s[i]] <= 1;
  }

  lemma RankInSorted(s: seq<Meta>, pool: set<Meta>, i: nat)
    requires multiset(s) == multiset(pool) && Sorted(AtMost, s) && i < |s|
    ensures s[i] in pool && Rank(pool, s[i]) == i
  {
    forall a, b | 0 <= a < b < |s| ensures s[a] != s[b] { NoRepeats(s, pool, a, b); }
    var elements := PrefixSize(s, i);
    assert forall m :: m in pool <==> m in multiset(s);
    forall m ensures m in Earlier(pool, s[i]) <==> m in elements {
      if m in Earlier(pool, s[i]) {
        assert m in s;
        var a :| 0 <= a < |s| && s[a] == m;
        BeforeTrichotomy(m, s[i]);
        assert i < a ==> AtMost(s[i], s[a]);
      }
      if m in elements {
        var a :| 0 <= a < i && s[a] == m;
        assert AtMost(s[a], s[i]) && s[a] in multiset(s);
      }
    }
    assert Earlier(pool, s[i]) == elements;
    assert s[i] in multiset(s);
  }

  /** Collect the metadata in any order. */
  method CollectMetas(grouped: set<Key>, receivedAt: map<Key, int>) returns (intents: seq<Meta>)
    ensures multiset(intents) == multiset(Pool(grouped, receivedAt))
  {
    intents := [];
    var rest := grouped;
    while rest != {}
      invariant rest <= grouped
      invariant multiset(intents) == multiset(Pool(grouped - rest, receivedAt))
      decreases |rest|
    {
      var k :| k in rest;
      ghost var done := Pool(grouped - rest, receivedAt);
      var m := Meta(k, if k in receivedAt then receivedAt[k] else 0);
      assert Pool(grouped - (rest - {k}), receivedAt) == done + {m} && m !in done;
      assert multiset(done + {m}) == multiset(done) + multiset{m};
      intents := intents + [m];
      rest := rest - {k};
    }
    assert grouped - rest == grouped;
  }

  /** Collect, sort, keep the first ten, and list their keys. */
  method SelectIntents(grouped: set<Key>, receivedAt: map<Key, int>) returns (keys: seq<Key>)
    ensures IsSelection(grouped, receivedAt, keys)
    ensures OldestFirst(grouped, receivedAt, keys)
  {
    ghost var pool := Pool(grouped, receivedAt);
    PoolSize(grouped, receivedAt);
    var intents := CollectMetas(grouped, receivedAt);
    AtMostIsTotalOrder();
    var sorted := Sort(intents, AtMost);
    assert |sorted| == |multiset(sorted)| == |multiset(pool)| == |pool|;
    var chosen := sorted;
    if |chosen| > MaxIntentsPerEpoch {
      chosen := chosen[..MaxIntentsPerEpoch];
    }
    keys := [];
    for i := 0 to |chosen|
      invariant |keys| == i && forall j :: 0 <= j < i ==> keys[j] == chosen[j].key
    {
      keys := keys + [chosen[i].key];
    }
    RanksSelect(grouped, receivedAt, sorted, keys);
    SelectionIsOldestFirst(grouped, receivedAt, keys);
  }

  lemma RanksSelect(grouped: set<Key>, receivedAt: map<Key, int>, sorted: seq<Meta>, keys: seq<Key>)
    requires multiset(sorted) == multiset(Pool(grouped, receivedAt)) && Sorted(AtMost, sorted) && |sorted| == |grouped|
    requires |keys| == if |sorted| < MaxIntentsPerEpoch then |sorted| else MaxIntentsPerEpoch
    requires forall j :: 0 <= j < |keys| ==> keys[j] == sorted[j].key
    ensures IsSelection(grouped, receivedAt, keys)
  {
    var pool := Pool(grouped, receivedAt);
    forall i | 0 <= i < |sorted|
      ensures sorted[i] in pool && Rank(pool, sorted[i]) == i && sorted[i] == MetaOf(receivedAt, sorted[i].key)
    {
      RankInSorted(sorted, pool, i);
    }
    forall k | k in grouped ensures k in keys <==> Rank(pool, MetaOf(receivedAt, k)) < MaxIntentsPerEpoch {
      assert MetaOf(receivedAt, k) in multiset(sorted);
      var i :| 0 <= i < |sorted| && sorted[i] == MetaOf(receivedAt, k);
      if i < |keys| { assert keys[i] == k; }
    }
  }

  // ---------------------------------------------------------------- rounds

  /** The intents that stay when the selected ones are cleared. */
  function Rest(pool: set<Meta>): (rest: set<Meta>) { pool - Least(pool, MaxIntentsPerEpoch) }

  /** Pending intents after k rounds: in each the selected ones are cleared, then others arrive. */
  function Pending(start: set<Meta>, arrivals: nat -> set<Meta>, k: nat): (pool: set<Meta>) {
    if k == 0 then start else Rest(Pending(start, arrivals, k - 1)) + arrivals(k - 1)
  }

  /** What arrives in a round and was not waiting already. */
  function Fresh(start: set<Meta>, arrivals: nat -> set<Meta>, i: nat): (newcomers: set<Meta>) {
    arrivals(i) - Rest(Pending(start, arrivals, i))
  }

  /** How many of those that arrived in the first k rounds order before `x`. */
  function Overtakers(start: set<Meta>, arrivals: nat -> set<Meta>, x: Meta, k: nat): (n: nat) {
    if k == 0 then 0 else Overtakers(start, arrivals, x, k - 1) + |Earlier(Fresh(start, arrivals, k - 1), x)|
  }

  predicate SelectedIn(start: set<Meta>, arrivals: nat -> set<Meta>, x: Meta, k: nat) {
    x in Least(Pending(start, arrivals, k), MaxIntentsPerEpoch)
  }

  /** Few enough are before `x` in round k: its rank at the start and those that overtook it, less ten a round. */
  predicate InReach(start: set<Meta>, arrivals: nat -> set<Meta>, x: Meta, k: nat) {
    Rank(start, x) + Overtakers(start, arrivals, x, k) < MaxIntentsPerEpoch * (k + 1)
  }

  lemma ClearedComeBefore(pool: set<Meta>, x: Meta)
    requires x in pool && Rank(pool, x) >= MaxIntentsPerEpoch
    ensures Least(pool, MaxIntentsPerEpoch) <= Earlier(pool, x) && |Least(pool, MaxIntentsPerEpoch)| == MaxIntentsPerEpoch
  {
    forall m | m in Least(pool, MaxIntentsPerEpoch) ensures m in Earlier(pool, x) {
      BeforeTrichotomy(m, x);
      if Before(x, m) { RankFollowsOrder(pool, x, m); }
    }
    SubsetSize(Earlier(pool, x), pool);
    LeastSize(pool, MaxIntentsPerEpoch);
  }

  /** One round moves a waiting intent ten ranks forward, less those of the newcomers that order before it. */
  lemma RoundAdvances(pool: set<Meta>, arriving: set<Meta>, x: Meta)
    requires x in pool && Rank(pool, x) >= MaxIntentsPerEpoch
    ensures x in Rest(pool)
    ensures Rank(Rest(pool) + arriving, x) == Rank(pool, x) - MaxIntentsPerEpoch + |Earlier(arriving - Rest(pool), x)|
  {
    var gone, rest := Least(pool, MaxIntentsPerEpoch), Rest(pool);
    ClearedComeBefore(pool, x);
    var stay, come := Earlier(pool, x) - gone, Earlier(arriving - rest, x);
    assert Earlier(rest + arriving, x) == stay + come && stay !! come;
    assert Earlier(pool, x) == stay + gone;
  }

  /** While an intent waits, its rank is exactly what the arrivals so far make it. */
  lemma {:induction false} RankWhileWaiting(start: set<Meta>, arrivals: nat -> set<Meta>, x: Meta, k: nat)
    requires x in start && forall j :: 0 <= j < k ==> !SelectedIn(start, arrivals, x, j)
    ensures var pool := Pending(start, arrivals, k);
            && x in pool
            && Rank(pool, x) == Rank(start, x) + Overtakers(start, arrivals, x, k) - MaxIntentsPerEpoch * k
  {
    if k > 0 {
      RankWhileWaiting(start, arrivals, x, k - 1);
      assert !SelectedIn(start, arrivals, x, k - 1);
      RoundAdvances(Pending(start, arrivals, k - 1), arrivals(k - 1), x);
    }
  }

  lemma WaitingReach(start: set<Meta>, arrivals: nat -> set<Meta>, x: Meta, k: nat)
    requires x in start && forall j :: 0 <= j < k ==> !SelectedIn(start, arrivals, x, j)
    ensures SelectedIn(start, arrivals, x, k) <==> InReach(start, arrivals, x, k)
  {
    RankWhileWaiting(start, arrivals, x, k);
  }

  /** Not selected in any of the first k rounds, exactly if not within reach in any of them. */
  lemma {:induction false} WaitsExactlyIf(start: set<Meta>, arrivals: nat -> set<Meta>, x: Meta, k: nat)
    requires x in start
    ensures (forall j :: 0 <= j < k ==> !SelectedIn(start, arrivals, x, j))
            <==> (forall j :: 0 <= j < k ==> !InReach(start, arrivals, x, j))
  {
    if k > 0 {
      WaitsExactlyIf(start, arrivals, x, k - 1);
      if forall j :: 0 <= j < k - 1 ==> !SelectedIn(start, arrivals, x, j) { WaitingReach(start, arrivals, x, k - 1); }
    }
  }

  /** Whatever arrives: an intent is first selected in round k exactly if k is the first round that has it within reach. */
  lemma SelectedExactlyIf(start: set<Meta>, arrivals: nat -> set<Meta>, x: Meta, k: nat)
    requires x in start
    ensures SelectedIn(start, arrivals, x, k) && (forall j :: 0 <= j < k ==> !SelectedIn(start, arrivals, x, j))
            <==> InReach(start, arrivals, x, k) && (forall j :: 0 <= j < k ==> !InReach(start, arrivals, x, j))
  {
    WaitsExactlyIf(start, arrivals, x, k);
    if forall j :: 0 <= j < k ==> !SelectedIn(start, arrivals, x, j) { WaitingReach(start, arrivals, x, k); }
  }

  /** And it is never selected exactly if no round has it within reach. */
  lemma StarvesExactlyIf(start: set<Meta>, arrivals: nat -> set<Meta>, x: Meta)
    requires x in start
    ensures (forall k: nat :: !SelectedIn(start, arrivals, x, k)) <==> (forall k: nat :: !InReach(start, arrivals, x, k))
  {
    if forall k: nat :: !SelectedIn(start, arrivals, x, k) {
      forall k: nat ensures !InReach(start, arrivals, x, k) { WaitsExactlyIf(start, arrivals, x, k + 1); }
    }
    if forall k: nat :: !InReach(start, arrivals, x, k) {
      forall k: nat ensures !SelectedIn(start, arrivals, x, k) { WaitsExactlyIf(start, arrivals, x, k + 1); }
    }
  }

  // ---------------------------------------------------------------- corollaries

  /** No intent arrives twice. */
  ghost predicate ArriveOnce(start: set<Meta>, arrivals: nat -> set<Meta>) {
    && (forall i: nat, m :: m in arrivals(i) ==> m !in start)
    && (forall i: nat, j: nat, m :: m in arrivals(i) && m in arrivals(j) ==> i == j)
  }

  lemma {:induction false} PendingArrived(start: set<Meta>, arrivals: nat -> set<Meta>, k: nat, m: Meta)
    requires m in Pending(start, arrivals, k)
    ensures m in start || exists i: nat :: i < k && m in arrivals(i)
  {
    if k > 0 && m !in arrivals(k - 1) { PendingArrived(start, arrivals, k - 1, m); }
  }

  /** Then the overtakers can be counted from the arrivals alone. */
  lemma ArrivalsAreFresh(start: set<Meta>, arrivals: nat -> set<Meta>, i: nat)
    requires ArriveOnce(start, arrivals)
    ensures Fresh(start, arrivals, i) == arrivals(i)
  {
    forall m | m in arrivals(i) ensures m !in Pending(start, arrivals, i) {
      if m in Pending(start, arrivals, i) { PendingArrived(start, arrivals, i, m); }
    }
  }

  ghost predicate ArriveLater(arrivals: nat -> set<Meta>, x: Meta) {
    forall i: nat, m :: m in arrivals(i) ==> Before(x, m)
  }

  lemma {:induction false} NobodyOvertakes(start: set<Meta>, arrivals: nat -> set<Meta>, x: Meta, k: nat)
    requires ArriveLater(arrivals, x)
    ensures Overtakers(start, arrivals, x, k) == 0
  {
    if k > 0 {
      NobodyOvertakes(start, arrivals, x, k - 1);
      forall m | m in Fresh(start, arrivals, k - 1) ensures !Before(m, x) { BeforeTrichotomy(m, x); }
      assert Earlier(Fresh(start, arrivals, k - 1), x) == {};
    }
  }

  /** If everything that arrives orders after it, an intent of rank r is selected in round r / 10 and in none before. */
  lemma SelectedInItsRound(start: set<Meta>, arrivals: nat -> set<Meta>, x: Meta)
    requires x in start && ArriveLater(arrivals, x)
    ensures var k := Rank(start, x) / MaxIntentsPerEpoch;
            SelectedIn(start, arrivals, x, k) && forall j :: 0 <= j < k ==> !SelectedIn(start, arrivals, x, j)
  {
    var k := Rank(start, x) / MaxIntentsPerEpoch;
    forall j: nat ensures Overtakers(start, arrivals, x, j) == 0 { NobodyOvertakes(start, arrivals, x, j); }
    SelectedExactlyIf(start, arrivals, x, k);
  }

  /** An intent without a known time that is not selected at once never is while ten timed ones arrive in every round. */
  lemma UntimedCanStarve(start: set<Meta>, arrivals: nat -> set<Meta>, x: Meta)
    requires x in start && x.timestamp == 0 && Rank(start, x) >= MaxIntentsPerEpoch
    requires forall i: nat :: |arrivals(i)| >= MaxIntentsPerEpoch
    requires forall i: nat, m :: m in arrivals(i) ==> m.timestamp != 0
    ensures forall k: nat :: !SelectedIn(start, arrivals, x, k)
    ensures forall k: nat :: !InReach(start, arrivals, x, k)
  {
    forall k: nat ensures !SelectedIn(start, arrivals, x, k) {
      if k > 0 { SubsetSize(arrivals(k - 1), Earlier(Pending(start, arrivals, k), x)); }
    }
    StarvesExactlyIf(start, arrivals, x);
  }
}
