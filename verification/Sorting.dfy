/** Sorting as the Go library promises it: some ordered rearrangement of the input. */
module Sorting {

  ghost predicate TotalPreorder<T(!new)>(leq: (T, T) -> bool) {
    && (forall x, y :: leq(x, y) || leq(y, x))
    && (forall x, y, z :: leq(x, y) && leq(y, z) ==> leq(x, z))
  }

  ghost predicate Antisymmetric<T(!new)>(leq: (T, T) -> bool) {
    forall x, y :: leq(x, y) && leq(y, x) ==> x == y
  }

  ghost predicate Sorted<T>(leq: (T, T) -> bool, s: seq<T>) {
    forall i, j :: 0 <= i < j < |s| ==> leq(s[i], s[j])
  }

  /** What `sort.Slice` may leave in the slice: ordered, and the same elements as often. */
  ghost predicate IsSortOf<T>(leq: (T, T) -> bool, s: seq<T>, out: seq<T>) {
    Sorted(leq, out) && multiset(out) == multiset(s)
  }

  lemma SameLength<T>(s: seq<T>, t: seq<T>)
    requires multiset(s) == multiset(t)
    ensures |s| == |t|
  {
    assert |multiset(s)| == |s| && |multiset(t)| == |t|;
  }

  lemma SameElements<T>(s: seq<T>, t: seq<T>)
    requires multiset(s) == multiset(t)
    ensures forall x :: x in s <==> x in t
  {
    forall x ensures x in s <==> x in t {
      assert x in s <==> x in multiset(s);
      assert x in t <==> x in multiset(t);
    }
  }

  /** An element that stands in two places is counted at least twice. */
  lemma RepeatsCount<T>(s: seq<T>, i: nat, j: nat)
    requires i < j < |s|
    ensures s[i] == s[j] ==> multiset(s)[s[i]] >= 2
  {
    var p, q := s[..i + 1], s[i + 1..];
    assert s == p + q && p[i] == s[i] && q[j - i - 1] == s[j];
    assert s[i] in multiset(p) && s[j] in multiset(q);
    assert multiset(s)[s[i]] == multiset(p)[s[i]] + multiset(q)[s[i]];
  }

  function Insert<T>(leq: (T, T) -> bool, x: T, s: seq<T>): (out: seq<T>) {
    if s == [] then [x]
    else if leq(x, s[0]) then [x] + s
    else [s[0]] + Insert(leq, x, s[1..])
  }

  function InsertionSort<T>(leq: (T, T) -> bool, s: seq<T>): (out: seq<T>) {
    if s == [] then [] else Insert(leq, s[0], InsertionSort(leq, s[1..]))
  }

  lemma {:induction false} InsertKeepsElements<T>(leq: (T, T) -> bool, x: T, s: seq<T>)
    ensures multiset(Insert(leq, x, s)) == multiset(s) + multiset{x}
  {
    if s != [] {
      assert s == [s[0]] + s[1..];
      InsertKeepsElements(leq, x, s[1..]);
    }
  }

  lemma {:induction false} InsertKeepsOrder<T(!new)>(leq: (T, T) -> bool, x: T, s: seq<T>)
    requires TotalPreorder(leq) && Sorted(leq, s)
    ensures Sorted(leq, Insert(leq, x, s))
  {
    if s != [] && !leq(x, s[0]) {
      InsertKeepsOrder(leq, x, s[1..]);
      InsertKeepsElements(leq, x, s[1..]);
      var t := Insert(leq, x, s[1..]);
      forall i | 0 <= i < |t| ensures leq(s[0], t[i]) {
        assert t[i] in multiset(t);
        assert t[i] in s[1..] || t[i] == x;
      }
    }
  }

  lemma {:induction false} InsertionSortCorrect<T(!new)>(leq: (T, T) -> bool, s: seq<T>)
    requires TotalPreorder(leq)
    ensures IsSortOf(leq, s, InsertionSort(leq, s))
  {
    if s != [] {
      InsertionSortCorrect(leq, s[1..]);
      InsertKeepsOrder(leq, s[0], InsertionSort(leq, s[1..]));
      InsertKeepsElements(leq, s[0], InsertionSort(leq, s[1..]));
      assert s == [s[0]] + s[1..];
    }
  }

  /** The library call; the rest of the project relies only on this contract. */
  method Sort<T(!new)>(s: seq<T>, leq: (T, T) -> bool) returns (out: seq<T>)
    requires TotalPreorder(leq)
    ensures IsSortOf(leq, s, out)
  {
    out := InsertionSort(leq, s);
    InsertionSortCorrect(leq, s);
  }

  lemma TailMultiset<T>(s: seq<T>)
    requires s != []
    ensures multiset(s[1..]) == multiset(s) - multiset{s[0]}
  {
    assert s == [s[0]] + s[1..];
  }

  lemma SameLeast<T(!new)>(leq: (T, T) -> bool, a: seq<T>, b: seq<T>)
    requires TotalPreorder(leq) && Antisymmetric(leq)
    requires Sorted(leq, a) && Sorted(leq, b) && multiset(a) == multiset(b) && a != [] && b != []
    ensures a[0] == b[0]
  {
    SameElements(a, b);
    assert a[0] in b && b[0] in a;
    assert leq(b[0], a[0]) && leq(a[0], b[0]);
  }

  /** Under a total order the sorted rearrangement is unique, so instability does not matter. */
  lemma {:induction false} SortUnique<T(!new)>(leq: (T, T) -> bool, a: seq<T>, b: seq<T>)
    requires TotalPreorder(leq) && Antisymmetric(leq)
    requires Sorted(leq, a) && Sorted(leq, b) && multiset(a) == multiset(b)
    ensures a == b
  {
    SameLength(a, b);
    if a != [] {
      SameLeast(leq, a, b);
      TailMultiset(a);
      TailMultiset(b);
      SortUnique(leq, a[1..], b[1..]);
      assert a == [a[0]] + a[1..] && b == [b[0]] + b[1..];
    }
  }
}
