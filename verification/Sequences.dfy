/** Sequences that agree from the end. */
module Sequences {

  /** `a` matches the end of `b`, element by element from the last one backwards. */
  ghost predicate SuffixOf<T>(same: (T, T) -> bool, a: seq<T>, b: seq<T>) {
    a == [] || (b != [] && same(a[|a| - 1], b[|b| - 1]) && SuffixOf(same, a[..|a| - 1], b[..|b| - 1]))
  }

  lemma {:induction false} SuffixEntry<T>(same: (T, T) -> bool, a: seq<T>, b: seq<T>, i: nat)
    requires SuffixOf(same, a, b) && i < |a| <= |b|
    ensures same(a[i], b[|b| - |a| + i])
  {
    if i < |a| - 1 {
      SuffixEntry(same, a[..|a| - 1], b[..|b| - 1], i);
    }
  }
}
