/** Cardinalities of finite sets. */
module Sets {

  lemma {:induction false} SubsetSize<T>(a: set<T>, b: set<T>)
    requires a <= b
    ensures |a| <= |b| && (a != b ==> |a| < |b|)
  {
    if a != {} {
      var x :| x in a;
      SubsetSize(a - {x}, b - {x});
    }
  }

  /** The first entries of a sequence without repetitions. */
  lemma {:induction false} PrefixSize<T>(s: seq<T>, i: nat) returns (elements: set<T>)
    requires i <= |s| && forall a, b :: 0 <= a < b < |s| ==> s[a] != s[b]
    ensures elements == set a | 0 <= a < i :: s[a]
    ensures |elements| == i
  {
    if i == 0 {
      elements := {};
    } else {
      var front := PrefixSize(s, i - 1);
      elements := front + {s[i - 1]};
    }
  }
}
