/** Which lengths of leaf lists may be admitted side by side if a Merkle root is to determine the leaves. */
module MerkleLengths {
  import opened ByteStrings
  import opened Sets
  import opened Hashing
  import opened Merkle

  /** The parents of a list have its root: inner nodes can be passed off as leaves. */
  lemma InnerNodesAsLeaves(hash: Hash, nodes: seq<Bytes>)
    requires |nodes| >= 2
    ensures RootOf(hash, Level(hash, nodes)) == RootOf(hash, nodes) && |Level(hash, nodes)| < |nodes|
  {
  }

  // ---------------------------------------------------------------- lists of one repeated leaf

  /** The parent of two equal nodes. */
  function Up(hash: Hash, x: Bytes): (y: Digest) { hash(x + x) }

  function Iterate(hash: Hash, x: Digest, n: nat): (y: Digest) {
    if n == 0 then x else Up(hash, Iterate(hash, x, n - 1))
  }

  /** How often a list is halved until one node is left. */
  function Depth(n: nat): (d: nat) {
    if n <= 1 then 0 else 1 + Depth(Half(n))
  }

  lemma {:induction false} DepthGrows(m: nat, n: nat)
    requires m <= n
    ensures Depth(m) <= Depth(n)
    decreases n
  {
    if m > 1 { DepthGrows(Half(m), Half(n)); }
  }

  function Repeat(x: Digest, n: nat): (nodes: seq<Bytes>)
    ensures |nodes| == n && AllOfLength(nodes, 32) && forall i :: 0 <= i < n ==> nodes[i] == x
  {
    if n == 0 then [] else [x] + Repeat(x, n - 1)
  }

  lemma RepeatedPair(x: Digest, n: nat, i: nat)
    requires i < Half(n)
    ensures PairInput(Repeat(x, n), i) == x + x
  {
  }

  lemma RepeatLevel(hash: Hash, x: Digest, n: nat)
    ensures Level(hash, Repeat(x, n)) == Repeat(Up(hash, x), Half(n))
  {
    var nodes := Repeat(x, n);
    forall i | 0 <= i < Half(n) ensures Level(hash, nodes)[i] == Up(hash, x) {
      RepeatedPair(x, n, i);
    }
  }

  lemma {:induction false} IterateShift(hash: Hash, x: Digest, n: nat)
    ensures Iterate(hash, Up(hash, x), n) == Iterate(hash, x, n + 1)
  {
    if n > 0 { IterateShift(hash, x, n - 1); }
  }

  lemma {:induction false} IterateSum(hash: Hash, x: Digest, m: nat, n: nat)
    ensures Iterate(hash, Iterate(hash, x, m), n) == Iterate(hash, x, m + n)
  {
    if n > 0 { IterateSum(hash, x, m, n - 1); }
  }

  lemma {:induction false} RepeatRoot(hash: Hash, x: Digest, n: nat)
    requires n > 0
    ensures RootOf(hash, Repeat(x, n)) == Iterate(hash, x, Depth(n))
    decreases n
  {
    if n > 1 {
      RepeatLevel(hash, x, n);
      RepeatRoot(hash, Up(hash, x), Half(n));
      IterateShift(hash, x, Depth(Half(n)));
    }
  }

  /** For every hash, every leaf and any two lengths, a shorter list of one leaf has the root of the longer one. */
  lemma LengthsConfused(hash: Hash, x: Digest, m: nat, n: nat) returns (y: Digest)
    requires 0 < m < n
    ensures Depth(m) <= Depth(n) && y == Iterate(hash, x, Depth(n) - Depth(m))
    ensures RootOf(hash, Repeat(y, m)) == RootOf(hash, Repeat(x, n))
  {
    DepthGrows(m, n);
    y := Iterate(hash, x, Depth(n) - Depth(m));
    RepeatRoot(hash, y, m);
    RepeatRoot(hash, x, n);
    IterateSum(hash, x, Depth(n) - Depth(m), Depth(m));
  }

  // ---------------------------------------------------------------- a leaf without collisions

  /** Everything hashed for repetitions of `x`, up to a depth. */
  function OrbitInputs(hash: Hash, x: Digest, n: nat): (s: set<Bytes>) {
    if n == 0 then {} else OrbitInputs(hash, x, n - 1) + {Iterate(hash, x, n - 1) + Iterate(hash, x, n - 1)}
  }

  lemma {:induction false} OrbitInput(hash: Hash, x: Digest, n: nat, i: nat)
    requires i < n
    ensures Iterate(hash, x, i) + Iterate(hash, x, i) in OrbitInputs(hash, x, n)
  {
    if i < n - 1 { OrbitInput(hash, x, n - 1, i); }
  }

  lemma {:induction false} OrbitIndex(hash: Hash, x: Digest, n: nat, u: Bytes) returns (i: nat)
    requires u in OrbitInputs(hash, x, n)
    ensures i < n && u == Iterate(hash, x, i) + Iterate(hash, x, i)
  {
    if u == Iterate(hash, x, n - 1) + Iterate(hash, x, n - 1) {
      i := n - 1;
    } else {
      i := OrbitIndex(hash, x, n - 1, u);
    }
  }

  /** The inputs for n repetitions, level by level. */
  function RepeatInputs(hash: Hash, x: Digest, n: nat): (s: set<Bytes>)
    decreases n
  {
    if n <= 1 then {} else {x + x} + RepeatInputs(hash, Up(hash, x), Half(n))
  }

  lemma RepeatPairs(x: Digest, n: nat)
    requires n > 1
    ensures (set i: nat | i < Half(n) :: PairInput(Repeat(x, n), i)) == {x + x}
  {
    forall i: nat | i < Half(n) ensures PairInput(Repeat(x, n), i) == x + x { RepeatedPair(x, n, i); }
    assert PairInput(Repeat(x, n), 0) == x + x;
  }

  lemma {:induction false} InputsOfRepeat(hash: Hash, x: Digest, n: nat)
    ensures Inputs(hash, Repeat(x, n)) == RepeatInputs(hash, x, n)
    decreases n
  {
    if n > 1 {
      RepeatPairs(x, n);
      RepeatLevel(hash, x, n);
      InputsOfRepeat(hash, Up(hash, x), Half(n));
    }
  }

  lemma {:induction false} RepeatInOrbit(hash: Hash, x: Digest, y: Digest, k: nat, n: nat, depth: nat)
    requires y == Iterate(hash, x, k) && depth == k + Depth(n)
    ensures RepeatInputs(hash, y, n) <= OrbitInputs(hash, x, depth)
    decreases n
  {
    if n > 1 {
      RepeatInOrbit(hash, x, Up(hash, y), k + 1, Half(n), depth);
      OrbitInput(hash, x, depth, k);
    }
  }

  /** All byte strings of one length. */
  ghost function AllBytes(n: nat): (s: set<Bytes>)
    ensures forall b: Bytes :: |b| == n ==> b in s
  {
    if n == 0 then {[]}
    else
      var shorter := AllBytes(n - 1);
      var s := set c: byte, b | c in Octets(256) && b in shorter :: [c] + b;
      assert forall b: Bytes :: |b| == n ==> b in s by {
        forall b: Bytes | |b| == n ensures b in s { assert b == [b[0]] + b[1..]; }
      }
      s
  }

  ghost function Octets(n: nat): (s: set<byte>)
    requires n <= 256
    ensures forall c: byte :: c < n ==> c in s
  {
    if n == 0 then {} else Octets(n - 1) + {n - 1}
  }

  /** More entries than values: two entries are equal. */
  lemma Pigeonhole<T>(s: seq<T>, values: set<T>) returns (i: nat, j: nat)
    requires |s| > |values| && forall i :: 0 <= i < |s| ==> s[i] in values
    ensures i < j < |s| && s[i] == s[j]
  {
    if forall i, j :: 0 <= i < j < |s| ==> s[i] != s[j] {
      var elements := PrefixSize(s, |s|);
      SubsetSize(elements, values);
      assert false;
    } else {
      i, j :| 0 <= i < j < |s| && s[i] == s[j];
    }
  }

  function Orbit(hash: Hash, x: Digest, n: nat): (s: seq<Bytes>)
    ensures |s| == n && forall i :: 0 <= i < n ==> s[i] == Iterate(hash, x, i)
  {
    if n == 0 then [] else Orbit(hash, x, n - 1) + [Iterate(hash, x, n - 1)]
  }

  /** There are finitely many digests, so some digest comes back to itself. */
  lemma SomeCycle(hash: Hash, start: Digest, values: set<Bytes>) returns (x: Digest, p: nat)
    requires forall d: Digest :: d in values
    ensures p > 0 && Iterate(hash, x, p) == x
  {
    var s := Orbit(hash, start, |values| + 1);
    var i, j := Pigeonhole(s, values);
    x, p := Iterate(hash, start, i), j - i;
    IterateSum(hash, start, i, p);
  }

  /** Going up is one-to-one on a cycle. */
  lemma CycleInjective(hash: Hash, x: Digest, p: nat, i: nat, j: nat)
    requires p > 0 && Iterate(hash, x, p) == x && Iterate(hash, x, i + 1) == Iterate(hash, x, j + 1)
    ensures Iterate(hash, x, i) == Iterate(hash, x, j)
  {
    IterateSum(hash, x, i + 1, p - 1);
    IterateSum(hash, x, j + 1, p - 1);
    IterateSum(hash, x, p, i);
    IterateSum(hash, x, p, j);
  }

  lemma CycleIsClean(hash: Hash, x: Digest, p: nat, n: nat)
    requires p > 0 && Iterate(hash, x, p) == x
    ensures CollisionFree(hash, OrbitInputs(hash, x, n))
  {
    forall u, v | u in OrbitInputs(hash, x, n) && v in OrbitInputs(hash, x, n) && hash(u) == hash(v) ensures u == v {
      var i := OrbitIndex(hash, x, n, u);
      var j := OrbitIndex(hash, x, n, v);
      CycleInjective(hash, x, p, i, j);
    }
  }

  /** For every hash there is a leaf whose repetitions are hashed without collisions. */
  lemma CleanLeaf(hash: Hash, n: nat) returns (x: Digest)
    ensures CollisionFree(hash, OrbitInputs(hash, x, n))
  {
    var p;
    x, p := SomeCycle(hash, ZERO32, AllBytes(|ZERO32|));
    CycleIsClean(hash, x, p, n);
  }

  // ---------------------------------------------------------------- the exact condition

  /** Every input hashed for the root, the empty input of the empty list included. */
  function Hashed(hash: Hash, nodes: seq<Bytes>): (s: set<Bytes>) {
    if nodes == [] then {[]} else Inputs(hash, nodes)
  }

  /** Two different lists of 32-byte leaves with one root, although nothing hashed collides. */
  ghost predicate Confused(hash: Hash, a: seq<Bytes>, b: seq<Bytes>) {
    && a != b && AllOfLength(a, 32) && AllOfLength(b, 32) && RootOf(hash, a) == RootOf(hash, b)
    && CollisionFree(hash, Hashed(hash, a) + Hashed(hash, b))
  }

  /** With these lengths admitted the root determines the leaves. */
  ghost predicate Binding(hash: Hash, lengths: iset<nat>) {
    forall a, b :: |a| in lengths && |b| in lengths ==> !Confused(hash, a, b)
  }

  lemma HashedForRepeat(hash: Hash, x: Digest, n: nat)
    requires n > 0
    ensures Hashed(hash, Repeat(x, n)) == RepeatInputs(hash, x, n)
  {
    InputsOfRepeat(hash, x, n);
  }

  lemma ConfusedIf(hash: Hash, a: seq<Bytes>, b: seq<Bytes>, s: set<Bytes>, t: set<Bytes>, all: set<Bytes>)
    requires |a| != |b| && AllOfLength(a, 32) && AllOfLength(b, 32) && RootOf(hash, a) == RootOf(hash, b)
    requires Hashed(hash, a) == s && Hashed(hash, b) == t && s <= all && t <= all && CollisionFree(hash, all)
    ensures Confused(hash, a, b)
  {
  }

  lemma RepeatsConfused(hash: Hash, m: nat, n: nat) returns (x: Digest, y: Digest)
    requires 0 < m < n
    ensures Confused(hash, Repeat(y, m), Repeat(x, n))
  {
    x := CleanLeaf(hash, Depth(n));
    y := LengthsConfused(hash, x, m, n);
    RepeatInOrbit(hash, x, y, Depth(n) - Depth(m), m, Depth(n));
    RepeatInOrbit(hash, x, x, 0, n, Depth(n));
    HashedForRepeat(hash, y, m);
    HashedForRepeat(hash, x, n);
    ConfusedIf(hash, Repeat(y, m), Repeat(x, n), RepeatInputs(hash, y, m), RepeatInputs(hash, x, n),
               OrbitInputs(hash, x, Depth(n)));
  }

  lemma EmptyConfused(hash: Hash)
    ensures Confused(hash, [], [hash([])])
  {
  }

  /** The root of two or more leaves is the hash of two nodes. */
  lemma {:induction false} RootIsHashed(hash: Hash, nodes: seq<Bytes>) returns (u: Bytes)
    requires |nodes| >= 2 && AllOfLength(nodes, 32)
    ensures u in Inputs(hash, nodes) && u != [] && RootOf(hash, nodes) == hash(u)
    decreases |nodes|
  {
    var up := Level(hash, nodes);
    if |nodes| == 2 {
      u := PairInput(nodes, 0);
      assert up == [hash(u)];
    } else {
      u := RootIsHashed(hash, up);
    }
  }

  lemma EmptyApart(hash: Hash, b: seq<Bytes>)
    requires |b| >= 2 && AllOfLength(b, 32) && CollisionFree(hash, Hashed(hash, []) + Hashed(hash, b))
    ensures RootOf(hash, []) != RootOf(hash, b)
  {
    var u := RootIsHashed(hash, b);
    assert u in Hashed(hash, []) + Hashed(hash, b) && [] in Hashed(hash, []) + Hashed(hash, b);
  }

  /** No two lengths are admitted together, but for the empty list beside lists of two or more. */
  ghost predicate Apart(lengths: iset<nat>) {
    forall m, n :: m in lengths && n in lengths && m < n ==> m == 0 && n >= 2
  }

  lemma ApartIsBinding(hash: Hash, lengths: iset<nat>, a: seq<Bytes>, b: seq<Bytes>)
    requires Apart(lengths) && |a| in lengths && |b| in lengths && |a| <= |b|
    ensures !Confused(hash, a, b) && !Confused(hash, b, a)
  {
    if AllOfLength(a, 32) && AllOfLength(b, 32) && RootOf(hash, a) == RootOf(hash, b)
       && CollisionFree(hash, Hashed(hash, a) + Hashed(hash, b))
    {
      if |a| == |b| {
        RootBindsLeaves(hash, a, b, Hashed(hash, a) + Hashed(hash, b));
      } else {
        assert a == [];
        EmptyApart(hash, b);
      }
    }
    assert Hashed(hash, b) + Hashed(hash, a) == Hashed(hash, a) + Hashed(hash, b);
  }

  /**
   * For every hash, the root determines the leaves exactly if a single length is admitted; the only other lists that
   * may be admitted beside it are the empty one, if the length is at least two.
   */
  lemma OneLengthIsExact(hash: Hash, lengths: iset<nat>)
    ensures Binding(hash, lengths) <==> Apart(lengths)
  {
    if Apart(lengths) {
      forall a, b | |a| in lengths && |b| in lengths ensures !Confused(hash, a, b) {
        if |a| <= |b| { ApartIsBinding(hash, lengths, a, b); } else { ApartIsBinding(hash, lengths, b, a); }
      }
    } else {
      var m, n :| m in lengths && n in lengths && m < n && !(m == 0 && n >= 2);
      if m == 0 {
        EmptyConfused(hash);
        var a: seq<Bytes>, b: seq<Bytes> := [], [hash([])];
        assert |a| in lengths && |b| in lengths && Confused(hash, a, b);
      } else {
        var x, y := RepeatsConfused(hash, m, n);
        assert |Repeat(y, m)| in lengths && |Repeat(x, n)| in lengths;
      }
    }
  }
}
