/** The two Merkle root computations (internal/consensus/merkle.go, internal/crypto/checkpoint.go). */
module Merkle {
  import opened ByteStrings
  import opened Hashing

  function Half(n: nat): nat { (n + 1) / 2 }

  /** What is hashed for the i-th parent: two neighbours, or the last node twice. */
  function PairInput(nodes: seq<Bytes>, i: nat): (b: Bytes)
    requires i < Half(|nodes|)
  {
    nodes[2 * i] + (if 2 * i + 1 < |nodes| then nodes[2 * i + 1] else nodes[2 * i])
  }

  function Level(hash: Hash, nodes: seq<Bytes>): (next: seq<Bytes>)
    ensures |next| == Half(|nodes|)
    ensures forall i :: 0 <= i < |next| ==> next[i] == hash(PairInput(nodes, i))
  {
    LevelFrom(hash, nodes, 0)
  }

  function LevelFrom(hash: Hash, nodes: seq<Bytes>, from: nat): (next: seq<Bytes>)
    requires from <= Half(|nodes|)
    ensures |next| == Half(|nodes|) - from
    ensures forall i :: 0 <= i < |next| ==> next[i] == hash(PairInput(nodes, from + i))
    decreases Half(|nodes|) - from
  {
    if from == Half(|nodes|) then []
    else [hash(PairInput(nodes, from))] + LevelFrom(hash, nodes, from + 1)
  }

  /** The root as the recursive version defines it. */
  function RootOf(hash: Hash, nodes: seq<Bytes>): (root: Bytes)
    decreases |nodes|
  {
    if nodes == [] then hash([])
    else if |nodes| == 1 then nodes[0]
    else RootOf(hash, Level(hash, nodes))
  }

  /** Left and right child in this order under each parent; an odd last child stands on both sides. */
  ghost predicate Pairs(hash: Hash, nodes: seq<Bytes>, next: seq<Bytes>) {
    && |next| == (|nodes| + 1) / 2
    && (forall k :: 0 <= k < |next| && 2 * k + 1 < |nodes| ==> next[k] == hash(nodes[2 * k] + nodes[2 * k + 1]))
    && (forall k :: 0 <= k < |next| && 2 * k + 1 == |nodes| ==> next[k] == hash(nodes[2 * k] + nodes[2 * k]))
  }

  lemma LevelPairs(hash: Hash, nodes: seq<Bytes>)
    ensures Pairs(hash, nodes, Level(hash, nodes))
  {
    var next := Level(hash, nodes);
    forall k | 0 <= k < |next|
      ensures next[k] == hash(nodes[2 * k] + (if 2 * k + 1 < |nodes| then nodes[2 * k + 1] else nodes[2 * k]))
    {
    }
  }

  /** The root of two or more nodes is that of their parents, whoever computes these. */
  lemma RootOfParents(hash: Hash, nodes: seq<Bytes>, next: seq<Bytes>)
    requires |nodes| >= 2 && Pairs(hash, nodes, next)
    ensures RootOf(hash, nodes) == RootOf(hash, next)
  {
    LevelPairs(hash, nodes);
    var up := Level(hash, nodes);
    forall k | 0 <= k < |up| ensures up[k] == next[k] {
      assert 2 * k + 1 < |nodes| || 2 * k + 1 == |nodes|;
    }
    assert up == next;
  }

  /** Roots of up to four nodes, written out. */
  lemma SmallRoots(hash: Hash, a: Bytes, b: Bytes, c: Bytes, d: Bytes)
    ensures RootOf(hash, []) == hash([]) && RootOf(hash, [a]) == a
    ensures RootOf(hash, [a, b]) == hash(a + b)
    ensures RootOf(hash, [a, b, c]) == hash(hash(a + b) + hash(c + c))
    ensures RootOf(hash, [a, b, c, d]) == hash(hash(a + b) + hash(c + d))
  {
    forall x: Bytes, y: Bytes ensures RootOf(hash, [x, y]) == hash(x + y) {
      RootOfParents(hash, [x, y], [hash(x + y)]);
    }
    RootOfParents(hash, [a, b, c], [hash(a + b), hash(c + c)]);
    RootOfParents(hash, [a, b, c, d], [hash(a + b), hash(c + d)]);
  }

  /** The inner loop of both versions: parents appended pair by pair, an odd last node paired with itself. */
  method NextLevel(hash: Hash, nodes: seq<Bytes>) returns (next: seq<Bytes>)
    ensures next == Level(hash, nodes) && Pairs(hash, nodes, next)
  {
    next := [];
    var i := 0;
    while i < |nodes|
      invariant i == 2 * |next| && |next| <= Half(|nodes|)
      invariant forall k :: 0 <= k < |next| ==> next[k] == hash(PairInput(nodes, k))
    {
      var input := nodes[i] + (if i + 1 < |nodes| then nodes[i + 1] else nodes[i]);
      next := next + [hash(input)];
      i := i + 2;
    }
    LevelUnique(hash, nodes, next);
    LevelPairs(hash, nodes);
  }

  lemma LevelUnique(hash: Hash, nodes: seq<Bytes>, next: seq<Bytes>)
    requires |next| == Half(|nodes|)
    requires forall k :: 0 <= k < |next| ==> next[k] == hash(PairInput(nodes, k))
    ensures next == Level(hash, nodes)
  {
  }

  /** `computeRoot` of the consensus package: recursive. */
  method ComputeRoot(hash: Hash, nodes: seq<Bytes>) returns (root: Bytes)
    ensures root == RootOf(hash, nodes)
    decreases |nodes|
  {
    if |nodes| == 0 { return hash([]); }
    if |nodes| == 1 { return nodes[0]; }
    var nextLevel := NextLevel(hash, nodes);
    root := ComputeRoot(hash, nextLevel);
  }

  /** `ComputeMerkleRoot` of the crypto package: iterative, equal to the recursive root on every non-empty list. */
  method ComputeMerkleRoot(hash: Hash, hashes: seq<Bytes>) returns (root: Bytes)
    ensures hashes != [] ==> root == RootOf(hash, hashes)
    ensures hashes == [] ==> root == ZERO32
  {
    if |hashes| == 0 { return ZERO32; }
    var current := hashes;
    while |current| > 1
      invariant current != [] && RootOf(hash, current) == RootOf(hash, hashes)
      decreases |current|
    {
      current := NextLevel(hash, current);
    }
    root := current[0];
  }

  // ---------------------------------------------------------------- binding

  /** Every input hashed while the root of `nodes` is computed. */
  function Inputs(hash: Hash, nodes: seq<Bytes>): (s: set<Bytes>)
    decreases |nodes|
  {
    if |nodes| <= 1 then {}
    else (set i: nat | i < Half(|nodes|) :: PairInput(nodes, i)) + Inputs(hash, Level(hash, nodes))
  }

  lemma PairInputDetermines(a: seq<Bytes>, b: seq<Bytes>, i: nat)
    requires |a| == |b| && i < Half(|a|) && AllOfLength(a, 32) && AllOfLength(b, 32)
    requires PairInput(a, i) == PairInput(b, i)
    ensures a[2 * i] == b[2 * i] && (2 * i + 1 < |a| ==> a[2 * i + 1] == b[2 * i + 1])
  {
    var x := if 2 * i + 1 < |a| then a[2 * i + 1] else a[2 * i];
    var y := if 2 * i + 1 < |b| then b[2 * i + 1] else b[2 * i];
    SplitEqual(a[2 * i], x, b[2 * i], y);
  }

  lemma PairInputIsHashed(hash: Hash, nodes: seq<Bytes>, i: nat)
    requires |nodes| > 1 && i < Half(|nodes|)
    ensures PairInput(nodes, i) in Inputs(hash, nodes)
  {
  }

  lemma EntryDetermines(hash: Hash, a: seq<Bytes>, b: seq<Bytes>, inputs: set<Bytes>, i: nat)
    requires |a| == |b| > 1 && i < Half(|a|) && AllOfLength(a, 32) && AllOfLength(b, 32)
    requires PairInput(a, i) in inputs && PairInput(b, i) in inputs && CollisionFree(hash, inputs)
    requires hash(PairInput(a, i)) == hash(PairInput(b, i))
    ensures a[2 * i] == b[2 * i] && (2 * i + 1 < |a| ==> a[2 * i + 1] == b[2 * i + 1])
  {
    PairInputDetermines(a, b, i);
  }

  lemma LevelEntry(hash: Hash, a: seq<Bytes>, b: seq<Bytes>, i: nat)
    requires |a| == |b| && i < Half(|a|) && Level(hash, a) == Level(hash, b)
    ensures hash(PairInput(a, i)) == hash(PairInput(b, i))
  {
    assert Level(hash, a)[i] == hash(PairInput(a, i)) && Level(hash, b)[i] == hash(PairInput(b, i));
  }

  lemma LevelDetermines(hash: Hash, a: seq<Bytes>, b: seq<Bytes>, inputs: set<Bytes>)
    requires |a| == |b| > 1 && AllOfLength(a, 32) && AllOfLength(b, 32)
    requires Inputs(hash, a) + Inputs(hash, b) <= inputs && CollisionFree(hash, inputs)
    requires Level(hash, a) == Level(hash, b)
    ensures a == b
  {
    forall j | 0 <= j < |a| ensures a[j] == b[j] {
      var i := j / 2;
      LevelEntry(hash, a, b, i);
      PairInputIsHashed(hash, a, i);
      PairInputIsHashed(hash, b, i);
      EntryDetermines(hash, a, b, inputs, i);
      assert j == 2 * i || j == 2 * i + 1;
    }
  }

  /** Without collisions among the inputs hashed, equal roots of equally long leaf lists bind the leaves. */
  lemma {:induction false} RootBindsLeaves(hash: Hash, a: seq<Bytes>, b: seq<Bytes>, inputs: set<Bytes>)
    requires |a| == |b| && AllOfLength(a, 32) && AllOfLength(b, 32)
    requires Inputs(hash, a) + Inputs(hash, b) <= inputs && CollisionFree(hash, inputs)
    requires RootOf(hash, a) == RootOf(hash, b)
    ensures a == b
    decreases |a|
  {
    if |a| > 1 {
      RootBindsLeaves(hash, Level(hash, a), Level(hash, b), inputs);
      LevelDetermines(hash, a, b, inputs);
    }
  }

  lemma PairInputRepeatsLast(nodes: seq<Bytes>, i: nat)
    requires |nodes| % 2 == 1 && i < Half(|nodes|)
    ensures PairInput(nodes + [nodes[|nodes| - 1]], i) == PairInput(nodes, i)
  {
  }

  lemma LevelRepeatsLast(hash: Hash, nodes: seq<Bytes>)
    requires |nodes| % 2 == 1
    ensures Level(hash, nodes + [nodes[|nodes| - 1]]) == Level(hash, nodes)
  {
    var up, up' := Level(hash, nodes), Level(hash, nodes + [nodes[|nodes| - 1]]);
    forall i | 0 <= i < |up| ensures up'[i] == up[i] {
      PairInputRepeatsLast(nodes, i);
    }
  }

  /** Lengths must agree: repeating the last leaf of an odd list of three or more never changes the root. */
  lemma RepeatedLastLeaf(hash: Hash, nodes: seq<Bytes>)
    requires |nodes| >= 3 && |nodes| % 2 == 1
    ensures RootOf(hash, nodes + [nodes[|nodes| - 1]]) == RootOf(hash, nodes)
  {
    LevelRepeatsLast(hash, nodes);
  }

  // ---------------------------------------------------------------- trees over data

  function Leaves(hash: Hash, data: seq<Bytes>): (leaves: seq<Bytes>)
    ensures |leaves| == |data|
    ensures forall i :: 0 <= i < |data| ==> leaves[i] == hash(data[i])
  {
    if data == [] then [] else [hash(data[0])] + Leaves(hash, data[1..])
  }

  /** `NewMerkleTree`: every datum is hashed into a leaf first. */
  method NewMerkleTree(hash: Hash, data: seq<Bytes>) returns (root: Bytes)
    ensures root == RootOf(hash, Leaves(hash, data))
    ensures |data| == 1 ==> root == hash(data[0])
    ensures |data| == 2 ==> root == hash(hash(data[0]) + hash(data[1]))
  {
    if |data| == 2 { SmallRoots(hash, hash(data[0]), hash(data[1]), [], []); }
    assert |data| == 2 ==> Leaves(hash, data) == [hash(data[0]), hash(data[1])];
    if |data| == 0 { return hash([]); }
    var leaves: seq<Bytes> := [];
    for i := 0 to |data|
      invariant leaves == Leaves(hash, data)[..i]
    {
      leaves := leaves + [hash(data[i])];
    }
    assert leaves == Leaves(hash, data);
    root := ComputeRoot(hash, leaves);
  }

  /** A tree root binds data of any lengths, not only 32-byte items. */
  lemma TreeBindsData(hash: Hash, a: seq<Bytes>, b: seq<Bytes>, inputs: set<Bytes>)
    requires |a| == |b|
    requires (set x | x in a) + (set x | x in b) <= inputs
    requires Inputs(hash, Leaves(hash, a)) + Inputs(hash, Leaves(hash, b)) <= inputs && CollisionFree(hash, inputs)
    requires RootOf(hash, Leaves(hash, a)) == RootOf(hash, Leaves(hash, b))
    ensures a == b
  {
    RootBindsLeaves(hash, Leaves(hash, a), Leaves(hash, b), inputs);
    forall i | 0 <= i < |a| ensures a[i] == b[i] {
      assert Leaves(hash, a)[i] == hash(a[i]) && Leaves(hash, b)[i] == hash(b[i]);
      assert a[i] in a && b[i] in b;
    }
  }
}
