/** Bitmaps over byte slices (internal/consensus/checkpoint.go), specified by the set of their bits. */
module Bitmaps {

  type Bitmap = seq<bv8>

  predicate ByteBit(v: bv8, k: nat)
    requires k < 8
  {
    v & (1 << k) != 0
  }

  predicate BitIsSet(bitmap: Bitmap, idx: nat) {
    idx / 8 < |bitmap| && ByteBit(bitmap[idx / 8], idx % 8)
  }

  /** The meaning of a bitmap: the indices whose bit is set. */
  function Bits(bitmap: Bitmap): (s: set<nat>)
    ensures forall i: nat :: i in s <==> BitIsSet(bitmap, i)
  {
    set i: nat | i < 8 * |bitmap| && BitIsSet(bitmap, i)
  }

  lemma OrSetsOneBit(v: bv8, k: nat, j: nat)
    requires k < 8 && j < 8
    ensures ByteBit(v | (1 << k), j) <==> j == k || ByteBit(v, j)
  {
  }

  const MASKS: seq<bv8> := [1, 2, 4, 8, 16, 32, 64, 128]

  lemma MaskOf(v: bv8, k: nat)
    requires k < 8
    ensures ByteBit(v, k) <==> v & MASKS[k] != 0
  {
    assert k == 0 || k == 1 || k == 2 || k == 3 || k == 4 || k == 5 || k == 6 || k == 7;
  }

  /** Bit 8 * i + k is bit k of byte i, counted from the lowest. */
  lemma BitMasks(bitmap: Bitmap, i: nat, k: nat)
    requires i < |bitmap| && k < 8
    ensures 8 * i + k in Bits(bitmap) <==> bitmap[i] & [1, 2, 4, 8, 16, 32, 64, 128][k] != 0
  {
    BitOfByteAt(bitmap, i, k);
    MaskOf(bitmap[i], k);
  }

  lemma ZeroHasNoBit(k: nat)
    requires k < 8
    ensures !ByteBit(0, k)
  {
  }

  lemma ByteDeterminedByBits(v: bv8, w: bv8)
    requires forall k: nat :: k < 8 ==> (ByteBit(v, k) <==> ByteBit(w, k))
    ensures v == w
  {
    assert ByteBit(v, 0) == ByteBit(w, 0) && ByteBit(v, 1) == ByteBit(w, 1);
    assert ByteBit(v, 2) == ByteBit(w, 2) && ByteBit(v, 3) == ByteBit(w, 3);
    assert ByteBit(v, 4) == ByteBit(w, 4) && ByteBit(v, 5) == ByteBit(w, 5);
    assert ByteBit(v, 6) == ByteBit(w, 6) && ByteBit(v, 7) == ByteBit(w, 7);
  }

  function ByteAt(bitmap: Bitmap, i: nat): bv8 {
    if i < |bitmap| then bitmap[i] else 0
  }

  ghost predicate SameUpToZeros(a: Bitmap, b: Bitmap) {
    forall i: nat :: ByteAt(a, i) == ByteAt(b, i)
  }

  lemma BitOfByteAt(bitmap: Bitmap, i: nat, k: nat)
    requires k < 8
    ensures BitIsSet(bitmap, 8 * i + k) <==> ByteBit(ByteAt(bitmap, i), k)
  {
    assert (8 * i + k) / 8 == i && (8 * i + k) % 8 == k;
    ZeroHasNoBit(k);
  }

  /** Equal bits give equal bytes, up to trailing zero bytes. */
  lemma SameBitsSameBytes(a: Bitmap, b: Bitmap)
    requires Bits(a) == Bits(b)
    ensures SameUpToZeros(a, b)
  {
    forall i: nat ensures ByteAt(a, i) == ByteAt(b, i) {
      forall k: nat | k < 8 ensures ByteBit(ByteAt(a, i), k) <==> ByteBit(ByteAt(b, i), k) {
        BitOfByteAt(a, i, k);
        BitOfByteAt(b, i, k);
        assert 8 * i + k in Bits(a) <==> 8 * i + k in Bits(b);
      }
      ByteDeterminedByBits(ByteAt(a, i), ByteAt(b, i));
    }
  }

  /** `SetBit`: grow with zero bytes when needed, then or the bit in. */
  method SetBit(bitmap: Bitmap, idx: nat) returns (out: Bitmap)
    ensures Bits(out) == Bits(bitmap) + {idx}
    ensures |out| == if idx / 8 < |bitmap| then |bitmap| else idx / 8 + 1
    ensures out[idx / 8] == ByteAt(bitmap, idx / 8) | (1 << (idx % 8))
    ensures forall j :: 0 <= j < |out| && j != idx / 8 ==> out[j] == ByteAt(bitmap, j)
  {
    var byteIdx, bitIdx := idx / 8, idx % 8;
    var grown := bitmap;
    if byteIdx >= |bitmap| {
      grown := bitmap + seq(byteIdx + 1 - |bitmap|, _ => 0);
    }
    out := grown[byteIdx := grown[byteIdx] | (1 << bitIdx)];
    OrAddsBit(bitmap, out, idx);
  }

  lemma OrAddsBit(bitmap: Bitmap, out: Bitmap, idx: nat)
    requires idx / 8 < |out| && |bitmap| <= |out| && out[idx / 8] == ByteAt(bitmap, idx / 8) | (1 << (idx % 8))
    requires forall j :: 0 <= j < |out| && j != idx / 8 ==> out[j] == ByteAt(bitmap, j)
    ensures Bits(out) == Bits(bitmap) + {idx}
  {
    forall i: nat ensures BitIsSet(out, i) <==> i == idx || BitIsSet(bitmap, i) {
      ZeroHasNoBit(i % 8);
      OrSetsOneBit(ByteAt(bitmap, idx / 8), idx % 8, i % 8);
    }
  }

  // ---------------------------------------------------------------- counting

  function Ones(v: bv8, k: nat): (c: nat)
    requires k <= 8
  {
    if k == 0 then 0 else Ones(v, k - 1) + (if ByteBit(v, k - 1) then 1 else 0)
  }

  function CountBelow(s: set<nat>, n: nat): (c: nat) {
    if n == 0 then 0 else CountBelow(s, n - 1) + (if n - 1 in s then 1 else 0)
  }

  lemma {:induction false} CountBelowDrops(s: set<nat>, x: nat, n: nat)
    requires n <= x
    ensures CountBelow(s - {x}, n) == CountBelow(s, n)
  {
    if n > 0 { CountBelowDrops(s, x, n - 1); }
  }

  lemma {:induction false} CountBelowAll(s: set<nat>, n: nat)
    requires forall i :: i in s ==> i < n
    ensures CountBelow(s, n) == |s|
  {
    if n > 0 {
      var t := s - {n - 1};
      CountBelowAll(t, n - 1);
      CountBelowDrops(s, n - 1, n - 1);
      if n - 1 in s { assert s == t + {n - 1}; } else { assert s == t; }
    }
  }

  lemma {:induction false} OnesOfOneByte(bitmap: Bitmap, s: set<nat>, m: nat, k: nat)
    requires m < |bitmap| && k <= 8 && s == Bits(bitmap)
    ensures CountBelow(s, 8 * m + k) == CountBelow(s, 8 * m) + Ones(bitmap[m], k)
  {
    if k > 0 {
      OnesOfOneByte(bitmap, s, m, k - 1);
      assert (8 * m + k - 1) / 8 == m && (8 * m + k - 1) % 8 == k - 1;
    }
  }

  lemma Ones8(v: bv8)
    ensures Ones(v, 8) == B(v, 0) + B(v, 1) + B(v, 2) + B(v, 3) + B(v, 4) + B(v, 5) + B(v, 6) + B(v, 7)
  {
    assert Ones(v, 0) == 0;
    assert Ones(v, 1) == Ones(v, 0) + B(v, 0);
    assert Ones(v, 2) == Ones(v, 1) + B(v, 1);
    assert Ones(v, 4) == Ones(v, 2) + B(v, 2) + B(v, 3);
    assert Ones(v, 6) == Ones(v, 4) + B(v, 4) + B(v, 5);
  }

  function B(v: bv8, k: nat): nat
    requires k < 8
  {
    if ByteBit(v, k) then 1 else 0
  }

  /** Clearing the lowest set bit removes exactly one bit. */
  lemma KernighanStep(v: bv8)
    requires v != 0
    ensures Ones(v & (v - 1), 8) == Ones(v, 8) - 1
  {
    Ones8(v);
    Ones8(v & (v - 1));
  }

  lemma NoOnes()
    ensures Ones(0, 8) == 0
  {
    Ones8(0);
  }

  /** The inner loop of `CountBits`: Kernighan's algorithm on one byte. */
  method CountByte(b: bv8) returns (c: nat)
    ensures c == Ones(b, 8)
  {
    c := 0;
    var v := b;
    while v != 0
      invariant c + Ones(v, 8) == Ones(b, 8)
      decreases Ones(v, 8)
    {
      KernighanStep(v);
      v := v & (v - 1);
      c := c + 1;
    }
    NoOnes();
  }

  function OnesInBytes(bitmap: Bitmap, m: nat): (c: nat)
    requires m <= |bitmap|
  {
    if m == 0 then 0 else OnesInBytes(bitmap, m - 1) + Ones(bitmap[m - 1], 8)
  }

  lemma {:induction false} OnesInBytesCount(bitmap: Bitmap, s: set<nat>, m: nat)
    requires m <= |bitmap| && s == Bits(bitmap)
    ensures OnesInBytes(bitmap, m) == CountBelow(s, 8 * m)
  {
    if m > 0 {
      OnesInBytesCount(bitmap, s, m - 1);
      OnesOfOneByte(bitmap, s, m - 1, 8);
    }
  }

  /** `CountBits` counts the distinct indices set. */
  method CountBits(bitmap: Bitmap) returns (c: nat)
    ensures c == |Bits(bitmap)|
  {
    c := 0;
    for m := 0 to |bitmap|
      invariant c == OnesInBytes(bitmap, m)
    {
      var ones := CountByte(bitmap[m]);
      c := c + ones;
    }
    OnesInBytesCount(bitmap, Bits(bitmap), |bitmap|);
    CountBelowAll(Bits(bitmap), 8 * |bitmap|);
  }
}
