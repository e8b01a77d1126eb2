/** Checkpoint headers and their canonical hash (internal/crypto/checkpoint.go). */
module Hashing {
  import opened ByteStrings
  import opened Bitmaps
  import opened Sorting

  datatype Roots = Roots(state: Bytes, agent: Bytes, event: Bytes)

  /** `bitmap` is None for Go's nil slice, which is hashed differently from an empty one. */
  datatype Signatures = Signatures(ecdsa: seq<Bytes>, bitmap: Option<Bitmap>, count: nat, totalWeight: nat)

  datatype Header = Header(
    epoch: nat, subnetId: Bytes, timestamp: int, parent: Bytes,
    roots: Option<Roots>, signatures: Option<Signatures>)

  function Zeros(n: nat): (b: Bytes)
    ensures |b| == n
  {
    if n == 0 then [] else [0] + Zeros(n - 1)
  }

  type Digest = d: Bytes | |d| == 32 witness Zeros(32)

  /** SHA-256 is a parameter: nothing is assumed of it but the length of its output. */
  type Hash = Bytes -> Digest

  const ZERO32: Digest := Zeros(32)

  /** No two distinct members of `inputs` share a digest. */
  ghost predicate CollisionFree(hash: Hash, inputs: set<Bytes>) {
    forall x, y :: x in inputs && y in inputs && hash(x) == hash(y) ==> x == y
  }

  // ---------------------------------------------------------------- the signed preimage

  /** A 32-byte field is written as it is, any other length as 32 zero bytes. */
  function Fixed32(b: Bytes): (d: Digest) {
    if |b| == 32 then b else ZERO32
  }

  function RootsOf(h: Header): (r: Roots) {
    match h.roots
    case None => Roots(ZERO32, ZERO32, ZERO32)
    case Some(r) => Roots(Fixed32(r.state), Fixed32(r.agent), Fixed32(r.event))
  }

  function Preimage(h: Header): (b: Bytes) {
    var r := RootsOf(h);
    Uint32(1) + Uint64(h.epoch)
    + Uint32(|h.subnetId|) + h.subnetId
    + Uint64(h.timestamp)
    + Fixed32(h.parent) + r.state + r.agent + r.event
  }

  /** What the preimage says about a header. */
  datatype Canonical = Canonical(epoch: nat, subnetId: Bytes, timestamp: int, parent: Bytes, roots: Roots)

  function CanonicalOf(h: Header): (c: Canonical) {
    Canonical(h.epoch, h.subnetId, h.timestamp, Fixed32(h.parent), RootsOf(h))
  }

  /** The ranges of Go's uint64 epoch and int64 timestamp. */
  ghost predicate InRange(h: Header) {
    h.epoch < TWO64 && -TWO63 <= h.timestamp < TWO63
  }

  const FIXED_WIDTH := 152

  /** Reads a preimage back; the subnet id is whatever the fixed-width fields leave over. */
  function Decode(b: Bytes): (c: Canonical)
    requires |b| >= FIXED_WIDTH
  {
    var n := 16 + |b| - FIXED_WIDTH;
    var stamp := FromBigEndian(b[n..n + 8]);
    Canonical(
      FromBigEndian(b[4..12]), b[16..n], if stamp < TWO63 then stamp else stamp - TWO64,
      b[n + 8..n + 40], Roots(b[n + 40..n + 72], b[n + 72..n + 104], b[n + 104..n + 136]))
  }

  lemma PreimageLayout(h: Header)
    ensures var b := Preimage(h); var n := 16 + |h.subnetId|; var r := RootsOf(h);
            && |b| == FIXED_WIDTH + |h.subnetId|
            && b[4..12] == Uint64(h.epoch) && b[16..n] == h.subnetId
            && b[n..n + 8] == Uint64(h.timestamp)
            && b[n + 8..n + 40] == Fixed32(h.parent) && b[n + 40..n + 72] == r.state
            && b[n + 72..n + 104] == r.agent && b[n + 104..n + 136] == r.event
  {
  }

  lemma TwosComplement(t: int)
    requires -TWO63 <= t < TWO63
    ensures var u := t % TWO64; u < TWO64 && t == if u < TWO63 then u else u - TWO64
  {
    if t < 0 { assert (t + TWO64) % TWO64 == t % TWO64; }
  }

  /** Decoding recovers epoch, subnet id, timestamp and the normalised parent and roots. */
  lemma DecodePreimage(h: Header)
    ensures |Preimage(h)| >= FIXED_WIDTH
    ensures var c := Decode(Preimage(h));
            c.subnetId == h.subnetId && c.parent == Fixed32(h.parent) && c.roots == RootsOf(h)
    ensures InRange(h) ==> Decode(Preimage(h)) == CanonicalOf(h)
  {
    PreimageLayout(h);
    if InRange(h) {
      Pow256Widths();
      BigEndianRoundTrip(h.epoch % TWO64, 8);
      BigEndianRoundTrip(h.timestamp % TWO64, 8);
      TwosComplement(h.timestamp);
    }
  }

  /** Two headers have one preimage exactly when they agree on every canonical field. */
  lemma PreimageDeterminesHeader(g: Header, h: Header)
    requires InRange(g) && InRange(h)
    ensures Preimage(g) == Preimage(h) <==> CanonicalOf(g) == CanonicalOf(h)
  {
    DecodePreimage(g);
    DecodePreimage(h);
  }

  // ---------------------------------------------------------------- the signature section

  lemma LexLeqIsTotalOrder()
    ensures TotalPreorder(LexLeq) && Antisymmetric(LexLeq)
  {
    forall x: Bytes, y: Bytes
      ensures LexLeq(x, y) || LexLeq(y, x)
      ensures LexLeq(x, y) && LexLeq(y, x) ==> x == y
    {
      LexTrichotomy(x, y);
    }
    forall x: Bytes, y: Bytes, z: Bytes | LexLeq(x, y) && LexLeq(y, z)
      ensures LexLeq(x, z)
    {
      LexTrichotomy(x, y);
      LexTrichotomy(y, z);
      if LexLess(z, x) {
        if x == y {
        } else if y == z {
        } else {
          LexTransitive(x, y, z);
          LexTrichotomy(x, z);
        }
      }
    }
  }

  function SortedSignatures(sigs: seq<Bytes>): (out: seq<Bytes>) {
    InsertionSort(LexLeq, sigs)
  }

  function Concat(parts: seq<Bytes>): (b: Bytes) {
    if parts == [] then [] else parts[0] + Concat(parts[1..])
  }

  function BitmapBytes(bitmap: Bitmap): (b: Bytes)
    ensures |b| == |bitmap|
  {
    if bitmap == [] then [] else [bitmap[0] as int] + BitmapBytes(bitmap[1..])
  }

  function BitmapSection(bitmap: Option<Bitmap>): (b: Bytes) {
    match bitmap
    case None => []
    case Some(bm) => Uint32(|bm|) + BitmapBytes(bm)
  }

  function SignatureSection(sigs: Option<Signatures>): (b: Bytes) {
    match sigs
    case None => []
    case Some(s) =>
      Uint32(|s.ecdsa|) + (Concat(SortedSignatures(s.ecdsa)) + BitmapSection(s.bitmap))
  }

  ghost predicate AllOfLength(parts: seq<Bytes>, n: nat) {
    forall i :: 0 <= i < |parts| ==> |parts[i]| == n
  }

  lemma {:induction false} ConcatLength(parts: seq<Bytes>, n: nat)
    requires AllOfLength(parts, n)
    ensures |Concat(parts)| == |parts| * n
  {
    if parts != [] { ConcatLength(parts[1..], n); }
  }

  lemma {:induction false} ConcatInjective(p: seq<Bytes>, q: seq<Bytes>, n: nat)
    requires AllOfLength(p, n) && AllOfLength(q, n) && |p| == |q| && Concat(p) == Concat(q)
    ensures p == q
  {
    if p != [] {
      SplitEqual(p[0], Concat(p[1..]), q[0], Concat(q[1..]));
      ConcatInjective(p[1..], q[1..], n);
      assert p == [p[0]] + p[1..] && q == [q[0]] + q[1..];
    }
  }

  lemma SortedKeepsLength(parts: seq<Bytes>, n: nat)
    requires AllOfLength(parts, n)
    ensures AllOfLength(SortedSignatures(parts), n) && |SortedSignatures(parts)| == |parts|
    ensures multiset(SortedSignatures(parts)) == multiset(parts)
  {
    LexLeqIsTotalOrder();
    InsertionSortCorrect(LexLeq, parts);
    SameLength(parts, SortedSignatures(parts));
    SameElements(parts, SortedSignatures(parts));
    forall i | 0 <= i < |parts| ensures |SortedSignatures(parts)[i]| == n {
      assert SortedSignatures(parts)[i] in parts;
    }
  }

  lemma SameByte(x: bv8, y: bv8)
    requires [x as int] == [y as int]
    ensures x == y
  {
    assert [x as int][0] == [y as int][0];
  }

  lemma {:induction false} BitmapBytesInjective(a: Bitmap, b: Bitmap)
    requires BitmapBytes(a) == BitmapBytes(b)
    ensures a == b
  {
    assert |a| == |BitmapBytes(a)| == |BitmapBytes(b)| == |b|;
    if a != [] {
      SplitEqual([a[0] as int], BitmapBytes(a[1..]), [b[0] as int], BitmapBytes(b[1..]));
      SameByte(a[0], b[0]);
      BitmapBytesInjective(a[1..], b[1..]);
      assert a == [a[0]] + a[1..] && b == [b[0]] + b[1..];
    }
  }

  lemma BitmapSectionInjective(a: Option<Bitmap>, b: Option<Bitmap>)
    requires BitmapSection(a) == BitmapSection(b)
    ensures a == b
  {
    if a.Some? && b.Some? {
      SplitEqual(Uint32(|a.value|), BitmapBytes(a.value),
                 Uint32(|b.value|), BitmapBytes(b.value));
      BitmapBytesInjective(a.value, b.value);
    }
  }

  /** Rearranging the signatures leaves the section alone. */
  lemma SectionIgnoresOrder(s: Signatures, t: Signatures)
    requires multiset(s.ecdsa) == multiset(t.ecdsa) && s.bitmap == t.bitmap
    ensures SignatureSection(Some(s)) == SignatureSection(Some(t))
  {
    LexLeqIsTotalOrder();
    InsertionSortCorrect(LexLeq, s.ecdsa);
    InsertionSortCorrect(LexLeq, t.ecdsa);
    SortUnique(LexLeq, SortedSignatures(s.ecdsa), SortedSignatures(t.ecdsa));
    SameLength(s.ecdsa, t.ecdsa);
  }

  lemma SectionSplits(a: Bytes, p: seq<Bytes>, s: Bytes, b: Bytes, q: seq<Bytes>, t: Bytes, n: nat)
    requires a + (Concat(p) + s) == b + (Concat(q) + t) && |a| == |b|
    requires AllOfLength(p, n) && AllOfLength(q, n)
    ensures a == b && (|p| == |q| ==> p == q && s == t)
  {
    SplitEqual(a, Concat(p) + s, b, Concat(q) + t);
    ConcatLength(p, n);
    ConcatLength(q, n);
    if |p| == |q| {
      SplitEqual(Concat(p), s, Concat(q), t);
      ConcatInjective(p, q, n);
    }
  }

  lemma SectionInjective(s: Signatures, t: Signatures, n: nat)
    requires AllOfLength(s.ecdsa, n) && AllOfLength(t.ecdsa, n)
    requires |s.ecdsa| < TWO32 && |t.ecdsa| < TWO32
    requires SignatureSection(Some(s)) == SignatureSection(Some(t))
    ensures SortedSignatures(s.ecdsa) == SortedSignatures(t.ecdsa) && s.bitmap == t.bitmap
  {
    SortedKeepsLength(s.ecdsa, n);
    SortedKeepsLength(t.ecdsa, n);
    SectionSplits(Uint32(|s.ecdsa|), SortedSignatures(s.ecdsa), BitmapSection(s.bitmap),
                  Uint32(|t.ecdsa|), SortedSignatures(t.ecdsa), BitmapSection(t.bitmap), n);
    Uint32Injective(|s.ecdsa|, |t.ecdsa|);
    BitmapSectionInjective(s.bitmap, t.bitmap);
  }

  /** For signatures of one length the section is equal exactly for equal multisets and equal bitmaps. */
  lemma SectionDeterminesSignatures(s: Signatures, t: Signatures, n: nat)
    requires AllOfLength(s.ecdsa, n) && AllOfLength(t.ecdsa, n)
    requires |s.ecdsa| < TWO32 && |t.ecdsa| < TWO32
    ensures SignatureSection(Some(s)) == SignatureSection(Some(t))
            <==> multiset(s.ecdsa) == multiset(t.ecdsa) && s.bitmap == t.bitmap
  {
    if multiset(s.ecdsa) == multiset(t.ecdsa) && s.bitmap == t.bitmap {
      SectionIgnoresOrder(s, t);
    } else if SignatureSection(Some(s)) == SignatureSection(Some(t)) {
      SectionInjective(s, t, n);
      SortedKeepsLength(s.ecdsa, n);
      SortedKeepsLength(t.ecdsa, n);
    }
  }

  // ---------------------------------------------------------------- which lengths are safe

  lemma SortedStays(parts: seq<Bytes>)
    requires Sorted(LexLeq, parts)
    ensures SortedSignatures(parts) == parts
  {
    LexLeqIsTotalOrder();
    InsertionSortCorrect(LexLeq, parts);
    SortUnique(LexLeq, SortedSignatures(parts), parts);
  }

  lemma TwoInOrder(a: Bytes, b: Bytes)
    requires LexLeq(a, b)
    ensures SortedSignatures([a, b]) == [a, b] && Concat([a, b]) == a + b
  {
    SortedStays([a, b]);
    assert [a, b][1..] == [b] && [b][1..] == [];
    assert Concat([b]) == b + Concat([]);
  }

  lemma {:induction false} ZerosLeq(m: nat, n: nat, x: Bytes)
    requires m <= n
    ensures LexLeq(Zeros(m), Zeros(n) + x)
  {
    if m > 0 {
      var a, b := Zeros(m), Zeros(n) + x;
      assert a[1..] == Zeros(m - 1) && b[1..] == Zeros(n - 1) + x;
      ZerosLeq(m - 1, n - 1, x);
    }
  }

  lemma {:induction false} ZerosBelowOne(m: nat, n: nat)
    requires m < n
    ensures LexLeq(Zeros(n), Zeros(m) + [1])
  {
    var a, b := Zeros(n), Zeros(m) + [1];
    if m > 0 {
      assert a[1..] == Zeros(n - 1) && b[1..] == Zeros(m - 1) + [1];
      ZerosBelowOne(m - 1, n - 1);
    }
  }

  lemma {:induction false} ZerosAppend(m: nat, n: nat)
    ensures Zeros(m) + Zeros(n) == Zeros(m + n)
  {
    if m == 0 {
      assert Zeros(m) + Zeros(n) == Zeros(n);
    } else {
      ZerosAppend(m - 1, n);
      assert Zeros(m) + Zeros(n) == [0] + (Zeros(m - 1) + Zeros(n));
    }
  }

  /** Both ways of cutting zeros before a final one give the same bytes, from different pieces. */
  lemma TwoCuts(m: nat, n: nat)
    requires 0 < m < n
    ensures Zeros(m) + (Zeros(n - 1) + [1]) == Zeros(n) + (Zeros(m - 1) + [1])
    ensures Zeros(n - 1) + [1] != Zeros(n)
  {
    ZerosAppend(m, n - 1);
    ZerosAppend(n, m - 1);
    ZerosAppend(n - 1, 1);
    assert Zeros(m) + (Zeros(n - 1) + [1]) == (Zeros(m) + Zeros(n - 1)) + [1];
    assert Zeros(n) + (Zeros(m - 1) + [1]) == (Zeros(n) + Zeros(m - 1)) + [1];
    assert Zeros(1) == [0];
    assert (Zeros(n - 1) + [1])[n - 1] == 1 && (Zeros(n - 1) + [0])[n - 1] == 0;
  }

  /** Two lists of equally many signatures with one section. */
  ghost predicate Collide(s: Signatures, t: Signatures) {
    && |s.ecdsa| == |t.ecdsa| < TWO32 && (multiset(s.ecdsa) != multiset(t.ecdsa) || s.bitmap != t.bitmap)
    && SignatureSection(Some(s)) == SignatureSection(Some(t))
  }

  ghost predicate LengthsIn(s: Signatures, lengths: iset<nat>) {
    forall i :: 0 <= i < |s.ecdsa| ==> |s.ecdsa[i]| in lengths
  }

  /** Signatures carry no length prefix: any two positive lengths can be confused, even with equal bitmaps. */
  lemma MixedLengthsCollide(m: nat, n: nat, bitmap: Option<Bitmap>) returns (s: Signatures, t: Signatures)
    requires 0 < m < n
    ensures Collide(s, t) && s.bitmap == t.bitmap == bitmap
    ensures LengthsIn(s, iset{m, n}) && LengthsIn(t, iset{m, n})
  {
    var a, b := Zeros(m), Zeros(n - 1) + [1];
    var c, d := Zeros(n), Zeros(m - 1) + [1];
    ZerosLeq(m, n - 1, [1]);
    ZerosBelowOne(m - 1, n);
    TwoInOrder(a, b);
    TwoInOrder(c, d);
    TwoCuts(m, n);
    s, t := Signatures([a, b], bitmap, 2, 0), Signatures([c, d], bitmap, 2, 0);
    assert b in multiset(s.ecdsa) && b !in multiset(t.ecdsa);
  }

  function NoBitsSet(n: nat): (bitmap: Bitmap)
    ensures |bitmap| == n && BitmapBytes(bitmap) == Zeros(n)
  {
    if n == 0 then []
    else
      var rest := NoBitsSet(n - 1);
      assert ([0] + rest)[1..] == rest && Zeros(n) == [0] + Zeros(n - 1);
      [0] + rest
  }

  function Copies(x: Bytes, n: nat): (parts: seq<Bytes>)
    ensures |parts| == n && forall i :: 0 <= i < n ==> parts[i] == x
  {
    if n == 0 then [] else [x] + Copies(x, n - 1)
  }

  lemma {:induction false} EmptiesConcat(n: nat)
    ensures Concat(SortedSignatures(Copies([], n))) == []
  {
    var parts := Copies([], n);
    LexLeqIsTotalOrder();
    SortedStays(parts);
    if n > 0 {
      EmptiesConcat(n - 1);
      assert parts[1..] == Copies([], n - 1);
      SortedStays(parts[1..]);
    }
  }

  /** Empty signatures with a bitmap read like full signatures without one. */
  lemma BitmapReadsAsSignatures(parts: seq<Bytes>, bitmap: Bitmap, n: nat)
    requires 0 < |parts| < TWO32 && n > 0 && AllOfLength(parts, n) && Sorted(LexLeq, parts)
    requires Concat(parts) == BitmapSection(Some(bitmap))
    ensures var s, t := Signatures(Copies([], |parts|), Some(bitmap), 0, 0), Signatures(parts, None, 0, 0);
            Collide(s, t) && LengthsIn(s, iset{0, n}) && LengthsIn(t, iset{0, n})
  {
    EmptiesConcat(|parts|);
    SortedStays(parts);
  }

  lemma SmallUint32(n: nat)
    requires n < 256
    ensures Uint32(n) == [0, 0, 0, n]
  {
    assert n % TWO32 == n && n / 256 == 0;
    assert BigEndian(0, 1) == [] + [0] && BigEndian(0, 2) == BigEndian(0, 1) + [0] && BigEndian(0, 3) == BigEndian(0, 2) + [0];
    assert BigEndian(n, 4) == BigEndian(0, 3) + [n];
  }

  /** Signatures of one length that together read like a bitmap section. */
  lemma SectionAsSignatures(n: nat) returns (parts: seq<Bytes>, bitmap: Bitmap)
    requires n > 0
    ensures 0 < |parts| <= 4 && AllOfLength(parts, n) && Sorted(LexLeq, parts)
    ensures Concat(parts) == BitmapSection(Some(bitmap))
  {
    LexLeqIsTotalOrder();
    if n == 1 {
      SmallUint32(0);
      ConcatFour([0], [0], [0], [0]);
      parts, bitmap := [[0], [0], [0], [0]], [];
    } else if n == 2 {
      SmallUint32(0);
      TwoInOrder([0, 0], [0, 0]);
      parts, bitmap := [[0, 0], [0, 0]], [];
    } else if n == 3 {
      SmallUint32(2);
      TwoInOrder([0, 0, 0], [2, 0, 0]);
      assert Zeros(1) == [0] && Zeros(2) == [0] + Zeros(1);
      parts, bitmap := [[0, 0, 0], [2, 0, 0]], NoBitsSet(2);
    } else {
      bitmap := NoBitsSet(n - 4);
      parts := [BitmapSection(Some(bitmap))];
      assert Concat(parts) == parts[0] + Concat([]);
    }
  }

  /** The length zero can be confused with every other length. */
  lemma EmptyCollides(n: nat) returns (s: Signatures, t: Signatures)
    requires n > 0
    ensures Collide(s, t) && LengthsIn(s, iset{0, n}) && LengthsIn(t, iset{0, n})
  {
    var parts, bitmap := SectionAsSignatures(n);
    BitmapReadsAsSignatures(parts, bitmap, n);
    s, t := Signatures(Copies([], |parts|), Some(bitmap), 0, 0), Signatures(parts, None, 0, 0);
  }

  lemma ConcatFour(a: Bytes, b: Bytes, c: Bytes, d: Bytes)
    ensures Concat([a, b, c, d]) == a + (b + (c + d))
  {
    assert [a, b, c, d][1..] == [b, c, d] && [b, c, d][1..] == [c, d] && [c, d][1..] == [d] && [d][1..] == [];
    assert Concat([d]) == d + Concat([]) == d;
    assert Concat([c, d]) == c + d;
    assert Concat([b, c, d]) == b + (c + d);
  }

  /** Sections of lists with these lengths determine the signatures and the bitmap. */
  ghost predicate Unambiguous(lengths: iset<nat>) {
    forall s: Signatures, t: Signatures ::
      LengthsIn(s, lengths) && LengthsIn(t, lengths) ==> !Collide(s, t)
  }

  /** A single length is not only enough, it is the exact condition on the lengths admitted. */
  lemma OneLengthIsExact(lengths: iset<nat>)
    ensures Unambiguous(lengths) <==> forall m, n :: m in lengths && n in lengths ==> m == n
  {
    if forall m, n :: m in lengths && n in lengths ==> m == n {
      forall s: Signatures, t: Signatures | LengthsIn(s, lengths) && LengthsIn(t, lengths) ensures !Collide(s, t) {
        if |s.ecdsa| == |t.ecdsa| && |s.ecdsa| < TWO32 {
          var n := if s.ecdsa == [] then 0 else |s.ecdsa[0]|;
          SectionDeterminesSignatures(s, t, n);
        }
      }
    } else {
      var m, n :| m in lengths && n in lengths && m < n;
      var s, t;
      if m == 0 { s, t := EmptyCollides(n); } else { s, t := MixedLengthsCollide(m, n, None); }
      assert LengthsIn(s, lengths) && LengthsIn(t, lengths) && Collide(s, t);
    }
  }

  // ---------------------------------------------------------------- hashing

  function ComputeHash(hash: Hash, h: Header): (d: Digest) {
    hash(Preimage(h))
  }

  /** The bytes hashed by `ComputeHashForVerification`: the signed hash, then the signatures. */
  function FullPreimage(hash: Hash, h: Header): (b: Bytes) {
    ComputeHash(hash, h) + SignatureSection(h.signatures)
  }

  function HeaderHash(hash: Hash, h: Header): (d: Digest) {
    hash(FullPreimage(hash, h))
  }

  /** Signatures are never part of what is signed. */
  lemma SigningIgnoresSignatures(hash: Hash, h: Header, sigs: Option<Signatures>)
    ensures ComputeHash(hash, h.(signatures := sigs)) == ComputeHash(hash, h)
  {
    assert RootsOf(h.(signatures := sigs)) == RootsOf(h);
  }

  /** A running hash: bytes are written piece by piece, the digest is taken at the end. */
  class HashState {
    var written: Bytes
    const hash: Hash

    constructor (hash: Hash)
      ensures written == [] && this.hash == hash
    {
      written := [];
      this.hash := hash;
    }

    method Write(b: Bytes)
      modifies this
      ensures written == old(written) + b
    {
      written := written + b;
    }

    method WriteFixed(b: Bytes)
      modifies this
      ensures written == old(written) + Fixed32(b)
      ensures |b| == 32 ==> written == old(written) + b
    {
      if |b| == 32 { Write(b); } else { Write(ZERO32); }
    }

    method Sum() returns (d: Digest)
      ensures d == hash(written)
    {
      d := hash(written);
    }
  }

  /** `ComputeHash`, field by field in the order of the source. */
  method WriteHeader(hash: Hash, h: Header) returns (d: Digest)
    ensures d == ComputeHash(hash, h) == hash(Preimage(h))
  {
    var s := new HashState(hash);
    s.Write(Uint32(1));
    assert s.written == Uint32(1);
    s.Write(Uint64(h.epoch));
    s.Write(Uint32(|h.subnetId|));
    s.Write(h.subnetId);
    s.Write(Uint64(h.timestamp));
    s.WriteFixed(h.parent);
    match h.roots {
      case None =>
        s.Write(ZERO32);
        s.Write(ZERO32);
        s.Write(ZERO32);
      case Some(r) =>
        s.WriteFixed(r.state);
        s.WriteFixed(r.agent);
        s.WriteFixed(r.event);
    }
    d := s.Sum();
  }

  lemma {:induction false} ConcatAppend(p: seq<Bytes>, x: Bytes)
    ensures Concat(p + [x]) == Concat(p) + x
  {
    if p == [] {
      assert p + [x] == [x] && [x][1..] == [];
    } else {
      assert (p + [x])[0] == p[0] && (p + [x])[1..] == p[1..] + [x];
      ConcatAppend(p[1..], x);
    }
  }

  /** `sortSignatures`: whatever order the sort leaves equal elements in, the result is one list. */
  method SortSignatures(sigs: seq<Bytes>) returns (sorted: seq<Bytes>)
    ensures sorted == SortedSignatures(sigs) && multiset(sorted) == multiset(sigs)
    ensures forall i, j :: 0 <= i < j < |sorted| ==> !LexLess(sorted[j], sorted[i])
  {
    LexLeqIsTotalOrder();
    sorted := Sort(sigs, LexLeq);
    InsertionSortCorrect(LexLeq, sigs);
    SortUnique(LexLeq, sorted, SortedSignatures(sigs));
  }

  method WriteAll(s: HashState, parts: seq<Bytes>)
    modifies s
    ensures s.written == old(s.written) + Concat(parts)
  {
    for i := 0 to |parts|
      invariant s.written == old(s.written) + Concat(parts[..i])
    {
      ConcatAppend(parts[..i], parts[i]);
      assert parts[..i + 1] == parts[..i] + [parts[i]];
      s.Write(parts[i]);
    }
    assert parts[..|parts|] == parts;
  }

  method WriteBitmap(s: HashState, bitmap: Option<Bitmap>)
    modifies s
    ensures s.written == old(s.written) + BitmapSection(bitmap)
  {
    if bitmap.Some? {
      s.Write(Uint32(|bitmap.value|));
      s.Write(BitmapBytes(bitmap.value));
    }
  }

  /** `writeSignatures`: the count, the sorted signatures, then the bitmap unless it is nil. */
  method WriteSignatures(s: HashState, sigs: Signatures)
    modifies s
    ensures s.written == old(s.written) + SignatureSection(Some(sigs))
  {
    var sorted := SortSignatures(sigs.ecdsa);
    s.Write(Uint32(|sigs.ecdsa|));
    WriteAll(s, sorted);
    WriteBitmap(s, sigs.bitmap);
    Regroup(old(s.written), Uint32(|sigs.ecdsa|), Concat(sorted), BitmapSection(sigs.bitmap));
  }

  lemma Regroup(a: Bytes, b: Bytes, c: Bytes, d: Bytes)
    ensures a + b + c + d == a + (b + (c + d))
  {
  }

  /** `ComputeHashForVerification`: the base hash, then the signature section when there is one. */
  method WriteHeaderAndSignatures(hash: Hash, h: Header) returns (d: Digest)
    ensures d == HeaderHash(hash, h) == hash(hash(Preimage(h)) + SignatureSection(h.signatures))
  {
    var base := WriteHeader(hash, h);
    var s := new HashState(hash);
    s.Write(base);
    assert s.written == base;
    if h.signatures.Some? {
      WriteSignatures(s, h.signatures.value);
    } else {
      assert base + SignatureSection(h.signatures) == base;
    }
    d := s.Sum();
  }
}
