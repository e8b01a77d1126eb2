/**
 * The bytes a checkpoint is hashed from, read by position: a reader that knows nothing but the format, and byte by
 * byte what every field contributes.
 */
module HeaderBytes {
  import opened ByteStrings
  import opened Bitmaps
  import opened Sorting
  import opened Hashing

  // ---------------------------------------------------------------- integers, digit by digit

  lemma DivideTwice(n: nat, p: nat)
    requires p > 0
    ensures (n / 256) / p == n / (256 * p)
  {
    var q, r := n / 256, n % 256;
    var a, b := q / p, q % p;
    assert n == 256 * q + r && q == a * p + b;
    assert n == a * (256 * p) + (256 * b + r);
    assert 256 * b + r < 256 * p;
    QuotientIs(n, 256 * p, a, 256 * b + r);
  }

  /** Most significant byte first. */
  lemma {:induction false} BigEndianDigit(n: nat, k: nat, i: nat)
    requires i < k
    ensures BigEndian(n, k)[i] == n / Pow256(k - 1 - i) % 256
  {
    if i == k - 1 {
      assert Pow256(0) == 1;
    } else {
      BigEndianDigit(n / 256, k - 1, i);
      DivideTwice(n, Pow256(k - 2 - i));
    }
  }

  /** Two hexadecimal digits for every byte, the high one first. */
  lemma {:induction false} HexDigits(b: Bytes, i: nat)
    requires i < |b|
    ensures var s := HexEncode(b);
            s[2 * i] == "0123456789abcdef"[b[i] / 16] && s[2 * i + 1] == "0123456789abcdef"[b[i] % 16]
  {
    if i > 0 {
      HexDigits(b[1..], i - 1);
      assert HexEncode(b)[2..] == HexEncode(b[1..]);
      assert HexEncode(b)[2 * i] == HexEncode(b)[2..][2 * (i - 1)];
      assert HexEncode(b)[2 * i + 1] == HexEncode(b)[2..][2 * (i - 1) + 1];
    }
  }

  // ---------------------------------------------------------------- the header

  /** What stands in a header's bytes. */
  datatype Reading = Reading(
    epoch: nat, subnetId: Bytes, timestamp: int, parent: Bytes, state: Bytes, agent: Bytes, event: Bytes)

  /** Reads the bytes front to back: version 1, epoch, the subnet id cut by its length, and the fields of fixed width. */
  function Read(b: Bytes): (r: Option<Reading>) {
    if |b| < 16 || b[0] != 0 || b[1] != 0 || b[2] != 0 || b[3] != 1 then None
    else
      var n := 16 + FromBigEndian(b[12..16]);
      if |b| != n + 136 then None
      else
        var stamp := FromBigEndian(b[n..n + 8]);
        Some(Reading(
          FromBigEndian(b[4..12]), b[16..n], if stamp < TWO63 then stamp else stamp - TWO64,
          b[n + 8..n + 40], b[n + 40..n + 72], b[n + 72..n + 104], b[n + 104..n + 136]))
  }

  lemma Parts(h: Header)
    ensures var b := Preimage(h); var n := 16 + |h.subnetId|;
            && |b| == n + 136 && b[0..4] == Uint32(1) && b[4..12] == Uint64(h.epoch) && b[12..16] == Uint32(|h.subnetId|)
  {
  }

  /** A 32-byte value is written as it is, anything else as 32 zeros. */
  ghost predicate Written(field: Bytes, out: Bytes) {
    |out| == 32 && (if |field| == 32 then out == field else forall i :: 0 <= i < 32 ==> out[i] == 0)
  }

  lemma {:induction false} ZerosAreZero(n: nat)
    ensures forall i :: 0 <= i < n ==> Zeros(n)[i] == 0
  {
    if n > 0 { ZerosAreZero(n - 1); }
  }

  lemma FixedIsWritten(field: Bytes)
    ensures Written(field, Fixed32(field)) && Written([], ZERO32)
  {
    ZerosAreZero(32);
  }

  /** Reading a header's bytes gives back its fields, one by one. */
  lemma ReadPreimage(h: Header)
    requires InRange(h) && |h.subnetId| < TWO32
    ensures Read(Preimage(h)).Some?
    ensures var r := Read(Preimage(h)).value;
            && r.epoch == h.epoch && r.subnetId == h.subnetId && r.timestamp == h.timestamp && Written(h.parent, r.parent)
            && Written(if h.roots.Some? then h.roots.value.state else [], r.state)
            && Written(if h.roots.Some? then h.roots.value.agent else [], r.agent)
            && Written(if h.roots.Some? then h.roots.value.event else [], r.event)
  {
    var b := Preimage(h);
    Parts(h);
    PreimageLayout(h);
    SmallUint32(1);
    assert b[0] == b[0..4][0] && b[1] == b[0..4][1] && b[2] == b[0..4][2] && b[3] == b[0..4][3];
    ReadsLength(|h.subnetId|);
    DecodePreimage(h);
    FixedIsWritten(h.parent);
    if h.roots.Some? {
      FixedIsWritten(h.roots.value.state);
      FixedIsWritten(h.roots.value.agent);
      FixedIsWritten(h.roots.value.event);
    }
  }

  lemma ReadsLength(n: nat)
    requires n < TWO32
    ensures FromBigEndian(Uint32(n)) == n
  {
    Pow256Widths();
    assert n % TWO32 == n;
    BigEndianRoundTrip(n, 4);
  }

  /** The first four bytes are the version. */
  lemma VersionBytes(h: Header)
    ensures |Preimage(h)| >= 16 && Preimage(h)[..4] == [0, 0, 0, 1]
  {
    Parts(h);
    SmallUint32(1);
    assert Preimage(h)[..4] == Preimage(h)[0..4];
  }

  /** The next eight are the epoch, most significant first. */
  lemma EpochByte(h: Header, i: nat)
    requires h.epoch < TWO64 && i < 8
    ensures |Preimage(h)| >= 16 && Preimage(h)[4 + i] == h.epoch / Pow256(7 - i) % 256
  {
    Parts(h);
    assert h.epoch % TWO64 == h.epoch;
    BigEndianDigit(h.epoch, 8, i);
    assert Preimage(h)[4 + i] == Preimage(h)[4..12][i];
  }

  /** The next four are the length of the subnet id, which follows. */
  lemma LengthByte(h: Header, i: nat)
    requires |h.subnetId| < TWO32 && i < 4
    ensures |Preimage(h)| >= 16 && Preimage(h)[12 + i] == |h.subnetId| / Pow256(3 - i) % 256
  {
    Parts(h);
    assert |h.subnetId| % TWO32 == |h.subnetId|;
    BigEndianDigit(|h.subnetId|, 4, i);
    assert Preimage(h)[12 + i] == Preimage(h)[12..16][i];
  }

  // ---------------------------------------------------------------- the signature section

  datatype SectionReading = SectionReading(signatures: seq<Bytes>, bitmap: Option<Bytes>)

  /** Cuts off `count` pieces of length `n`. */
  function Cut(b: Bytes, n: nat, count: nat): (pieces: seq<Bytes>)
    requires |b| >= count * n
  {
    if count == 0 then []
    else
      assert count * n == n + (count - 1) * n;
      [b[..n]] + Cut(b[n..], n, count - 1)
  }

  /** A bitmap with its length in front, or nothing. */
  function ReadBitmap(b: Bytes): (r: Option<Option<Bytes>>) {
    if b == [] then Some(None)
    else if |b| < 4 || |b| != 4 + FromBigEndian(b[..4]) then None
    else Some(Some(b[4..]))
  }

  /** Reads a section whose signatures have length `n`: their number, the signatures, then a bitmap if anything is left. */
  function ReadSection(b: Bytes, n: nat): (r: Option<SectionReading>) {
    if |b| < 4 then None
    else
      var count := FromBigEndian(b[..4]);
      var size := count * n;
      if |b| < 4 + size then None
      else
        match ReadBitmap(b[4 + size..])
        case None => None
        case Some(bitmap) => Some(SectionReading(Cut(b[4..], n, count), bitmap))
  }

  lemma {:induction false} CutConcat(parts: seq<Bytes>, tail: Bytes, n: nat)
    requires AllOfLength(parts, n)
    ensures |Concat(parts) + tail| >= |parts| * n && Cut(Concat(parts) + tail, n, |parts|) == parts
  {
    ConcatLength(parts, n);
    if parts != [] {
      var b := Concat(parts) + tail;
      CutConcat(parts[1..], tail, n);
      assert b[..n] == parts[0] && b[n..] == Concat(parts[1..]) + tail;
    }
  }

  lemma {:induction false} BitmapByte(bitmap: Bitmap, i: nat)
    requires i < |bitmap|
    ensures BitmapBytes(bitmap)[i] == bitmap[i] as int
  {
    if i > 0 { BitmapByte(bitmap[1..], i - 1); }
  }

  /** What `writeSignatures` puts the signatures into: ascending, each as often as given. */
  lemma Ascending(parts: seq<Bytes>)
    ensures multiset(SortedSignatures(parts)) == multiset(parts) && |SortedSignatures(parts)| == |parts|
    ensures forall i, j :: 0 <= i < j < |parts| ==> !LexLess(SortedSignatures(parts)[j], SortedSignatures(parts)[i])
  {
    LexLeqIsTotalOrder();
    InsertionSortCorrect(LexLeq, parts);
    SameLength(parts, SortedSignatures(parts));
  }

  /** Reading a section gives back the signatures in ascending order and the bitmap byte by byte, or none if it is nil. */
  lemma ReadSignatureSection(s: Signatures, n: nat)
    requires AllOfLength(s.ecdsa, n) && |s.ecdsa| < TWO32 && (s.bitmap.Some? ==> |s.bitmap.value| < TWO32)
    ensures ReadSection(SignatureSection(Some(s)), n).Some?
    ensures var r := ReadSection(SignatureSection(Some(s)), n).value;
            && multiset(r.signatures) == multiset(s.ecdsa)
            && (forall i, j :: 0 <= i < j < |r.signatures| ==> !LexLess(r.signatures[j], r.signatures[i]))
            && (r.bitmap.None? <==> s.bitmap.None?)
            && (r.bitmap.Some? ==>
                  && |r.bitmap.value| == |s.bitmap.value|
                  && forall i :: 0 <= i < |r.bitmap.value| ==> r.bitmap.value[i] == s.bitmap.value[i] as int)
  {
    var sorted, tail := SortedSignatures(s.ecdsa), BitmapSection(s.bitmap);
    Ascending(s.ecdsa);
    SortedKeepsLength(s.ecdsa, n);
    ReadSectionOf(sorted, s.bitmap, n);
    if s.bitmap.Some? {
      forall i | 0 <= i < |s.bitmap.value| ensures BitmapBytes(s.bitmap.value)[i] == s.bitmap.value[i] as int {
        BitmapByte(s.bitmap.value, i);
      }
    }
  }

  lemma Slices(a: Bytes, c: Bytes, t: Bytes)
    requires |a| == 4
    ensures var b := a + (c + t); b[..4] == a && b[4..] == c + t && b[4 + |c|..] == t
  {
  }

  lemma ReadBitmapOf(bitmap: Option<Bitmap>)
    requires bitmap.Some? ==> |bitmap.value| < TWO32
    ensures ReadBitmap(BitmapSection(bitmap)) == Some(if bitmap.None? then None else Some(BitmapBytes(bitmap.value)))
  {
    if bitmap.Some? {
      var b := BitmapSection(bitmap);
      ReadsLength(|bitmap.value|);
      assert b[..4] == Uint32(|bitmap.value|) && b[4..] == BitmapBytes(bitmap.value);
    }
  }

  lemma ReadPieces(head: Bytes, body: Bytes, tail: Bytes, n: nat, parts: seq<Bytes>, bitmap: Option<Bytes>)
    requires |head| == 4 && FromBigEndian(head) == |parts| && |body| == |parts| * n && ReadBitmap(tail) == Some(bitmap)
    requires Cut(body + tail, n, |parts|) == parts
    ensures ReadSection(head + (body + tail), n) == Some(SectionReading(parts, bitmap))
  {
    Slices(head, body, tail);
  }

  lemma ReadSectionOf(parts: seq<Bytes>, bitmap: Option<Bitmap>, n: nat)
    requires AllOfLength(parts, n) && |parts| < TWO32 && (bitmap.Some? ==> |bitmap.value| < TWO32)
    ensures ReadSection(Uint32(|parts|) + (Concat(parts) + BitmapSection(bitmap)), n)
            == Some(SectionReading(parts, if bitmap.None? then None else Some(BitmapBytes(bitmap.value))))
  {
    ReadsLength(|parts|);
    ConcatLength(parts, n);
    CutConcat(parts, BitmapSection(bitmap), n);
    ReadBitmapOf(bitmap);
    ReadPieces(Uint32(|parts|), Concat(parts), BitmapSection(bitmap), n, parts,
               if bitmap.None? then None else Some(BitmapBytes(bitmap.value)));
  }
}
