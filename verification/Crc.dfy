/** The arithmetic behind a table-driven CRC: words with an exclusive-or, and a linear map
  that appends a zero byte to a message. Nothing here knows about bits. */
module CrcAlgebra {
  datatype Space<!W> = Space(xor: (W, W) -> W, zero: W -> W)

  predicate AssocAt<W(==)>(s: Space<W>, a: W, b: W, c: W) {
    s.xor(s.xor(a, b), c) == s.xor(a, s.xor(b, c))
  }

  predicate LinearAt<W(==)>(s: Space<W>, a: W, b: W) {
    s.zero(s.xor(a, b)) == s.xor(s.zero(a), s.zero(b))
  }

  predicate CommutesAt<W(==)>(s: Space<W>, a: W, b: W) {
    s.xor(a, b) == s.xor(b, a)
  }

  ghost predicate Lawful<W(!new)>(s: Space<W>) {
    && (forall a, b, c :: AssocAt(s, a, b, c))
    && (forall a, b :: CommutesAt(s, a, b))
    && (forall a, b :: LinearAt(s, a, b))
  }

  // Appending n zero bytes.
  function Zeros<W>(s: Space<W>, n: nat, l: W): W {
    if n == 0 then l else s.zero(Zeros(s, n - 1, l))
  }

  // The definition of the checksum: one byte after another.
  function Fold<W>(s: Space<W>, l: W, data: seq<W>): W {
    if data == [] then l else s.zero(s.xor(Fold(s, l, data[..|data| - 1]), data[|data| - 1]))
  }

  lemma {:induction false} FoldConcat<W>(s: Space<W>, l: W, a: seq<W>, b: seq<W>)
    ensures Fold(s, l, a + b) == Fold(s, Fold(s, l, a), b)
  {
    if b == [] {
      assert a + b == a;
    } else {
      assert (a + b)[..|a + b| - 1] == a + b[..|b| - 1];
      FoldConcat(s, l, a, b[..|b| - 1]);
    }
  }

  lemma {:induction false} ZerosLinear<W(!new)>(s: Space<W>, n: nat, a: W, b: W)
    requires Lawful(s)
    ensures Zeros(s, n, s.xor(a, b)) == s.xor(Zeros(s, n, a), Zeros(s, n, b))
  {
    if n > 0 {
      ZerosLinear(s, n - 1, a, b);
      assert LinearAt(s, Zeros(s, n - 1, a), Zeros(s, n - 1, b));
    }
  }

  lemma {:induction false} ZerosAdd<W>(s: Space<W>, m: nat, n: nat, l: W)
    ensures Zeros(s, m, Zeros(s, n, l)) == Zeros(s, m + n, l)
  {
    if m > 0 {
      ZerosAdd(s, m - 1, n, l);
    }
  }

  // A word made of byte b, then a byte whose place is one higher, and so on.
  function Word4<W>(s: Space<W>, b0: W, s1: W, s2: W, s3: W): W {
    s.xor(b0, s.xor(s1, s.xor(s2, s3)))
  }

  predicate Places<W(==)>(s: Space<W>, s1: W, s2: W, s3: W, b1: W, b2: W, b3: W) {
    s.zero(s1) == b1 && s.zero(s.zero(s2)) == b2 && s.zero(s.zero(s.zero(s3))) == b3
  }

  lemma ByteOut<W(!new)>(s: Space<W>, l: W, b: W, rest: W)
    requires Lawful(s)
    ensures s.zero(s.xor(l, s.xor(b, rest))) == s.xor(s.zero(s.xor(l, b)), s.zero(rest))
  {
    assert AssocAt(s, l, b, rest);
    assert LinearAt(s, s.xor(l, b), rest);
  }

  // Four bytes one at a time, or as one word.
  lemma WordAtOnce<W(!new)>(s: Space<W>, l: W, b0: W, s1: W, s2: W, s3: W, b1: W, b2: W, b3: W)
    requires Lawful(s) && Places(s, s1, s2, s3, b1, b2, b3)
    ensures Fold(s, l, [b0, b1, b2, b3]) == Zeros(s, 4, s.xor(l, Word4(s, b0, s1, s2, s3)))
  {
    var l1 := s.zero(s.xor(l, b0));
    var l2 := s.zero(s.xor(l1, b1));
    var l3 := s.zero(s.xor(l2, b2));
    ByteOut(s, l, b0, s.xor(s1, s.xor(s2, s3)));
    assert LinearAt(s, s1, s.xor(s2, s3)) && LinearAt(s, s2, s3);
    ByteOut(s, l1, b1, s.xor(s.zero(s2), s.zero(s3)));
    assert LinearAt(s, s.zero(s2), s.zero(s3));
    ByteOut(s, l2, b2, s.zero(s.zero(s3)));
    FoldFour(s, l, b0, b1, b2, b3);
    FourZeros(s, s.xor(l, Word4(s, b0, s1, s2, s3)));
  }

  lemma FourZeros<W>(s: Space<W>, l: W)
    ensures Zeros(s, 4, l) == s.zero(s.zero(s.zero(s.zero(l))))
  {
    FewZeros(s, l);
    assert Zeros(s, 4, l) == s.zero(Zeros(s, 3, l));
  }

  lemma FoldNext<W>(s: Space<W>, l: W, data: seq<W>, b: W)
    ensures Fold(s, l, data + [b]) == s.zero(s.xor(Fold(s, l, data), b))
  {
    assert (data + [b])[..|data|] == data;
  }

  lemma FoldFour<W>(s: Space<W>, l: W, b0: W, b1: W, b2: W, b3: W)
    ensures Fold(s, l, [b0, b1, b2, b3])
         == s.zero(s.xor(s.zero(s.xor(s.zero(s.xor(s.zero(s.xor(l, b0)), b1)), b2)), b3))
  {
    assert [] + [b0] == [b0] && [b0] + [b1] == [b0, b1];
    assert [b0, b1] + [b2] == [b0, b1, b2] && [b0, b1, b2] + [b3] == [b0, b1, b2, b3];
    FoldNext(s, l, [], b0);
    FoldNext(s, l, [b0], b1);
    FoldNext(s, l, [b0, b1], b2);
    FoldNext(s, l, [b0, b1, b2], b3);
  }

  // Sixteen zero bytes after a word, place by place: the four stride tables.
  lemma StrideAtOnce<W(!new)>(s: Space<W>, word: W, b0: W, s1: W, s2: W, s3: W, b1: W, b2: W, b3: W)
    requires Lawful(s) && Places(s, s1, s2, s3, b1, b2, b3)
    ensures s.xor(s.xor(s.xor(s.xor(word, Zeros(s, 16, b0)), Zeros(s, 15, b1)), Zeros(s, 14, b2)), Zeros(s, 13, b3))
         == s.xor(word, Zeros(s, 16, Word4(s, b0, s1, s2, s3)))
  {
    ZerosLinear(s, 16, b0, s.xor(s1, s.xor(s2, s3)));
    ZerosLinear(s, 16, s1, s.xor(s2, s3));
    ZerosLinear(s, 16, s2, s3);
    Inside(s, s1, s2, s3);
    var z0, z1, z2, z3 := Zeros(s, 16, b0), Zeros(s, 15, b1), Zeros(s, 14, b2), Zeros(s, 13, b3);
    Assoc4(s, word, z0, z1, z2, z3);
  }

  lemma Inside<W>(s: Space<W>, s1: W, s2: W, s3: W)
    ensures Zeros(s, 16, s1) == Zeros(s, 15, s.zero(s1))
    ensures Zeros(s, 16, s2) == Zeros(s, 14, s.zero(s.zero(s2)))
    ensures Zeros(s, 16, s3) == Zeros(s, 13, s.zero(s.zero(s.zero(s3))))
  {
    FewZeros(s, s1);
    FewZeros(s, s2);
    FewZeros(s, s3);
    ZerosAdd(s, 15, 1, s1);
    ZerosAdd(s, 14, 2, s2);
    ZerosAdd(s, 13, 3, s3);
  }

  lemma FewZeros<W>(s: Space<W>, l: W)
    ensures Zeros(s, 1, l) == s.zero(l)
    ensures Zeros(s, 2, l) == s.zero(s.zero(l))
    ensures Zeros(s, 3, l) == s.zero(s.zero(s.zero(l)))
  {
  }

  lemma Assoc4<W(!new)>(s: Space<W>, w: W, a: W, b: W, c: W, d: W)
    requires Lawful(s)
    ensures s.xor(s.xor(s.xor(s.xor(w, a), b), c), d) == s.xor(w, s.xor(a, s.xor(b, s.xor(c, d))))
  {
    assert AssocAt(s, w, a, b);
    assert AssocAt(s, w, s.xor(a, b), c);
    assert AssocAt(s, w, s.xor(s.xor(a, b), c), d);
    assert AssocAt(s, a, b, c);
    assert AssocAt(s, a, s.xor(b, c), d);
    assert AssocAt(s, b, c, d);
  }

  // What the four lanes stand for: the checksum once they are folded together.
  function Combine<W>(s: Space<W>, c0: W, c1: W, c2: W, c3: W): W {
    Zeros(s, 4, s.xor(c3, Zeros(s, 4, s.xor(c2, Zeros(s, 4, s.xor(c1, Zeros(s, 4, c0)))))))
  }

  lemma Push<W(!new)>(s: Space<W>, x: W, y: W, e: W)
    requires Lawful(s)
    ensures Zeros(s, 4, s.xor(x, s.xor(y, e))) == s.xor(Zeros(s, 4, s.xor(x, y)), Zeros(s, 4, e))
  {
    assert AssocAt(s, x, y, e);
    ZerosLinear(s, 4, s.xor(x, y), e);
  }

  // The first lane takes in a word sixteen bytes on and becomes the last: the same as
  // taking the word in after everything the lanes stand for.
  lemma LaneStep<W(!new)>(s: Space<W>, c0: W, c1: W, c2: W, c3: W, word: W)
    requires Lawful(s)
    ensures Combine(s, c1, c2, c3, s.xor(word, Zeros(s, 16, c0)))
         == Zeros(s, 4, s.xor(Combine(s, c0, c1, c2, c3), word))
  {
    var a := Zeros(s, 4, c0);
    var b1 := Zeros(s, 4, c1);
    var b2 := Zeros(s, 4, s.xor(c2, b1));
    var b3 := Zeros(s, 4, s.xor(c3, b2));
    ZerosAdd(s, 4, 4, c0);
    ZerosAdd(s, 4, 8, c0);
    ZerosAdd(s, 4, 12, c0);
    ZerosLinear(s, 4, c1, a);
    Push(s, c2, b1, Zeros(s, 8, c0));
    Push(s, c3, b2, Zeros(s, 12, c0));
    var z := Zeros(s, 16, c0);
    assert Combine(s, c0, c1, c2, c3) == s.xor(b3, z);
    Rearrange(s, word, z, b3);
  }

  lemma Rearrange<W(!new)>(s: Space<W>, word: W, z: W, b: W)
    requires Lawful(s)
    ensures s.xor(s.xor(word, z), b) == s.xor(s.xor(b, z), word)
  {
    assert AssocAt(s, word, z, b);
    assert CommutesAt(s, z, b);
    assert CommutesAt(s, word, s.xor(b, z));
  }
}

/** CRC32C (util/crc32c.cc, util/crc32c.h): the portable four-lane algorithm. The polynomial
  is the one of section 12.1 of RFC 3720, with its bits reversed. A 32-bit word is the
  sequence of its bits, lowest first. */
module Crc {
  import opened Keys
  import opened Coding
  import opened Bits
  import opened CrcAlgebra

  const MASK_DELTA := 0xa282_ead8

  type Word = bits: seq<bool> | |bits| == 32 witness seq(32, i => false)

  function Xor(a: Word, b: Word): Word {
    seq(32, i requires 0 <= i < 32 => a[i] != b[i])
  }

  // 0x82f63b78, bit by bit.
  predicate PolynomialBit(i: nat) {
    || 3 <= i <= 6 || i == 8 || i == 9 || 11 <= i <= 13 || i == 17 || i == 18
    || 20 <= i <= 23 || i == 25 || i == 31
  }

  // l >> n.
  function ShiftDown(l: Word, n: nat): Word {
    seq(32, i requires 0 <= i < 32 => i + n < 32 && l[i + n])
  }

  // Appending a zero bit to the message.
  function ZeroBit(l: Word): Word {
    seq(32, i requires 0 <= i < 32 => (i < 31 && l[i + 1]) != (l[0] && PolynomialBit(i)))
  }

  const BITS: Space<Word> := Space(Xor, ZeroBit)

  function ZeroByte(l: Word): Word {
    Zeros(BITS, 8, l)
  }

  const BYTES: Space<Word> := Space(Xor, ZeroByte)

  lemma BitsLinear(a: Word, b: Word)
    ensures LinearAt(BITS, a, b)
  {
    var x, y := ZeroBit(Xor(a, b)), Xor(ZeroBit(a), ZeroBit(b));
    assert forall i :: 0 <= i < 32 ==> x[i] == y[i];
    assert x == y;
  }

  lemma XorAssoc(a: Word, b: Word, c: Word)
    ensures Xor(Xor(a, b), c) == Xor(a, Xor(b, c))
  {
  }

  lemma XorCommutes(a: Word, b: Word)
    ensures Xor(a, b) == Xor(b, a)
  {
  }

  lemma BitsLawful()
    ensures Lawful(BITS)
  {
    forall a: Word, b: Word, c: Word ensures AssocAt(BITS, a, b, c) {
      XorAssoc(a, b, c);
    }
    forall a: Word, b: Word ensures CommutesAt(BITS, a, b) {
      XorCommutes(a, b);
    }
    forall a: Word, b: Word ensures LinearAt(BITS, a, b) {
      BitsLinear(a, b);
    }
  }

  lemma BytesLinear(a: Word, b: Word)
    ensures LinearAt(BYTES, a, b)
  {
    BitsLawful();
    ZerosLinear(BITS, 8, a, b);
  }

  lemma BytesLawful()
    ensures Lawful(BYTES)
  {
    forall a: Word, b: Word, c: Word ensures AssocAt(BYTES, a, b, c) {
      XorAssoc(a, b, c);
    }
    forall a: Word, b: Word ensures CommutesAt(BYTES, a, b) {
      XorCommutes(a, b);
    }
    forall a: Word, b: Word ensures LinearAt(BYTES, a, b) {
      BytesLinear(a, b);
    }
  }

  // Zeros appended to a word whose low bits are all zero only move the others down.
  lemma {:induction false} ZerosShift(l: Word, n: nat)
    requires n <= 32 && forall i :: 0 <= i < n ==> !l[i]
    ensures Zeros(BITS, n, l) == ShiftDown(l, n)
  {
    if n == 0 {
      assert ShiftDown(l, 0) == l;
    } else {
      ZerosShift(l, n - 1);
      assert ZeroBit(ShiftDown(l, n - 1)) == ShiftDown(l, n);
    }
  }

  // l & 0xff, and the rest of l.
  function LowByte(l: Word): Word {
    seq(32, i requires 0 <= i < 32 => i < 8 && l[i])
  }

  function HighBytes(l: Word): Word {
    seq(32, i requires 0 <= i < 32 => i >= 8 && l[i])
  }

  // Bit i of a byte.
  function OctetWord(b: Byte): Word {
    seq(32, i requires 0 <= i < 32 => i < 8 && Bit(b, i))
  }

  function Words(data: Bytes): (r: seq<Word>)
    ensures |r| == |data|
  {
    seq(|data|, i requires 0 <= i < |data| => OctetWord(data[i]))
  }

  predicate IsOctet(c: Word) {
    c == LowByte(c)
  }

  // kByteExtensionTable and the four stride tables. The stride tables carry on from one
  // another: entry c of table k is byte c followed by 13 + k zero bytes.
  datatype Tables = Tables(bytes: Word -> Word, stride0: Word -> Word, stride1: Word -> Word,
                           stride2: Word -> Word, stride3: Word -> Word)

  ghost predicate Extends(t: Tables) {
    forall c: Word :: IsOctet(c) ==> ExtendsAt(t, c)
  }

  predicate ExtendsAt(t: Tables, c: Word) {
    && t.bytes(c) == BYTES.zero(c)
    && t.stride0(c) == Zeros(BYTES, 13, c)
    && t.stride1(c) == BYTES.zero(t.stride0(c))
    && t.stride2(c) == BYTES.zero(t.stride1(c))
    && t.stride3(c) == BYTES.zero(t.stride2(c))
  }

  // A word of equal bits. CRCs are pre- and post-conditioned with all ones.
  function AllBits(b: bool): Word {
    seq(32, i => b)
  }

  // The CRC of a message that starts with one whose CRC is `crc` and goes on with `data`.
  function Extended(crc: Word, data: Bytes): Word {
    Xor(Fold(BYTES, Xor(crc, AllBits(true)), Words(data)), AllBits(true))
  }

  lemma XorTwice(a: Word, b: Word)
    ensures Xor(Xor(a, b), b) == a
  {
  }

  lemma ExtendComposes(crc: Word, a: Bytes, b: Bytes)
    ensures Extended(crc, a + b) == Extended(Extended(crc, a), b)
  {
    assert Words(a + b) == Words(a) + Words(b);
    FoldConcat(BYTES, Xor(crc, AllBits(true)), Words(a), Words(b));
    XorTwice(Fold(BYTES, Xor(crc, AllBits(true)), Words(a)), AllBits(true));
  }

  // STEP1, and the step of the loop in STEP4W.
  function Step1(t: Tables, l: Word, b: Word): Word {
    Xor(t.bytes(Xor(LowByte(l), b)), ShiftDown(l, 8))
  }

  lemma HighMovesDown(l: Word)
    ensures BYTES.zero(HighBytes(l)) == ShiftDown(l, 8)
  {
    ZerosShift(HighBytes(l), 8);
    assert ShiftDown(HighBytes(l), 8) == ShiftDown(l, 8);
  }

  lemma Step1IsZero(t: Tables, l: Word, b: Word)
    requires Extends(t) && IsOctet(b)
    ensures Step1(t, l, b) == BYTES.zero(BYTES.xor(l, b))
  {
    var c := Xor(LowByte(l), b);
    assert IsOctet(c) by {
      assert forall i :: 8 <= i < 32 ==> !b[i];
      assert LowByte(c) == c;
    }
    assert Xor(l, b) == Xor(c, HighBytes(l)) by {
      assert forall i :: 8 <= i < 32 ==> !b[i];
    }
    assert ExtendsAt(t, c);
    BytesLinear(c, HighBytes(l));
    HighMovesDown(l);
  }

  // The little-endian word at p.
  function ReadUint32LE(data: Bytes, p: nat): Word
    requires p + 4 <= |data|
  {
    seq(32, i requires 0 <= i < 32 => Bit(data[p + i / 8], i % 8))
  }

  // Byte k of a word, in place and moved down.
  function InPlace(l: Word, k: nat): Word {
    seq(32, i requires 0 <= i < 32 => i / 8 == k && l[i])
  }

  function ByteOf(l: Word, k: nat): Word {
    LowByte(ShiftDown(l, 8 * k))
  }

  lemma OnePlaceDown(l: Word)
    ensures BYTES.zero(InPlace(l, 1)) == ByteOf(l, 1)
    ensures BYTES.zero(InPlace(l, 2)) == InPlace(ShiftDown(l, 8), 1)
    ensures BYTES.zero(InPlace(l, 3)) == InPlace(ShiftDown(l, 8), 2)
  {
    ZerosShift(InPlace(l, 1), 8);
    ZerosShift(InPlace(l, 2), 8);
    ZerosShift(InPlace(l, 3), 8);
    assert ShiftDown(InPlace(l, 1), 8) == ByteOf(l, 1);
    assert ShiftDown(InPlace(l, 2), 8) == InPlace(ShiftDown(l, 8), 1);
    assert ShiftDown(InPlace(l, 3), 8) == InPlace(ShiftDown(l, 8), 2);
  }

  lemma WordPlaces(l: Word)
    ensures Places(BYTES, InPlace(l, 1), InPlace(l, 2), InPlace(l, 3), ByteOf(l, 1), ByteOf(l, 2), ByteOf(l, 3))
    ensures Word4(BYTES, ByteOf(l, 0), InPlace(l, 1), InPlace(l, 2), InPlace(l, 3)) == l
  {
    OnePlaceDown(l);
    OnePlaceDown(ShiftDown(l, 8));
    OnePlaceDown(ShiftDown(ShiftDown(l, 8), 8));
    assert ShiftDown(ShiftDown(l, 8), 8) == ShiftDown(l, 16);
    assert ShiftDown(ShiftDown(l, 16), 8) == ShiftDown(l, 24);
    assert Xor(ByteOf(l, 0), Xor(InPlace(l, 1), Xor(InPlace(l, 2), InPlace(l, 3)))) == l;
  }

  // STEP4: a lane, sixteen bytes on, takes in a word.
  function Step4(t: Tables, crc: Word, word: Word): Word {
    Xor(Xor(Xor(Xor(word, t.stride3(ByteOf(crc, 0))), t.stride2(ByteOf(crc, 1))), t.stride1(ByteOf(crc, 2))),
        t.stride0(ByteOf(crc, 3)))
  }

  lemma Strides(t: Tables, c: Word)
    requires Extends(t) && IsOctet(c)
    ensures t.stride0(c) == Zeros(BYTES, 13, c) && t.stride1(c) == Zeros(BYTES, 14, c)
    ensures t.stride2(c) == Zeros(BYTES, 15, c) && t.stride3(c) == Zeros(BYTES, 16, c)
  {
    assert ExtendsAt(t, c);
  }

  lemma Step4IsStride(t: Tables, crc: Word, word: Word)
    requires Extends(t)
    ensures Step4(t, crc, word) == BYTES.xor(word, Zeros(BYTES, 16, crc))
  {
    var b0, b1, b2, b3 := ByteOf(crc, 0), ByteOf(crc, 1), ByteOf(crc, 2), ByteOf(crc, 3);
    assert IsOctet(b0) && IsOctet(b1) && IsOctet(b2) && IsOctet(b3);
    Strides(t, b0);
    Strides(t, b1);
    Strides(t, b2);
    Strides(t, b3);
    BytesLawful();
    WordPlaces(crc);
    StrideAtOnce(BYTES, word, b0, InPlace(crc, 1), InPlace(crc, 2), InPlace(crc, 3), b1, b2, b3);
  }

  // The bytes of data[p..p + 4], one by one or as a word.
  lemma AbsorbWord(l: Word, data: Bytes, p: nat)
    requires p + 4 <= |data|
    ensures Fold(BYTES, l, Words(data)[..p + 4])
         == Zeros(BYTES, 4, BYTES.xor(Fold(BYTES, l, Words(data)[..p]), ReadUint32LE(data, p)))
  {
    var ws := Words(data);
    var word := ReadUint32LE(data, p);
    assert ws[..p + 4] == ws[..p] + ws[p..p + 4];
    FoldConcat(BYTES, l, ws[..p], ws[p..p + 4]);
    WordBytes(data, p);
    BytesLawful();
    WordPlaces(word);
    WordAtOnce(BYTES, Fold(BYTES, l, ws[..p]), ByteOf(word, 0), InPlace(word, 1), InPlace(word, 2), InPlace(word, 3),
               ByteOf(word, 1), ByteOf(word, 2), ByteOf(word, 3));
  }

  lemma WordBytes(data: Bytes, p: nat)
    requires p + 4 <= |data|
    ensures var word := ReadUint32LE(data, p);
            Words(data)[p..p + 4] == [ByteOf(word, 0), ByteOf(word, 1), ByteOf(word, 2), ByteOf(word, 3)]
  {
    var word := ReadUint32LE(data, p);
    assert ByteOf(word, 0) == OctetWord(data[p]);
    assert ByteOf(word, 1) == OctetWord(data[p + 1]);
    assert ByteOf(word, 2) == OctetWord(data[p + 2]);
    assert ByteOf(word, 3) == OctetWord(data[p + 3]);
  }

  lemma AbsorbByte(t: Tables, l: Word, data: Bytes, p: nat)
    requires Extends(t) && p < |data|
    ensures Fold(BYTES, l, Words(data)[..p + 1]) == Step1(t, Fold(BYTES, l, Words(data)[..p]), OctetWord(data[p]))
  {
    var ws := Words(data);
    assert ws[..p + 1] == ws[..p] + [ws[p]];
    FoldNext(BYTES, l, ws[..p], ws[p]);
    assert IsOctet(OctetWord(data[p]));
    Step1IsZero(t, Fold(BYTES, l, ws[..p]), OctetWord(data[p]));
  }

  // The lanes stand for the first p bytes.
  ghost predicate LanesAt(l0: Word, data: Bytes, p: nat, c0: Word, c1: Word, c2: Word, c3: Word) {
    p <= |data| && Combine(BYTES, c0, c1, c2, c3) == FoldTo(l0, data, p)
  }

  // The checksum state after the first p bytes.
  function FoldTo(l0: Word, data: Bytes, p: nat): Word
    requires p <= |data|
  {
    Fold(BYTES, l0, Words(data)[..p])
  }

  // One lane step, seen from the whole.
  lemma AbsorbLane(t: Tables, l: Word, data: Bytes, p: nat, c0: Word, c1: Word, c2: Word, c3: Word)
    requires Extends(t) && p + 4 <= |data|
    requires LanesAt(l, data, p, c0, c1, c2, c3)
    ensures Combine(BYTES, c1, c2, c3, Step4(t, c0, ReadUint32LE(data, p))) == FoldTo(l, data, p + 4)
  {
    Step4IsStride(t, c0, ReadUint32LE(data, p));
    BytesLawful();
    LaneStep(BYTES, c0, c1, c2, c3, ReadUint32LE(data, p));
    AbsorbWord(l, data, p);
  }

  // The swath that starts the lanes.
  lemma StartLanes(l: Word, data: Bytes, p: nat)
    requires p + 16 <= |data|
    ensures Combine(BYTES, Xor(ReadUint32LE(data, p), FoldTo(l, data, p)), ReadUint32LE(data, p + 4),
                    ReadUint32LE(data, p + 8), ReadUint32LE(data, p + 12))
         == FoldTo(l, data, p + 16)
  {
    var f := (i: int) requires 0 <= i <= |data| => Fold(BYTES, l, Words(data)[..i]);
    AbsorbWord(l, data, p);
    AbsorbWord(l, data, p + 4);
    AbsorbWord(l, data, p + 8);
    AbsorbWord(l, data, p + 12);
    XorCommutes(ReadUint32LE(data, p), f(p));
    XorCommutes(ReadUint32LE(data, p + 4), f(p + 4));
    XorCommutes(ReadUint32LE(data, p + 8), f(p + 8));
    XorCommutes(ReadUint32LE(data, p + 12), f(p + 12));
  }

  lemma XorZero(a: Word)
    ensures Xor(a, AllBits(false)) == a
  {
  }

  // STEP4W: fold a loaded word into l.
  method Step4W(t: Tables, w: Word, l: Word) returns (r: Word)
    requires Extends(t)
    ensures r == Zeros(BYTES, 4, Xor(w, l))
  {
    r := Xor(w, l);
    var i := 0;
    while i < 4
      invariant 0 <= i <= 4 && r == Zeros(BYTES, i, Xor(w, l))
    {
      TableStep(t, r);
      r := Xor(ShiftDown(r, 8), t.bytes(LowByte(r)));
      i := i + 1;
    }
  }

  lemma TableStep(t: Tables, l: Word)
    requires Extends(t)
    ensures Xor(ShiftDown(l, 8), t.bytes(LowByte(l))) == BYTES.zero(l)
  {
    assert IsOctet(AllBits(false)) && IsOctet(LowByte(l));
    Step1IsZero(t, l, AllBits(false));
    XorZero(l);
    XorZero(LowByte(l));
    XorCommutes(ShiftDown(l, 8), t.bytes(LowByte(l)));
  }

  // Combine the four partial results.
  method CombineLanes(t: Tables, c0: Word, c1: Word, c2: Word, c3: Word) returns (l: Word)
    requires Extends(t)
    ensures l == Combine(BYTES, c0, c1, c2, c3)
  {
    l := AllBits(false);
    XorZero(c0);
    l := Step4W(t, c0, l);
    l := Step4W(t, c1, l);
    l := Step4W(t, c2, l);
    l := Step4W(t, c3, l);
  }

  // STEP16.
  method Step16(t: Tables, ghost l0: Word, data: Bytes, p: nat, c0: Word, c1: Word, c2: Word, c3: Word)
    returns (q: nat, d0: Word, d1: Word, d2: Word, d3: Word)
    requires Extends(t) && p + 16 <= |data|
    requires LanesAt(l0, data, p, c0, c1, c2, c3)
    ensures q == p + 16 && LanesAt(l0, data, q, d0, d1, d2, d3)
  {
    d0 := Step4(t, c0, ReadUint32LE(data, p));
    AbsorbLane(t, l0, data, p, c0, c1, c2, c3);
    d1 := Step4(t, c1, ReadUint32LE(data, p + 4));
    AbsorbLane(t, l0, data, p + 4, c1, c2, c3, d0);
    d2 := Step4(t, c2, ReadUint32LE(data, p + 8));
    AbsorbLane(t, l0, data, p + 8, c2, c3, d0, d1);
    d3 := Step4(t, c3, ReadUint32LE(data, p + 12));
    AbsorbLane(t, l0, data, p + 12, c3, d0, d1, d2);
    q := p + 16;
  }

  // The loops of STEP1 at either end of the buffer.
  method OneByteAtATime(t: Tables, ghost l0: Word, data: Bytes, start: nat, stop: nat, l: Word) returns (r: Word)
    requires Extends(t) && start <= stop <= |data| && l == FoldTo(l0, data, start)
    ensures r == FoldTo(l0, data, stop)
  {
    r := l;
    var p := start;
    while p != stop
      invariant p <= stop && r == FoldTo(l0, data, p)
    {
      AbsorbByte(t, l0, data, p);
      r := Step1(t, r, OctetWord(data[p]));
      p := p + 1;
    }
  }

  // One word into the first lane, which becomes the last.
  method StepAndRotate(t: Tables, ghost l0: Word, data: Bytes, p: nat, c0: Word, c1: Word, c2: Word, c3: Word)
    returns (q: nat, d0: Word, d1: Word, d2: Word, d3: Word)
    requires Extends(t) && p + 4 <= |data|
    requires LanesAt(l0, data, p, c0, c1, c2, c3)
    ensures q == p + 4 && LanesAt(l0, data, q, d0, d1, d2, d3)
  {
    AbsorbLane(t, l0, data, p, c0, c1, c2, c3);
    var tmp := Step4(t, c0, ReadUint32LE(data, p));
    d0, d1, d2, d3 := c1, c2, c3, tmp;
    q := p + 4;
  }

  // One word at a time, rotating the lanes, as far as possible.
  method OneWordAtATime(t: Tables, ghost l0: Word, data: Bytes, start: nat, d0: Word, d1: Word, d2: Word, d3: Word)
    returns (p: nat, l: Word)
    requires Extends(t) && start <= |data|
    requires LanesAt(l0, data, start, d0, d1, d2, d3)
    ensures start <= p <= |data| < p + 4 && l == FoldTo(l0, data, p)
  {
    p := start;
    var c0, c1, c2, c3 := d0, d1, d2, d3;
    while |data| - p >= 4
      invariant start <= p <= |data| && LanesAt(l0, data, p, c0, c1, c2, c3)
    {
      p, c0, c1, c2, c3 := StepAndRotate(t, l0, data, p, c0, c1, c2, c3);
    }
    l := CombineLanes(t, c0, c1, c2, c3);
  }

  // Load a 16-byte swath into the partial results.
  method LoadSwath(ghost l0: Word, data: Bytes, p: nat, l: Word)
    returns (q: nat, c0: Word, c1: Word, c2: Word, c3: Word)
    requires p + 16 <= |data| && l == FoldTo(l0, data, p)
    ensures q == p + 16 && LanesAt(l0, data, q, c0, c1, c2, c3)
  {
    q := p + 16;
    StartLanes(l0, data, p);
    c0, c1 := Xor(ReadUint32LE(data, p), l), ReadUint32LE(data, p + 4);
    c2, c3 := ReadUint32LE(data, p + 8), ReadUint32LE(data, p + 12);
  }

  // The four lanes: one 16-byte swath at a time, then one word at a time.
  method FourLanes(t: Tables, ghost l0: Word, data: Bytes, start: nat, l1: Word) returns (p: nat, l: Word)
    requires Extends(t) && start + 16 <= |data| && l1 == FoldTo(l0, data, start)
    ensures start <= p <= |data| < p + 4 && l == FoldTo(l0, data, p)
  {
    var c0, c1, c2, c3;
    p, c0, c1, c2, c3 := LoadSwath(l0, data, start, l1);
    while |data| - p >= 16
      invariant start <= p <= |data| && LanesAt(l0, data, p, c0, c1, c2, c3)
    {
      p, c0, c1, c2, c3 := Step16(t, l0, data, p, c0, c1, c2, c3);
    }
    p, l := OneWordAtATime(t, l0, data, p, c0, c1, c2, c3);
  }

  // The portable path of crc32c::Extend, for a buffer at any address.
  method Extend(t: Tables, crc: Word, data: Bytes, address: nat) returns (r: Word)
    requires Extends(t)
    ensures r == Extended(crc, data)
  {
    ghost var l0 := Xor(crc, AllBits(true));
    assert Words(data)[..0] == [];
    var p, e := 0, |data|;
    var l := Xor(crc, AllBits(true));
    // The first 4-byte aligned byte of the buffer; it may be past the end.
    var x := (address + 3) / 4 * 4 - address;
    if x <= e {
      l := OneByteAtATime(t, l0, data, p, x, l);
      p := x;
    }
    if e - p >= 16 {
      p, l := FourLanes(t, l0, data, p, l);
    }
    l := OneByteAtATime(t, l0, data, p, e, l);
    assert Words(data)[..e] == Words(data);
    r := Xor(l, AllBits(true));
  }

  // The number a word stands for.
  function Number(bits: seq<bool>): nat {
    if bits == [] then 0 else (if bits[0] then 1 else 0) + 2 * Number(bits[1..])
  }

  lemma {:induction false} NumberBound(bits: seq<bool>)
    ensures Number(bits) < Power2(|bits|)
  {
    if bits != [] {
      NumberBound(bits[1..]);
    }
  }

  function ToUint32(word: Word): uint32 {
    NumberBound(word);
    assert Power2(8) == 0x100 && Power2(16) == 0x100 * Power2(8) && Power2(24) == 0x100 * Power2(16);
    assert Power2(32) == 0x100 * Power2(24);
    Number(word)
  }

  // crc32c::Value.
  function Value(data: Bytes): uint32 {
    ToUint32(Extended(AllBits(false), data))
  }

  // Rotate right by 15 bits and add a constant.
  function Mask(crc: uint32): uint32 {
    (crc / 0x8000 + crc % 0x8000 * 0x2_0000 + MASK_DELTA) % 0x1_0000_0000
  }

  function Unmask(masked: uint32): uint32 {
    var rot := (masked + 0x1_0000_0000 - MASK_DELTA) % 0x1_0000_0000;
    rot / 0x2_0000 + rot % 0x2_0000 * 0x8000
  }

  lemma TakeApart(high: nat, low: nat)
    requires low < 0x2_0000
    ensures (low + high * 0x2_0000) / 0x2_0000 == high && (low + high * 0x2_0000) % 0x2_0000 == low
  {
  }

  // The low 15 bits go above the high 17, and a constant is added.
  lemma MaskRotates(high: nat, low: nat)
    requires high < 0x2_0000 && low < 0x8000
    ensures Mask(high * 0x8000 + low) == (low * 0x2_0000 + high + 0xa282_ead8) % 0x1_0000_0000
  {
    assert (high * 0x8000 + low) / 0x8000 == high && (high * 0x8000 + low) % 0x8000 == low;
  }

  lemma UnmaskInvertsMask(crc: uint32)
    ensures Unmask(Mask(crc)) == crc
  {
    TakeApart(crc % 0x8000, crc / 0x8000);
    WrapBack(crc / 0x8000 + crc % 0x8000 * 0x2_0000);
  }

  lemma MaskInvertsUnmask(masked: uint32)
    ensures Mask(Unmask(masked)) == masked
  {
    var rot := (masked + 0x1_0000_0000 - MASK_DELTA) % 0x1_0000_0000;
    var crc := rot / 0x2_0000 + rot % 0x2_0000 * 0x8000;
    assert crc / 0x8000 == rot % 0x2_0000 && crc % 0x8000 == rot / 0x2_0000;
  }

  lemma WrapBack(rot: uint32)
    ensures ((rot + MASK_DELTA) % 0x1_0000_0000 + 0x1_0000_0000 - MASK_DELTA) % 0x1_0000_0000 == rot
  {
    assert rot + MASK_DELTA < 0x1_0000_0000 || (rot + MASK_DELTA) % 0x1_0000_0000 == rot + MASK_DELTA - 0x1_0000_0000;
  }
}
