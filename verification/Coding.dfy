/** util/coding.h, util/coding.cc: fixed-width and variable-length integers, and
  length-prefixed strings. */
module Coding {
  import opened Wrappers
  import opened Keys

  type uint32 = x: nat | x < 0x1_0000_0000
  type uint64 = x: nat | x < 0x1_0000_0000_0000_0000

  const TWO32 := 0x1_0000_0000
  const TWO64 := 0x1_0000_0000_0000_0000

  // The low byte first.
  function EncodeFixed32(v: uint32): (r: Bytes)
    ensures |r| == 4
  {
    var v1 := v / 256;
    var v2 := v1 / 256;
    var v3 := v2 / 256;
    [v % 256, v1 % 256, v2 % 256, v3]
  }

  function DecodeFixed32(s: Bytes): uint32
    requires |s| >= 4
  {
    s[0] + 256 * (s[1] + 256 * (s[2] + 256 * s[3] as int))
  }

  // Byte i has the value's bits from 8 i on.
  lemma LittleEndian(v: uint32)
    ensures EncodeFixed32(v) == [v % 0x100, v / 0x100 % 0x100, v / 0x1_0000 % 0x100, v / 0x100_0000]
  {
    assert v / 256 / 256 == v / 0x1_0000 && v / 256 / 256 / 256 == v / 0x100_0000;
  }

  lemma Fixed32RoundTrip(v: uint32, rest: Bytes)
    ensures DecodeFixed32(EncodeFixed32(v) + rest) == v
  {
    var e := EncodeFixed32(v);
    var s := e + rest;
    assert s[0] == e[0] && s[1] == e[1] && s[2] == e[2] && s[3] == e[3];
  }

  lemma Fixed32Encodes(s: Bytes)
    requires |s| == 4
    ensures EncodeFixed32(DecodeFixed32(s)) == s
  {
    var v := DecodeFixed32(s);
    assert v / 256 == s[1] + 256 * (s[2] + 256 * s[3] as int);
    assert v / 256 / 256 == s[2] + 256 * s[3] as int;
  }

  function EncodeFixed64(v: uint64): (r: Bytes)
    ensures |r| == 8
  {
    EncodeFixed32(v % 0x1_0000_0000) + EncodeFixed32(v / 0x1_0000_0000)
  }

  function DecodeFixed64(s: Bytes): uint64
    requires |s| >= 8
  {
    DecodeFixed32(s) + DecodeFixed32(s[4..]) * 0x1_0000_0000
  }

  lemma Fixed64RoundTrip(v: uint64, rest: Bytes)
    ensures DecodeFixed64(EncodeFixed64(v) + rest) == v
  {
    var lo, hi := v % 0x1_0000_0000, v / 0x1_0000_0000;
    var s := EncodeFixed64(v) + rest;
    assert s == EncodeFixed32(lo) + (EncodeFixed32(hi) + rest);
    assert s[4..] == EncodeFixed32(hi) + rest;
    Fixed32RoundTrip(lo, EncodeFixed32(hi) + rest);
    Fixed32RoundTrip(hi, rest);
  }

  // EncodeVarint32, branch by branch: seven bits to a byte, the high bit marking "more".
  function EncodeVarint32(v: uint32): (r: Bytes)
    ensures 1 <= |r| <= 5
  {
    if v < 0x80 then
      [v]
    else if v < 0x4000 then
      [v % 128 + 128, v / 0x80]
    else if v < 0x20_0000 then
      [v % 128 + 128, v / 0x80 % 128 + 128, v / 0x4000]
    else if v < 0x1000_0000 then
      [v % 128 + 128, v / 0x80 % 128 + 128, v / 0x4000 % 128 + 128, v / 0x20_0000]
    else
      [v % 128 + 128, v / 0x80 % 128 + 128, v / 0x4000 % 128 + 128, v / 0x20_0000 % 128 + 128, v / 0x1000_0000]
  }

  // The same code as a recursion: low seven bits first.
  function EncodeVarint(v: nat): Bytes {
    if v < 128 then [v] else [v % 128 + 128] + EncodeVarint(v / 128)
  }

  // A byte string whose length fits the 32-bit length prefix.
  type Slice = s: Bytes | |s| < 0x1_0000_0000

  // A decoded value and what is left of the input.
  datatype Decoded<+T> = Decoded(value: T, rest: Bytes)

  function Scale(shift: nat): nat {
    match shift
    case 0 => 1
    case 7 => 0x80
    case 14 => 0x4000
    case 21 => 0x20_0000
    case _ => 0x1000_0000
  }

  // (byte & 127) << shift in 32 bits; only the last shift can lose bits.
  function Shifted(b: Byte, shift: nat): nat {
    (b as int % 128 * Scale(shift)) % 0x1_0000_0000
  }

  // GetVarint32PtrFallback from a given shift on: at most five bytes, bits above 32 lost.
  function DecodeFrom(s: Bytes, shift: nat, result: nat): Option<Decoded<nat>>
    decreases 35 - shift
  {
    if shift > 28 || s == [] then None
    else if s[0] >= 128 then DecodeFrom(s[1..], shift + 7, result + Shifted(s[0], shift))
    else Some(Decoded(result + Shifted(s[0], shift), s[1..]))
  }

  // GetVarint32Ptr: the fast path for one byte, then the loop.
  method GetVarint32(input: Bytes) returns (r: Option<Decoded<nat>>)
    ensures r == DecodeFrom(input, 0, 0)
  {
    if input != [] && input[0] < 128 {
      return Some(Decoded(input[0], input[1..]));
    }
    var s := input;
    var result, shift := 0, 0;
    while shift <= 28 && s != []
      invariant 0 <= shift <= 35 && 0 <= result
      invariant DecodeFrom(input, 0, 0) == DecodeFrom(s, shift, result)
      decreases 35 - shift
    {
      var b := s[0];
      s := s[1..];
      if b >= 128 {
        result := result + Shifted(b, shift);
      } else {
        return Some(Decoded(result + Shifted(b, shift), s));
      }
      shift := shift + 7;
    }
    return None;
  }

  lemma UnrolledVarint(v: uint32)
    ensures EncodeVarint32(v) == EncodeVarint(v)
  {
    Quotients(v);
    MoreVarint(v);
    MoreVarint(v / 0x80);
    MoreVarint(v / 0x4000);
    MoreVarint(v / 0x20_0000);
    MoreVarint(v / 0x1000_0000);
  }

  lemma MoreVarint(v: nat)
    ensures v < 128 ==> EncodeVarint(v) == [v]
    ensures v >= 128 ==> EncodeVarint(v) == [v % 128 + 128] + EncodeVarint(v / 128)
  {
  }

  lemma Quotients(v: uint32)
    ensures v / 0x80 / 128 == v / 0x4000 && v / 0x4000 / 128 == v / 0x20_0000
    ensures v / 0x20_0000 / 128 == v / 0x1000_0000 && v / 0x1000_0000 < 128
  {
  }

  predicate IsShift(shift: nat) {
    shift == 0 || shift == 7 || shift == 14 || shift == 21 || shift == 28
  }

  lemma ScaleStep(v: nat, shift: nat)
    requires IsShift(shift) && v >= 128 && v * Scale(shift) < 0x1_0000_0000
    ensures IsShift(shift + 7)
    ensures v / 128 * Scale(shift + 7) < 0x1_0000_0000
    ensures v % 128 * Scale(shift) + v / 128 * Scale(shift + 7) == v * Scale(shift)
    ensures v % 128 * Scale(shift) < 0x1_0000_0000
  {
  }

  lemma LastByte(v: nat, shift: nat)
    requires IsShift(shift) && v < 128 && v * Scale(shift) < 0x1_0000_0000
    ensures Shifted(v, shift) == v * Scale(shift)
  {
  }

  lemma MoreByte(v: nat, shift: nat)
    requires IsShift(shift) && v >= 128 && v * Scale(shift) < 0x1_0000_0000
    ensures Shifted(v % 128 + 128, shift) == v % 128 * Scale(shift)
    ensures shift <= 21
  {
    ScaleStep(v, shift);
  }

  lemma DecodeMore(b: Byte, s: Bytes, shift: nat, result: nat)
    requires b >= 128 && shift <= 28
    ensures DecodeFrom([b] + s, shift, result) == DecodeFrom(s, shift + 7, result + Shifted(b, shift))
  {
    assert ([b] + s)[1..] == s;
  }

  lemma DecodeLast(b: Byte, s: Bytes, shift: nat, result: nat)
    requires b < 128 && shift <= 28
    ensures DecodeFrom([b] + s, shift, result) == Some(Decoded(result + Shifted(b, shift), s))
  {
    assert ([b] + s)[1..] == s;
  }

  lemma {:induction false} VarintDecodes(v: nat, rest: Bytes, shift: nat, result: nat, whole: nat)
    requires IsShift(shift) && v * Scale(shift) < 0x1_0000_0000
    requires whole == result + v * Scale(shift)
    ensures DecodeFrom(EncodeVarint(v) + rest, shift, result) == Some(Decoded(whole, rest))
    decreases v
  {
    MoreVarint(v);
    if v < 128 {
      LastByte(v, shift);
      DecodeLast(v, rest, shift, result);
    } else {
      var b, more := v % 128 + 128, EncodeVarint(v / 128);
      assert [b] + more + rest == [b] + (more + rest);
      MoreByte(v, shift);
      DecodeMore(b, more + rest, shift, result);
      ScaleStep(v, shift);
      VarintDecodes(v / 128, rest, shift + 7, result + Shifted(b, shift), whole);
    }
  }

  lemma Varint32RoundTrip(v: uint32, rest: Bytes)
    ensures DecodeFrom(EncodeVarint(v) + rest, 0, 0) == Some(Decoded(v, rest))
  {
    VarintDecodes(v, rest, 0, 0, v);
  }

  lemma ShiftedBound(b: Byte, shift: nat)
    requires IsShift(shift)
    ensures Shifted(b, shift) + Scale(shift) <= if shift < 28 then Scale(shift + 7) else 0x1_0000_0000
  {
    var low := b as int % 128;
    assert low < 128;
  }

  lemma {:induction false} DecodeBound(s: Bytes, shift: nat, result: nat)
    requires IsShift(shift) && result < Scale(shift)
    ensures DecodeFrom(s, shift, result).Some? ==> DecodeFrom(s, shift, result).value.value < 0x1_0000_0000
    decreases 35 - shift
  {
    if s != [] {
      ShiftedBound(s[0], shift);
      if s[0] >= 128 && shift < 28 {
        DecodeBound(s[1..], shift + 7, result + Shifted(s[0], shift));
      }
    }
  }

  function PutLengthPrefixedSlice(value: Slice): Bytes {
    EncodeVarint(|value|) + value
  }

  function GetLengthPrefixedSlice(input: Bytes): Option<Decoded<Slice>> {
    DecodeBound(input, 0, 0);
    match DecodeFrom(input, 0, 0)
    case Some(d) => if |d.rest| >= d.value then Some(Decoded(d.rest[..d.value], d.rest[d.value..])) else None
    case None => None
  }

  lemma LengthPrefixedRoundTrip(value: Slice, rest: Bytes)
    ensures GetLengthPrefixedSlice(PutLengthPrefixedSlice(value) + rest) == Some(Decoded(value, rest))
  {
    assert PutLengthPrefixedSlice(value) + rest == EncodeVarint(|value|) + (value + rest);
    Varint32RoundTrip(|value|, value + rest);
  }

  // The value of a varint of at most ten bytes, before it is cut to 64 bits.
  function VarintFrom(s: Bytes, n: nat): (r: Option<Decoded<nat>>)
    ensures r.Some? ==> |r.value.rest| < |s|
    decreases |s|
  {
    if n >= 10 || s == [] then None
    else if s[0] < 128 then Some(Decoded(s[0], s[1..]))
    else
      match VarintFrom(s[1..], n + 1)
      case None => None
      case Some(d) => Some(Decoded(s[0] as int % 128 + 128 * d.value, d.rest))
  }

  // GetVarint64Ptr, and nanopb's pb_decode_varint: what does not fit in 64 bits is lost.
  function DecodeVarint64(s: Bytes): (r: Option<Decoded<nat>>)
    ensures r.Some? ==> |r.value.rest| < |s| && r.value.value < TWO64
  {
    match VarintFrom(s, 0)
    case None => None
    case Some(d) => Some(Decoded(d.value % TWO64, d.rest))
  }

  // 128 to the power of 10 - n.
  function VarintBound(n: nat): nat
    decreases 10 - n
  {
    if n >= 10 then 1 else 128 * VarintBound(n + 1)
  }

  lemma {:induction false} VarintReadsBack(v: nat, rest: Bytes, n: nat)
    requires v < VarintBound(n) && n < 10
    ensures VarintFrom(EncodeVarint(v) + rest, n) == Some(Decoded(v, rest))
    decreases v
  {
    MoreVarint(v);
    if v < 128 {
      assert ([v] + rest)[1..] == rest;
    } else {
      var b, more := v % 128 + 128, EncodeVarint(v / 128);
      assert ([b] + more + rest)[1..] == more + rest;
      VarintReadsBack(v / 128, rest, n + 1);
    }
  }

  lemma BoundForAll()
    ensures VarintBound(0) >= TWO64
  {
    assert VarintBound(9) == 128 && VarintBound(8) == 128 * VarintBound(9);
    assert VarintBound(7) == 128 * VarintBound(8) && VarintBound(6) == 128 * VarintBound(7);
    assert VarintBound(5) == 128 * VarintBound(6) && VarintBound(4) == 128 * VarintBound(5);
    assert VarintBound(3) == 128 * VarintBound(4) && VarintBound(2) == 128 * VarintBound(3);
    assert VarintBound(1) == 128 * VarintBound(2) && VarintBound(0) == 128 * VarintBound(1);
  }

  lemma NothingCut(s: Bytes, d: Decoded<nat>)
    requires VarintFrom(s, 0) == Some(d) && d.value < TWO64
    ensures DecodeVarint64(s) == Some(d)
  {
  }

  lemma Varint64RoundTrip(v: uint64, rest: Bytes)
    ensures DecodeVarint64(EncodeVarint(v) + rest) == Some(Decoded(v, rest))
  {
    var s := EncodeVarint(v) + rest;
    assert VarintFrom(s, 0) == Some(Decoded(v, rest)) by {
      BoundForAll();
      VarintReadsBack(v, rest, 0);
    }
    NothingCut(s, Decoded(v, rest));
  }

  // The result of the loop: `more` is what the bytes still to come will add, `scale` the
  // place value of the next one.
  function Total(result: nat, scale: nat, more: Option<Decoded<nat>>): Option<Decoded<nat>> {
    match more
    case None => None
    case Some(d) => Some(Decoded((result + d.value * scale) % TWO64, d.rest))
  }

  lemma TotalStep(result: nat, scale: nat, low: nat, d: Decoded<nat>)
    ensures Total(result, scale, Some(Decoded(low + 128 * d.value, d.rest)))
         == Total((result + low * scale) % TWO64, scale * 128, Some(d))
  {
    Distribute(low, d.value, scale);
    SumCut(result + low * scale, d.value * (scale * 128));
  }

  lemma Distribute(low: nat, v: nat, scale: nat)
    ensures (low + 128 * v) * scale == low * scale + v * (scale * 128)
  {
    assert (128 * v) * scale == v * (scale * 128);
  }

  lemma SumCut(a: nat, b: nat)
    ensures (a % TWO64 + b) % TWO64 == (a + b) % TWO64
  {
  }

  lemma TotalLast(result: nat, scale: nat, b: nat, rest: Bytes)
    ensures Total(result, scale, Some(Decoded(b, rest))) == Some(Decoded((result + b * scale) % TWO64, rest))
  {
  }

  // GetVarint64Ptr. The bits or-ed in are above those of the result, so `|=` is an addition.
  method GetVarint64(input: Bytes) returns (r: Option<Decoded<nat>>)
    ensures r == DecodeVarint64(input)
  {
    var result, shift: nat, scale: nat, s := 0, 0, 1, input;
    ghost var n: nat := 0;
    while shift <= 63 && s != []
      invariant shift == 7 * n && n <= 10 && 0 <= result
      invariant DecodeVarint64(input) == Total(result, scale, VarintFrom(s, n))
      decreases 70 - shift
    {
      var b := s[0];
      ghost var more := VarintFrom(s[1..], n + 1);
      s := s[1..];
      if b >= 128 {
        if more.Some? {
          TotalStep(result, scale, b as int % 128, more.value);
        }
        result := (result + b as int % 128 * scale) % TWO64;
      } else {
        TotalLast(result, scale, b, s);
        return Some(Decoded((result + b * scale) % TWO64, s));
      }
      shift, scale, n := shift + 7, scale * 128, n + 1;
    }
    return None;
  }
}
