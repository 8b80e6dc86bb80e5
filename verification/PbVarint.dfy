/** nanopb's number coders (pb_encode.c, pb_decode.c): the base 128 varints of the Protocol
  Buffers encoding specification (section "Base 128 Varints"), zigzag and two's complement. */
module PbVarint {
  import opened Wrappers
  import opened Keys
  import opened Coding
  import opened Varints

  const TWO63 := 0x8000_0000_0000_0000

  // Unset the top bit of the last byte.
  function Closed(buffer: Bytes): Bytes
    requires buffer != [] && buffer[|buffer| - 1] >= 128
  {
    buffer[..|buffer| - 1] + [buffer[|buffer| - 1] - 128]
  }

  // What is in the buffer once the value left to write is v.
  ghost predicate Writing(buffer: Bytes, v: nat, value: nat) {
    if v > 0 then buffer + EncodeVarint(v) == EncodeVarint(value)
    else buffer != [] && buffer[|buffer| - 1] >= 128 && Closed(buffer) == EncodeVarint(value)
  }

  lemma WriteStep(buffer: Bytes, v: nat, value: nat)
    requires v > 0 && Writing(buffer, v, value)
    ensures Writing(buffer + [v % 128 + 128], v / 128, value)
  {
    MoreVarint(v);
    var more := buffer + [v % 128 + 128];
    if v < 128 {
      assert more[..|more| - 1] == buffer;
    } else {
      assert buffer + ([v % 128 + 128] + EncodeVarint(v / 128)) == more + EncodeVarint(v / 128);
    }
  }

  // pb_encode_varint: one byte at once, otherwise a loop over a buffer.
  method WriteVarint(value: uint64) returns (bytes: Bytes)
    ensures bytes == EncodeVarint(value)
  {
    if value <= 0x7F {
      return [value];
    }
    var buffer: Bytes := [];
    var v: nat := value;
    assert [] + EncodeVarint(value) == EncodeVarint(value);
    while v != 0
      invariant Writing(buffer, v, value)
      decreases v
    {
      WriteStep(buffer, v, value);
      buffer := buffer + [v % 128 + 128];
      v := v / 128;
    }
    bytes := Closed(buffer);
  }

  // pb_decode_varint32 from the second byte on. Bytes past the 32nd bit may only be the
  // sign extension of a negative value.
  function Varint32From(s: Bytes, bitpos: nat, result: nat): (r: Option<Decoded<nat>>)
    ensures r.Some? ==> |r.value.rest| < |s|
    decreases |s|
  {
    if s == [] then None
    else
      var low := s[0] as int % 128;
      if bitpos >= 32 && low != 0 && (result < 0x8000_0000 || s[0] != (if bitpos < 63 then 0xFF else 0x01)) then None
      else
        var more := if bitpos >= 32 then result else result + Shifted(s[0], bitpos);
        if s[0] >= 128 then Varint32From(s[1..], bitpos + 7, more)
        else if bitpos == 28 && s[0] >= 16 then None
        else Some(Decoded(more, s[1..]))
  }

  function DecodeVarint32(s: Bytes): (r: Option<Decoded<nat>>)
    ensures r.Some? ==> |r.value.rest| < |s|
  {
    if s == [] then None
    else if s[0] < 128 then Some(Decoded(s[0], s[1..]))
    else Varint32From(s[1..], 7, s[0] as int % 128)
  }

  lemma {:induction false} Varint32ReadsBack(v: nat, rest: Bytes, shift: nat, result: nat, whole: nat)
    requires IsShift(shift) && v * Scale(shift) < TWO32 && whole == result + v * Scale(shift)
    ensures Varint32From(EncodeVarint(v) + rest, shift, result) == Some(Decoded(whole, rest))
    decreases v
  {
    MoreVarint(v);
    if v < 128 {
      LastByte(v, shift);
      assert ([v] + rest)[1..] == rest;
    } else {
      var b, more := v % 128 + 128, EncodeVarint(v / 128);
      assert ([b] + more + rest)[1..] == more + rest;
      MoreByte(v, shift);
      ScaleStep(v, shift);
      Varint32ReadsBack(v / 128, rest, shift + 7, result + Shifted(b, shift), whole);
    }
  }

  lemma FirstByte(b: Byte, s: Bytes)
    ensures b < 128 ==> DecodeVarint32([b] + s) == Some(Decoded(b, s))
    ensures b >= 128 ==> DecodeVarint32([b] + s) == Varint32From(s, 7, b as int % 128)
  {
    assert ([b] + s)[1..] == s;
  }

  lemma LongVarint32(v: uint32, rest: Bytes, b: Byte, q: nat)
    requires b >= 128 && v == b as int - 128 + 128 * q && q < 0x200_0000
    ensures DecodeVarint32([b] + EncodeVarint(q) + rest) == Some(Decoded(v, rest))
  {
    var more := EncodeVarint(q) + rest;
    assert [b] + EncodeVarint(q) + rest == [b] + more;
    FirstByte(b, more);
    Varint32ReadsBack(q, rest, 7, b as int - 128, v);
  }

  lemma PbVarint32RoundTrip(v: uint32, rest: Bytes)
    ensures DecodeVarint32(EncodeVarint(v) + rest) == Some(Decoded(v, rest))
  {
    MoreVarint(v);
    if v < 128 {
      FirstByte(v, rest);
    } else {
      LongVarint32(v, rest, v % 128 + 128, v / 128);
    }
  }

  // pb_encode_svarint and pb_decode_svarint.
  function ZigZag(v: int): nat {
    if v < 0 then -2 * v - 1 else 2 * v
  }

  function UnZigZag(n: nat): int {
    if n % 2 == 1 then -(n / 2) - 1 else n / 2
  }

  lemma ZigZagRoundTrip(v: int)
    ensures UnZigZag(ZigZag(v)) == v && (ZigZag(v) % 2 == 1 <==> v < 0)
    ensures -TWO63 <= v < TWO63 ==> ZigZag(v) < TWO64
  {
  }

  // A signed value as the 64 bits it is stored in, and the casts back.
  function Unsigned64(v: int): nat
    requires -TWO63 <= v < TWO63
  {
    if v < 0 then v + TWO64 else v
  }

  function Signed64(n: nat): int {
    if n % TWO64 >= TWO63 then n % TWO64 - TWO64 else n % TWO64
  }

  function Signed32(n: nat): int {
    if n % TWO32 >= 0x8000_0000 then n % TWO32 - TWO32 else n % TWO32
  }

  lemma SignedRoundTrip(v: int)
    requires -TWO63 <= v < TWO63
    ensures Unsigned64(v) < TWO64 && Signed64(Unsigned64(v)) == v
    ensures -0x8000_0000 <= v < 0x8000_0000 ==> Signed32(Unsigned64(v)) == v
  {
  }

  // ---------- what the 32-bit decoder takes ----------

  // The bytes past the 32nd bit change nothing.
  function Result32(result: nat, p: Bytes, bitpos: nat): nat {
    if bitpos < 35 then Sum32(result, p, bitpos) else result
  }

  ghost predicate At32(bitpos: nat, result: nat) {
    result < TWO32 && (bitpos >= 35 || (IsShift(bitpos) && bitpos > 0 && result < Scale(bitpos)))
  }

  lemma Varint32Last(p: Bytes, rest: Bytes, bitpos: nat, result: nat)
    requires IsVarint(p) && p[0] < 128 && At32(bitpos, result)
    ensures Varint32From(p + rest, bitpos, result).Some? ==>
              Varint32From(p + rest, bitpos, result) == Some(Decoded(Result32(result, p, bitpos), rest))
    ensures bitpos < 28 || (bitpos == 28 && p[0] < 16) || p[0] == 0 ==> Varint32From(p + rest, bitpos, result).Some?
  {
    TailOfVarint(p, rest);
    if bitpos == 28 {
      SumOfLast(p, result);
    } else if bitpos < 28 {
      SumOfMore(p, bitpos, result);
      NotFullYet(p, bitpos, result);
    }
  }

  lemma Varint32More(p: Bytes, rest: Bytes, bitpos: nat, result: nat)
    requires IsVarint(p) && p[0] >= 128 && At32(bitpos, result)
    ensures var more := if bitpos >= 32 then result else result + Shifted(p[0], bitpos);
            && IsVarint(p[1..]) && At32(bitpos + 7, more)
            && Result32(more, p[1..], bitpos + 7) == Result32(result, p, bitpos)
            && (Varint32From(p + rest, bitpos, result).Some? ==>
                  Varint32From(p + rest, bitpos, result) == Varint32From(p[1..] + rest, bitpos + 7, more))
            && (bitpos < 32 || p[0] == 128 ==>
                  Varint32From(p + rest, bitpos, result) == Varint32From(p[1..] + rest, bitpos + 7, more))
  {
    TailOfVarint(p, rest);
    if bitpos == 28 {
      SumOfLast(p, result);
      ShiftedBound(p[0], 28);
    } else if bitpos < 28 {
      SumOfMore(p, bitpos, result);
      NotFullYet(p, bitpos, result);
    }
  }

  ghost predicate InWord(result: nat, p: Bytes, bitpos: nat) {
    if bitpos < 35 then result + Base128(p) * Scale(bitpos) < TWO32 else Base128(p) == 0
  }

  lemma InWordMore(result: nat, p: Bytes, bitpos: nat)
    requires IsVarint(p) && At32(bitpos, result) && InWord(result, p, bitpos)
    ensures p[0] < 128 ==> bitpos < 28 || (bitpos == 28 && p[0] < 16) || p[0] == 0
    ensures p[0] >= 128 ==>
              && (bitpos >= 32 ==> p[0] == 128)
              && InWord(if bitpos >= 32 then result else result + Shifted(p[0], bitpos), p[1..], bitpos + 7)
  {
    var low, more := p[0] as int % 128, Base128(p[1..]);
    if bitpos < 28 {
      AddsUp(result, low, more, bitpos);
    } else if bitpos == 28 {
      assert (low + 128 * more) * Scale(28) == 0x1000_0000 * low + 0x8_0000_0000 * more;
    }
  }

  lemma {:induction false} Varint32FromMeans(p: Bytes, rest: Bytes, bitpos: nat, result: nat)
    requires IsVarint(p) && At32(bitpos, result)
    ensures Varint32From(p + rest, bitpos, result).Some? ==>
              Varint32From(p + rest, bitpos, result) == Some(Decoded(Result32(result, p, bitpos), rest))
    ensures InWord(result, p, bitpos) ==> Varint32From(p + rest, bitpos, result).Some?
    decreases |p|
  {
    if InWord(result, p, bitpos) {
      InWordMore(result, p, bitpos);
    }
    if p[0] < 128 {
      Varint32Last(p, rest, bitpos, result);
    } else {
      Varint32More(p, rest, bitpos, result);
      Varint32FromMeans(p[1..], rest, bitpos + 7, if bitpos >= 32 then result else result + Shifted(p[0], bitpos));
    }
  }

  lemma {:induction false} Varint32FromUnending(s: Bytes, bitpos: nat, result: nat)
    requires Unending(s)
    ensures Varint32From(s, bitpos, result) == None
    decreases |s|
  {
    if s != [] {
      Varint32FromUnending(s[1..], bitpos + 7, result + Shifted(s[0], bitpos));
      Varint32FromUnending(s[1..], bitpos + 7, result);
    }
  }

  // What follows the varint does not matter.
  lemma {:induction false} Varint32FromAlone(p: Bytes, rest: Bytes, bitpos: nat, result: nat)
    requires IsVarint(p)
    ensures Varint32From(p + rest, bitpos, result).Some? <==> Varint32From(p, bitpos, result).Some?
    decreases |p|
  {
    TailOfVarint(p, rest);
    if p[0] >= 128 {
      Varint32FromAlone(p[1..], rest, bitpos + 7, result + Shifted(p[0], bitpos));
      Varint32FromAlone(p[1..], rest, bitpos + 7, result);
    }
  }

  lemma ShortVarint(p: Bytes, rest: Bytes)
    requires IsVarint(p)
    ensures p[0] < 128 ==> DecodeVarint32(p + rest) == Some(Decoded(p[0], rest))
    ensures p[0] >= 128 ==> DecodeVarint32(p + rest) == Varint32From(p[1..] + rest, 7, p[0] as int % 128)
  {
    TailOfVarint(p, rest);
  }

  lemma FirstSeven(p: Bytes)
    requires IsVarint(p)
    ensures p[0] < 128 ==> Base128(p) == p[0] as int
    ensures p[0] >= 128 ==>
              && IsVarint(p[1..]) && At32(7, p[0] as int % 128)
              && Base128(p) == p[0] as int % 128 + Base128(p[1..]) * Scale(7)
  {
    TailOfVarint(p, []);
  }

  // nanopb's 32-bit decoder leaves what follows the varint and gives its value modulo 2^32; it
  // takes every varint whose value fits, of any length, and nothing that does not end.
  lemma PbVarint32Means(p: Bytes, rest: Bytes)
    ensures IsVarint(p) && DecodeVarint32(p + rest).Some? ==>
              DecodeVarint32(p + rest) == Some(Decoded(Base128(p) % TWO32, rest))
    ensures IsVarint(p) && Base128(p) < TWO32 ==> DecodeVarint32(p + rest).Some?
    ensures IsVarint(p) ==> (DecodeVarint32(p + rest).Some? <==> DecodeVarint32(p).Some?)
    ensures Unending(p) ==> DecodeVarint32(p) == None
  {
    if Unending(p) && p != [] {
      Varint32FromUnending(p[1..], 7, p[0] as int % 128);
    }
    if IsVarint(p) {
      ShortVarint(p, rest);
      ShortVarint(p, []);
      FirstSeven(p);
      assert p + [] == p && p[1..] + [] == p[1..];
      if p[0] >= 128 {
        Varint32FromMeans(p[1..], rest, 7, p[0] as int % 128);
        Varint32FromAlone(p[1..], rest, 7, p[0] as int % 128);
      }
    }
  }
}
