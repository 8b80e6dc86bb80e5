/** What the bytes of a varint mean (util/coding.cc; the Protocol Buffers encoding specification,
  section "Base 128 Varints"): it ends at its first byte below 128 and has seven bits of its
  value in each byte, the lowest first. The decoders are measured against this. */
module Varints {
  import opened Wrappers
  import opened Keys
  import opened Coding

  predicate IsVarint(p: Bytes) {
    p != [] && p[|p| - 1] < 128 && forall i :: 0 <= i < |p| - 1 ==> p[i] >= 128
  }

  function Base128(p: Bytes): nat {
    if p == [] then 0 else p[0] as int % 128 + 128 * Base128(p[1..])
  }

  // No byte ends a varint.
  predicate Unending(s: Bytes) {
    forall i :: 0 <= i < |s| ==> s[i] >= 128
  }

  // The varint at the front of s, when there is one.
  lemma {:induction false} FirstVarint(s: Bytes) returns (p: Bytes, rest: Bytes)
    ensures Unending(s) || (s == p + rest && IsVarint(p))
  {
    var n := 0;
    while n < |s|
      invariant 0 <= n <= |s| && forall i :: 0 <= i < n ==> s[i] >= 128
    {
      if s[n] < 128 {
        return s[..n + 1], s[n + 1..];
      }
      n := n + 1;
    }
    p, rest := [], s;
  }

  lemma TailOfVarint(p: Bytes, rest: Bytes)
    requires IsVarint(p)
    ensures (p + rest)[0] == p[0] && (p + rest)[1..] == p[1..] + rest
    ensures if p[0] < 128 then |p| == 1 && p[1..] == [] else IsVarint(p[1..])
  {
  }

  // What is written is the shortest varint of the value.
  lemma {:induction false} EncodedIsVarint(v: nat)
    ensures IsVarint(EncodeVarint(v)) && Base128(EncodeVarint(v)) == v
    ensures |EncodeVarint(v)| > 1 ==> EncodeVarint(v)[|EncodeVarint(v)| - 1] != 0
    decreases v
  {
    MoreVarint(v);
    if v < 128 {
      assert EncodeVarint(v)[1..] == [];
    } else {
      EncodedIsVarint(v / 128);
      assert EncodeVarint(v)[1..] == EncodeVarint(v / 128);
      assert v / 128 < 128 ==> EncodeVarint(v / 128) == [v / 128];
    }
  }

  // ---------- ten bytes, 64 bits ----------

  lemma {:induction false} VarintFromMeans(p: Bytes, rest: Bytes, n: nat)
    requires IsVarint(p) && n <= 10
    ensures VarintFrom(p + rest, n) == if n + |p| <= 10 then Some(Decoded(Base128(p), rest)) else None
    decreases |p|
  {
    if n < 10 {
      TailOfVarint(p, rest);
      if p[0] >= 128 {
        VarintFromMeans(p[1..], rest, n + 1);
      }
    }
  }

  lemma {:induction false} VarintFromUnending(s: Bytes, n: nat)
    requires Unending(s)
    ensures VarintFrom(s, n) == None
    decreases |s|
  {
    if s != [] {
      VarintFromUnending(s[1..], n + 1);
    }
  }

  // The 64-bit decoder takes every varint of at most ten bytes, modulo 2^64, and nothing else.
  lemma Varint64Means(p: Bytes, rest: Bytes)
    ensures IsVarint(p) ==>
              DecodeVarint64(p + rest) == if |p| <= 10 then Some(Decoded(Base128(p) % TWO64, rest)) else None
    ensures Unending(p) ==> DecodeVarint64(p) == None
  {
    if IsVarint(p) {
      VarintFromMeans(p, rest, 0);
    }
    if Unending(p) {
      VarintFromUnending(p, 0);
    }
  }

  // ---------- five bytes, 32 bits ----------

  // What the bytes from this shift on add to a 32-bit result.
  lemma AddsUp(result: nat, low: nat, more: nat, shift: nat)
    requires IsShift(shift) && low < 128
    ensures shift < 28 ==>
              (low * Scale(shift)) % TWO32 == low * Scale(shift)
              && result + low * Scale(shift) + more * Scale(shift + 7) == result + (low + 128 * more) * Scale(shift)
    ensures shift == 28 ==>
              (result + (low * Scale(28)) % TWO32) % TWO32 == (result + (low + 128 * more) * Scale(28)) % TWO32
  {
    if shift == 28 {
      assert (low + 128 * more) * Scale(28) == low * Scale(28) + TWO32 * (8 * more);
      Drops(result, low * Scale(28), 8 * more);
    }
  }

  lemma Drops(a: nat, b: nat, c: nat)
    ensures (a + b % TWO32) % TWO32 == (a + (b + TWO32 * c)) % TWO32
  {
  }

  lemma FirstOfVarint(p: Bytes, rest: Bytes, shift: nat, result: nat)
    requires IsVarint(p) && IsShift(shift)
    ensures DecodeFrom(p + rest, shift, result)
         == if p[0] < 128 then Some(Decoded(result + Shifted(p[0], shift), rest))
            else DecodeFrom(p[1..] + rest, shift + 7, result + Shifted(p[0], shift))
    ensures p[0] < 128 ==> |p| == 1
    ensures p[0] >= 128 ==> IsVarint(p[1..])
  {
    TailOfVarint(p, rest);
  }

  // What the whole varint comes to, behind `result`.
  function Sum32(result: nat, p: Bytes, shift: nat): nat {
    (result + Base128(p) * Scale(shift)) % TWO32
  }

  lemma SumOfMore(p: Bytes, shift: nat, result: nat)
    requires p != [] && IsShift(shift) && shift < 28
    ensures Sum32(result, p, shift) == Sum32(result + Shifted(p[0], shift), p[1..], shift + 7)
  {
    AddsUp(result, p[0] as int % 128, Base128(p[1..]), shift);
  }

  lemma NotFullYet(p: Bytes, shift: nat, result: nat)
    requires p != [] && IsShift(shift) && shift < 28 && result < Scale(shift)
    ensures result + Shifted(p[0], shift) < Scale(shift + 7) < TWO32
    ensures p[1..] == [] ==> Sum32(result + Shifted(p[0], shift), p[1..], shift + 7) == result + Shifted(p[0], shift)
  {
    ShiftedBound(p[0], shift);
  }

  lemma SumOfLast(p: Bytes, result: nat)
    requires p != [] && result < Scale(28)
    ensures Sum32(result, p, 28) == result + Shifted(p[0], 28)
  {
    ShiftedBound(p[0], 28);
    AddsUp(result, p[0] as int % 128, Base128(p[1..]), 28);
  }

  lemma {:induction false} DecodeFromMeans(p: Bytes, rest: Bytes, shift: nat, result: nat)
    requires IsVarint(p) && IsShift(shift) && result < Scale(shift)
    ensures DecodeFrom(p + rest, shift, result)
         == if shift + 7 * |p| <= 35 then Some(Decoded(Sum32(result, p, shift), rest)) else None
    decreases |p|
  {
    FirstOfVarint(p, rest, shift, result);
    if shift == 28 {
      SumOfLast(p, result);
    } else {
      SumOfMore(p, shift, result);
      NotFullYet(p, shift, result);
      if p[0] >= 128 {
        DecodeFromMeans(p[1..], rest, shift + 7, result + Shifted(p[0], shift));
      }
    }
  }

  lemma {:induction false} DecodeFromUnending(s: Bytes, shift: nat, result: nat)
    requires Unending(s)
    ensures DecodeFrom(s, shift, result) == None
    decreases |s|
  {
    if s != [] && shift <= 28 {
      DecodeFromUnending(s[1..], shift + 7, result + Shifted(s[0], shift));
    }
  }

  // The 32-bit decoder takes every varint of at most five bytes, modulo 2^32, and nothing else.
  lemma Varint32Means(p: Bytes, rest: Bytes)
    ensures IsVarint(p) ==>
              DecodeFrom(p + rest, 0, 0) == if |p| <= 5 then Some(Decoded(Base128(p) % TWO32, rest)) else None
    ensures Unending(p) ==> DecodeFrom(p, 0, 0) == None
  {
    if IsVarint(p) {
      DecodeFromMeans(p, rest, 0, 0);
    }
    if Unending(p) {
      DecodeFromUnending(p, 0, 0);
    }
  }

  // ---------- numbers and strings ----------

  predicate IsNumber32(b: Bytes, n: nat) {
    IsVarint(b) && |b| <= 5 && n == Base128(b) % TWO32
  }

  predicate IsNumber64(b: Bytes, n: nat) {
    IsVarint(b) && |b| <= 10 && n == Base128(b) % TWO64
  }

  lemma Number32Takes(s: Bytes) returns (b: Bytes)
    ensures DecodeFrom(s, 0, 0).Some? ==>
              s == b + DecodeFrom(s, 0, 0).value.rest && IsNumber32(b, DecodeFrom(s, 0, 0).value.value)
    ensures DecodeFrom(s, 0, 0).None? ==> b == []
  {
    var rest;
    b, rest := FirstVarint(s);
    Varint32Means(b, rest);
    Varint32Means(s, []);
    if DecodeFrom(s, 0, 0).None? {
      b := [];
    }
  }

  lemma Number64Takes(s: Bytes) returns (b: Bytes)
    ensures DecodeVarint64(s).Some? ==>
              s == b + DecodeVarint64(s).value.rest && IsNumber64(b, DecodeVarint64(s).value.value)
    ensures DecodeVarint64(s).None? ==> b == []
  {
    var rest;
    b, rest := FirstVarint(s);
    Varint64Means(b, rest);
    Varint64Means(s, []);
    if DecodeVarint64(s).None? {
      b := [];
    }
  }

  // A length of at most five bytes, modulo 2^32, and that many bytes.
  ghost predicate IsSlice(x: Bytes, p: Bytes, s: Bytes) {
    x == p + s && IsVarint(p) && |p| <= 5 && Base128(p) % TWO32 == |s|
  }

  lemma SliceMeans(x: Bytes, p: Bytes, s: Bytes, rest: Bytes)
    requires IsSlice(x, p, s)
    ensures GetLengthPrefixedSlice(x + rest) == Some(Decoded(s, rest))
  {
    assert x + rest == p + (s + rest);
    Varint32Means(p, s + rest);
  }

  lemma SliceTakes(t: Bytes) returns (x: Bytes, p: Bytes)
    ensures GetLengthPrefixedSlice(t).Some? ==>
              t == x + GetLengthPrefixedSlice(t).value.rest && IsSlice(x, p, GetLengthPrefixedSlice(t).value.value)
  {
    var rest;
    p, rest := FirstVarint(t);
    Varint32Means(p, rest);
    Varint32Means(t, []);
    if GetLengthPrefixedSlice(t).Some? {
      var d := GetLengthPrefixedSlice(t).value;
      x := p + d.value;
      assert rest == d.value + d.rest;
    } else {
      x := [];
    }
  }
}
