/** The Bloom filter policy (util/bloom.cc). The hash function is a parameter: nothing here
  depends on which one it is. */
module Bloom {
  import opened Bits
  import opened Keys
  import opened Coding

  // b | (1 << i)
  function OrBit(b: nat, i: nat): nat {
    if i == 0 then b / 2 * 2 + 1 else 2 * OrBit(b / 2, i - 1) + b % 2
  }

  lemma {:induction false} OrBitBits(b: nat, i: nat, j: nat)
    ensures Bit(OrBit(b, i), j) <==> Bit(b, j) || i == j
  {
    if i == 0 {
      if j > 0 {
        assert (b / 2 * 2 + 1) / 2 == b / 2;
      }
    } else {
      var r := OrBit(b / 2, i - 1);
      assert (2 * r + b % 2) / 2 == r && (2 * r + b % 2) % 2 == b % 2;
      if j > 0 {
        OrBitBits(b / 2, i - 1, j - 1);
      }
    }
  }

  lemma {:induction false} OrBitFits(b: nat, i: nat, n: nat)
    requires i < n && b < Power2(n)
    ensures OrBit(b, i) < Power2(n)
  {
    if i > 0 {
      OrBitFits(b / 2, i - 1, n - 1);
    }
  }

  predicate HasBit(a: Bytes, pos: nat)
    requires pos < 8 * |a|
  {
    Bit(a[pos / 8], pos % 8)
  }

  // array[pos / 8] |= (1 << (pos % 8))
  function SetBit(a: Bytes, pos: nat): (r: Bytes)
    requires pos < 8 * |a|
    ensures |r| == |a|
    ensures forall p :: 0 <= p < 8 * |a| ==> (HasBit(r, p) <==> HasBit(a, p) || p == pos)
  {
    assert Power2(8) == 256 by {
      assert Power2(4) == 16;
    }
    OrBitFits(a[pos / 8], pos % 8, 8);
    var r: Bytes := a[pos / 8 := OrBit(a[pos / 8], pos % 8)];
    assert forall p :: 0 <= p < 8 * |a| ==> (HasBit(r, p) <==> HasBit(a, p) || p == pos) by {
      forall p | 0 <= p < 8 * |a|
        ensures HasBit(r, p) <==> HasBit(a, p) || p == pos
      {
        OrBitBits(a[pos / 8], pos % 8, p % 8);
      }
    }
    r
  }

  // Rotate right by 17 bits.
  function Delta(h: uint32): uint32 {
    h / 0x2_0000 + h % 0x2_0000 * 0x8000
  }

  // The j-th value of the running hash.
  function Running(h: uint32, j: nat): uint32 {
    if j == 0 then h else (Running(h, j - 1) + Delta(h)) % 0x1_0000_0000
  }

  function Probe(h: uint32, j: nat, bits: nat): (r: nat)
    requires bits > 0
    ensures r < bits
  {
    Running(h, j) % bits
  }

  ghost predicate Probed(h: uint32, k: nat, bits: nat, p: nat)
    requires bits > 0
  {
    exists j :: 0 <= j < k && Probe(h, j, bits) == p
  }

  // The bit array after k probes for one hash.
  function SetProbes(a: Bytes, h: uint32, k: nat): (r: Bytes)
    requires a != []
    ensures |r| == |a|
  {
    if k == 0 then a else SetBit(SetProbes(a, h, k - 1), Probe(h, k - 1, 8 * |a|))
  }

  // The inner loop of CreateFilter.
  method AddProbes(a: Bytes, hash: uint32, k: nat) returns (bitmap: Bytes)
    requires a != []
    ensures bitmap == SetProbes(a, hash, k)
  {
    bitmap := a;
    var h, bits := hash, 8 * |a|;
    var delta := Delta(h);
    var j := 0;
    while j < k
      invariant 0 <= j <= k && h == Running(hash, j) && bitmap == SetProbes(a, hash, j)
    {
      var bitpos := h % bits;
      assert bitpos == Probe(hash, j, bits);
      bitmap := SetBit(bitmap, bitpos);
      h := (h + delta) % 0x1_0000_0000;
      j := j + 1;
    }
  }

  // Whether every one of the first n probes finds its bit set.
  predicate AllSet(a: Bytes, h: uint32, n: nat, bits: nat)
    requires 0 < bits == 8 * |a|
  {
    forall j :: 0 <= j < n ==> HasBit(a, Probe(h, j, bits))
  }

  // The loop of KeyMayMatch.
  method ProbesFound(a: Bytes, hash: uint32, n: nat, bits: nat) returns (r: bool)
    requires 0 < bits == 8 * |a|
    ensures r == AllSet(a, hash, n, bits)
  {
    var h, delta := hash, Delta(hash);
    var j := 0;
    while j < n
      invariant 0 <= j <= n && h == Running(hash, j) && AllSet(a, hash, j, bits)
    {
      var bitpos := h % bits;
      assert bitpos == Probe(hash, j, bits);
      if !HasBit(a, bitpos) {
        return false;
      }
      h := (h + delta) % 0x1_0000_0000;
      j := j + 1;
    }
    return true;
  }

  lemma {:induction false} ProbesSet(a: Bytes, h: uint32, k: nat, p: nat)
    requires a != [] && p < 8 * |a|
    ensures HasBit(SetProbes(a, h, k), p) <==> HasBit(a, p) || Probed(h, k, 8 * |a|, p)
  {
    if k > 0 {
      ProbesSet(a, h, k - 1, p);
      assert Probed(h, k, 8 * |a|, p) <==> Probed(h, k - 1, 8 * |a|, p) || Probe(h, k - 1, 8 * |a|) == p;
    }
  }

  datatype Policy = Policy(bitsPerKey: nat, k: nat, hash: Bytes -> uint32) {
    predicate Valid() {
      1 <= k <= 30
    }

    // Size of the bit array in bytes; at least 64 bits.
    function Size(n: nat): (r: nat)
      ensures r >= 8 && 8 * r >= n * bitsPerKey
      ensures r == 8 || 8 * r < n * bitsPerKey + 8
    {
      var bits := n * bitsPerKey;
      ((if bits < 64 then 64 else bits) + 7) / 8
    }

    // The bit array after the first n keys.
    function SetKeys(a: Bytes, keys: seq<Bytes>, n: nat): (r: Bytes)
      requires a != [] && n <= |keys|
      ensures |r| == |a|
    {
      if n == 0 then a else SetProbes(SetKeys(a, keys, n - 1), hash(keys[n - 1]), k)
    }

    function Filter(keys: seq<Bytes>): (r: Bytes)
      requires Valid()
      ensures |r| == Size(|keys|) + 1
    {
      SetKeys(Zeroed(Size(|keys|)), keys, |keys|) + [k]
    }

    // BloomFilterPolicy::CreateFilter: the filter is appended to `dst`.
    method CreateFilter(keys: seq<Bytes>, dst: Bytes) returns (r: Bytes)
      requires Valid()
      ensures r == dst + Filter(keys)
    {
      var bytes := Size(|keys|);
      var bits := bytes * 8;
      var bitmap := Zeroed(bytes);
      var i := 0;
      while i < |keys|
        invariant 0 <= i <= |keys| && bitmap == SetKeys(Zeroed(bytes), keys, i)
      {
        bitmap := AddProbes(bitmap, hash(keys[i]), k);
        i := i + 1;
      }
      r := dst + (bitmap + [k]);
    }

    // BloomFilterPolicy::KeyMayMatch, with the number of probes the filter was made with.
    predicate MayMatch(key: Bytes, filter: Bytes) {
      if |filter| < 2 then false
      else
        var n := filter[|filter| - 1];
        n > 30 || AllSet(filter[..|filter| - 1], hash(key), n, 8 * (|filter| - 1))
    }

    method KeyMayMatch(key: Bytes, filter: Bytes) returns (r: bool)
      ensures r == MayMatch(key, filter)
      ensures |filter| < 2 ==> !r
      ensures |filter| >= 2 && filter[|filter| - 1] > 30 ==> r
    {
      if |filter| < 2 {
        return false;
      }
      var bitmap, n := filter[..|filter| - 1], filter[|filter| - 1];
      var bits := (|filter| - 1) * 8;
      if n > 30 {
        return true;
      }
      r := ProbesFound(bitmap, hash(key), n, bits);
    }

    // Some of the keys probes bit p.
    ghost predicate SomeProbes(keys: seq<Bytes>, n: nat, bits: nat, p: nat)
      requires n <= |keys| && bits > 0
    {
      exists i :: 0 <= i < n && Probed(hash(keys[i]), k, bits, p)
    }

    lemma {:induction false} KeysSet(a: Bytes, keys: seq<Bytes>, n: nat, p: nat)
      requires a != [] && n <= |keys| && p < 8 * |a|
      ensures HasBit(SetKeys(a, keys, n), p) <==> HasBit(a, p) || SomeProbes(keys, n, 8 * |a|, p)
      decreases n
    {
      if n > 0 {
        KeysSet(a, keys, n - 1, p);
        ProbesSet(SetKeys(a, keys, n - 1), hash(keys[n - 1]), k, p);
        assert SomeProbes(keys, n, 8 * |a|, p)
          <==> SomeProbes(keys, n - 1, 8 * |a|, p) || Probed(hash(keys[n - 1]), k, 8 * |a|, p);
      }
    }

    // A key passes exactly when each of its probes is a probe of some key of the filter.
    lemma MatchesExactly(keys: seq<Bytes>, key: Bytes)
      requires Valid()
      ensures MayMatch(key, Filter(keys))
         <==> forall j :: 0 <= j < k ==>
                SomeProbes(keys, |keys|, 8 * Size(|keys|), Probe(hash(key), j, 8 * Size(|keys|)))
    {
      var size, f := Size(|keys|), Filter(keys);
      assert f[..|f| - 1] == SetKeys(Zeroed(size), keys, |keys|) && f[|f| - 1] == k;
      forall j | 0 <= j < k
        ensures HasBit(f[..|f| - 1], Probe(hash(key), j, 8 * size))
           <==> SomeProbes(keys, |keys|, 8 * size, Probe(hash(key), j, 8 * size))
      {
        KeysSet(Zeroed(size), keys, |keys|, Probe(hash(key), j, 8 * size));
        NoBits(Probe(hash(key), j, 8 * size) % 8);
      }
    }

    // No false negatives.
    lemma EveryKeyMatches(keys: seq<Bytes>, key: Bytes)
      requires Valid() && key in keys
      ensures MayMatch(key, Filter(keys))
    {
      MatchesExactly(keys, key);
      var i :| 0 <= i < |keys| && keys[i] == key;
      forall j | 0 <= j < k
        ensures SomeProbes(keys, |keys|, 8 * Size(|keys|), Probe(hash(key), j, 8 * Size(|keys|)))
      {
        assert Probed(hash(keys[i]), k, 8 * Size(|keys|), Probe(hash(key), j, 8 * Size(|keys|)));
      }
    }
  }

  // k_ is bits_per_key * 0.69 rounded down, brought between 1 and 30.
  // The probes are 0.69 bits per key, rounded down, as far as that is between 1 and 30.
  function New(bitsPerKey: nat, hash: Bytes -> uint32): (r: Policy)
    ensures r.Valid() && r.bitsPerKey == bitsPerKey
    ensures 1 < r.k < 30 ==> 100 * r.k <= 69 * bitsPerKey < 100 * (r.k + 1)
    ensures (r.k == 1 ==> 69 * bitsPerKey < 200) && (r.k == 30 ==> 69 * bitsPerKey >= 3000)
  {
    var k := bitsPerKey * 69 / 100;
    Policy(bitsPerKey, if k < 1 then 1 else if k > 30 then 30 else k, hash)
  }

  function Zeroed(n: nat): Bytes {
    seq(n, _ => 0)
  }

  lemma NoBits(i: nat)
    ensures !Bit(0, i)
  {
    if i > 0 {
      NoBits(i - 1);
    }
  }
}
