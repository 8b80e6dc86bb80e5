/** The filter policy of the database (db/dbformat.cc): the user's policy, on user keys. With
  the Bloom filter no lookup is hidden. */
module FilterPolicies {
  import opened Keys
  import opened Separators
  import opened FilterBlock
  import opened Table
  import Bloom

  function UserParts(keys: seq<Bytes>): (r: seq<Bytes>)
    ensures |r| == |keys| && forall i :: 0 <= i < |keys| ==> r[i] == UserPart(keys[i])
  {
    if keys == [] then [] else UserParts(keys[..|keys| - 1]) + [UserPart(keys[|keys| - 1])]
  }

  // InternalFilterPolicy.
  function Internal(user: FilterPolicy): FilterPolicy {
    FilterPolicy(keys => user.create(UserParts(keys)), (key, filter) => user.mayMatch(UserPart(key), filter))
  }

  function BloomPolicy(b: Bloom.Policy): FilterPolicy
    requires b.Valid()
  {
    FilterPolicy(keys => b.Filter(keys), (key, filter) => b.MayMatch(key, filter))
  }

  // The number of probes is stored with a filter, so the reader's policy only has to hash as
  // the writer's did.
  lemma InternalNeverHides(made: Bloom.Policy, used: Bloom.Policy)
    requires made.Valid() && used.Valid() && made.hash == used.hash
    ensures NeverHides(Internal(BloomPolicy(made)), Internal(BloomPolicy(used)), SameUserKey)
  {
    forall keys, a, k
      ensures LetsPass(Internal(BloomPolicy(made)), Internal(BloomPolicy(used)), SameUserKey, keys, a, k)
    {
      if a in keys && SameUserKey(k, a) {
        var i :| 0 <= i < |keys| && keys[i] == a;
        assert UserParts(keys)[i] == UserPart(k);
        made.EveryKeyMatches(UserParts(keys), UserPart(k));
      }
    }
  }

  lemma OneMoreKey(b: Bloom.Policy, n: nat)
    ensures b.Size(n + 1) <= b.Size(n) + b.bitsPerKey + 1
  {
    assert (n + 1) * b.bitsPerKey == n * b.bitsPerKey + b.bitsPerKey;
  }

  lemma FilterLength(b: Bloom.Policy, keys: seq<Bytes>)
    requires b.Valid()
    ensures |FilterOf(Internal(BloomPolicy(b)), keys)| == if keys == [] then 0 else b.Size(|keys|) + 1
  {
    assert Internal(BloomPolicy(b)).create(keys) == BloomPolicy(b).create(UserParts(keys)) == b.Filter(UserParts(keys));
  }

  // What one more key adds to the filters at most.
  lemma FilterGrowth(b: Bloom.Policy, keys: seq<Bytes>, key: Bytes)
    requires b.Valid()
    ensures |FilterOf(Internal(BloomPolicy(b)), keys + [key])|
         <= |FilterOf(Internal(BloomPolicy(b)), keys)| + b.bitsPerKey + 10
  {
    FilterLength(b, keys);
    FilterLength(b, keys + [key]);
    OneMoreKey(b, |keys|);
    assert b.Size(0) == 8;
  }
}
