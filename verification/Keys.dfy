/** Internal keys (db/dbformat.h, db/dbformat.cc) and the order of the database.

  The user comparator is a parameter of the database: the code only ever uses it as a
  total order. User keys are byte strings, so there are countably many of them, and every
  countable total order embeds in the reals. The model therefore takes a user key to be
  a real number; `RankOrder` gives the embedding for the default (bytewise) comparator. */
module Keys {
  type Byte = b: int | 0 <= b < 256
  type Bytes = seq<Byte>

  // util/comparator.cc: Slice::compare, with a proper prefix first.
  predicate BytewiseLess(a: Bytes, b: Bytes) {
    b != [] && (a == [] || a[0] < b[0] || (a[0] == b[0] && BytewiseLess(a[1..], b[1..])))
  }

  // The position of a byte string in [0, 1): base 257, with 0 standing for "no more bytes".
  function Rank(s: Bytes): (r: real)
    ensures 0.0 <= r < 1.0
  {
    if s == [] then 0.0 else (s[0] as real + 1.0 + Rank(s[1..])) / 257.0
  }

  lemma {:induction false} RankOrder(a: Bytes, b: Bytes)
    ensures BytewiseLess(a, b) <==> Rank(a) < Rank(b)
    ensures Rank(a) == Rank(b) <==> a == b
  {
    if a != [] && b != [] {
      RankOrder(a[1..], b[1..]);
      assert a == b <==> a[0] == b[0] && a[1..] == b[1..];
      if a[0] < b[0] {
        assert a[0] as real + 1.0 <= b[0] as real;
      } else if b[0] < a[0] {
        assert b[0] as real + 1.0 <= a[0] as real;
      }
    }
  }

  type UserKey = real
  type Value = Bytes

  const MAX_SEQUENCE_NUMBER: nat := 0xFF_FFFF_FFFF_FFFF

  // kTypeDeletion = 0x0, kTypeValue = 0x1
  datatype ValueType = Deletion | Put

  datatype InternalKey = InternalKey(user: UserKey, sequence: nat, kind: ValueType)

  datatype Entry = Entry(ikey: InternalKey, value: Value)

  // PackSequenceAndType: the type sits in the low eight bits.
  function Tag(k: InternalKey): nat {
    k.sequence * 256 + (if k.kind.Put? then 1 else 0)
  }

  // InternalKeyComparator::Compare(a, b) < 0: user keys ascending, then tags descending.
  predicate Less(a: InternalKey, b: InternalKey) {
    a.user < b.user || (a.user == b.user && Tag(a) > Tag(b))
  }

  // The key built by LookupKey(user, s): the first position at which an entry of `user`
  // with a sequence number of at most `s` can stand (kValueTypeForSeek is kTypeValue).
  function LookupKey(user: UserKey, s: nat): InternalKey {
    InternalKey(user, s, Put)
  }

  lemma LookupKeyBound(user: UserKey, s: nat, k: InternalKey)
    ensures k.user == user ==> (k.sequence <= s <==> !Less(k, LookupKey(user, s)))
  {
  }

  ghost predicate Ascending(es: seq<Entry>) {
    forall i, j :: 0 <= i < j < |es| ==> Less(es[i].ikey, es[j].ikey)
  }

  // Position of the first entry at or after `target`; |es| when there is none. This is
  // what Seek means for the iterators of a sorted source.
  function LowerBound(es: seq<Entry>, target: InternalKey): (r: nat)
    ensures r <= |es|
    ensures forall i :: 0 <= i < r ==> Less(es[i].ikey, target)
    ensures r < |es| ==> !Less(es[r].ikey, target)
  {
    if es == [] || !Less(es[0].ikey, target) then 0 else 1 + LowerBound(es[1..], target)
  }
}
