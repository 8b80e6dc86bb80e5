/** The default (bytewise) comparator and the internal key comparator over it, on the bytes
  that tables store (util/comparator.cc, db/dbformat.cc): the order, and the shortened keys
  that index blocks use. */
module Separators {
  import opened Keys
  import opened Coding
  import opened Comparators

  // Where two strings first differ decides their order.
  lemma {:induction false} FirstDifference(a: Bytes, b: Bytes, i: nat)
    requires i < |a| && i < |b| && a[..i] == b[..i] && a[i] < b[i]
    ensures BytewiseLess(a, b)
    decreases i
  {
    if i > 0 {
      assert a[..i][0] == b[..i][0];
      forall j | 0 <= j < i - 1
        ensures a[1..][j] == b[1..][j]
      {
        assert a[..i][j + 1] == b[..i][j + 1];
      }
      FirstDifference(a[1..], b[1..], i - 1);
    }
  }

  lemma BytewiseTotal(a: Bytes, b: Bytes)
    ensures BytewiseLess(a, b) || BytewiseLess(b, a) || a == b
    ensures !(BytewiseLess(a, b) && BytewiseLess(b, a)) && !BytewiseLess(a, a)
  {
    RankOrder(a, b);
    RankOrder(b, a);
    RankOrder(a, a);
  }

  lemma BytewiseTransitive(a: Bytes, b: Bytes, c: Bytes)
    requires BytewiseLess(a, b) && BytewiseLess(b, c)
    ensures BytewiseLess(a, c)
  {
    RankOrder(a, b);
    RankOrder(b, c);
    RankOrder(a, c);
  }

  // Length of the common prefix.
  function CommonPrefix(a: Bytes, b: Bytes, i: nat): (r: nat)
    requires i <= |a| && i <= |b| && a[..i] == b[..i]
    ensures i <= r <= |a| && r <= |b| && a[..r] == b[..r]
    ensures r < |a| && r < |b| ==> a[r] != b[r]
    decreases |a| - i
  {
    if i < |a| && i < |b| && a[i] == b[i] then CommonPrefix(a, b, i + 1) else i
  }

  function ShortestSeparator(start: Bytes, limit: Bytes): Bytes {
    var d := CommonPrefix(start, limit, 0);
    if d < |start| && d < |limit| && start[d] < 0xFF && start[d] + 1 < limit[d] then start[..d] + [start[d] + 1] else start
  }

  // Either nothing changes, or the result is no longer than `start` and lies strictly between
  // the two keys.
  lemma SeparatorLies(start: Bytes, limit: Bytes)
    ensures var r := ShortestSeparator(start, limit);
            r == start || (|r| <= |start| && BytewiseLess(start, r) && BytewiseLess(r, limit))
  {
    var d, r := CommonPrefix(start, limit, 0), ShortestSeparator(start, limit);
    if r != start {
      FirstDifference(start, r, d);
      FirstDifference(r, limit, d);
    }
  }

  lemma {:induction false} PrefixEndsAt(a: Bytes, b: Bytes, i: nat, d: nat)
    requires i <= d < |a| && d < |b| && a[..i] == b[..i] && a[..d] == b[..d] && a[d] != b[d]
    ensures CommonPrefix(a, b, i) == d
    decreases d - i
  {
    if i < d {
      assert a[..d][i] == b[..d][i];
      PrefixEndsAt(a, b, i + 1, d);
    }
  }

  // The byte where the two first differ is raised by one and the rest cut off, if that stays
  // below the limit.
  lemma SeparatorAt(start: Bytes, limit: Bytes, d: nat)
    requires d < |start| && d < |limit| && start[..d] == limit[..d] && start[d] != limit[d]
    ensures ShortestSeparator(start, limit)
         == if start[d] as int + 1 < limit[d] as int then start[..d] + [start[d] + 1] else start
  {
    PrefixEndsAt(start, limit, 0, d);
  }

  // BytewiseComparatorImpl::FindShortestSeparator.
  method FindShortestSeparator(start: Bytes, limit: Bytes) returns (r: Bytes)
    ensures r == ShortestSeparator(start, limit)
    ensures start <= limit || limit <= start ==> r == start
  {
    var minLength := if |start| < |limit| then |start| else |limit|;
    var diffIndex := 0;
    while diffIndex < minLength && start[diffIndex] == limit[diffIndex]
      invariant diffIndex <= minLength && start[..diffIndex] == limit[..diffIndex]
      invariant CommonPrefix(start, limit, 0) == CommonPrefix(start, limit, diffIndex)
    {
      diffIndex := diffIndex + 1;
    }
    r := start;
    if diffIndex >= minLength {
      // Do not shorten if one string is a prefix of the other.
    } else {
      var diffByte := start[diffIndex];
      if diffByte < 0xFF && diffByte + 1 < limit[diffIndex] {
        r := start[..diffIndex] + [diffByte + 1];
      }
    }
  }

  lemma {:induction false} AboveAllFF(key: Bytes, s: Bytes)
    requires |s| <= |key| && forall i :: 0 <= i < |s| ==> key[i] == 0xFF
    ensures !BytewiseLess(key, s)
  {
    if s != [] {
      AboveAllFF(key[1..], s[1..]);
    }
  }

  // The first byte other than 0xFF.
  function FirstSmall(key: Bytes, i: nat): (r: nat)
    requires i <= |key| && forall j :: 0 <= j < i ==> key[j] == 0xFF
    ensures i <= r <= |key| && (forall j :: 0 <= j < r ==> key[j] == 0xFF) && (r < |key| ==> key[r] != 0xFF)
    decreases |key| - i
  {
    if i < |key| && key[i] == 0xFF then FirstSmall(key, i + 1) else i
  }

  function ShortSuccessor(key: Bytes): Bytes {
    var i := FirstSmall(key, 0);
    if i < |key| then key[..i] + [key[i] + 1] else key
  }

  // A shortest string above the key, unless every byte of the key is 0xFF.
  lemma SuccessorIsShortest(key: Bytes)
    ensures var r := ShortSuccessor(key); r == key || (|r| <= |key| && BytewiseLess(key, r))
    ensures ShortSuccessor(key) == key <==> forall i :: 0 <= i < |key| ==> key[i] == 0xFF
    ensures ShortSuccessor(key) != key ==> forall s: Bytes :: |s| < |ShortSuccessor(key)| ==> !BytewiseLess(key, s)
  {
    var i, r := FirstSmall(key, 0), ShortSuccessor(key);
    if i < |key| {
      FirstDifference(key, r, i);
      assert r[i] != key[i];
      forall s: Bytes | |s| < |r|
        ensures !BytewiseLess(key, s)
      {
        AboveAllFF(key, s);
      }
    }
  }

  // BytewiseComparatorImpl::FindShortSuccessor.
  method FindShortSuccessor(key: Bytes) returns (r: Bytes)
    ensures r == ShortSuccessor(key)
    ensures forall i :: 0 <= i < |key| && key[i] != 0xFF && (forall j :: 0 <= j < i ==> key[j] == 0xFF) ==>
              r == key[..i] + [key[i] + 1]
  {
    var i := 0;
    while i < |key|
      invariant 0 <= i <= |key| && forall j :: 0 <= j < i ==> key[j] == 0xFF
      invariant FirstSmall(key, 0) == FirstSmall(key, i)
    {
      if key[i] != 0xFF {
        return key[..i] + [key[i] + 1];
      }
      i := i + 1;
    }
    return key;
  }

  // An internal key as stored: the user key, then the tag in eight bytes.
  function UserPart(k: Bytes): Bytes {
    if |k| < 8 then [] else k[..|k| - 8]
  }

  function TagPart(k: Bytes): nat {
    if |k| < 8 then 0 else DecodeFixed64(k[|k| - 8..])
  }

  const SEEK_TAG: nat := MAX_SEQUENCE_NUMBER * 256 + 1  // PackSequenceAndType(kMaxSequenceNumber, kValueTypeForSeek)

  function StoredKey(user: Bytes, tag: uint64): (r: Bytes)
    ensures UserPart(r) == user && TagPart(r) == tag && |r| == |user| + 8
  {
    Fixed64RoundTrip(tag, []);
    var r := user + EncodeFixed64(tag);
    assert r[..|r| - 8] == user && r[|r| - 8..] == EncodeFixed64(tag) + [];
    r
  }

  // InternalKeyComparator::Compare(a, b) < 0.
  predicate StoredLess(a: Bytes, b: Bytes) {
    BytewiseLess(UserPart(a), UserPart(b)) || (UserPart(a) == UserPart(b) && TagPart(a) > TagPart(b))
  }

  lemma StoredTransitive(a: Bytes, b: Bytes, c: Bytes)
    requires StoredLess(a, b) && StoredLess(b, c)
    ensures StoredLess(a, c)
  {
    if BytewiseLess(UserPart(a), UserPart(b)) && BytewiseLess(UserPart(b), UserPart(c)) {
      BytewiseTransitive(UserPart(a), UserPart(b), UserPart(c));
    }
  }

  // Transitivity where one of the two steps is "at or before".
  lemma StoredMixed(a: Bytes, b: Bytes, c: Bytes)
    ensures !StoredLess(b, a) && StoredLess(b, c) ==> StoredLess(a, c)
    ensures StoredLess(a, b) && !StoredLess(c, b) ==> StoredLess(a, c)
  {
    StoredTrichotomy(a, b);
    StoredTrichotomy(b, c);
    if StoredLess(a, b) && StoredLess(b, c) {
      StoredTransitive(a, b, c);
    }
  }

  lemma StoredTrichotomy(a: Bytes, b: Bytes)
    ensures StoredLess(a, b) || StoredLess(b, a) || (UserPart(a) == UserPart(b) && TagPart(a) == TagPart(b))
    ensures !StoredLess(a, a)
  {
    BytewiseTotal(UserPart(a), UserPart(b));
    BytewiseTotal(UserPart(a), UserPart(a));
  }

  // The key that a stored key stands for in the order of the database.
  function KeyOf(k: Bytes): InternalKey {
    InternalKey(Rank(UserPart(k)), TagPart(k) / 256, if TagPart(k) % 256 == 1 then Put else Deletion)
  }

  // A tag with one of the two value types in its low byte.
  predicate ValidTag(k: Bytes) {
    TagPart(k) % 256 <= 1
  }

  // The two models of the internal key order are one.
  lemma StoredOrderIsRanked(a: Bytes, b: Bytes)
    requires ValidTag(a) && ValidTag(b)
    ensures StoredLess(a, b) <==> Less(KeyOf(a), KeyOf(b))
    ensures KeyOf(a) == KeyOf(b) <==> UserPart(a) == UserPart(b) && TagPart(a) == TagPart(b)
  {
    RankOrder(UserPart(a), UserPart(b));
    TagSplits(TagPart(a));
    TagSplits(TagPart(b));
  }

  lemma TagSplits(tag: nat)
    requires tag % 256 <= 1
    ensures tag / 256 * 256 + (if tag % 256 == 1 then 1 else 0) == tag
  {
  }

  // A user key that got physically shorter and logically larger takes the earliest tag.
  function Shortened(k: Bytes, tmp: Bytes): Bytes {
    if |tmp| < |UserPart(k)| && BytewiseLess(UserPart(k), tmp) then StoredKey(tmp, SEEK_TAG) else k
  }

  // InternalKeyComparator::FindShortestSeparator and FindShortSuccessor.
  function InternalSeparator(start: Bytes, limit: Bytes): Bytes {
    Shortened(start, ShortestSeparator(UserPart(start), UserPart(limit)))
  }

  function InternalSuccessor(k: Bytes): Bytes {
    Shortened(k, ShortSuccessor(UserPart(k)))
  }

  method FindInternalSeparator(start: Bytes, limit: Bytes) returns (r: Bytes)
    requires |start| >= 8 && |limit| >= 8
    ensures r == InternalSeparator(start, limit)
  {
    var userStart := start[..|start| - 8];
    var tmp := FindShortestSeparator(userStart, limit[..|limit| - 8]);
    if |tmp| < |userStart| && BytewiseLess(userStart, tmp) {
      r := StoredKey(tmp, SEEK_TAG);
    } else {
      r := start;
    }
  }

  predicate SameUserKey(a: Bytes, b: Bytes) {
    UserPart(a) == UserPart(b)
  }

  function InternalComparator(): Comparator {
    Comparator(StoredLess, InternalSeparator, InternalSuccessor)
  }

  lemma ShortenedIsAbove(k: Bytes, tmp: Bytes)
    ensures |Shortened(k, tmp)| <= |k| && !StoredLess(Shortened(k, tmp), k)
    ensures Shortened(k, tmp) == k || (UserPart(Shortened(k, tmp)) == tmp && BytewiseLess(UserPart(k), tmp))
  {
    BytewiseTotal(UserPart(k), tmp);
    StoredTrichotomy(k, k);
  }

  lemma InternalSeparatorLies(a: Bytes, b: Bytes)
    requires StoredLess(a, b)
    ensures !StoredLess(InternalSeparator(a, b), a) && StoredLess(InternalSeparator(a, b), b)
    ensures InternalSeparator(a, b) == a || BytewiseLess(UserPart(InternalSeparator(a, b)), UserPart(b))
  {
    var tmp := ShortestSeparator(UserPart(a), UserPart(b));
    SeparatorLies(UserPart(a), UserPart(b));
    ShortenedIsAbove(a, tmp);
    BytewiseTotal(UserPart(a), UserPart(a));
  }

  // A lookup key that falls into the gap between a block and its separator has a user key
  // that the next block does not begin with.
  lemma NothingInTheGap(a: Bytes, b: Bytes, k: Bytes)
    requires StoredLess(a, b) && StoredLess(a, k) && !StoredLess(InternalSeparator(a, b), k)
    ensures !SameUserKey(k, b)
  {
    var r := InternalSeparator(a, b);
    InternalSeparatorLies(a, b);
    BytewiseTotal(UserPart(k), UserPart(r));
    BytewiseTotal(UserPart(k), UserPart(b));
    if BytewiseLess(UserPart(k), UserPart(r)) {
      BytewiseTransitive(UserPart(k), UserPart(r), UserPart(b));
    }
  }

  lemma StoredOrdering()
    ensures Ordering(StoredLess)
  {
    forall a, b, c
      ensures Transits(StoredLess, a, b, c)
    {
      StoredMixed(a, b, c);
      if StoredLess(a, b) && StoredLess(b, c) {
        StoredTransitive(a, b, c);
      }
    }
  }

  lemma InternalIsLawful()
    ensures Lawful(InternalComparator(), SameUserKey)
  {
    var c := InternalComparator();
    StoredOrdering();
    forall a, b
      ensures Separates(c, a, b)
    {
      ShortenedIsAbove(a, ShortestSeparator(UserPart(a), UserPart(b)));
      if StoredLess(a, b) {
        InternalSeparatorLies(a, b);
      }
    }
    forall a
      ensures Succeeds(c, a)
    {
      ShortenedIsAbove(a, ShortSuccessor(UserPart(a)));
    }
    forall a, b, k
      ensures NoneBetween(c, SameUserKey, a, b, k)
    {
      if StoredLess(a, b) && StoredLess(a, k) && !StoredLess(InternalSeparator(a, b), k) {
        NothingInTheGap(a, b, k);
      }
    }
  }
}
