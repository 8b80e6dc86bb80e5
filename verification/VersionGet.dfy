/** Point reads: FindFile, SomeFileOverlapsRange, Version::ForEachOverlapping and
  Version::Get (db/version_set.cc), each proved to agree with the simple view. */
module VersionGet {
  import opened Wrappers
  import opened Keys
  import opened Reads
  import opened VersionModel

  // The earliest file whose largest key is at or after `key`.
  method FindFile(files: Level, key: InternalKey) returns (right: nat)
    requires AllWellFormed(files) && SortedDisjoint(files)
    ensures right <= |files|
    ensures forall i :: 0 <= i < right ==> Less(files[i].largest, key)
    ensures forall i :: right <= i < |files| ==> !Less(files[i].largest, key)
  {
    var left := 0;
    right := |files|;
    while left < right
      invariant 0 <= left <= right <= |files|
      invariant forall i :: 0 <= i < left ==> Less(files[i].largest, key)
      invariant forall i :: right <= i < |files| ==> !Less(files[i].largest, key)
    {
      var mid := (left + right) / 2;
      var f := files[mid];
      LargestAscends(files, mid);
      if Less(f.largest, key) {
        left := mid + 1;
      } else {
        right := mid;
      }
    }
  }

  lemma LargestAscends(files: Level, mid: nat)
    requires AllWellFormed(files) && SortedDisjoint(files) && mid < |files|
    ensures forall i :: 0 <= i < mid ==> Less(files[i].largest, files[mid].largest)
    ensures forall i :: mid < i < |files| ==> Less(files[mid].largest, files[i].largest)
  {
    forall i | 0 <= i < |files|
      ensures !Less(files[i].largest, files[i].smallest)
    {
      FileRange(files[i]);
    }
  }

  method SomeFileOverlapsRange(disjointSorted: bool, files: Level, begin: Option<UserKey>, end: Option<UserKey>)
    returns (overlap: bool)
    requires AllWellFormed(files)
    requires disjointSorted ==> SortedDisjoint(files)
    requires forall f :: f in files ==> f.largest.sequence <= MAX_SEQUENCE_NUMBER
    ensures overlap <==> exists f :: f in files && Overlaps(f, begin, end)
  {
    if !disjointSorted {
      for i := 0 to |files|
        invariant forall k :: 0 <= k < i ==> !Overlaps(files[k], begin, end)
      {
        if AfterFile(begin, files[i]) || BeforeFile(end, files[i]) {
        } else {
          assert Overlaps(files[i], begin, end);
          return true;
        }
      }
      return false;
    }
    var index := 0;
    if begin.Some? {
      // The earliest possible internal key for the first user key of the range.
      index := FindFile(files, InternalKey(begin.value, MAX_SEQUENCE_NUMBER, Put));
    }
    forall i | 0 <= i < |files|
      ensures i < index <==> AfterFile(begin, files[i])
      ensures files[i].smallest.user <= files[i].largest.user
    {
      FileRange(files[i]);
    }
    if index >= |files| {
      return false;
    }
    overlap := !BeforeFile(end, files[index]);
    forall i | index < i < |files|
      ensures files[index].smallest.user <= files[i].smallest.user
    {
      FileRange(files[index]);
    }
    if overlap {
      assert Overlaps(files[index], begin, end);
    }
  }

  // ---------- the level-0 search order ----------

  predicate NumbersDescend(files: Level) {
    forall i, j :: 0 <= i < j < |files| ==> files[i].number >= files[j].number
  }

  lemma HeadAndTail(files: Level)
    requires files != []
    ensures multiset(files) == multiset{files[0]} + multiset(files[1..])
  {
    assert files == [files[0]] + files[1..];
  }

  lemma SameMembers(files: Level, sorted: Level)
    requires multiset(sorted) == multiset(files)
    ensures forall x :: x in sorted <==> x in files
  {
    forall x
      ensures x in sorted <==> x in files
    {
      assert x in multiset(sorted) <==> x in multiset(files);
    }
  }

  // A file goes behind the first; what was sorted stays so.
  lemma FirstIsLargest(f: FileMetaData, files: Level, tail: Level)
    requires files != [] && NumbersDescend(files) && f.number < files[0].number
    requires NumbersDescend(tail) && multiset(tail) == multiset{f} + multiset(files[1..])
    ensures NumbersDescend([files[0]] + tail)
  {
    forall i | 0 <= i < |tail|
      ensures tail[i].number <= files[0].number
    {
      assert tail[i] in multiset(tail);
      assert tail[i] == f || tail[i] in multiset(files[1..]);
    }
  }

  // std::sort with NewestFirst.
  function InsertByNumber(f: FileMetaData, files: Level): (r: Level)
    requires NumbersDescend(files)
    ensures NumbersDescend(r)
    ensures multiset(r) == multiset{f} + multiset(files)
  {
    if files == [] || f.number >= files[0].number then
      [f] + files
    else
      var tail := InsertByNumber(f, files[1..]);
      HeadAndTail(files);
      FirstIsLargest(f, files, tail);
      [files[0]] + tail
  }

  function SortNewestFirst(files: Level): (r: Level)
    ensures NumbersDescend(r)
    ensures multiset(r) == multiset(files)
  {
    if files == [] then [] else
      HeadAndTail(files);
      InsertByNumber(files[0], SortNewestFirst(files[1..]))
  }

  // ---------- one level ----------

  // Searching the newest file first finds the newest entry of level 0.
  lemma LevelZeroHit(files: Level, found: FileMetaData, u: UserKey, s: nat)
    requires AllWellFormed(files) && AgeOrdered(files)
    requires found in files && FileHit(found, u, s).Some?
    requires forall g :: g in files && g.number > found.number ==> FileHit(g, u, s).None?
    ensures NewestOf(files, u, s, FileHit(found, u, s).value)
  {
    var e := FileHit(found, u, s).value;
    FileHitIsNewest(found, u, s);
    forall g, o | g in files && o in g.entries && Candidate(u, s, o)
      ensures o.ikey.sequence <= e.ikey.sequence
    {
      FileHitIsNewest(g, u, s);
      if g.number < found.number {
        assert OlderFile(g, found);
      }
    }
  }

  // One binary-searched file answers for its whole level.
  lemma LevelHit(files: Level, index: nat, u: UserKey, s: nat)
    requires AllWellFormed(files) && SortedDisjoint(files)
    requires index <= |files|
    requires forall i :: 0 <= i < index ==> Less(files[i].largest, LookupKey(u, s))
    requires forall i :: index <= i < |files| ==> !Less(files[i].largest, LookupKey(u, s))
    ensures index == |files| || FileHit(files[index], u, s).None? ==> NoCandidate(files, u, s)
    ensures index < |files| && FileHit(files[index], u, s).Some? ==>
              NewestOf(files, u, s, FileHit(files[index], u, s).value)
    ensures index < |files| && u < files[index].smallest.user ==> FileHit(files[index], u, s).None?
  {
    if index < |files| {
      FileHitIsNewest(files[index], u, s);
    }
    forall i, e | 0 <= i < |files| && e in files[i].entries && Candidate(u, s, e)
      ensures index < |files| && FileHit(files[index], u, s).Some?
      ensures e.ikey.sequence <= FileHit(files[index], u, s).value.ikey.sequence
    {
      EntryInRange(files[i], e);
      LookupKeyBound(u, s, e.ikey);
      assert index <= i;
      if index < i {
        var f := files[index];
        var k := LowerBound(f.entries, LookupKey(u, s));
        assert k < |f.entries|;
        EntryInRange(f, f.entries[k]);
        assert Less(f.largest, files[i].smallest);
        assert f.entries[k].ikey.user == u;
      }
    }
  }

  // ---------- the whole version ----------

  lemma NewestInVersion(v: Version, l: nat, u: UserKey, s: nat, e: Entry)
    requires LevelOrder(v) && l < 7
    requires forall k :: 0 <= k < l ==> NoCandidate(v[k], u, s)
    requires NewestOf(v[l], u, s, e)
    ensures IsNewest(Contents(v), u, s, e)
  {
    forall o | o in Contents(v) && Candidate(u, s, o)
      ensures o.ikey.sequence <= e.ikey.sequence
    {
      var k :| 0 <= k < 7 && Has(v[k], o);
      if l < k {
        assert Newer(v[l], v[k]);
      }
    }
  }

  // The level-0 half of Version::ForEachOverlapping: files whose range has the key, the
  // largest file number first.
  method GetFromLevelZero(files: Level, u: UserKey, s: nat) returns (hit: Option<Entry>)
    requires AllWellFormed(files) && AgeOrdered(files)
    ensures hit.Some? ==> NewestOf(files, u, s, hit.value)
    ensures hit.None? ==> NoCandidate(files, u, s)
  {
    var tmp: Level := [];
    for i := 0 to |files|
      invariant forall f :: f in tmp ==> f in files
      invariant forall k :: 0 <= k < i && Covers(files[k], u) ==> files[k] in tmp
    {
      var f := files[i];
      if u >= f.smallest.user && u <= f.largest.user {
        tmp := tmp + [f];
      }
    }
    var sorted := SortNewestFirst(tmp);
    SameMembers(tmp, sorted);
    for i := 0 to |sorted|
      invariant forall k :: 0 <= k < i ==> FileHit(sorted[k], u, s).None?
    {
      hit := FileHit(sorted[i], u, s);
      if hit.Some? {
        NewestFirstHit(files, sorted, i, u, s);
        return;
      }
    }
    NewestFirstMiss(files, sorted, u, s);
    hit := None;
  }

  ghost predicate SearchOrder(files: Level, sorted: Level, u: UserKey) {
    && NumbersDescend(sorted)
    && (forall f :: f in sorted ==> f in files)
    && (forall f :: f in files && Covers(f, u) ==> f in sorted)
  }

  lemma NewestFirstHit(files: Level, sorted: Level, i: nat, u: UserKey, s: nat)
    requires AllWellFormed(files) && AgeOrdered(files) && SearchOrder(files, sorted, u)
    requires i < |sorted| && FileHit(sorted[i], u, s).Some?
    requires forall k :: 0 <= k < i ==> FileHit(sorted[k], u, s).None?
    ensures NewestOf(files, u, s, FileHit(sorted[i], u, s).value)
  {
    forall g | g in files && g.number > sorted[i].number
      ensures FileHit(g, u, s).None?
    {
      if g in sorted {
        var k :| 0 <= k < |sorted| && sorted[k] == g;
      } else {
        OutsideRangeMisses(g, u, s);
      }
    }
    LevelZeroHit(files, sorted[i], u, s);
  }

  lemma NewestFirstMiss(files: Level, sorted: Level, u: UserKey, s: nat)
    requires AllWellFormed(files) && SearchOrder(files, sorted, u)
    requires forall k :: 0 <= k < |sorted| ==> FileHit(sorted[k], u, s).None?
    ensures NoCandidate(files, u, s)
  {
    forall f | f in files
      ensures forall e :: e in f.entries ==> !Candidate(u, s, e)
    {
      FileHitIsNewest(f, u, s);
      if f !in sorted {
        OutsideRangeMisses(f, u, s);
      }
    }
  }

  lemma OutsideRangeMisses(f: FileMetaData, u: UserKey, s: nat)
    requires WellFormed(f) && !Covers(f, u)
    ensures FileHit(f, u, s).None?
  {
    FileHitIsNewest(f, u, s);
    if FileHit(f, u, s).Some? {
      EntryInRange(f, FileHit(f, u, s).value);
    }
  }

  // One deeper level: the earliest file whose largest key is at or after the lookup key.
  method GetFromLevel(files: Level, u: UserKey, s: nat) returns (hit: Option<Entry>)
    requires AllWellFormed(files) && SortedDisjoint(files)
    ensures hit.Some? ==> NewestOf(files, u, s, hit.value)
    ensures hit.None? ==> NoCandidate(files, u, s)
  {
    var index := FindFile(files, LookupKey(u, s));
    LevelHit(files, index, u, s);
    hit := None;
    if index < |files| {
      var f := files[index];
      if u < f.smallest.user {
        // All of "f" is past any data for the user key.
      } else {
        hit := FileHit(f, u, s);
      }
    }
  }

  // Version::Get. The saver's three states are folded into Option<Entry>: the entry of the
  // user key that stopped the search (a value or a tombstone), or None when all files missed.
  method Get(v: Version, u: UserKey, s: nat) returns (hit: Option<Entry>)
    requires VersionInv(v)
    ensures hit.Some? ==> IsNewest(Contents(v), u, s, hit.value)
    ensures hit.None? ==> forall e :: e in Contents(v) ==> !Candidate(u, s, e)
  {
    hit := GetFromLevelZero(v[0], u, s);
    if hit.Some? {
      NewestInVersion(v, 0, u, s, hit.value);
      return;
    }
    for level := 1 to 7
      invariant forall k :: 0 <= k < level ==> NoCandidate(v[k], u, s)
    {
      hit := GetFromLevel(v[level], u, s);
      if hit.Some? {
        NewestInVersion(v, level, u, s, hit.value);
        return;
      }
    }
    hit := None;
  }
}
