/** How a version may change: a flushed memtable, a trivial move, a compaction. Each keeps
  the level invariant. */
module VersionSteps {
  import opened Wrappers
  import opened Keys
  import opened Reads
  import opened CompactionMeaning
  import opened VersionModel
  import opened VersionBuilder
  import opened CompactionInputs
  import opened CompactionSetup
  import opened CompactionWork

  // The result of installing an edit on one level.
  ghost predicate LevelBecomes(before: Level, after: Level, removed: Level, added: Level) {
    && InFileOrder(after)
    && forall f :: f in after <==> (f in before && f !in removed) || f in added
  }

  ghost predicate SameElsewhere(v: Version, w: Version, levels: set<nat>) {
    forall l: nat :: l < 7 && l !in levels ==> w[l] == v[l]
  }

  predicate Apart(f: FileMetaData, g: FileMetaData) {
    Less(f.largest, g.smallest) || Less(g.largest, f.smallest)
  }

  // Sorting pairwise disjoint files by their smallest key sorts their ranges.
  lemma OrderedApartIsSorted(files: Level)
    requires InFileOrder(files) && AllWellFormed(files)
    requires forall f, g :: f in files && g in files && f != g ==> Apart(f, g)
    ensures SortedDisjoint(files)
  {
    forall i, j | 0 <= i < j < |files|
      ensures Less(files[i].largest, files[j].smallest)
    {
      FileRange(files[i]);
      FileRange(files[j]);
      assert BySmallestKey(files[i], files[j]);
      assert files[i] != files[j];
    }
  }

  lemma SortedIsApart(files: Level)
    requires SortedDisjoint(files)
    ensures forall f, g :: f in files && g in files && f != g ==> Apart(f, g)
  {
  }

  lemma SortedIsInFileOrder(files: Level)
    requires SortedDisjoint(files) && AllWellFormed(files)
    ensures InFileOrder(files)
  {
    forall i, j | 0 <= i < j < |files|
      ensures BySmallestKey(files[i], files[j])
    {
      FileRange(files[i]);
    }
  }

  lemma FewerContents(v: Version, all: set<Entry>)
    requires UniqueSequences(all) && forall e :: Stored(v, e) ==> e in all
    ensures UniqueSequences(Contents(v))
  {
  }

  lemma HasAfter(before: Level, after: Level, removed: Level, added: Level)
    requires LevelBecomes(before, after, removed, added)
    ensures forall e :: Has(after, e) ==> Has(before, e) || Has(added, e)
  {
    forall e | Has(after, e)
      ensures Has(before, e) || Has(added, e)
    {
      var f :| f in after && e in f.entries;
    }
  }

  // ---------- flush ----------

  ghost predicate Flush(v: Version, w: Version, level: nat, f: FileMetaData) {
    && level < 7
    && WellFormed(f)
    && LevelBecomes(v[level], w[level], [], [f])
    && SameElsewhere(v, w, {level})
    && (level > 0 ==> forall l, g :: 0 <= l <= level && g in v[l] ==>
          !Overlaps(g, Some(f.smallest.user), Some(f.largest.user)))
  }

  ghost predicate NewerThanVersion(es: seq<Entry>, v: Version) {
    forall a, b :: a in es && Stored(v, b) ==> a.ikey.sequence > b.ikey.sequence
  }

  lemma NoOverlapNoSharedKey(f: FileMetaData, g: FileMetaData)
    requires WellFormed(f) && WellFormed(g) && !Overlaps(g, Some(f.smallest.user), Some(f.largest.user))
    ensures Apart(f, g)
    ensures forall a, b :: a in f.entries && b in g.entries ==> a.ikey.user != b.ikey.user
  {
    FileRange(f);
    FileRange(g);
    forall a, b | a in f.entries && b in g.entries
      ensures a.ikey.user != b.ikey.user
    {
      EntryInRange(f, a);
      EntryInRange(g, b);
    }
  }

  lemma StoredAt(v: Version, l: nat, e: Entry)
    requires l < 7 && Has(v[l], e)
    ensures Stored(v, e)
  {
  }

  lemma FlushLevelOrder(v: Version, w: Version, level: nat, f: FileMetaData)
    requires Flush(v, w, level, f) && LevelOrder(v) && NewerThanVersion(f.entries, v)
    requires forall l {:trigger AllWellFormed(v[l])} :: 0 <= l < 7 ==> AllWellFormed(v[l])
    ensures LevelOrder(w)
  {
    forall i, j, a, b | 0 <= i < j < 7 && Has(w[i], a) && Has(w[j], b) && a.ikey.user == b.ikey.user
      ensures a.ikey.sequence > b.ikey.sequence
    {
      FlushedPair(v, w, level, f, i, j, a, b);
    }
  }

  lemma FlushedPair(v: Version, w: Version, level: nat, f: FileMetaData, i: nat, j: nat, a: Entry, b: Entry)
    requires Flush(v, w, level, f) && LevelOrder(v) && NewerThanVersion(f.entries, v)
    requires forall l {:trigger AllWellFormed(v[l])} :: 0 <= l < 7 ==> AllWellFormed(v[l])
    requires i < j < 7 && Has(w[i], a) && Has(w[j], b) && a.ikey.user == b.ikey.user
    ensures a.ikey.sequence > b.ikey.sequence
  {
    HasAfter(v[level], w[level], [], [f]);
    if Has(v[i], a) && Has(v[j], b) {
      assert Newer(v[i], v[j]);
    } else if Has(v[j], b) {
      assert a in f.entries;
      StoredAt(v, j, b);
    } else {
      assert j == level && b in f.entries && Has(v[i], a);
      var g :| g in v[i] && a in g.entries;
      assert AllWellFormed(v[i]) && WellFormed(g);
      NoOverlapNoSharedKey(f, g);
      assert false;
    }
  }

  lemma FlushAgeOrder(v: Version, w: Version, f: FileMetaData)
    requires Flush(v, w, 0, f) && AgeOrdered(v[0]) && NewerThanVersion(f.entries, v)
    requires forall g :: g in v[0] ==> g.number < f.number
    ensures AgeOrdered(w[0])
  {
    forall g | g in v[0]
      ensures OlderFile(g, f)
    {
      forall a, b | a in g.entries && b in f.entries
        ensures a.ikey.sequence < b.ikey.sequence
      {
        StoredAt(v, 0, a);
      }
    }
  }

  lemma FlushSorted(v: Version, w: Version, level: nat, f: FileMetaData)
    requires Flush(v, w, level, f) && level > 0
    requires AllWellFormed(v[level]) && SortedDisjoint(v[level])
    ensures SortedDisjoint(w[level])
  {
    SortedIsApart(v[level]);
    forall g | g in v[level]
      ensures Apart(f, g)
    {
      NoOverlapNoSharedKey(f, g);
    }
    OrderedApartIsSorted(w[level]);
  }

  // A memtable newer than the whole version may be flushed to the picked level.
  lemma FlushKeepsInv(v: Version, w: Version, level: nat, f: FileMetaData, all: set<Entry>)
    requires VersionInv(v) && Flush(v, w, level, f) && NewerThanVersion(f.entries, v)
    requires forall g :: g in v[0] ==> g.number < f.number
    requires UniqueSequences(all) && (forall e :: Stored(v, e) || e in f.entries ==> e in all)
    ensures VersionInv(w)
    ensures forall e :: Stored(w, e) <==> Stored(v, e) || e in f.entries
  {
    FlushLevelOrder(v, w, level, f);
    if level == 0 {
      FlushAgeOrder(v, w, f);
    } else {
      FlushSorted(v, w, level, f);
    }
    FlushStored(v, w, level, f);
    FewerContents(w, all);
  }

  lemma FlushStored(v: Version, w: Version, level: nat, f: FileMetaData)
    requires Flush(v, w, level, f)
    ensures forall e :: Stored(w, e) <==> Stored(v, e) || e in f.entries
  {
    forall e
      ensures Stored(w, e) <==> Stored(v, e) || e in f.entries
    {
      assert Has(w[level], e) <==> Has(v[level], e) || e in f.entries by {
        HasAfter(v[level], w[level], [], [f]);
        assert f in w[level];
        assert Has(v[level], e) ==> Has(w[level], e);
      }
    }
  }

  // ---------- compaction and trivial move ----------

  // `outputs` replaces the inputs; `all` are the entries of the inputs.
  ghost predicate Replace(v: Version, w: Version, level: nat, inputs0: Level, inputs1: Level, outputs: Level) {
    && level < 6
    && ChosenInputs(v, level, inputs0, inputs1)
    && AllWellFormed(outputs) && SortedDisjoint(outputs)
    && (forall e :: Has(outputs, e) ==> Has(inputs0, e) || Has(inputs1, e))
    && LevelBecomes(v[level], w[level], inputs0, [])
    && LevelBecomes(v[level + 1], w[level + 1], inputs1, outputs)
    && SameElsewhere(v, w, {level, level + 1})
  }

  lemma InputsFromLevels(v: Version, level: nat, inputs0: Level, inputs1: Level)
    requires level < 6 && ChosenInputs(v, level, inputs0, inputs1)
    ensures forall f :: f in inputs0 ==> f in v[level]
    ensures forall f :: f in inputs1 ==> f in v[level + 1]
    ensures forall e :: Has(inputs0, e) ==> Has(v[level], e)
    ensures forall e :: Has(inputs1, e) ==> Has(v[level + 1], e)
  {
    var s, l :| InKeyRange(inputs0, s, l) && inputs1 == Select(v[level + 1], Some(s.user), Some(l.user));
    Selected(v[level + 1], Some(s.user), Some(l.user));
  }

  // A file of level+1 that is left alone lies wholly on one side of everything compacted.
  lemma OneSide(v: Version, level: nat, inputs0: Level, inputs1: Level, r: FileMetaData, e: Entry, d: Entry)
    requires level < 6 && ChosenInputs(v, level, inputs0, inputs1)
    requires AllWellFormed(v[level]) && AllWellFormed(v[level + 1]) && SortedDisjoint(v[level + 1])
    requires r in v[level + 1] && r !in inputs1
    requires Has(inputs0, e) || Has(inputs1, e)
    requires Has(inputs0, d) || Has(inputs1, d)
    ensures Less(e.ikey, r.smallest) || Less(r.largest, e.ikey)
    ensures Less(e.ikey, r.smallest) <==> Less(d.ikey, r.smallest)
    ensures Has(inputs0, e) ==> !Covers(r, e.ikey.user)
  {
    var s, l :| InKeyRange(inputs0, s, l) && inputs1 == Select(v[level + 1], Some(s.user), Some(l.user));
    Selected(v[level + 1], Some(s.user), Some(l.user));
    KeyRangeBounds(inputs0, s, l);
    FileRange(r);
    OnSideOf(v, level, inputs0, inputs1, s, l, r, e);
    OnSideOf(v, level, inputs0, inputs1, s, l, r, d);
  }

  lemma OnSideOf(v: Version, level: nat, inputs0: Level, inputs1: Level, s: InternalKey, l: InternalKey,
                 r: FileMetaData, e: Entry)
    requires level < 6 && forall f :: f in inputs0 ==> f in v[level]
    requires InKeyRange(inputs0, s, l)
    requires forall f :: f in inputs1 <==> f in v[level + 1] && Overlaps(f, Some(s.user), Some(l.user))
    requires AllWellFormed(v[level]) && AllWellFormed(v[level + 1]) && SortedDisjoint(v[level + 1])
    requires r in v[level + 1] && r !in inputs1
    requires Has(inputs0, e) || Has(inputs1, e)
    ensures r.smallest.user > l.user ==> Less(e.ikey, r.smallest)
    ensures r.smallest.user <= l.user ==> r.largest.user < s.user && Less(r.largest, e.ikey) && !Less(e.ikey, r.smallest)
    ensures Has(inputs0, e) ==> !Covers(r, e.ikey.user)
  {
    KeyRangeBounds(inputs0, s, l);
    FileRange(r);
    if Has(inputs0, e) {
      var f :| f in inputs0 && e in f.entries;
      EntryInRange(f, e);
    } else {
      var g :| g in inputs1 && e in g.entries;
      EntryInRange(g, e);
      FileRange(g);
      SortedIsApart(v[level + 1]);
      assert Apart(g, r);
    }
  }

  lemma ReplaceSorted(v: Version, w: Version, level: nat, inputs0: Level, inputs1: Level, outputs: Level)
    requires Replace(v, w, level, inputs0, inputs1, outputs)
    requires AllWellFormed(v[level]) && AllWellFormed(v[level + 1]) && SortedDisjoint(v[level + 1])
    requires level > 0 ==> SortedDisjoint(v[level])
    ensures level > 0 ==> SortedDisjoint(w[level])
    ensures SortedDisjoint(w[level + 1])
  {
    SortedIsApart(v[level + 1]);
    SortedIsApart(outputs);
    if level > 0 {
      SortedIsApart(v[level]);
      OrderedApartIsSorted(w[level]);
    }
    forall o, r | o in outputs && r in v[level + 1] && r !in inputs1
      ensures Apart(o, r)
    {
      FileRange(o);
      var first, last := o.entries[0], o.entries[|o.entries| - 1];
      assert Has(outputs, first) && Has(outputs, last);
      OneSide(v, level, inputs0, inputs1, r, first, last);
    }
    OrderedApartIsSorted(w[level + 1]);
  }

  // Wherever an entry ends up after the compaction, it was at that level or one above.
  lemma ReplaceMoves(v: Version, w: Version, level: nat, inputs0: Level, inputs1: Level, outputs: Level, l: nat, e: Entry)
    requires Replace(v, w, level, inputs0, inputs1, outputs) && l < 7 && Has(w[l], e)
    ensures Has(v[l], e) || (l == level + 1 && Has(inputs0, e))
  {
    InputsFromLevels(v, level, inputs0, inputs1);
    HasAfter(v[level], w[level], inputs0, []);
    HasAfter(v[level + 1], w[level + 1], inputs1, outputs);
    assert w[l] == v[l] || l == level || l == level + 1;
  }

  lemma StillNewer(v: Version, level: nat, inputs0: Level, kept: Level, i: nat, j: nat, a: Entry, b: Entry)
    requires LevelOrder(v) && level < 6 && Detached(v[level], inputs0)
    requires forall f :: f in inputs0 ==> f in v[level]
    requires forall f :: f in kept ==> f in v[level] && f !in inputs0
    requires i < j < 7 && a.ikey.user == b.ikey.user
    requires Has(v[i], a) || (i == level + 1 && Has(inputs0, a))
    requires Has(v[j], b) || (j == level + 1 && Has(inputs0, b))
    requires i == level ==> Has(kept, a)
    ensures a.ikey.sequence > b.ikey.sequence
  {
    if i == level && j == level + 1 && !Has(v[j], b) {
      var f :| f in kept && a in f.entries;
      var g :| g in inputs0 && b in g.entries;
      assert OlderFile(g, f);
    } else {
      var x := if Has(v[i], a) then i else level;
      var y := if Has(v[j], b) then j else level;
      assert Newer(v[x], v[y]);
    }
  }

  lemma ReplacedPair(v: Version, w: Version, level: nat, inputs0: Level, inputs1: Level, outputs: Level, i: nat, j: nat,
      a: Entry, b: Entry)
    requires Replace(v, w, level, inputs0, inputs1, outputs) && LevelOrder(v)
    requires i < j < 7 && Has(w[i], a) && Has(w[j], b) && a.ikey.user == b.ikey.user
    ensures a.ikey.sequence > b.ikey.sequence
  {
    ReplaceMoves(v, w, level, inputs0, inputs1, outputs, i, a);
    ReplaceMoves(v, w, level, inputs0, inputs1, outputs, j, b);
    StillNewer(v, level, inputs0, w[level], i, j, a, b);
  }

  lemma ReplaceLevelOrder(v: Version, w: Version, level: nat, inputs0: Level, inputs1: Level, outputs: Level)
    requires Replace(v, w, level, inputs0, inputs1, outputs) && LevelOrder(v)
    ensures LevelOrder(w)
  {
    forall i, j, a, b | 0 <= i < j < 7 && Has(w[i], a) && Has(w[j], b) && a.ikey.user == b.ikey.user
      ensures a.ikey.sequence > b.ikey.sequence
    {
      ReplacedPair(v, w, level, inputs0, inputs1, outputs, i, j, a, b);
    }
  }

  // A compaction that writes only entries of its inputs keeps the level invariant,
  // whatever it drops.
  lemma ReplaceKeepsInv(v: Version, w: Version, level: nat, inputs0: Level, inputs1: Level, outputs: Level)
    requires VersionInv(v) && Replace(v, w, level, inputs0, inputs1, outputs)
    ensures VersionInv(w)
    ensures forall e :: Stored(w, e) ==> Stored(v, e)
  {
    ReplaceSorted(v, w, level, inputs0, inputs1, outputs);
    ReplaceLevelOrder(v, w, level, inputs0, inputs1, outputs);
    InputsFromLevels(v, level, inputs0, inputs1);
    HasAfter(v[level], w[level], inputs0, []);
    HasAfter(v[level + 1], w[level + 1], inputs1, outputs);
    forall e | Stored(w, e)
      ensures Stored(v, e)
    {
      var l :| 0 <= l < 7 && Has(w[l], e);
      if !Has(v[l], e) {
        StoredAt(v, level, e);
      }
    }
    FewerContents(w, Contents(v));
  }

  // ---------- what a compaction does to the stored entries ----------

  ghost function InputEntries(inputs0: Level, inputs1: Level): set<Entry> {
    LevelContents(inputs0) + LevelContents(inputs1)
  }

  // Entries in the files the compaction leaves alone.
  ghost predicate Untouched(v: Version, level: nat, inputs0: Level, inputs1: Level, e: Entry) {
    exists l, f :: 0 <= l < 7 && f in v[l] && e in f.entries && !(l == level && f in inputs0) && !(l == level + 1 && f in inputs1)
  }

  ghost function Rest(v: Version, level: nat, inputs0: Level, inputs1: Level): (r: set<Entry>)
    ensures forall e :: e in r <==> Untouched(v, level, inputs0, inputs1, e)
  {
    set e | e in Contents(v) && Untouched(v, level, inputs0, inputs1, e)
  }

  lemma ContentsBefore(v: Version, w: Version, level: nat, inputs0: Level, inputs1: Level, outputs: Level)
    requires Replace(v, w, level, inputs0, inputs1, outputs)
    ensures Contents(v) == Rest(v, level, inputs0, inputs1) + InputEntries(inputs0, inputs1)
  {
    InputsFromLevels(v, level, inputs0, inputs1);
    var rest := Rest(v, level, inputs0, inputs1);
    forall l, f, e | 0 <= l < 7 && f in v[l] && e in f.entries
      ensures e in rest || e in InputEntries(inputs0, inputs1)
    {
      if l == level && f in inputs0 {
        assert Has(inputs0, e);
      } else if l == level + 1 && f in inputs1 {
        assert Has(inputs1, e);
      } else {
        assert Untouched(v, level, inputs0, inputs1, e);
      }
    }
  }

  lemma ContentsAfter(v: Version, w: Version, level: nat, inputs0: Level, inputs1: Level, outputs: Level)
    requires Replace(v, w, level, inputs0, inputs1, outputs)
    ensures Contents(w) == Rest(v, level, inputs0, inputs1) + LevelContents(outputs)
  {
    var rest := Rest(v, level, inputs0, inputs1);
    forall l, f, e | 0 <= l < 7 && f in w[l] && e in f.entries
      ensures e in rest || Has(outputs, e)
    {
      if l == level + 1 && f in outputs {
        assert Has(outputs, e);
      } else {
        assert f in v[l] && Untouched(v, level, inputs0, inputs1, e);
      }
    }
    RestStays(v, w, level, inputs0, inputs1, outputs);
  }

  lemma ReplaceContents(v: Version, w: Version, level: nat, inputs0: Level, inputs1: Level, outputs: Level)
    requires Replace(v, w, level, inputs0, inputs1, outputs)
    ensures Contents(v) == Rest(v, level, inputs0, inputs1) + InputEntries(inputs0, inputs1)
    ensures Contents(w) == Rest(v, level, inputs0, inputs1) + LevelContents(outputs)
  {
    ContentsBefore(v, w, level, inputs0, inputs1, outputs);
    ContentsAfter(v, w, level, inputs0, inputs1, outputs);
  }

  lemma RestStays(v: Version, w: Version, level: nat, inputs0: Level, inputs1: Level, outputs: Level)
    requires Replace(v, w, level, inputs0, inputs1, outputs)
    ensures forall e :: Untouched(v, level, inputs0, inputs1, e) ==> Stored(w, e)
    ensures forall e :: Has(outputs, e) ==> Stored(w, e)
  {
    forall e | Untouched(v, level, inputs0, inputs1, e)
      ensures Stored(w, e)
    {
      var l, f :| 0 <= l < 7 && f in v[l] && e in f.entries && !(l == level && f in inputs0) && !(l == level + 1 && f in inputs1);
      assert f in w[l];
      assert Has(w[l], e);
    }
    forall e | Has(outputs, e)
      ensures Stored(w, e)
    {
      var f :| f in outputs && e in f.entries;
      assert f in w[level + 1];
      assert Has(w[level + 1], e);
    }
  }

  ghost predicate NoSharedKey(f: FileMetaData, g: FileMetaData) {
    forall a, b :: a in f.entries && b in g.entries ==> a.ikey.user != b.ikey.user
  }

  // The hypothesis the code does not check: no level+1 file left out of the compaction
  // shares a user key with one that is taken.
  ghost predicate NextLevelBoundary(v: Version, level: nat, inputs1: Level)
    requires level < 6
  {
    forall r, g {:trigger NoSharedKey(r, g)} :: r in v[level + 1] && r !in inputs1 && g in inputs1 ==> NoSharedKey(r, g)
  }

  lemma CoveredIsNotBase(v: Version, level: nat, l: nat, f: FileMetaData, u: UserKey)
    requires level + 2 <= l < 7 && f in v[l] && Covers(f, u)
    ensures !BaseLevel(v, level, u)
  {
    var k :| 0 <= k < |v[l]| && v[l][k] == f;
  }

  lemma BoundaryKeepsApart(v: Version, level: nat, inputs1: Level, r: FileMetaData, e: Entry, i: Entry)
    requires level < 6 && NextLevelBoundary(v, level, inputs1)
    requires r in v[level + 1] && r !in inputs1 && e in r.entries && Has(inputs1, i)
    ensures e.ikey.user != i.ikey.user
  {
    var g :| g in inputs1 && i in g.entries;
    assert NoSharedKey(r, g);
  }

  // Case by case: where can an older entry of a base-level key hide? Nowhere.
  lemma UntouchedIsNewer(v: Version, level: nat, inputs0: Level, inputs1: Level, l: nat, f: FileMetaData, e: Entry, i: Entry)
    requires LevelOrder(v) && level < 6 && ChosenInputs(v, level, inputs0, inputs1)
    requires forall k {:trigger AllWellFormed(v[k])} :: 0 <= k < 7 ==> AllWellFormed(v[k])
    requires SortedDisjoint(v[level + 1])
    requires NextLevelBoundary(v, level, inputs1)
    requires l < 7 && f in v[l] && e in f.entries
    requires !(l == level && f in inputs0) && !(l == level + 1 && f in inputs1)
    requires Has(inputs0, i) || Has(inputs1, i)
    requires i.ikey.user == e.ikey.user && BaseLevel(v, level, i.ikey.user)
    ensures e.ikey.sequence > i.ikey.sequence
  {
    InputsFromLevels(v, level, inputs0, inputs1);
    assert AllWellFormed(v[l]) && WellFormed(f);
    EntryInRange(f, e);
    if l >= level + 2 {
      CoveredIsNotBase(v, level, l, f, i.ikey.user);
    } else if l == level + 1 {
      if Has(inputs0, i) {
        assert AllWellFormed(v[level]);
        OneSide(v, level, inputs0, inputs1, f, i, i);
      } else {
        BoundaryKeepsApart(v, level, inputs1, f, e, i);
      }
    } else if l == level && Has(inputs0, i) {
      var g :| g in inputs0 && i in g.entries;
      assert OlderFile(g, f);
    } else {
      assert Has(v[l], e);
      assert Newer(v[l], v[if Has(inputs0, i) then level else level + 1]);
    }
  }

  lemma RestIsNewer(v: Version, level: nat, inputs0: Level, inputs1: Level, above: set<Entry>, r: Entry, i: Entry)
    requires VersionInv(v) && level < 6 && ChosenInputs(v, level, inputs0, inputs1)
    requires NextLevelBoundary(v, level, inputs1)
    requires forall a, b :: a in above && Stored(v, b) ==> a.ikey.sequence > b.ikey.sequence
    requires r in above + Rest(v, level, inputs0, inputs1)
    requires i in InputEntries(inputs0, inputs1) && i.ikey.user in BaseKeys(v, level) && r.ikey.user == i.ikey.user
    ensures r.ikey.sequence > i.ikey.sequence
  {
    if r in above {
      InputsFromLevels(v, level, inputs0, inputs1);
      StoredAt(v, if Has(inputs0, i) then level else level + 1, i);
    } else {
      var l, f :| 0 <= l < 7 && f in v[l] && r in f.entries && !(l == level && f in inputs0) && !(l == level + 1 && f in inputs1);
      assert SortedDisjoint(v[level + 1]);
      UntouchedIsNewer(v, level, inputs0, inputs1, l, f, r, i);
    }
  }

  lemma AllRestIsNewer(v: Version, level: nat, inputs0: Level, inputs1: Level, above: set<Entry>)
    requires VersionInv(v) && level < 6 && ChosenInputs(v, level, inputs0, inputs1)
    requires NextLevelBoundary(v, level, inputs1)
    requires forall a, b :: a in above && Stored(v, b) ==> a.ikey.sequence > b.ikey.sequence
    ensures forall r, i :: r in above + Rest(v, level, inputs0, inputs1) && i in InputEntries(inputs0, inputs1)
                           && i.ikey.user in BaseKeys(v, level) && r.ikey.user == i.ikey.user
                           ==> r.ikey.sequence > i.ikey.sequence
  {
    forall r, i | r in above + Rest(v, level, inputs0, inputs1) && i in InputEntries(inputs0, inputs1)
                  && i.ikey.user in BaseKeys(v, level) && r.ikey.user == i.ikey.user
      ensures r.ikey.sequence > i.ikey.sequence
    {
      RestIsNewer(v, level, inputs0, inputs1, above, r, i);
    }
  }

  // Under the boundary hypothesis a compaction keeps what every snapshot at or above the
  // smallest one reads, for the version together with any newer entries above it.
  lemma CompactionPreservesReads(v: Version, w: Version, level: nat, inputs0: Level, inputs1: Level, outputs: Level,
                                 above: set<Entry>, ss: nat)
    requires VersionInv(v) && Replace(v, w, level, inputs0, inputs1, outputs)
    requires LevelContents(outputs) == Kept(InputEntries(inputs0, inputs1), ss, BaseKeys(v, level))
    requires NextLevelBoundary(v, level, inputs1)
    requires UniqueSequences(above + Contents(v))
    requires forall a, b :: a in above && Stored(v, b) ==> a.ikey.sequence > b.ikey.sequence
    ensures PreservesReads(above + Contents(v), above + Contents(w), ss)
  {
    AllRestIsNewer(v, level, inputs0, inputs1, above);
    CompactionContents(v, w, level, inputs0, inputs1, outputs, above, ss);
    NoOlderRest(InputEntries(inputs0, inputs1), above + Rest(v, level, inputs0, inputs1), ss, BaseKeys(v, level));
  }

  lemma CompactionContents(v: Version, w: Version, level: nat, inputs0: Level, inputs1: Level, outputs: Level,
                           above: set<Entry>, ss: nat)
    requires Replace(v, w, level, inputs0, inputs1, outputs)
    requires LevelContents(outputs) == Kept(InputEntries(inputs0, inputs1), ss, BaseKeys(v, level))
    ensures var inputs, rest := InputEntries(inputs0, inputs1), above + Rest(v, level, inputs0, inputs1);
            && above + Contents(v) == rest + inputs == inputs + rest
            && above + Contents(w) == rest + Kept(inputs, ss, BaseKeys(v, level))
  {
    ReplaceContents(v, w, level, inputs0, inputs1, outputs);
  }

  // Without the hypothesis: exactly the compactions that bring no value back are safe.
  lemma CompactionPreservesReadsIff(v: Version, w: Version, level: nat, inputs0: Level, inputs1: Level, outputs: Level,
                                    above: set<Entry>, ss: nat)
    requires Replace(v, w, level, inputs0, inputs1, outputs)
    requires LevelContents(outputs) == Kept(InputEntries(inputs0, inputs1), ss, BaseKeys(v, level))
    requires UniqueSequences(above + Contents(v))
    ensures var inputs, rest := InputEntries(inputs0, inputs1), above + Rest(v, level, inputs0, inputs1);
            PreservesReads(above + Contents(v), above + Contents(w), ss)
            <==> forall t :: t in inputs ==> !Resurrects(inputs, rest, ss, BaseKeys(v, level), t)
  {
    CompactionContents(v, w, level, inputs0, inputs1, outputs, above, ss);
    CompactionExact(InputEntries(inputs0, inputs1), above + Rest(v, level, inputs0, inputs1), ss, BaseKeys(v, level));
  }
}
