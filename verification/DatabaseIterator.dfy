/** The iterator of a database (DBImpl::NewInternalIterator, Version::AddIterators and
  NewConcatenatingIterator): which sorted sources it merges, and that what a user sees through
  it at a snapshot is what was written. */
module DatabaseIterator {
  import opened Wrappers
  import opened Keys
  import opened Reads
  import opened CompactionMeaning
  import opened VersionModel
  import opened VersionBuilder
  import opened VersionSteps
  import opened DatabaseModel
  import opened Iterators
  import opened Merger
  import opened TwoLevel
  import opened UserView
  import Memtable
  import Work = CompactionWork

  // How LevelFileNumIterator names a file, and what the table cache opens under the name.
  datatype Tables = Tables(name: FileMetaData -> Bytes, open: Bytes -> seq<Entry>)

  ghost predicate Opens(t: Tables, files: Level) {
    forall i :: 0 <= i < |files| ==> t.open(t.name(files[i])) == files[i].entries
  }

  // LevelFileNumIterator: the largest key of each file, and its name.
  function LevelIndex(t: Tables, files: Level, n: nat): (r: seq<Entry>)
    requires n <= |files|
    ensures |r| == n && forall i :: 0 <= i < n ==> r[i] == Entry(files[i].largest, t.name(files[i]))
  {
    if n == 0 then [] else LevelIndex(t, files, n - 1) + [Entry(files[n - 1].largest, t.name(files[n - 1]))]
  }

  // The concatenation of the first n files.
  function RunOf(files: Level, n: nat): seq<Entry>
    requires n <= |files|
  {
    if n == 0 then [] else RunOf(files, n - 1) + files[n - 1].entries
  }

  lemma {:induction false} RunIsFlat(t: Tables, files: Level, index: seq<Entry>, n: nat)
    requires n <= |files| && Opens(t, files) && index == LevelIndex(t, files, |files|)
    ensures FlatFirst(index, t.open, n) == RunOf(files, n)
    decreases n
  {
    if n > 0 {
      RunIsFlat(t, files, index, n - 1);
    }
  }

  lemma {:induction false} RunHas(files: Level, n: nat, e: Entry)
    requires n <= |files|
    ensures e in RunOf(files, n) <==> exists i :: 0 <= i < n && e in files[i].entries
    decreases n
  {
    if n > 0 {
      RunHas(files, n - 1, e);
    }
  }

  lemma RunHasAll(files: Level)
    ensures forall e :: e in RunOf(files, |files|) <==> Has(files, e)
  {
    forall e
      ensures e in RunOf(files, |files|) <==> Has(files, e)
    {
      RunHas(files, |files|, e);
      if Has(files, e) {
        var f :| f in files && e in f.entries;
        var i :| 0 <= i < |files| && files[i] == f;
      }
    }
  }

  // Up to file n every key is at most the largest of the file before.
  lemma {:induction false} RunBelow(files: Level, n: nat, e: Entry)
    requires 0 < n <= |files| && AllWellFormed(files) && SortedDisjoint(files) && e in RunOf(files, n)
    ensures !Less(files[n - 1].largest, e.ikey)
  {
    RunHas(files, n, e);
    var i :| 0 <= i < n && e in files[i].entries;
    EntryInRange(files[i], e);
    if i < n - 1 {
      assert Less(files[i].largest, files[n - 1].smallest);
      FileRange(files[n - 1]);
    }
  }

  lemma AscendingAppend(a: seq<Entry>, b: seq<Entry>)
    requires Ascending(a) && Ascending(b) && forall x, y :: x in a && y in b ==> Less(x.ikey, y.ikey)
    ensures Ascending(a + b)
  {
    forall i, j | 0 <= i < j < |a + b|
      ensures Less((a + b)[i].ikey, (a + b)[j].ikey)
    {
      if i < |a| <= j {
        assert a[i] in a && b[j - |a|] in b;
      }
    }
  }

  lemma {:induction false} RunAscends(files: Level, n: nat)
    requires n <= |files| && AllWellFormed(files) && SortedDisjoint(files)
    ensures Ascending(RunOf(files, n))
    decreases n
  {
    if n > 0 {
      RunAscends(files, n - 1);
      var f := files[n - 1];
      assert WellFormed(f);
      forall x, y | x in RunOf(files, n - 1) && y in f.entries
        ensures Less(x.ikey, y.ikey)
      {
        RunBelow(files, n - 1, x);
        EntryInRange(f, y);
        assert Less(files[n - 2].largest, f.smallest);
      }
      AscendingAppend(RunOf(files, n - 1), f.entries);
    }
  }

  lemma {:induction false} RunAbove(files: Level, n: nat, m: nat, y: nat)
    requires 0 < n <= m <= |files| && AllWellFormed(files) && SortedDisjoint(files)
    requires |RunOf(files, n)| <= y < |RunOf(files, m)|
    ensures Less(files[n - 1].largest, RunOf(files, m)[y].ikey)
    decreases m
  {
    if n < m {
      if y < |RunOf(files, m - 1)| {
        RunAbove(files, n, m - 1, y);
      } else {
        var f := files[m - 1];
        assert WellFormed(f);
        EntryInRange(f, f.entries[y - |RunOf(files, m - 1)|]);
        assert Less(files[n - 1].largest, f.smallest);
      }
    }
  }

  lemma IndexAscends(t: Tables, files: Level)
    requires AllWellFormed(files) && SortedDisjoint(files)
    ensures Ascending(LevelIndex(t, files, |files|))
  {
    forall i, j | 0 <= i < j < |files|
      ensures Less(files[i].largest, files[j].largest)
    {
      assert WellFormed(files[j]) && Less(files[i].largest, files[j].smallest);
      FileRange(files[j]);
    }
  }

  // A level above 0 is what a two-level iterator needs: its index separates the tables.
  lemma LevelSeparates(t: Tables, files: Level)
    requires AllWellFormed(files) && SortedDisjoint(files) && Opens(t, files)
    ensures IndexSeparates(LevelIndex(t, files, |files|), t.open)
    ensures Flat(LevelIndex(t, files, |files|), t.open) == RunOf(files, |files|)
  {
    var index := LevelIndex(t, files, |files|);
    IndexAscends(t, files);
    RunAscends(files, |files|);
    RunIsFlat(t, files, index, |files|);
    forall n, x | 0 <= n < |index| && x in FlatFirst(index, t.open, n + 1)
      ensures !Less(index[n].ikey, x.ikey)
    {
      RunIsFlat(t, files, index, n + 1);
      RunBelow(files, n + 1, x);
    }
    forall n, y | 0 <= n < |index| && |FlatFirst(index, t.open, n + 1)| <= y < |Flat(index, t.open)|
      ensures Less(index[n].ikey, Flat(index, t.open)[y].ikey)
    {
      RunIsFlat(t, files, index, n + 1);
      RunAbove(files, n + 1, |files|, y);
    }
  }

  // ---------- the sources ----------

  function FileSources(files: Level): (r: seq<seq<Entry>>)
    ensures |r| == |files| && forall i :: 0 <= i < |r| ==> r[i] == files[i].entries
  {
    seq(|files|, i requires 0 <= i < |files| => files[i].entries)
  }

  // Levels 1 to n - 1; an empty level has no iterator.
  function LevelSources(v: Version, n: nat): seq<seq<Entry>>
    requires 1 <= n <= 7
  {
    if n == 1 then []
    else LevelSources(v, n - 1) + (if v[n - 1] == [] then [] else [RunOf(v[n - 1], |v[n - 1]|)])
  }

  function MemSources(s: State): seq<seq<Entry>> {
    [s.mem] + (if s.imm.Some? then [s.imm.value] else [])
  }

  // The list of NewInternalIterator.
  function Sources(s: State): seq<seq<Entry>> {
    MemSources(s) + (FileSources(s.version[0]) + LevelSources(s.version, 7))
  }

  // Sorted sources without a common entry, and what they hold together.
  ghost predicate Sound(sources: seq<seq<Entry>>, es: set<Entry>) {
    && (forall i {:trigger sources[i]} :: 0 <= i < |sources| ==> Ascending(sources[i]))
    && (forall i, j {:trigger NothingShared(sources[i], sources[j])} ::
          0 <= i < |sources| && 0 <= j < |sources| && i != j ==> NothingShared(sources[i], sources[j]))
    && (forall e {:trigger SourceFor(sources, e)} :: SourceFor(sources, e) <==> e in es)
  }

  lemma SourceForBoth(a: seq<seq<Entry>>, b: seq<seq<Entry>>, e: Entry)
    ensures SourceFor(a + b, e) <==> SourceFor(a, e) || SourceFor(b, e)
  {
    if i :| 0 <= i < |a| && e in a[i] {
      assert e in (a + b)[i];
    }
    if i :| 0 <= i < |b| && e in b[i] {
      assert e in (a + b)[|a| + i];
    }
  }

  lemma ApartNothingShared(a: seq<seq<Entry>>, b: seq<seq<Entry>>, es: set<Entry>, fs: set<Entry>, i: nat, j: nat)
    requires Sound(a, es) && Sound(b, fs) && es !! fs && i < |a| && j < |b|
    ensures NothingShared(a[i], b[j]) && NothingShared(b[j], a[i])
  {
    forall e | e in a[i]
      ensures e !in b[j]
    {
      assert SourceFor(a, e);
      assert e in b[j] ==> SourceFor(b, e);
    }
  }

  lemma SoundBoth(a: seq<seq<Entry>>, b: seq<seq<Entry>>, es: set<Entry>, fs: set<Entry>)
    requires Sound(a, es) && Sound(b, fs) && es !! fs
    ensures Sound(a + b, es + fs)
  {
    forall i, j | 0 <= i < |a + b| && 0 <= j < |a + b| && i != j
      ensures NothingShared((a + b)[i], (a + b)[j])
    {
      if i < |a| <= j {
        ApartNothingShared(a, b, es, fs, i, j - |a|);
      } else if j < |a| <= i {
        ApartNothingShared(a, b, es, fs, j, i - |a|);
      } else if i < |a| {
        assert NothingShared(a[i], a[j]);
      } else {
        assert NothingShared(b[i - |a|], b[j - |a|]);
      }
    }
    forall e
      ensures SourceFor(a + b, e) <==> e in es + fs
    {
      SourceForBoth(a, b, e);
    }
  }

  lemma SoundOne(es: seq<Entry>)
    requires Ascending(es)
    ensures Sound([es], Work.AsSet(es))
  {
    forall e
      ensures SourceFor([es], e) <==> e in Work.AsSet(es)
    {
      assert e in es ==> e in [es][0];
    }
  }

  lemma SoundNone()
    ensures Sound([], {})
  {
  }

  lemma MemSound(s: State)
    requires StructureInv(s)
    ensures Sound(MemSources(s), Above(s))
  {
    SoundOne(s.mem);
    if s.imm.Some? {
      SoundOne(s.imm.value);
      SoundBoth([s.mem], [s.imm.value], Work.AsSet(s.mem), Work.AsSet(s.imm.value));
    } else {
      assert MemSources(s) == [s.mem];
      assert Above(s) == Work.AsSet(s.mem);
    }
  }

  // Two files of level 0 hold no entry in common.
  lemma YoungFilesApart(files: Level, i: nat, j: nat)
    requires AgeOrdered(files) && InFileOrder(files) && i < |files| && j < |files| && i != j
    ensures NothingShared(files[i].entries, files[j].entries)
  {
    assert files[i] != files[j] by {
      if i < j {
        assert BySmallestKey(files[i], files[j]);
      } else {
        assert BySmallestKey(files[j], files[i]);
      }
    }
    assert files[i].number < files[j].number ==> OlderFile(files[i], files[j]);
    assert files[j].number < files[i].number ==> OlderFile(files[j], files[i]);
  }

  lemma YoungSound(files: Level)
    requires AllWellFormed(files) && AgeOrdered(files) && InFileOrder(files)
    ensures Sound(FileSources(files), LevelContents(files))
  {
    var sources := FileSources(files);
    forall i | 0 <= i < |sources|
      ensures Ascending(sources[i])
    {
      assert WellFormed(files[i]);
    }
    forall i, j | 0 <= i < |sources| && 0 <= j < |sources| && i != j
      ensures NothingShared(sources[i], sources[j])
    {
      YoungFilesApart(files, i, j);
    }
    forall e
      ensures SourceFor(sources, e) <==> e in LevelContents(files)
    {
      if i :| 0 <= i < |sources| && e in sources[i] {
        assert files[i] in files;
      }
      if Has(files, e) {
        var f :| f in files && e in f.entries;
        var i :| 0 <= i < |files| && files[i] == f;
        assert e in sources[i];
      }
    }
  }

  // What levels 1 to n - 1 hold.
  ghost function Deep(v: Version, n: nat): set<Entry>
    requires 1 <= n <= 7
  {
    if n == 1 then {} else Deep(v, n - 1) + LevelContents(v[n - 1])
  }

  lemma {:induction false} DeepHas(v: Version, n: nat, e: Entry)
    requires 1 <= n <= 7
    ensures e in Deep(v, n) <==> exists l :: 1 <= l < n && Has(v[l], e)
    decreases n
  {
    if n > 1 {
      DeepHas(v, n - 1, e);
    }
  }

  // A level has no entry in common with those above it.
  lemma LevelApart(v: Version, l: nat, m: nat, e: Entry)
    requires LevelOrder(v) && l < m < 7 && Has(v[l], e)
    ensures !Has(v[m], e)
  {
    assert Newer(v[l], v[m]);
  }

  lemma DeepApart(v: Version, l: nat)
    requires LevelOrder(v) && 1 <= l < 7
    ensures Deep(v, l) !! LevelContents(v[l])
  {
    forall e
      ensures !(e in Deep(v, l) && e in LevelContents(v[l]))
    {
      DeepHas(v, l, e);
      if e in Deep(v, l) {
        var k :| 1 <= k < l && Has(v[k], e);
        LevelApart(v, k, l, e);
      }
    }
  }

  lemma {:induction false} LevelsSound(v: Version, n: nat)
    requires VersionInv(v) && 1 <= n <= 7
    ensures Sound(LevelSources(v, n), Deep(v, n))
    decreases n
  {
    if n == 1 {
      SoundNone();
    } else {
      LevelsSound(v, n - 1);
      OneLevelSound(v, n - 1);
      DeepApart(v, n - 1);
      SoundBoth(LevelSources(v, n - 1), if v[n - 1] == [] then [] else [RunOf(v[n - 1], |v[n - 1]|)],
                Deep(v, n - 1), LevelContents(v[n - 1]));
    }
  }

  lemma OneLevelSound(v: Version, l: nat)
    requires VersionInv(v) && 1 <= l < 7
    ensures Sound(if v[l] == [] then [] else [RunOf(v[l], |v[l]|)], LevelContents(v[l]))
  {
    if v[l] == [] {
      SoundNone();
      assert LevelContents(v[l]) == {};
    } else {
      assert AllWellFormed(v[l]) && SortedDisjoint(v[l]);
      RunAscends(v[l], |v[l]|);
      RunHasAll(v[l]);
      SoundOne(RunOf(v[l], |v[l]|));
      assert LevelContents(v[l]) == Work.AsSet(RunOf(v[l], |v[l]|));
    }
  }

  lemma ContentsSplit(v: Version)
    requires LevelOrder(v)
    ensures Contents(v) == LevelContents(v[0]) + Deep(v, 7) && LevelContents(v[0]) !! Deep(v, 7)
  {
    forall e
      ensures e in Contents(v) <==> e in LevelContents(v[0]) + Deep(v, 7)
      ensures !(e in LevelContents(v[0]) && e in Deep(v, 7))
    {
      DeepHas(v, 7, e);
      if Has(v[0], e) && e in Deep(v, 7) {
        var l :| 1 <= l < 7 && Has(v[l], e);
        LevelApart(v, 0, l, e);
      }
    }
  }

  lemma VersionSound(v: Version)
    requires VersionInv(v) && InFileOrder(v[0])
    ensures Sound(FileSources(v[0]) + LevelSources(v, 7), Contents(v))
  {
    YoungSound(v[0]);
    LevelsSound(v, 7);
    ContentsSplit(v);
    SoundBoth(FileSources(v[0]), LevelSources(v, 7), LevelContents(v[0]), Deep(v, 7));
  }

  lemma AboveApart(s: State)
    requires SourcesOrdered(s)
    ensures Above(s) !! Contents(s.version)
  {
    forall e
      ensures !(e in Above(s) && Stored(s.version, e))
    {
      assert e in Above(s) ==> e in s.mem || e in Immutable(s);
    }
  }

  // The iterators of a database are sorted, share no entry, and hold what the database holds.
  lemma SourcesSound(s: State)
    requires StructureInv(s)
    ensures Sound(Sources(s), All(s))
  {
    MemSound(s);
    assert InFileOrder(s.version[0]);
    VersionSound(s.version);
    AboveApart(s);
    SoundBoth(MemSources(s), FileSources(s.version[0]) + LevelSources(s.version, 7), Above(s), Contents(s.version));
  }

  // ---------- the union ----------

  function MergeAll(sources: seq<seq<Entry>>, n: nat): seq<Entry>
    requires n <= |sources|
  {
    if n == 0 then [] else Memtable.Merge(MergeAll(sources, n - 1), sources[n - 1])
  }

  lemma {:induction false} MergedIsSorted(sources: seq<seq<Entry>>, es: set<Entry>, n: nat)
    requires Sound(sources, es) && UniqueSequences(es) && n <= |sources|
    ensures Ascending(MergeAll(sources, n))
    ensures forall e :: e in MergeAll(sources, n) <==> exists i :: 0 <= i < n && e in sources[i]
    decreases n
  {
    if n > 0 {
      MergedIsSorted(sources, es, n - 1);
      forall x, y | x in MergeAll(sources, n - 1) && y in sources[n - 1] && x.ikey.sequence == y.ikey.sequence
        ensures x == y
      {
        assert SourceFor(sources, x) && SourceFor(sources, y);
      }
      assert Ascending(sources[n - 1]);
      Memtable.MergeIsSortedUnion(MergeAll(sources, n - 1), sources[n - 1]);
    }
  }

  lemma MergedIsUnion(sources: seq<seq<Entry>>, es: set<Entry>)
    requires Sound(sources, es) && UniqueSequences(es)
    ensures IsUnion(sources, MergeAll(sources, |sources|))
    ensures forall e :: e in MergeAll(sources, |sources|) <==> e in es
  {
    var union := MergeAll(sources, |sources|);
    MergedIsSorted(sources, es, |sources|);
    forall i | 0 <= i < |sources|
      ensures PartOf(sources[i], union)
    {
      forall x | 0 <= x < |sources[i]|
        ensures sources[i][x] in union
      {
        assert sources[i][x] in sources[i];
      }
    }
    forall e
      ensures e in union <==> SourceFor(sources, e)
    {
    }
  }

  // The entries an iterator of the database goes through.
  function AllInOrder(s: State): seq<Entry> {
    MergeAll(Sources(s), |Sources(s)|)
  }

  // Going through a database at a snapshot shows exactly the keys and values that were
  // written and are visible at the snapshot, in ascending order.
  lemma IteratorShowsHistory(s: State, q: nat)
    requires StructureInv(s) && ReadsAgree(s) && q >= Floor(s)
    ensures IsUnion(Sources(s), AllInOrder(s)) && Ascending(AllInOrder(s))
    ensures forall u, x :: (u, x) in View(AllInOrder(s), q) <==> Read(s.history, u, q) == Some(x)
    ensures forall i, j :: 0 <= i < j < |View(AllInOrder(s), q)| ==> View(AllInOrder(s), q)[i].0 < View(AllInOrder(s), q)[j].0
  {
    SourcesSound(s);
    MergedIsUnion(Sources(s), All(s));
    ViewAscends(AllInOrder(s), q, |AllInOrder(s)|);
    forall u, x
      ensures (u, x) in View(AllInOrder(s), q) <==> Read(s.history, u, q) == Some(x)
    {
      ViewIsSimpleMap(AllInOrder(s), q, All(s), u, x);
    }
  }

  // ---------- the code ----------

  // A list of iterators, each at its own place, over these sources.
  ghost predicate Over(iters: seq<EntryIterator>, sources: seq<seq<Entry>>) {
    && |iters| == |sources|
    && (forall i :: 0 <= i < |iters| ==> iters[i].entries == sources[i])
    && forall i, j :: 0 <= i < j < |iters| ==> iters[i] != iters[j]
  }

  method AddIterator(iters: seq<EntryIterator>, entries: seq<Entry>, ghost sources: seq<seq<Entry>>)
    returns (more: seq<EntryIterator>)
    requires Over(iters, sources)
    ensures Over(more, sources + [entries]) && iters <= more && |more| == |iters| + 1 && fresh(more[|iters|])
  {
    var iter := new EntryIterator(entries);
    more := iters + [iter];
  }

  // Version::AddIterators.
  method AddIterators(v: Version, iters: seq<EntryIterator>, ghost sources: seq<seq<Entry>>)
    returns (more: seq<EntryIterator>)
    requires Over(iters, sources)
    ensures Over(more, sources + (FileSources(v[0]) + LevelSources(v, 7)))
  {
    more := AddFiles(v[0], iters, sources);
    ghost var before := sources + FileSources(v[0]);
    assert before + [] == before;
    for level := 1 to 7
      invariant Over(more, before + LevelSources(v, level))
    {
      ghost var so := before + LevelSources(v, level);
      if v[level] != [] {
        more := AddIterator(more, RunOf(v[level], |v[level]|), so);
        assert so + [RunOf(v[level], |v[level]|)] == before + LevelSources(v, level + 1);
      } else {
        assert LevelSources(v, level + 1) == LevelSources(v, level);
      }
    }
    assert before + LevelSources(v, 7) == sources + (FileSources(v[0]) + LevelSources(v, 7));
  }

  method AddFiles(files: Level, iters: seq<EntryIterator>, ghost sources: seq<seq<Entry>>)
    returns (more: seq<EntryIterator>)
    requires Over(iters, sources)
    ensures Over(more, sources + FileSources(files))
  {
    more := iters;
    assert sources + FileSources(files[..0]) == sources;
    for i := 0 to |files|
      invariant Over(more, sources + FileSources(files[..i]))
    {
      more := AddIterator(more, files[i].entries, sources + FileSources(files[..i]));
      assert FileSources(files[..i + 1]) == FileSources(files[..i]) + [files[i].entries];
      assert sources + FileSources(files[..i]) + [files[i].entries] == sources + FileSources(files[..i + 1]);
    }
    assert files[..|files|] == files;
  }

  // DBImpl::NewInternalIterator: a merging iterator over all entries of the database.
  method NewInternalIterator(s: State) returns (iter: MergingIterator)
    requires StructureInv(s)
    ensures fresh(iter) && iter.Ok() && iter.union == AllInOrder(s)
  {
    var list := AddIterator([], s.mem, []);
    assert [] + [s.mem] == [s.mem];
    if s.imm.Some? {
      list := AddIterator(list, s.imm.value, [s.mem]);
    } else {
      assert MemSources(s) == [s.mem];
    }
    list := AddIterators(s.version, list, MemSources(s));
    SourcesSound(s);
    MergedIsUnion(Sources(s), All(s));
    assert seq(|list|, i requires 0 <= i < |list| => list[i].entries) == Sources(s);
    iter := new MergingIterator(list, AllInOrder(s));
  }
}
