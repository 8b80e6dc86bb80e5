/** Running a compaction: Compaction::IsBaseLevelForKey and ShouldStopBefore
  (db/version_set.cc) and the loop of DBImpl::DoCompactionWork (db/db_impl.cc). */
module CompactionWork {
  import opened Keys
  import opened Reads
  import opened CompactionMeaning
  import opened VersionModel

  // No file below level+1 has `u` in its key range.
  ghost predicate BaseLevel(v: Version, level: nat, u: UserKey) {
    forall l, i :: level + 2 <= l < 7 && 0 <= i < |v[l]| ==> !Covers(v[l][i], u)
  }

  ghost function BaseKeys(v: Version, level: nat): iset<UserKey> {
    iset u | BaseLevel(v, level, u)
  }

  // The bytes of the files from i to before j.
  function SizeBetween(files: Level, i: nat, j: nat): nat
    requires i <= j <= |files|
  {
    if i == j then 0 else SizeBetween(files, i, j - 1) + files[j - 1].size
  }

  class Compaction {
    const version: Version
    const level: nat
    const grandparents: Level
    const maxGrandparentOverlap: nat
    const levelPtrs: array<nat>
    var grandparentIndex: nat
    var seenKey: bool
    var overlappedBytes: nat
    ghost var lastAsked: UserKey

    constructor (version: Version, level: nat, grandparents: Level, maxGrandparentOverlap: nat, ghost first: UserKey)
      requires level < 6
      requires forall l :: 1 <= l < 7 ==> AllWellFormed(version[l]) && SortedDisjoint(version[l])
      ensures Valid() && lastAsked == first && fresh(levelPtrs)
      ensures this.version == version && this.level == level
    {
      this.version := version;
      this.level := level;
      this.grandparents := grandparents;
      this.maxGrandparentOverlap := maxGrandparentOverlap;
      levelPtrs := new nat[7](_ => 0);
      grandparentIndex, seenKey, overlappedBytes := 0, false, 0;
      lastAsked := first;
    }

    // The cursors only ever pass files that end before the last key asked about.
    ghost predicate Valid()
      reads this, levelPtrs
    {
      && level < 6
      && levelPtrs.Length == 7
      && grandparentIndex <= |grandparents|
      && (forall l :: 1 <= l < 7 ==> AllWellFormed(version[l]) && SortedDisjoint(version[l]))
      && (forall l :: 0 <= l < 7 ==> levelPtrs[l] <= |version[l]|)
      && (forall l, i :: 0 <= l < 7 && 0 <= i < levelPtrs[l] ==> version[l][i].largest.user < lastAsked)
    }

    // Asked about ascending user keys, the cursors give the same answer as a full scan.
    method IsBaseLevelForKey(u: UserKey) returns (base: bool)
      requires Valid() && lastAsked <= u
      modifies this`lastAsked, levelPtrs
      ensures Valid() && lastAsked == u
      ensures base <==> BaseLevel(version, level, u)
    {
      lastAsked := u;
      for lvl := level + 2 to 7
        invariant Valid() && lastAsked == u
        invariant forall l, i :: level + 2 <= l < lvl && 0 <= i < |version[l]| ==> !Covers(version[l][i], u)
      {
        var files := version[lvl];
        while levelPtrs[lvl] < |files|
          invariant Valid() && lastAsked == u
          decreases |files| - levelPtrs[lvl]
        {
          var f := files[levelPtrs[lvl]];
          if u <= f.largest.user {
            if u >= f.smallest.user {
              assert Covers(version[lvl][levelPtrs[lvl]], u);
              return false;
            }
            break;
          }
          levelPtrs[lvl] := levelPtrs[lvl] + 1;
        }
        PastCursor(files, levelPtrs[lvl], u);
      }
      base := true;
    }

    // True once the output overlaps too many grandparent bytes: those of the files that the
    // keys have passed since the output was begun.
    method ShouldStopBefore(key: InternalKey) returns (stop: bool)
      requires Valid()
      modifies this`grandparentIndex, this`seenKey, this`overlappedBytes
      ensures Valid() && seenKey && grandparentIndex >= old(grandparentIndex)
      ensures forall i :: old(grandparentIndex) <= i < grandparentIndex ==> Less(grandparents[i].largest, key)
      ensures grandparentIndex < |grandparents| ==> !Less(grandparents[grandparentIndex].largest, key)
      ensures var passed := if old(seenKey) then SizeBetween(grandparents, old(grandparentIndex), grandparentIndex) else 0;
              && (stop <==> old(overlappedBytes) + passed > maxGrandparentOverlap)
              && overlappedBytes == if stop then 0 else old(overlappedBytes) + passed
    {
      while grandparentIndex < |grandparents| && Less(grandparents[grandparentIndex].largest, key)
        invariant Valid() && grandparentIndex >= old(grandparentIndex) && seenKey == old(seenKey)
        invariant forall i :: old(grandparentIndex) <= i < grandparentIndex ==> Less(grandparents[i].largest, key)
        invariant overlappedBytes == old(overlappedBytes)
                                     + if seenKey then SizeBetween(grandparents, old(grandparentIndex), grandparentIndex) else 0
        decreases |grandparents| - grandparentIndex
      {
        if seenKey {
          overlappedBytes := overlappedBytes + grandparents[grandparentIndex].size;
        }
        grandparentIndex := grandparentIndex + 1;
      }
      seenKey := true;
      stop := overlappedBytes > maxGrandparentOverlap;
      if stop {
        overlappedBytes := 0;
      }
    }
  }

  lemma PastCursor(files: Level, ptr: nat, u: UserKey)
    requires AllWellFormed(files) && SortedDisjoint(files) && ptr <= |files|
    requires forall i :: 0 <= i < ptr ==> files[i].largest.user < u
    requires ptr < |files| ==> u < files[ptr].smallest.user
    ensures forall i :: 0 <= i < |files| ==> !Covers(files[i], u)
  {
    forall i | ptr < i < |files|
      ensures u < files[i].smallest.user
    {
      FileRange(files[ptr]);
    }
  }

  // ---------- the drop rules, entry by entry ----------

  // Rule (A) looks at the entry just before in the merged input; the tombstone rule at the
  // deeper levels.
  ghost predicate Drop(input: seq<Entry>, i: nat, ss: nat, base: iset<UserKey>)
    requires i < |input|
  {
    || (i > 0 && input[i - 1].ikey.user == input[i].ikey.user && input[i - 1].ikey.sequence <= ss)
    || Obsolete(ss, base, input[i])
  }

  ghost function KeptFirst(input: seq<Entry>, n: nat, ss: nat, base: iset<UserKey>): (r: seq<Entry>)
    requires n <= |input|
  {
    if n == 0 then [] else
      KeptFirst(input, n - 1, ss, base) + (if Drop(input, n - 1, ss, base) then [] else [input[n - 1]])
  }

  ghost function AsSet(es: seq<Entry>): (r: set<Entry>)
    ensures forall e :: e in r <==> e in es
  {
    set e | e in es
  }

  // Newer entries of a key come first.
  ghost predicate NewestFirst(input: seq<Entry>) {
    && Ascending(input)
    && forall i, j :: 0 <= i < j < |input| && input[i].ikey.user == input[j].ikey.user
                      ==> input[i].ikey.sequence > input[j].ikey.sequence
  }

  lemma AscendingIsNewestFirst(input: seq<Entry>, all: set<Entry>)
    requires Ascending(input) && UniqueSequences(all) && forall e :: e in input ==> e in all
    ensures NewestFirst(input)
  {
    forall i, j | 0 <= i < j < |input| && input[i].ikey.user == input[j].ikey.user
      ensures input[i].ikey.sequence > input[j].ikey.sequence
    {
      assert Less(input[i].ikey, input[j].ikey);
      assert input[i] in all && input[j] in all;
    }
  }

  // Looking one entry back is enough: (A) is "some newer entry is already seen by all".
  lemma DropIsHiddenOrObsolete(input: seq<Entry>, i: nat, ss: nat, base: iset<UserKey>)
    requires NewestFirst(input) && i < |input|
    ensures Drop(input, i, ss, base) <==> Hidden(AsSet(input), ss, input[i]) || Obsolete(ss, base, input[i])
  {
    if Hidden(AsSet(input), ss, input[i]) {
      var n :| n in AsSet(input) && n.ikey.user == input[i].ikey.user && input[i].ikey.sequence < n.ikey.sequence <= ss;
      var k :| 0 <= k < |input| && input[k] == n;
      assert k < i;
      if k < i - 1 {
        assert Less(input[k].ikey, input[i - 1].ikey) && Less(input[i - 1].ikey, input[i].ikey);
      }
    }
  }

  lemma {:induction false} KeptFirstMembers(input: seq<Entry>, n: nat, ss: nat, base: iset<UserKey>)
    requires n <= |input|
    ensures forall e :: e in KeptFirst(input, n, ss, base)
                        <==> exists i :: 0 <= i < n && input[i] == e && !Drop(input, i, ss, base)
  {
    if n > 0 {
      KeptFirstMembers(input, n - 1, ss, base);
    }
  }

  // The loop keeps exactly the entries that the set-level rules keep.
  lemma KeptIsKept(input: seq<Entry>, ss: nat, base: iset<UserKey>)
    requires NewestFirst(input)
    ensures AsSet(KeptFirst(input, |input|, ss, base)) == Kept(AsSet(input), ss, base)
  {
    KeptFirstMembers(input, |input|, ss, base);
    forall i | 0 <= i < |input|
      ensures Drop(input, i, ss, base) <==> Hidden(AsSet(input), ss, input[i]) || Obsolete(ss, base, input[i])
    {
      DropIsHiddenOrObsolete(input, i, ss, base);
    }
  }

  // Two entries of a key that are old enough: the later one is dropped.
  lemma LaterIsDropped(input: seq<Entry>, i: nat, j: nat, ss: nat, base: iset<UserKey>)
    requires Ascending(input) && i < j < |input| && input[i].ikey.user == input[j].ikey.user && input[i].ikey.sequence <= ss
    ensures Drop(input, j, ss, base)
  {
    assert Less(input[i].ikey, input[j].ikey);
    if i < j - 1 {
      assert Less(input[i].ikey, input[j - 1].ikey) && Less(input[j - 1].ikey, input[j].ikey);
    }
  }

  lemma KeptFirstIsLean(input: seq<Entry>, ss: nat, base: iset<UserKey>)
    requires Ascending(input)
    ensures Lean(AsSet(KeptFirst(input, |input|, ss, base)), ss, base)
  {
    var kept := AsSet(KeptFirst(input, |input|, ss, base));
    KeptFirstMembers(input, |input|, ss, base);
    forall a, b | a in kept && b in kept && a.ikey.user == b.ikey.user && a.ikey.sequence <= ss && b.ikey.sequence <= ss
      ensures a.ikey.sequence == b.ikey.sequence
    {
      var i :| 0 <= i < |input| && input[i] == a && !Drop(input, i, ss, base);
      var j :| 0 <= j < |input| && input[j] == b && !Drop(input, j, ss, base);
      if i < j {
        LaterIsDropped(input, i, j, ss, base);
      } else if j < i {
        LaterIsDropped(input, j, i, ss, base);
      }
    }
  }

  lemma {:induction false} KeptFirstAscending(input: seq<Entry>, n: nat, ss: nat, base: iset<UserKey>)
    requires n <= |input| && Ascending(input)
    ensures Ascending(KeptFirst(input, n, ss, base))
  {
    if n > 0 {
      KeptFirstAscending(input, n - 1, ss, base);
      KeptFirstMembers(input, n - 1, ss, base);
      var front := KeptFirst(input, n - 1, ss, base);
      assert forall k :: 0 <= k < |front| ==> front[k] in front;
    }
  }

  // ---------- output files ----------

  function Flatten(files: Level): seq<Entry> {
    if files == [] then [] else Flatten(files[..|files| - 1]) + files[|files| - 1].entries
  }

  // Every output file is a non-empty run of entries with its own key range and a new number.
  ghost predicate OutputFiles(files: Level, firstNumber: nat) {
    forall i :: 0 <= i < |files| ==>
      var f := files[i];
      && |f.entries| > 0
      && f.smallest == f.entries[0].ikey
      && f.largest == f.entries[|f.entries| - 1].ikey
      && f.number == firstNumber + i
  }

  lemma {:induction false} FlattenMembers(files: Level)
    ensures forall e :: e in Flatten(files) <==> Has(files, e)
  {
    if files != [] {
      var n := |files| - 1;
      FlattenMembers(files[..n]);
      assert forall f :: f in files <==> f in files[..n] || f == files[n];
    }
  }

  // What comes before another run of an ascending sequence is below it.
  lemma RunsAscend(front: seq<Entry>, back: seq<Entry>)
    requires Ascending(front + back)
    ensures Ascending(front) && Ascending(back)
    ensures forall e :: e in front && back != [] ==> Less(e.ikey, back[0].ikey)
  {
    var all := front + back;
    assert forall i :: 0 <= i < |front| ==> front[i] == all[i];
    assert forall i :: 0 <= i < |back| ==> back[i] == all[|front| + i];
  }

  lemma {:induction false} OutputsSorted(files: Level, firstNumber: nat)
    requires OutputFiles(files, firstNumber) && Ascending(Flatten(files))
    ensures AllWellFormed(files) && SortedDisjoint(files)
  {
    if files != [] {
      var n := |files| - 1;
      var init, last := files[..n], files[n];
      RunsAscend(Flatten(init), last.entries);
      OutputsSorted(init, firstNumber);
      FlattenMembers(init);
      LastKeysBelow(init, firstNumber, last.smallest);
      assert files == init + [last];
      assert Ascending(last.entries) && WellFormed(last);
    }
  }

  lemma LastKeysBelow(files: Level, firstNumber: nat, k: InternalKey)
    requires OutputFiles(files, firstNumber) && forall e :: Has(files, e) ==> Less(e.ikey, k)
    ensures forall f :: f in files ==> Less(f.largest, k)
  {
    forall f | f in files
      ensures Less(f.largest, k)
    {
      var e := f.entries[|f.entries| - 1];
      assert e in f.entries && Has(files, e);
    }
  }

  // The state of the output side: finished files and the open builder.
  datatype Outputs = Outputs(files: Level, building: seq<Entry>)

  ghost predicate OutputsOk(o: Outputs, firstNumber: nat, written: seq<Entry>) {
    OutputFiles(o.files, firstNumber) && Flatten(o.files) + o.building == written
  }

  // A file ends as soon as it is big enough.
  ghost predicate ClosedInTime(es: seq<Entry>, maxSize: nat, tableSize: seq<Entry> -> nat) {
    forall n :: 0 < n < |es| ==> tableSize(es[..n]) < maxSize
  }

  ghost predicate AllClosedInTime(files: Level, maxSize: nat, tableSize: seq<Entry> -> nat) {
    forall i :: 0 <= i < |files| ==> ClosedInTime(files[i].entries, maxSize, tableSize)
  }

  ghost predicate SizesOk(o: Outputs, maxSize: nat, tableSize: seq<Entry> -> nat) {
    && AllClosedInTime(o.files, maxSize, tableSize) && ClosedInTime(o.building, maxSize, tableSize)
    && (o.building != [] ==> tableSize(o.building) < maxSize)
  }

  lemma FlattenMore(files: Level, f: FileMetaData)
    ensures Flatten(files + [f]) == Flatten(files) + f.entries
  {
    assert (files + [f])[..|files|] == files;
  }

  lemma OneMoreFile(files: Level, f: FileMetaData, firstNumber: nat)
    requires OutputFiles(files, firstNumber) && f.entries != [] && f.number == firstNumber + |files|
    requires f.smallest == f.entries[0].ikey && f.largest == f.entries[|f.entries| - 1].ikey
    ensures OutputFiles(files + [f], firstNumber)
  {
  }

  // FinishCompactionOutputFile.
  method FinishOutput(o: Outputs, firstNumber: nat, tableSize: seq<Entry> -> nat, ghost written: seq<Entry>) returns (r: Outputs)
    requires o.building != [] && OutputsOk(o, firstNumber, written)
    ensures OutputsOk(r, firstNumber, written) && r.building == []
    ensures |r.files| == |o.files| + 1 && r.files[..|o.files|] == o.files && r.files[|o.files|].entries == o.building
  {
    var b := o.building;
    var f := FileMetaData(firstNumber + |o.files|, tableSize(b), b[0].ikey, b[|b| - 1].ikey, b);
    OneMoreFile(o.files, f, firstNumber);
    FlattenMore(o.files, f);
    r := Outputs(o.files + [f], []);
  }

  // Adding one entry, and closing the output file once it is big enough.
  method AddToOutput(o: Outputs, e: Entry, firstNumber: nat, maxOutputFileSize: nat, tableSize: seq<Entry> -> nat,
                     ghost written: seq<Entry>)
    returns (r: Outputs)
    requires OutputsOk(o, firstNumber, written) && SizesOk(o, maxOutputFileSize, tableSize)
    ensures OutputsOk(r, firstNumber, written + [e]) && SizesOk(r, maxOutputFileSize, tableSize)
  {
    r := Outputs(o.files, o.building + [e]);
    assert Flatten(o.files) + r.building == written + [e];
    OneMoreEntry(o.building, e, maxOutputFileSize, tableSize);
    if tableSize(r.building) >= maxOutputFileSize {
      ghost var full := r;
      r := FinishOutput(r, firstNumber, tableSize, written + [e]);
      OneMoreClosed(full, r, maxOutputFileSize, tableSize);
    }
  }

  lemma OneMoreEntry(es: seq<Entry>, e: Entry, maxSize: nat, tableSize: seq<Entry> -> nat)
    requires ClosedInTime(es, maxSize, tableSize) && (es != [] ==> tableSize(es) < maxSize)
    ensures ClosedInTime(es + [e], maxSize, tableSize)
  {
    forall n | 0 < n < |es + [e]|
      ensures tableSize((es + [e])[..n]) < maxSize
    {
      if n < |es| {
        assert (es + [e])[..n] == es[..n];
      } else {
        assert (es + [e])[..n] == es;
      }
    }
  }

  lemma OneMoreClosed(o: Outputs, r: Outputs, maxSize: nat, tableSize: seq<Entry> -> nat)
    requires AllClosedInTime(o.files, maxSize, tableSize) && ClosedInTime(o.building, maxSize, tableSize) && r.building == []
    requires |r.files| == |o.files| + 1 && r.files[..|o.files|] == o.files && r.files[|o.files|].entries == o.building
    ensures SizesOk(r, maxSize, tableSize)
  {
    forall i | 0 <= i < |r.files|
      ensures ClosedInTime(r.files[i].entries, maxSize, tableSize)
    {
      assert i < |o.files| ==> r.files[i] == o.files[i];
    }
  }

  // Cutting the output before the next entry, if there is any.
  method CutOutput(o: Outputs, firstNumber: nat, maxOutputFileSize: nat, tableSize: seq<Entry> -> nat, ghost written: seq<Entry>)
    returns (r: Outputs)
    requires OutputsOk(o, firstNumber, written) && SizesOk(o, maxOutputFileSize, tableSize)
    ensures OutputsOk(r, firstNumber, written) && SizesOk(r, maxOutputFileSize, tableSize) && r.building == []
  {
    r := o;
    if o.building != [] {
      r := FinishOutput(o, firstNumber, tableSize, written);
      OneMoreClosed(o, r, maxOutputFileSize, tableSize);
    }
  }

  // The drop decision for one entry, given the sequence number remembered for its key.
  method DecideDrop(c: Compaction, e: Entry, lastSequenceForKey: nat, smallestSnapshot: nat) returns (drop: bool)
    requires c.Valid() && c.lastAsked <= e.ikey.user
    modifies c`lastAsked, c.levelPtrs
    ensures c.Valid() && c.lastAsked <= e.ikey.user
    ensures drop <==> lastSequenceForKey <= smallestSnapshot
                      || Obsolete(smallestSnapshot, BaseKeys(c.version, c.level), e)
  {
    drop := false;
    if lastSequenceForKey <= smallestSnapshot {
      drop := true;  // (A)
    } else if e.ikey.kind.Deletion? && e.ikey.sequence <= smallestSnapshot {
      drop := c.IsBaseLevelForKey(e.ikey.user);
    }
  }

  // What the loop remembers when it reaches entry `i`.
  ghost predicate Remembers(input: seq<Entry>, i: nat, hasKey: bool, key: UserKey, lastSequence: nat)
    requires i <= |input|
  {
    && (hasKey <==> i > 0)
    && (i > 0 ==> key == input[i - 1].ikey.user && lastSequence == input[i - 1].ikey.sequence)
  }

  // The outputs for the first i entries.
  ghost predicate Written(o: Outputs, firstNumber: nat, maxOutputFileSize: nat, tableSize: seq<Entry> -> nat,
      input: seq<Entry>, i: nat, ss: nat, base: iset<UserKey>)
    requires i <= |input|
  {
    OutputsOk(o, firstNumber, KeptFirst(input, i, ss, base)) && SizesOk(o, maxOutputFileSize, tableSize)
  }

  // Once around the loop, for an entry that is not the first of its key unless the remembered
  // number says so.
  method CompactEntry(c: Compaction, ghost input: seq<Entry>, ghost i: nat, e: Entry, lastSequenceForKey: nat, smallestSnapshot: nat,
      o: Outputs, firstNumber: nat, maxOutputFileSize: nat, tableSize: seq<Entry> -> nat)
    returns (r: Outputs)
    requires c.Valid() && i < |input| && e == input[i] && c.lastAsked <= e.ikey.user
    requires Written(o, firstNumber, maxOutputFileSize, tableSize, input, i, smallestSnapshot, BaseKeys(c.version, c.level))
    requires lastSequenceForKey <= smallestSnapshot <==>
             i > 0 && input[i - 1].ikey.user == e.ikey.user && input[i - 1].ikey.sequence <= smallestSnapshot
    modifies c, c.levelPtrs
    ensures c.Valid() && c.lastAsked <= e.ikey.user
    ensures Written(r, firstNumber, maxOutputFileSize, tableSize, input, i + 1, smallestSnapshot, BaseKeys(c.version, c.level))
  {
    ghost var base := BaseKeys(c.version, c.level);
    ghost var written := KeptFirst(input, i, smallestSnapshot, base);
    r := o;
    var stop := c.ShouldStopBefore(e.ikey);
    if stop {
      r := CutOutput(o, firstNumber, maxOutputFileSize, tableSize, written);
    }
    var drop := DecideDrop(c, e, lastSequenceForKey, smallestSnapshot);
    assert drop <==> Drop(input, i, smallestSnapshot, base);
    if !drop {
      r := AddToOutput(r, e, firstNumber, maxOutputFileSize, tableSize, written);
    }
  }

  // The loop of DoCompactionWork over the merged input. `tableSize` stands for what the
  // table builder reports; it and the grandparents only decide where output files end.
  method DoCompactionWork(c: Compaction, input: seq<Entry>, smallestSnapshot: nat, firstNumber: nat,
                          maxOutputFileSize: nat, tableSize: seq<Entry> -> nat)
    returns (outputs: Level)
    requires c.Valid() && Ascending(input)
    requires input != [] ==> c.lastAsked <= input[0].ikey.user
    requires smallestSnapshot < MAX_SEQUENCE_NUMBER
    modifies c, c.levelPtrs
    ensures Flatten(outputs) == KeptFirst(input, |input|, smallestSnapshot, BaseKeys(c.version, c.level))
    ensures OutputFiles(outputs, firstNumber)
    ensures AllWellFormed(outputs) && SortedDisjoint(outputs)
    ensures Lean(AsSet(Flatten(outputs)), smallestSnapshot, BaseKeys(c.version, c.level))
    ensures AllClosedInTime(outputs, maxOutputFileSize, tableSize)
  {
    KeptFirstIsLean(input, smallestSnapshot, BaseKeys(c.version, c.level));
    ghost var base := BaseKeys(c.version, c.level);
    var o := Outputs([], []);
    var currentUserKey := 0.0;
    var hasCurrentUserKey := false;
    var lastSequenceForKey: nat := MAX_SEQUENCE_NUMBER;
    for i := 0 to |input|
      invariant c.Valid()
      invariant i < |input| ==> c.lastAsked <= input[i].ikey.user
      invariant Remembers(input, i, hasCurrentUserKey, currentUserKey, lastSequenceForKey)
      invariant Written(o, firstNumber, maxOutputFileSize, tableSize, input, i, smallestSnapshot, base)
    {
      var e := input[i];
      if !hasCurrentUserKey || e.ikey.user != currentUserKey {
        // First occurrence of this user key
        currentUserKey := e.ikey.user;
        hasCurrentUserKey := true;
        lastSequenceForKey := MAX_SEQUENCE_NUMBER;
      }
      o := CompactEntry(c, input, i, e, lastSequenceForKey, smallestSnapshot, o, firstNumber, maxOutputFileSize, tableSize);
      lastSequenceForKey := e.ikey.sequence;
      assert i + 1 < |input| ==> Less(e.ikey, input[i + 1].ikey);
    }
    o := CutOutput(o, firstNumber, maxOutputFileSize, tableSize, KeptFirst(input, |input|, smallestSnapshot, base));
    outputs := o.files;
    KeptFirstAscending(input, |input|, smallestSnapshot, base);
    assert Flatten(outputs) == KeptFirst(input, |input|, smallestSnapshot, base);
    OutputsSorted(outputs, firstNumber);
  }
}
