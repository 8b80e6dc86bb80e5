/** DBImpl (db/db_impl.cc): the database object. Every method takes one step of the state
  machine in DatabaseModel, running the real algorithms; Get reads through memtable,
  immutable memtable and files and returns what the history of writes says. */
module Database {
  import opened Wrappers
  import opened Keys
  import opened Reads
  import opened VersionModel
  import opened VersionBuilder
  import opened CompactionInputs
  import opened CompactionSetup
  import opened CompactionMeaning
  import Work = CompactionWork
  import opened VersionSteps
  import opened DatabaseModel
  import opened StoreMeaning
  import VersionGet
  import Memtable

  // ---------- picking the level for a flushed memtable ----------

  lemma SequencesBounded(s: State, l: nat)
    requires StructureInv(s) && l < 7
    ensures forall f :: f in s.version[l] ==> f.largest.sequence <= MAX_SEQUENCE_NUMBER
  {
    forall f | f in s.version[l]
      ensures f.largest.sequence <= MAX_SEQUENCE_NUMBER
    {
      assert AllWellFormed(s.version[l]) && WellFormed(f);
      var e := f.entries[|f.entries| - 1];
      assert e in f.entries && Has(s.version[l], e);
      assert e in All(s);
    }
  }

  method OverlapInLevel(v: Version, level: nat, smallest: UserKey, largest: UserKey) returns (overlap: bool)
    requires level < 7 && AllWellFormed(v[level]) && (level > 0 ==> SortedDisjoint(v[level]))
    requires forall f :: f in v[level] ==> f.largest.sequence <= MAX_SEQUENCE_NUMBER
    ensures overlap <==> exists f :: f in v[level] && Overlaps(f, Some(smallest), Some(largest))
  {
    overlap := VersionGet.SomeFileOverlapsRange(level > 0, v[level], Some(smallest), Some(largest));
  }

  ghost predicate OverlapsAt(v: Version, l: nat, smallest: UserKey, largest: UserKey) {
    l < 7 && exists g :: g in v[l] && Overlaps(g, Some(smallest), Some(largest))
  }

  // A memtable is not pushed to this level: it overlaps there, or overlaps too many bytes of
  // the level below.
  ghost predicate Blocked(v: Version, l: nat, smallest: UserKey, largest: UserKey, grandparentLimit: nat) {
    || OverlapsAt(v, l, smallest, largest)
    || (l + 1 < 7 && TotalFileSize(Select(v[l + 1], Some(smallest), Some(largest))) > grandparentLimit)
  }

  // Level 0 when something overlaps there; else as deep as nothing blocks, at most level 2.
  ghost predicate PickedLevel(v: Version, smallest: UserKey, largest: UserKey, grandparentLimit: nat, level: nat) {
    && level <= 2
    && (OverlapsAt(v, 0, smallest, largest) ==> level == 0)
    && (forall l :: 0 < l <= level ==> !Blocked(v, l, smallest, largest, grandparentLimit))
    && (level < 2 && !OverlapsAt(v, 0, smallest, largest) ==> Blocked(v, level + 1, smallest, largest, grandparentLimit))
  }

  method PickLevelForMemTableOutput(ghost s: State, v: Version, smallest: UserKey, largest: UserKey, grandparentLimit: nat)
    returns (level: nat)
    requires StructureInv(s) && v == s.version
    ensures PickedLevel(v, smallest, largest, grandparentLimit, level)
  {
    level := 0;
    SequencesBounded(s, 0);
    assert AllWellFormed(v[0]);
    var overlap := OverlapInLevel(v, 0, smallest, largest);
    if !overlap {
      while level < 2
        invariant 0 <= level <= 2
        invariant forall l :: 0 < l <= level ==> !Blocked(v, l, smallest, largest, grandparentLimit)
      {
        SequencesBounded(s, level + 1);
        assert AllWellFormed(v[level + 1]) && SortedDisjoint(v[level + 1]);
        overlap := OverlapInLevel(v, level + 1, smallest, largest);
        if overlap {
          break;
        }
        ghost var b, e;
        var overlaps;
        overlaps, b, e := GetOverlappingInputs(v[level + 2], level + 2, Some(smallest), Some(largest));
        if TotalFileSize(overlaps) > grandparentLimit {
          break;
        }
        level := level + 1;
      }
    }
  }

  // Nothing overlaps the memtable down to the level it goes to.
  lemma PickedIsFree(v: Version, smallest: UserKey, largest: UserKey, grandparentLimit: nat, level: nat)
    requires PickedLevel(v, smallest, largest, grandparentLimit, level)
    ensures level > 0 ==> forall l, g :: 0 <= l <= level && g in v[l] ==> !Overlaps(g, Some(smallest), Some(largest))
  {
    if level > 0 {
      forall l, g | 0 <= l <= level && g in v[l]
        ensures !Overlaps(g, Some(smallest), Some(largest))
      {
        assert l > 0 ==> !Blocked(v, l, smallest, largest, grandparentLimit);
        assert !OverlapsAt(v, l, smallest, largest);
      }
    }
  }

  // ---------- installing an edit on one level ----------

  method InstallLevel(before: Level, removed: Level, added: Level) returns (after: Level)
    requires InFileOrder(before) && InFileOrder(added)
    requires forall f, g :: f in before && g in removed && f.number == g.number ==> f == g
    requires forall f, g :: f in before && g in added ==> f.number != g.number
    ensures LevelBecomes(before, after, removed, added)
  {
    var state := Apply(EMPTY_STATE, LevelEdit(set f | f in removed :: f.number, set f | f in added));
    after := SaveTo(before, added, state.deletedFiles);
    SavedInOrder(before, added, state.deletedFiles);
    assert AsSet(added) == state.addedFiles;
    forall f
      ensures f in after <==> (f in before && f !in removed) || f in added
    {
      assert f in after <==> f in AsSet(after);
      assert f in added ==> f.number in Numbers(AsSet(added));
    }
  }

  // ---------- the merged input of a compaction ----------

  // MakeInputIterator over all files of the compaction.
  method MakeInput(files: Level, ghost all: set<Entry>) returns (input: seq<Entry>)
    requires AllWellFormed(files) && UniqueSequences(all)
    requires forall e :: Has(files, e) ==> e in all
    ensures Ascending(input)
    ensures forall e :: e in input <==> Has(files, e)
  {
    input := [];
    for i := 0 to |files|
      invariant Ascending(input)
      invariant forall e :: e in input <==> Has(files[..i], e)
    {
      assert forall f :: f in files[..i + 1] <==> f in files[..i] || f == files[i];
      assert WellFormed(files[i]);
      MergeStep(files, i, input, all);
      input := Memtable.Merge(input, files[i].entries);
    }
    assert files[..|files|] == files;
  }

  lemma MergeStep(files: Level, i: nat, input: seq<Entry>, all: set<Entry>)
    requires i < |files| && WellFormed(files[i]) && UniqueSequences(all)
    requires forall e :: Has(files, e) ==> e in all
    requires Ascending(input) && forall e :: e in input <==> Has(files[..i], e)
    ensures Ascending(Memtable.Merge(input, files[i].entries))
    ensures forall e :: e in Memtable.Merge(input, files[i].entries) <==> Has(files[..i + 1], e)
  {
    var f := files[i];
    assert forall g :: g in files[..i + 1] <==> g in files[..i] || g == f;
    forall x, y | x in input && y in f.entries && x.ikey.sequence == y.ikey.sequence
      ensures x == y
    {
      var g :| g in files[..i] && x in g.entries;
      assert Has(files, x) && Has(files, y);
    }
    Memtable.MergeIsSortedUnion(input, f.entries);
    assert forall e :: Has(files[..i + 1], e) <==> Has(files[..i], e) || e in f.entries;
  }

  ghost predicate AllBelow(mem: seq<Entry>, first: nat) {
    forall e :: e in mem ==> e.ikey.sequence < first
  }

  // The table now also has the batch, in order.
  ghost predicate Grown(table: seq<Entry>, mem: seq<Entry>, ops: seq<Op>, first: nat) {
    Ascending(table) && Work.AsSet(table) == Work.AsSet(mem) + BatchEntries(ops, first)
  }

  // WriteBatchInternal::InsertInto: MemTableInserter gives each operation its own number.
  method InsertInto(mem: seq<Entry>, ops: seq<Op>, first: nat) returns (table: seq<Entry>)
    requires Ascending(mem) && AllBelow(mem, first)
    ensures Grown(table, mem, ops, first)
  {
    table := mem;
    for i := 0 to |ops|
      invariant Ascending(table)
      invariant forall e :: e in table <==> e in mem || e in BatchEntries(ops[..i], first)
      invariant forall e :: e in table ==> e.ikey.sequence < first + i
    {
      var e := OpEntry(ops[i], first + i);
      BatchGrows(ops, i, first);
      Memtable.InsertKeepsOrder(table, e);
      Memtable.InsertMembers(table, e);
      table := Memtable.Insert(table, e);
    }
    assert ops[..|ops|] == ops;
  }

  // ---------- reading through the sources ----------

  // The first source with an entry at or below the snapshot has the newest one.
  lemma NewerSourceDecides(newer: set<Entry>, older: set<Entry>, u: UserKey, q: nat, e: Entry)
    requires forall a, b :: a in newer && b in older && a.ikey.user == b.ikey.user ==> a.ikey.sequence > b.ikey.sequence
    requires IsNewest(newer, u, q, e)
    ensures IsNewest(newer + older, u, q, e)
  {
  }

  lemma OlderSourceDecides(newer: set<Entry>, older: set<Entry>, u: UserKey, q: nat)
    requires forall e :: e in newer ==> !Candidate(u, q, e)
    ensures forall e :: IsNewest(older, u, q, e) ==> IsNewest(newer + older, u, q, e)
  {
  }

  // The search order mem, imm, version, summed up: `hit` is the entry that ends the search.
  ghost predicate Answers(es: set<Entry>, u: UserKey, q: nat, hit: Option<Entry>) {
    match hit
    case Some(e) => IsNewest(es, u, q, e)
    case None => forall e :: e in es ==> !Candidate(u, q, e)
  }

  lemma AnswerIsRead(s: State, u: UserKey, q: nat, hit: Option<Entry>)
    requires StructureInv(s) && ReadsAgree(s) && q >= Floor(s)
    requires Answers(All(s), u, q, hit)
    ensures Read(s.history, u, q) == if hit.Some? then Outcome(hit.value) else None
  {
    if hit.Some? {
      ReadOfNewest(All(s), u, q, hit.value);
    }
  }

  lemma FirstAnswer(s: State, u: UserKey, q: nat, inMem: Option<Entry>, inImm: Option<Entry>, inVersion: Option<Entry>)
    requires SourcesOrdered(s)
    requires Answers(Work.AsSet(s.mem), u, q, inMem)
    requires Answers(Work.AsSet(Immutable(s)), u, q, inImm)
    requires Answers(Contents(s.version), u, q, inVersion)
    ensures Answers(All(s), u, q, if inMem.Some? then inMem else if inImm.Some? then inImm else inVersion)
  {
    var mem, imm, files := Work.AsSet(s.mem), Work.AsSet(Immutable(s)), Contents(s.version);
    assert All(s) == mem + (imm + files);
    if inMem.Some? {
      NewerSourceDecides(mem, imm + files, u, q, inMem.value);
    } else if inImm.Some? {
      NewerSourceDecides(imm, files, u, q, inImm.value);
      OlderSourceDecides(mem, imm + files, u, q);
    } else if inVersion.Some? {
      OlderSourceDecides(imm, files, u, q);
      OlderSourceDecides(mem, imm + files, u, q);
    }
  }

  // What the background thread is asked for.
  datatype Request =
    | Automatic(level: nat, compactPointer: Option<InternalKey>, seekFile: Option<FileMetaData>)
    | Manual(level: nat, begin: Option<UserKey>, end: Option<UserKey>)

  ghost predicate Merges(level: nat, plan: Plan, step: Step) {
    step.Compacting? && step.level == level && step.inputs0 == plan.inputs0 && step.inputs1 == plan.inputs1
  }

  // The trivial move, exactly when it is allowed.
  ghost predicate Executes(level: nat, plan: Plan, grandparentLimit: nat, step: Step) {
    if |plan.inputs0| == 1 && plan.inputs1 == [] && TotalFileSize(plan.grandparents) <= grandparentLimit
    then step == Moving(level, plan.inputs0[0])
    else Merges(level, plan, step)
  }

  class DBImpl {
    const maxFileSize: nat
    const tableSize: seq<Entry> -> nat
    var mem: seq<Entry>
    var imm: Option<seq<Entry>>
    var version: Version
    var lastSequence: nat
    var nextFile: nat
    var snapshots: seq<nat>
    ghost var history: set<Entry>

    ghost function View(): State
      reads this
    {
      State(mem, imm, version, lastSequence, nextFile, snapshots, history)
    }

    ghost predicate Valid()
      reads this
    {
      StructureInv(View()) && ReadsAgree(View())
    }

    constructor (maxFileSize: nat, tableSize: seq<Entry> -> nat)
      ensures Valid() && history == {} && snapshots == []
    {
      this.maxFileSize, this.tableSize := maxFileSize, tableSize;
      mem, imm, version, lastSequence, nextFile, snapshots, history :=
        [], None, [[], [], [], [], [], [], []], 0, 2, [], {};
      new;
      InitOk(View());
    }

    // DBImpl::Get: at a live snapshot, or at the last sequence number.
    method Get(u: UserKey, snapshot: Option<nat>) returns (r: Option<Value>)
      requires Valid()
      requires snapshot.Some? ==> snapshot.value in snapshots
      ensures r == Read(history, u, if snapshot.Some? then snapshot.value else lastSequence)
    {
      var q := if snapshot.Some? then snapshot.value else lastSequence;
      ghost var s := View();
      assert q >= Floor(s);
      Memtable.GetIsNewest(mem, u, q);
      Memtable.GetIsNewest(Immutable(s), u, q);
      var hit := Memtable.Get(mem, u, q);
      ghost var inMem, inImm := hit, Memtable.Get(Immutable(s), u, q);
      if hit.None? && imm.Some? {
        hit := Memtable.Get(imm.value, u, q);
      }
      var inVersion := VersionGet.Get(version, u, q);
      if hit.None? {
        hit := inVersion;
      }
      FirstAnswer(s, u, q, inMem, inImm, inVersion);
      AnswerIsRead(s, u, q, hit);
      r := if hit.Some? then Outcome(hit.value) else None;
    }

    // Write, for one batch: a key then reads as the last operation on it says, and any other
    // key as before.
    method Write(ops: seq<Op>)
      requires Valid() && lastSequence + |ops| < MAX_SEQUENCE_NUMBER
      modifies this`mem, this`lastSequence, this`history
      ensures Valid() && WriteStep(old(View()), View(), ops)
      ensures forall u, i: nat :: LastOn(ops, u, i) ==>
                Read(history, u, lastSequence) == if ops[i].PutOp? then Some(ops[i].value) else None
      ensures forall u :: NoOpOn(ops, u) ==> Read(history, u, lastSequence) == old(Read(history, u, lastSequence))
    {
      ghost var s := View();
      MemBelow(s);
      ApplyBatch(ops);
      WriteKeepsStructure(s, View(), ops);
      WriteKeepsReads(s, View(), ops);
      WriteMeans(s, View(), ops);
    }

    method ApplyBatch(ops: seq<Op>)
      requires Ascending(mem) && AllBelow(mem, lastSequence + 1) && lastSequence + |ops| < MAX_SEQUENCE_NUMBER
      modifies this`mem, this`lastSequence, this`history
      ensures WriteStep(old(View()), View(), ops)
    {
      ghost var s := View();
      var table := InsertInto(mem, ops, lastSequence + 1);
      WrittenIsStep(s, table, ops);
      SetWritten(table, |ops|, Written(s, table, ops));
    }

    method SetWritten(table: seq<Entry>, n: nat, ghost t: State)
      requires t == View().(mem := table, lastSequence := lastSequence + n, history := t.history)
      modifies this`mem, this`lastSequence, this`history
      ensures View() == t
    {
      mem, lastSequence, history := table, lastSequence + n, t.history;
    }

    // The memtable switch of MakeRoomForWrite.
    method SwitchMemtable()
      requires Valid() && imm.None?
      modifies this`mem, this`imm
      ensures Valid() && SwitchStep(old(View()), View())
    {
      imm := Some(mem);
      mem := [];
      NextKeepsReads(old(View()), View(), Switching);
      SwitchKeepsStructure(old(View()), View());
    }

    // CompactMemTable: the immutable memtable becomes a table file.
    method CompactMemTable()
      requires Valid() && imm.Some?
      modifies this`imm, this`version, this`nextFile
      ensures Valid() && imm.None? && history == old(history)
      ensures exists level, f :: FlushStep(old(View()), View(), level, f)
                                  && (old(imm.value) != [] ==>
                                        PickedLevel(old(version), f.smallest.user, f.largest.user, 10 * maxFileSize, level))
    {
      ghost var s := View();
      var es := imm.value;
      if es == [] {
        imm := None;
        assert FlushStep(s, View(), 0, FileMetaData(0, 0, InternalKey(0.0, 0, Put), InternalKey(0.0, 0, Put), []));
        FlushKeepsStructure(s, View(), 0, FileMetaData(0, 0, InternalKey(0.0, 0, Put), InternalKey(0.0, 0, Put), []));
        return;
      }
      var f := FileMetaData(nextFile, tableSize(es), es[0].ikey, es[|es| - 1].ikey, es);
      var level := PickLevelForMemTableOutput(s, version, f.smallest.user, f.largest.user, 10 * maxFileSize);
      PickedIsFree(version, f.smallest.user, f.largest.user, 10 * maxFileSize, level);
      assert InFileOrder(version[level]);
      var files := InstallLevel(version[level], [], [f]);
      version := version[level := files];
      imm, nextFile := None, nextFile + 1;
      assert FlushStep(s, View(), level, f);
      FlushKeepsStructure(s, View(), level, f);
    }

    // A compaction by size or by seeks: pick, then move a single file that nothing meets, if it
    // does not overlap too many grandparent bytes, and otherwise merge.
    method AutomaticCompaction(level: nat, compactPointer: Option<InternalKey>, seekFile: Option<FileMetaData>)
      returns (ghost step: Step, ghost pick: nat, ghost plan: Plan)
      requires Valid() && imm.None?
      requires level < 6 && version[level] != []
      requires seekFile.Some? ==> seekFile.value in version[level]
      modifies this`version, this`nextFile
      ensures PickedBy(old(version)[level], compactPointer, seekFile, pick)
      ensures StartsFrom(old(version)[level], level, old(version)[level][pick], plan.picked)
      ensures Planned(old(version), level, 25 * maxFileSize, plan) && Executes(level, plan, 10 * maxFileSize, step)
      ensures Next(old(View()), View(), step)
      ensures StructureInv(View())
      ensures Bounded(old(View()), step) ==> Valid()
    {
      LevelsReady(View(), level);
      var inputs0, inputs1, grandparents, pointer;
      inputs0, inputs1, grandparents, pointer, pick, plan := PickCompaction(version, level, compactPointer, seekFile, 25 * maxFileSize);
      if |inputs0| == 1 && inputs1 == [] && TotalFileSize(grandparents) <= 10 * maxFileSize {
        assert inputs0 == [inputs0[0]];
        MoveFile(level, inputs0[0]);
        step := Moving(level, inputs0[0]);
      } else {
        step := Compact(level, inputs0, inputs1, grandparents);
      }
    }

    // A manual compaction merges, whatever it finds; it is done when nothing overlaps the
    // range, and otherwise goes on after the last input.
    method ManualCompaction(level: nat, begin: Option<UserKey>, end: Option<UserKey>)
      returns (manualEnd: Option<InternalKey>, ghost step: Option<Step>, ghost plan: Plan)
      requires Valid() && imm.None? && level < 6
      modifies this`version, this`nextFile
      ensures manualEnd.None? ==> View() == old(View()) && forall f :: f in version[level] ==> !Overlaps(f, begin, end)
      ensures manualEnd.None? <==> step.None?
      ensures step.Some? ==>
                && step.value.Compacting? && Next(old(View()), View(), step.value)
                && RangePick(old(version)[level], level, begin, end, maxFileSize, plan.picked)
                && Planned(old(version), level, 25 * maxFileSize, plan) && Merges(level, plan, step.value)
                && step.value.inputs0 != []
                && manualEnd.value == step.value.inputs0[|step.value.inputs0| - 1].largest
      ensures StructureInv(View())
      ensures (step.Some? ==> Bounded(old(View()), step.value)) ==> Valid()
    {
      LevelsReady(View(), level);
      var found, inputs0, inputs1, grandparents, pointer;
      found, inputs0, inputs1, grandparents, pointer, plan :=
        CompactRange(version, level, begin, end, maxFileSize, 25 * maxFileSize);
      manualEnd, step := None, None;
      if found {
        manualEnd := Some(inputs0[|inputs0| - 1].largest);
        ghost var done := Compact(level, inputs0, inputs1, grandparents);
        step := Some(done);
      }
    }

    // BackgroundCompaction: a pending flush goes first, then a manual compaction.
    method BackgroundCompaction(request: Request)
      returns (manualEnd: Option<InternalKey>, ghost step: Option<Step>)
      requires Valid() && request.level < 6
      requires request.Automatic? ==>
                 && version[request.level] != []
                 && (request.seekFile.Some? ==> request.seekFile.value in version[request.level])
      modifies this`imm, this`version, this`nextFile
      ensures old(imm).Some? ==> Valid() && imm.None? && exists l, f :: FlushStep(old(View()), View(), l, f)
      ensures old(imm).None? && step.Some? ==> Next(old(View()), View(), step.value)
      ensures old(imm).None? && step.None? ==>
                && request.Manual? && View() == old(View())
                && forall f :: f in version[request.level] ==> !Overlaps(f, request.begin, request.end)
      ensures StructureInv(View())
      ensures old(imm).None? && (step.Some? ==> Bounded(old(View()), step.value)) ==> Valid()
    {
      manualEnd, step := None, None;
      if imm.Some? {
        CompactMemTable();
        return;
      }
      match request
      case Automatic(level, compactPointer, seekFile) =>
        ghost var done, pick, plan := AutomaticCompaction(level, compactPointer, seekFile);
        step := Some(done);
      case Manual(level, begin, end) =>
        ghost var plan;
        manualEnd, step, plan := ManualCompaction(level, begin, end);
    }

    // The trivial move: the file changes level without being rewritten.
    method MoveFile(level: nat, f: FileMetaData)
      requires Valid() && level < 6 && ChosenInputs(version, level, [f], [])
      modifies this`version
      ensures MoveStep(old(View()), View(), level, f) && Valid()
    {
      ghost var s := View();
      LevelsReady(s, level);
      assert f in [f] && f in version[level];
      InputNumbers(s, level, [f], [], [f]);
      var here := InstallLevel(version[level], [f], []);
      var there := InstallLevel(version[level + 1], [], [f]);
      version := version[level := here][level + 1 := there];
      MoveIsReplace(s, View(), level, f);
      MoveKeepsStructure(s, View(), level, f);
    }

    // DoCompactionWork followed by InstallCompactionResults.
    method Compact(level: nat, inputs0: Level, inputs1: Level, grandparents: Level) returns (ghost step: Step)
      requires Valid() && level < 6 && ChosenInputs(version, level, inputs0, inputs1)
      modifies this`version, this`nextFile
      ensures step.Compacting? && step.level == level && step.inputs0 == inputs0 && step.inputs1 == inputs1
      ensures Next(old(View()), View(), step)
      ensures StructureInv(View())
      ensures Bounded(old(View()), step) ==> Valid()
    {
      ghost var s := View();
      LevelsReady(s, level);
      var outputs := RunCompaction(level, inputs0, inputs1, grandparents);
      InputsFromLevels(version, level, inputs0, inputs1);
      InputNumbers(s, level, inputs0, inputs1, outputs);
      InstallResults(level, inputs0, inputs1, outputs);
      step := Compacting(level, inputs0, inputs1, outputs);
      CompactIsStep(s, View(), level, inputs0, inputs1, outputs);
      NextKeepsStructure(s, View(), step);
      if Bounded(s, step) {
        NextKeepsReads(s, View(), step);
      }
    }

    // InstallCompactionResults: delete the inputs, add the outputs one level down.
    method InstallResults(level: nat, inputs0: Level, inputs1: Level, outputs: Level)
      requires level < 6 && InFileOrder(version[level]) && InFileOrder(version[level + 1])
      requires AllWellFormed(outputs) && SortedDisjoint(outputs)
      requires forall f, g :: f in version[level] && g in inputs0 && f.number == g.number ==> f == g
      requires forall f, g :: f in version[level + 1] && g in inputs1 && f.number == g.number ==> f == g
      requires forall f, g :: f in version[level + 1] && g in outputs ==> f.number != g.number
      modifies this`version, this`nextFile
      ensures LevelBecomes(old(version)[level], version[level], inputs0, [])
      ensures LevelBecomes(old(version)[level + 1], version[level + 1], inputs1, outputs)
      ensures SameElsewhere(old(version), version, {level, level + 1})
      ensures nextFile == old(nextFile) + |outputs|
    {
      SortedIsInFileOrder(outputs);
      var here := InstallLevel(version[level], inputs0, []);
      var there := InstallLevel(version[level + 1], inputs1, outputs);
      version := version[level := here][level + 1 := there];
      nextFile := nextFile + |outputs|;
    }

    // DoCompactionWork on the chosen inputs.
    method RunCompaction(level: nat, inputs0: Level, inputs1: Level, grandparents: Level) returns (outputs: Level)
      requires Valid() && level < 6 && ChosenInputs(version, level, inputs0, inputs1)
      ensures LevelContents(outputs) == Kept(InputEntries(inputs0, inputs1), Floor(View()), Work.BaseKeys(version, level))
      ensures Lean(LevelContents(outputs), Floor(View()), Work.BaseKeys(version, level))
      ensures Work.OutputFiles(outputs, nextFile)
      ensures AllWellFormed(outputs) && SortedDisjoint(outputs)
    {
      ghost var all := Contents(version);
      InputsReady(View(), level, inputs0, inputs1);
      var input := MakeInput(inputs0 + inputs1, all);
      var smallestSnapshot := if snapshots == [] then lastSequence else snapshots[0];
      var c := new Work.Compaction(version, level, grandparents, 10 * maxFileSize,
                                   if input == [] then 0.0 else input[0].ikey.user);
      outputs := Work.DoCompactionWork(c, input, smallestSnapshot, nextFile, maxFileSize, tableSize);
      OutputsAreKept(input, all, inputs0, inputs1, smallestSnapshot, Work.BaseKeys(version, level), outputs);
      KeptIsLean(InputEntries(inputs0, inputs1), smallestSnapshot, Work.BaseKeys(version, level));
    }

    method GetSnapshot() returns (q: nat)
      requires Valid()
      modifies this`snapshots
      ensures Valid() && SnapshotStep(old(View()), View()) && q == lastSequence && q in snapshots
    {
      q := lastSequence;
      snapshots := snapshots + [q];
      NextKeepsReads(old(View()), View(), TakingSnapshot);
    }

    method ReleaseSnapshot(i: nat)
      requires Valid() && i < |snapshots|
      modifies this`snapshots
      ensures Valid() && ReleaseStep(old(View()), View(), i)
    {
      snapshots := snapshots[..i] + snapshots[i + 1..];
      NextKeepsStructure(old(View()), View(), Releasing(i));
      NextKeepsReads(old(View()), View(), Releasing(i));
    }
  }

  // What a client sees of a write: the last operation of the batch on the key, and no change
  // when there is none.
  method WriteThenGet(db: DBImpl, ops: seq<Op>, u: UserKey) returns (before: Option<Value>, after: Option<Value>)
    requires db.Valid() && db.lastSequence + |ops| < MAX_SEQUENCE_NUMBER
    modifies db`mem, db`lastSequence, db`history
    ensures db.Valid()
    ensures forall i: nat :: LastOn(ops, u, i) ==> after == if ops[i].PutOp? then Some(ops[i].value) else None
    ensures NoOpOn(ops, u) ==> after == before
  {
    before := db.Get(u, None);
    db.Write(ops);
    after := db.Get(u, None);
  }

  lemma OutputsAreKept(input: seq<Entry>, all: set<Entry>, inputs0: Level, inputs1: Level, ss: nat,
      base: iset<UserKey>, outputs: Level)
    requires Ascending(input) && UniqueSequences(all) && forall e :: e in input ==> e in all
    requires forall e :: e in input <==> e in InputEntries(inputs0, inputs1)
    requires Work.Flatten(outputs) == Work.KeptFirst(input, |input|, ss, base)
    ensures LevelContents(outputs) == Kept(InputEntries(inputs0, inputs1), ss, base)
  {
    Work.AscendingIsNewestFirst(input, all);
    Work.KeptIsKept(input, ss, base);
    Work.FlattenMembers(outputs);
    assert Work.AsSet(input) == InputEntries(inputs0, inputs1);
    forall e
      ensures e in LevelContents(outputs) <==> e in Work.AsSet(Work.Flatten(outputs))
    {
    }
  }

  lemma BatchGrows(ops: seq<Op>, i: nat, first: nat)
    requires i < |ops|
    ensures BatchEntries(ops[..i + 1], first) == BatchEntries(ops[..i], first) + {OpEntry(ops[i], first + i)}
    ensures forall e :: e in BatchEntries(ops[..i], first) ==> first <= e.ikey.sequence < first + i
  {
  }

  lemma MemBelow(s: State)
    requires StructureInv(s)
    ensures Ascending(s.mem) && AllBelow(s.mem, s.lastSequence + 1)
  {
    assert forall e :: e in s.mem ==> e in All(s);
  }

  ghost function Written(s: State, table: seq<Entry>, ops: seq<Op>): State {
    s.(mem := table, lastSequence := s.lastSequence + |ops|, history := s.history + BatchEntries(ops, s.lastSequence + 1))
  }

  lemma WrittenIsStep(s: State, table: seq<Entry>, ops: seq<Op>)
    requires s.lastSequence + |ops| < MAX_SEQUENCE_NUMBER && Grown(table, s.mem, ops, s.lastSequence + 1)
    ensures WriteStep(s, Written(s, table, ops), ops)
  {
  }

  // What the pickers need to know about the two levels of a compaction.
  lemma LevelsReady(s: State, level: nat)
    requires StructureInv(s) && level < 6
    ensures LevelInv(s.version[level], level)
    ensures AllWellFormed(s.version[level + 1]) && SortedDisjoint(s.version[level + 1])
    ensures InFileOrder(s.version[level]) && InFileOrder(s.version[level + 1])
  {
    var v := s.version;
    forall e | e in LevelContents(v[level])
      ensures e in Contents(v)
    {
      StoredAt(v, level, e);
    }
    assert AllWellFormed(v[level]) && AllWellFormed(v[level + 1]);
    assert SortedDisjoint(v[level + 1]) && (level > 0 ==> SortedDisjoint(v[level]));
    assert InFileOrder(v[level]) && InFileOrder(v[level + 1]);
  }

  lemma InputsReady(s: State, level: nat, inputs0: Level, inputs1: Level)
    requires StructureInv(s) && level < 6 && ChosenInputs(s.version, level, inputs0, inputs1)
    ensures AllWellFormed(inputs0 + inputs1)
    ensures forall e :: Has(inputs0 + inputs1, e) ==> e in Contents(s.version)
    ensures forall e :: Has(inputs0 + inputs1, e) <==> e in InputEntries(inputs0, inputs1)
    ensures UniqueSequences(Contents(s.version))
    ensures forall l :: 1 <= l < 7 ==> AllWellFormed(s.version[l]) && SortedDisjoint(s.version[l])
    ensures Floor(s) < MAX_SEQUENCE_NUMBER
  {
    var v := s.version;
    InputsFromLevels(v, level, inputs0, inputs1);
    assert AllWellFormed(v[level]) && AllWellFormed(v[level + 1]);
    forall f | f in inputs0 + inputs1
      ensures WellFormed(f)
    {
    }
    forall e | Has(inputs0 + inputs1, e)
      ensures e in Contents(v) && (Has(inputs0, e) || Has(inputs1, e))
    {
      var f :| f in inputs0 + inputs1 && e in f.entries;
      StoredAt(v, if f in inputs0 then level else level + 1, e);
    }
    forall l | 1 <= l < 7
      ensures AllWellFormed(v[l]) && SortedDisjoint(v[l])
    {
    }
  }

  lemma CompactIsStep(s: State, t: State, level: nat, inputs0: Level, inputs1: Level, outputs: Level)
    requires level < 6 && ChosenInputs(s.version, level, inputs0, inputs1)
    requires LevelContents(outputs) == Kept(InputEntries(inputs0, inputs1), Floor(s), Work.BaseKeys(s.version, level))
    requires Work.OutputFiles(outputs, s.nextFile) && AllWellFormed(outputs) && SortedDisjoint(outputs)
    requires LevelBecomes(s.version[level], t.version[level], inputs0, [])
    requires LevelBecomes(s.version[level + 1], t.version[level + 1], inputs1, outputs)
    requires SameElsewhere(s.version, t.version, {level, level + 1})
    requires t == s.(version := t.version, nextFile := s.nextFile + |outputs|)
    ensures CompactStep(s, t, level, inputs0, inputs1, outputs)
  {
    forall e | Has(outputs, e)
      ensures Has(inputs0, e) || Has(inputs1, e)
    {
      assert e in LevelContents(outputs);
    }
  }

  // File numbers tell the files of a version and new outputs apart.
  lemma InputNumbers(s: State, level: nat, inputs0: Level, inputs1: Level, outputs: Level)
    requires StructureInv(s) && level < 6
    requires (forall f :: f in inputs0 ==> f in s.version[level]) && (forall f :: f in inputs1 ==> f in s.version[level + 1])
    requires outputs == inputs0 || Work.OutputFiles(outputs, s.nextFile)
    ensures forall f, g :: f in s.version[level] && g in inputs0 && f.number == g.number ==> f == g
    ensures forall f, g :: f in s.version[level + 1] && g in inputs1 && f.number == g.number ==> f == g
    ensures forall f, g :: f in s.version[level + 1] && g in outputs ==> f.number != g.number
  {
    var v := s.version;
    forall f, g | f in v[level] && g in inputs0 && f.number == g.number
      ensures f == g
    {
      assert FileClash(v, level, level, f, g);
    }
    forall f, g | f in v[level + 1] && g in inputs1 && f.number == g.number
      ensures f == g
    {
      assert FileClash(v, level + 1, level + 1, f, g);
    }
    forall f, g | f in v[level + 1] && g in outputs
      ensures f.number != g.number
    {
      assert !FileClash(v, level + 1, level, f, g);
    }
  }

  lemma MoveIsReplace(s: State, t: State, level: nat, f: FileMetaData)
    requires StructureInv(s) && level < 6 && ChosenInputs(s.version, level, [f], [])
    requires LevelBecomes(s.version[level], t.version[level], [f], [])
    requires LevelBecomes(s.version[level + 1], t.version[level + 1], [], [f])
    requires SameElsewhere(s.version, t.version, {level, level + 1})
    requires t == s.(version := t.version)
    ensures MoveStep(s, t, level, f)
  {
    assert f in [f] && f in s.version[level];
    assert AllWellFormed(s.version[level]) && WellFormed(f);
  }
}
