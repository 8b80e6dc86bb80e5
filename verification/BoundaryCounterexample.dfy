/** The boundary hypothesis is needed: a run of the database, from the empty one, in which a
  deleted key reads as its old value.

  A key is written, read by a snapshot, and deleted; the flush goes to level 2, as it does
  while nothing overlaps. A compaction of the whole range to level 3 cuts its output between
  the tombstone (in B) and the old value (in C), which the snapshot still needs. The snapshot
  is released, a smaller key is written again and flushed to level 2 (A). Compacting A takes
  B but not C, no level below has the key, so the tombstone is dropped and C is exposed. */
module BoundaryCounterexample {
  import opened Wrappers
  import opened Keys
  import opened Reads
  import opened CompactionMeaning
  import opened VersionModel
  import opened VersionBuilder
  import opened CompactionInputs
  import opened CompactionSetup
  import Work = CompactionWork
  import opened VersionSteps
  import opened DatabaseModel

  const OLD := Entry(InternalKey(2.0, 1, Put), [9])
  const ONE := Entry(InternalKey(1.0, 2, Put), [8])
  const GONE := Entry(InternalKey(2.0, 3, Deletion), [])
  const NEW := Entry(InternalKey(1.0, 4, Put), [7])

  function TableOf(number: nat, es: seq<Entry>): FileMetaData
    requires es != []
  {
    FileMetaData(number, 1, es[0].ikey, es[|es| - 1].ikey, es)
  }

  const F := TableOf(1, [ONE, GONE, OLD])
  const B := TableOf(2, [ONE, GONE])
  const C := TableOf(3, [OLD])
  const A := TableOf(4, [NEW])
  const OUT := TableOf(5, [NEW])

  function VersionOf(level2: Level, level3: Level): Version {
    [[], [], level2, level3, [], [], []]
  }

  function StateOf(mem: seq<Entry>, imm: Option<seq<Entry>>, level2: Level, level3: Level, last: nat, nextFile: nat,
      snapshots: seq<nat>, history: set<Entry>): State {
    State(mem, imm, VersionOf(level2, level3), last, nextFile, snapshots, history)
  }

  // ---------- the run ----------

  function StepAt(i: nat): Step {
    if i == 0 then Writing([PutOp(2.0, [9])])
    else if i == 1 then TakingSnapshot
    else if i == 2 then Writing([PutOp(1.0, [8]), DeleteOp(2.0)])
    else if i == 3 then Switching
    else if i == 4 then Flushing(2, F)
    else if i == 5 then Compacting(2, [F], [], [B, C])
    else if i == 6 then Releasing(0)
    else if i == 7 then Writing([PutOp(1.0, [7])])
    else if i == 8 then Switching
    else if i == 9 then Flushing(2, A)
    else Compacting(2, [A], [B], [OUT])
  }

  function StateAt(i: nat): State {
    if i == 0 then StateOf([], None, [], [], 0, 1, [], {})
    else if i == 1 then StateOf([OLD], None, [], [], 1, 1, [], {OLD})
    else if i == 2 then StateOf([OLD], None, [], [], 1, 1, [1], {OLD})
    else if i == 3 then StateOf([ONE, GONE, OLD], None, [], [], 3, 1, [1], {OLD, ONE, GONE})
    else if i == 4 then StateOf([], Some([ONE, GONE, OLD]), [], [], 3, 1, [1], {OLD, ONE, GONE})
    else if i == 5 then StateOf([], None, [F], [], 3, 2, [1], {OLD, ONE, GONE})
    else if i == 6 then StateOf([], None, [], [B, C], 3, 4, [1], {OLD, ONE, GONE})
    else if i == 7 then StateOf([], None, [], [B, C], 3, 4, [], {OLD, ONE, GONE})
    else if i == 8 then StateOf([NEW], None, [], [B, C], 4, 4, [], {OLD, ONE, GONE, NEW})
    else if i == 9 then StateOf([], Some([NEW]), [], [B, C], 4, 4, [], {OLD, ONE, GONE, NEW})
    else if i == 10 then StateOf([], None, [A], [B, C], 4, 5, [], {OLD, ONE, GONE, NEW})
    else StateOf([], None, [], [OUT, C], 4, 6, [], {OLD, ONE, GONE, NEW})
  }

  // ---------- writes and flushes ----------

  lemma WriteOld()
    ensures Next(StateAt(0), StateAt(1), StepAt(0))
  {
    var ops := [PutOp(2.0, [9])];
    assert OpEntry(ops[0], 1) == OLD;
    assert BatchEntries(ops, 1) == {OLD};
  }

  lemma WriteTwo()
    ensures Next(StateAt(2), StateAt(3), StepAt(2))
  {
    var ops := [PutOp(1.0, [8]), DeleteOp(2.0)];
    assert OpEntry(ops[0], 2) == ONE && OpEntry(ops[1], 3) == GONE;
    assert BatchEntries(ops, 2) == {ONE, GONE};
    assert Ascending([ONE, GONE, OLD]);
  }

  lemma WriteNew()
    ensures Next(StateAt(7), StateAt(8), StepAt(7))
  {
    var ops := [PutOp(1.0, [7])];
    assert OpEntry(ops[0], 4) == NEW;
    assert BatchEntries(ops, 4) == {NEW};
  }

  lemma FlushInto(level3: Level, f: FileMetaData)
    requires WellFormed(f)
    ensures Flush(VersionOf([], level3), VersionOf([f], level3), 2, f)
  {
    assert f in [f];
  }

  lemma Flushes()
    ensures Next(StateAt(4), StateAt(5), StepAt(4)) && Next(StateAt(9), StateAt(10), StepAt(9))
  {
    assert Ascending([ONE, GONE, OLD]);
    FlushInto([], F);
    FlushInto([B, C], A);
  }

  // ---------- the files ----------

  lemma Stores(e: Entry)
    ensures Has([F], e) <==> e == ONE || e == GONE || e == OLD
    ensures Has([B], e) <==> e == ONE || e == GONE
    ensures Has([C], e) <==> e == OLD
    ensures Has([A], e) <==> e == NEW
    ensures Has([OUT], e) <==> e == NEW
  {
    assert F in [F] && B in [B] && C in [C] && A in [A] && OUT in [OUT];
    assert F.entries[0] in F.entries && F.entries[1] in F.entries && F.entries[2] in F.entries;
    assert B.entries[0] in B.entries && B.entries[1] in B.entries;
    assert C.entries[0] in C.entries && A.entries[0] in A.entries && OUT.entries[0] in OUT.entries;
  }

  lemma StoresTwo(f: FileMetaData, g: FileMetaData, e: Entry)
    ensures Has([f, g], e) <==> Has([f], e) || Has([g], e)
  {
    assert f in [f] && g in [g] && f in [f, g] && g in [f, g];
    assert forall h :: h in [f, g] <==> h == f || h == g;
  }

  lemma TwoFiles(f: FileMetaData, g: FileMetaData)
    requires WellFormed(f) && WellFormed(g) && Less(f.largest, g.smallest)
    ensures AllWellFormed([f, g]) && SortedDisjoint([f, g]) && InFileOrder([f, g])
  {
    FileRange(f);
    assert forall h :: h in [f, g] <==> h == f || h == g;
  }

  // ---------- the first compaction: cut between the tombstone and the old value ----------

  lemma FirstInputs()
    ensures ChosenInputs(VersionOf([F], []), 2, [F], [])
  {
    assert F in [F] && InKeyRange([F], F.smallest, F.largest) by {
      assert !Less(F.largest, F.smallest);
    }
    assert Select([], Some(F.smallest.user), Some(F.largest.user)) == [];
  }

  lemma FirstKept()
    ensures LevelContents([B, C]) == Kept(InputEntries([F], []), 1, Work.BaseKeys(VersionOf([F], []), 2))
  {
    forall e
      ensures e in LevelContents([B, C]) <==> e in Kept(InputEntries([F], []), 1, Work.BaseKeys(VersionOf([F], []), 2))
    {
      Stores(e);
      StoresTwo(B, C, e);
      forall n | n in InputEntries([F], [])
        ensures n == ONE || n == GONE || n == OLD
      {
        Stores(n);
      }
    }
  }

  lemma FirstInstalled()
    ensures LevelBecomes([F], [], [F], []) && LevelBecomes([], [B, C], [], [B, C])
    ensures AllWellFormed([B, C]) && SortedDisjoint([B, C]) && Work.OutputFiles([B, C], 2)
    ensures forall e :: Has([B, C], e) ==> Has([F], e)
  {
    assert Ascending([ONE, GONE]);
    TwoFiles(B, C);
    assert F in [F];
    forall e | Has([B, C], e)
      ensures Has([F], e)
    {
      Stores(e);
      StoresTwo(B, C, e);
    }
  }

  lemma FirstCompaction()
    ensures Next(StateAt(5), StateAt(6), StepAt(5))
  {
    FirstInputs();
    FirstKept();
    FirstInstalled();
  }

  // ---------- the second compaction: takes B and leaves C ----------

  lemma SecondInputs()
    ensures ChosenInputs(VersionOf([A], [B, C]), 2, [A], [B])
    ensures !NextLevelBoundary(VersionOf([A], [B, C]), 2, [B])
  {
    assert A in [A];
    assert InKeyRange([A], A.smallest, A.largest);
    var s := Some(A.smallest.user);
    calc {
      Select([B, C], s, s);
      SelectFirst([B, C], 2, s, s);
      SelectFirst([B, C], 1, s, s);
      SelectFirst([B, C], 0, s, s) + [B];
      [B];
    }
    assert C in [B, C] && C !in [B] && B in [B];
    assert !NoSharedKey(C, B) by {
      assert C.entries[0] in C.entries && B.entries[1] in B.entries;
    }
  }

  lemma SecondKept()
    ensures LevelContents([OUT]) == Kept(InputEntries([A], [B]), 4, Work.BaseKeys(VersionOf([A], [B, C]), 2))
  {
    var inputs := InputEntries([A], [B]);
    forall n | n in inputs
      ensures n == NEW || n == ONE || n == GONE
    {
      Stores(n);
    }
    Stores(NEW);
    assert NEW in inputs && NEW.ikey.user == ONE.ikey.user;
    forall e
      ensures e in LevelContents([OUT]) <==> e in Kept(inputs, 4, Work.BaseKeys(VersionOf([A], [B, C]), 2))
    {
      Stores(e);
      if e == ONE {
        assert Hidden(inputs, 4, ONE);
      }
    }
  }

  lemma SecondInstalled()
    ensures LevelBecomes([A], [], [A], []) && LevelBecomes([B, C], [OUT, C], [B], [OUT])
    ensures AllWellFormed([OUT]) && SortedDisjoint([OUT]) && Work.OutputFiles([OUT], 5)
    ensures forall e :: Has([OUT], e) ==> Has([A], e)
  {
    TwoFiles(OUT, C);
    assert A in [A] && B in [B] && B != C;
    assert forall f :: f in [B, C] <==> f == B || f == C;
    assert forall f :: f in [OUT, C] <==> f == OUT || f == C;
    forall e | Has([OUT], e)
      ensures Has([A], e)
    {
      Stores(e);
    }
  }

  lemma SecondCompaction()
    ensures Next(StateAt(10), StateAt(11), StepAt(10)) && !Bounded(StateAt(10), StepAt(10))
  {
    SecondInputs();
    SecondKept();
    SecondInstalled();
  }

  // ---------- what it comes to ----------

  lemma EachStep(i: nat)
    requires i < 11
    ensures Next(StateAt(i), StateAt(i + 1), StepAt(i))
  {
    if i == 0 {
      WriteOld();
    } else if i == 2 {
      WriteTwo();
    } else if i == 4 {
      Flushes();
    } else if i == 5 {
      FirstCompaction();
    } else if i == 7 {
      WriteNew();
    } else if i == 9 {
      Flushes();
    } else if i == 10 {
      SecondCompaction();
    } else {
      OtherSteps(i);
    }
  }

  lemma OtherSteps(i: nat)
    requires i == 1 || i == 3 || i == 6 || i == 8
    ensures Next(StateAt(i), StateAt(i + 1), StepAt(i))
  {
  }

  lemma StoredAfterwards(w: Version, e: Entry)
    requires w == VersionOf([], [OUT, C])
    ensures Stored(w, e) <==> e == OLD || e == NEW
  {
    Stores(e);
    StoresTwo(OUT, C, e);
    assert w[3] == [OUT, C];
    assert Has(w[3], e) <==> Has([OUT, C], e);
  }

  lemma StoredAfter()
    ensures All(StateAt(11)) == {OLD, NEW}
  {
    var w := VersionOf([], [OUT, C]);
    forall e
      ensures e in Contents(w) <==> e == OLD || e == NEW
    {
      StoredAfterwards(w, e);
    }
  }

  // What the states and steps above are good for.
  ghost predicate Telling(at: nat -> State, move: nat -> Step) {
    && Init(at(0)) && (forall i: nat :: i < 11 ==> Next(at(i), at(i + 1), move(i)))
    && (forall i: nat :: i < 10 ==> Bounded(at(i), move(i)))
    && at(11).history == {OLD, ONE, GONE, NEW} && All(at(11)) == {OLD, NEW} && Floor(at(11)) == 4
  }

  lemma TellsAll()
    ensures Telling(StateAt, StepAt)
  {
    StoredAfter();
    forall i: nat | i < 11
      ensures Next(StateAt(i), StateAt(i + 1), StepAt(i))
    {
      EachStep(i);
    }
    BoundedUntilThen();
  }

  lemma BoundedUntilThen()
    ensures forall i: nat :: i < 10 ==> Bounded(StateAt(i), StepAt(i))
  {
  }

  lemma WrongAfterwards(s: State)
    requires s.history == {OLD, ONE, GONE, NEW} && All(s) == {OLD, NEW} && Floor(s) == 4
    ensures Read(s.history, 2.0, 4) == None && Read(All(s), 2.0, 4) == Some([9])
    ensures !ReadsAgree(s)
  {
    assert IsNewest(s.history, 2.0, 4, GONE);
    ReadOfNewest(s.history, 2.0, 4, GONE);
    assert IsNewest(All(s), 2.0, 4, OLD);
    ReadOfNewest(All(s), 2.0, 4, OLD);
  }

  lemma RunOf(at: nat -> State, move: nat -> Step, n: nat) returns (states: seq<State>, steps: seq<Step>)
    requires Telling(at, move) && n <= 11
    ensures Run(states, steps) && |steps| == n
    ensures (forall i :: 0 <= i <= n ==> states[i] == at(i)) && (forall i :: 0 <= i < n ==> steps[i] == move(i))
  {
    states := seq(n + 1, i requires 0 <= i => at(i));
    steps := seq(n, i requires 0 <= i => move(i));
  }

  // The reads are right in the first eleven states.
  lemma RightUntilThen(at: nat -> State, move: nat -> Step, i: nat)
    requires Telling(at, move) && i < 11
    ensures ReadsAgree(at(i))
  {
    var states, steps := RunOf(at, move, 10);
    RunKeepsReads(states, steps, i);
  }

  lemma ComesBack(at: nat -> State, move: nat -> Step) returns (states: seq<State>, steps: seq<Step>)
    requires Telling(at, move)
    ensures Run(states, steps) && |states| == 12
    ensures forall i :: 0 <= i < 11 ==> ReadsAgree(states[i]) && (i < 10 ==> Bounded(states[i], steps[i]))
    ensures StructureInv(states[11]) && !ReadsAgree(states[11])
    ensures Read(states[11].history, 2.0, 4) == None && Read(All(states[11]), 2.0, 4) == Some([9])
  {
    states, steps := RunOf(at, move, 11);
    RunKeepsStructure(states, steps, 11);
    WrongAfterwards(states[11]);
    forall i | 0 <= i < 11
      ensures ReadsAgree(states[i])
    {
      RightUntilThen(at, move, i);
    }
  }

  // All compactions but the last meet the boundary hypothesis, so every read was right until
  // then; the last one is a step of the code all the same and brings the deleted value back.
  lemma DeletedKeyComesBack() returns (states: seq<State>, steps: seq<Step>)
    ensures Run(states, steps) && |states| == 12
    ensures forall i :: 0 <= i < 11 ==> ReadsAgree(states[i]) && (i < 10 ==> Bounded(states[i], steps[i]))
    ensures StructureInv(states[11]) && !ReadsAgree(states[11])
    ensures Read(states[11].history, 2.0, 4) == None && Read(All(states[11]), 2.0, 4) == Some([9])
  {
    TellsAll();
    states, steps := ComesBack(StateAt, StepAt);
  }
}
