/** The database as a state machine: writes, memtable switches, flushes, trivial moves,
  compactions and snapshots (db/db_impl.cc). Each step is atomic. The theorem is about
  every run: what a live snapshot reads is what the full history of writes says. */
module DatabaseModel {
  import opened Wrappers
  import opened Keys
  import opened Reads
  import opened CompactionMeaning
  import opened VersionModel
  import opened VersionBuilder
  import opened CompactionSetup
  import Work = CompactionWork
  import opened VersionSteps

  datatype State = State(
    mem: seq<Entry>, imm: Option<seq<Entry>>, version: Version,
    lastSequence: nat, nextFile: nat, snapshots: seq<nat>,
    history: set<Entry>)  // everything ever written

  datatype Op = PutOp(key: UserKey, value: Value) | DeleteOp(key: UserKey)

  function Immutable(s: State): seq<Entry> {
    if s.imm.Some? then s.imm.value else []
  }

  ghost function Above(s: State): set<Entry> {
    Work.AsSet(s.mem) + Work.AsSet(Immutable(s))
  }

  ghost function All(s: State): set<Entry> {
    Above(s) + Contents(s.version)
  }

  // smallest_snapshot: the oldest live snapshot, or the last sequence number.
  function Floor(s: State): nat {
    if s.snapshots == [] then s.lastSequence else s.snapshots[0]
  }

  ghost predicate FileClash(v: Version, i: int, j: int, f: FileMetaData, g: FileMetaData) {
    0 <= i < 7 && 0 <= j < 7 && f in v[i] && g in v[j] && f.number == g.number
  }

  ghost predicate NumbersOk(v: Version, nextFile: nat) {
    && (forall i, j, f, g {:trigger FileClash(v, i, j, f, g)} :: FileClash(v, i, j, f, g) ==> i == j && f == g)
    && (forall i, f :: 0 <= i < 7 && f in v[i] ==> f.number < nextFile)
  }

  ghost predicate SourcesOrdered(s: State) {
    && (forall a, b :: a in s.mem && b in Immutable(s) ==> a.ikey.sequence > b.ikey.sequence)
    && NewerThanVersion(s.mem, s.version)
    && NewerThanVersion(Immutable(s), s.version)
  }

  ghost predicate HistoryOk(s: State) {
    && All(s) <= s.history
    && UniqueSequences(s.history)
    && (forall e :: e in s.history ==> e.ikey.sequence <= s.lastSequence)
    && s.lastSequence < MAX_SEQUENCE_NUMBER
  }

  ghost predicate SnapshotsOk(s: State) {
    && (forall i, j :: 0 <= i < j < |s.snapshots| ==> s.snapshots[i] <= s.snapshots[j])
    && (forall i :: 0 <= i < |s.snapshots| ==> s.snapshots[i] <= s.lastSequence)
  }

  ghost predicate FileOrders(v: Version) {
    forall l {:trigger InFileOrder(v[l])} :: 0 <= l < 7 ==> InFileOrder(v[l])
  }

  ghost predicate StructureInv(s: State) {
    && Ascending(s.mem) && Ascending(Immutable(s))
    && VersionInv(s.version) && FileOrders(s.version) && NumbersOk(s.version, s.nextFile)
    && SourcesOrdered(s)
    && HistoryOk(s)
    && SnapshotsOk(s)
  }

  // Nothing a live snapshot (or a read at the last sequence number) can see was lost.
  ghost predicate ReadsAgree(s: State) {
    PreservesReads(s.history, All(s), Floor(s))
  }

  // ---------- the steps ----------

  ghost predicate Init(s: State) {
    && s.mem == [] && s.imm == None && s.snapshots == [] && s.history == {} && s.lastSequence == 0
    && forall l :: 0 <= l < 7 ==> s.version[l] == []
  }

  function OpEntry(op: Op, sequence: nat): Entry {
    match op
    case PutOp(k, x) => Entry(InternalKey(k, sequence, Put), x)
    case DeleteOp(k) => Entry(InternalKey(k, sequence, Deletion), [])
  }

  // The operations of a batch take consecutive sequence numbers.
  ghost function BatchEntries(ops: seq<Op>, first: nat): set<Entry> {
    set i | 0 <= i < |ops| :: OpEntry(ops[i], first + i)
  }

  ghost predicate WriteStep(s: State, t: State, ops: seq<Op>) {
    && s.lastSequence + |ops| < MAX_SEQUENCE_NUMBER
    && Ascending(t.mem)
    && Work.AsSet(t.mem) == Work.AsSet(s.mem) + BatchEntries(ops, s.lastSequence + 1)
    && t == s.(mem := t.mem, lastSequence := s.lastSequence + |ops|,
               history := s.history + BatchEntries(ops, s.lastSequence + 1))
  }

  ghost predicate SwitchStep(s: State, t: State) {
    s.imm.None? && t == s.(mem := [], imm := Some(s.mem))
  }

  ghost predicate FlushStep(s: State, t: State, level: nat, f: FileMetaData) {
    && s.imm.Some?
    && if s.imm.value == [] then t == s.(imm := None) else
      && f.entries == s.imm.value && f.number == s.nextFile
      && Flush(s.version, t.version, level, f)
      && t == s.(imm := None, version := t.version, nextFile := s.nextFile + 1)
  }

  ghost predicate MoveStep(s: State, t: State, level: nat, f: FileMetaData) {
    && Replace(s.version, t.version, level, [f], [], [f])
    && t == s.(version := t.version)
  }

  ghost predicate CompactStep(s: State, t: State, level: nat, inputs0: Level, inputs1: Level, outputs: Level) {
    && Replace(s.version, t.version, level, inputs0, inputs1, outputs)
    && LevelContents(outputs) == Kept(InputEntries(inputs0, inputs1), Floor(s), Work.BaseKeys(s.version, level))
    && Work.OutputFiles(outputs, s.nextFile)
    && t == s.(version := t.version, nextFile := s.nextFile + |outputs|)
  }

  ghost predicate SnapshotStep(s: State, t: State) {
    t == s.(snapshots := s.snapshots + [s.lastSequence])
  }

  ghost predicate ReleaseStep(s: State, t: State, i: nat) {
    i < |s.snapshots| && t == s.(snapshots := s.snapshots[..i] + s.snapshots[i + 1..])
  }

  // ---------- each step keeps the structure ----------

  lemma FileOrdersFrom(v: Version, w: Version, changed: set<nat>)
    requires FileOrders(v) && SameElsewhere(v, w, changed)
    requires forall l :: l in changed ==> l < 7 && InFileOrder(w[l])
    ensures FileOrders(w)
  {
    forall l | 0 <= l < 7
      ensures InFileOrder(w[l])
    {
      assert InFileOrder(v[l]);
      assert l !in changed ==> w[l] == v[l];
    }
  }

  lemma BatchFresh(s: State, ops: seq<Op>)
    requires HistoryOk(s)
    ensures UniqueSequences(s.history + BatchEntries(ops, s.lastSequence + 1))
    ensures forall e :: e in BatchEntries(ops, s.lastSequence + 1)
                        ==> s.lastSequence < e.ikey.sequence <= s.lastSequence + |ops|
  {
  }

  lemma WriteKeepsStructure(s: State, t: State, ops: seq<Op>)
    requires StructureInv(s) && WriteStep(s, t, ops)
    ensures StructureInv(t)
  {
    BatchFresh(s, ops);
    var batch := BatchEntries(ops, s.lastSequence + 1);
    forall a | a in t.mem
      ensures a in Work.AsSet(t.mem) && (a in s.mem || a in batch)
    {
    }
    forall e | e in All(s)
      ensures e.ikey.sequence <= s.lastSequence
    {
    }
    forall a, b | a in t.mem && Stored(t.version, b)
      ensures a.ikey.sequence > b.ikey.sequence
    {
      assert b in All(s);
    }
    forall a, b | a in t.mem && b in Immutable(s)
      ensures a.ikey.sequence > b.ikey.sequence
    {
      assert b in All(s);
    }
  }

  lemma SwitchKeepsStructure(s: State, t: State)
    requires StructureInv(s) && SwitchStep(s, t)
    ensures StructureInv(t) && All(t) == All(s)
  {
  }

  lemma FlushNumbers(s: State, t: State, level: nat, f: FileMetaData)
    requires NumbersOk(s.version, s.nextFile) && f.number == s.nextFile
    requires Flush(s.version, t.version, level, f)
    ensures NumbersOk(t.version, s.nextFile + 1)
  {
    forall i, j, g, h | FileClash(t.version, i, j, g, h)
      ensures i == j && g == h
    {
      if g != f && h != f {
        assert FileClash(s.version, i, j, g, h);
      }
    }
  }

  lemma FlushAll(s: State, t: State, level: nat, f: FileMetaData)
    requires StructureInv(s) && FlushStep(s, t, level, f) && s.imm.value != []
    ensures VersionInv(t.version) && All(t) == All(s) && SourcesOrdered(t)
  {
    FlushKeepsInv(s.version, t.version, level, f, s.history);
  }

  lemma FlushKeepsStructure(s: State, t: State, level: nat, f: FileMetaData)
    requires StructureInv(s) && FlushStep(s, t, level, f)
    ensures StructureInv(t) && All(t) == All(s)
  {
    if s.imm.value != [] {
      FlushAll(s, t, level, f);
      FlushNumbers(s, t, level, f);
      FileOrdersFrom(s.version, t.version, {level});
    }
  }

  lemma ReplaceNumbers(v: Version, w: Version, nextFile: nat, level: nat, inputs0: Level, inputs1: Level, outputs: Level)
    requires NumbersOk(v, nextFile) && Replace(v, w, level, inputs0, inputs1, outputs)
    requires Work.OutputFiles(outputs, nextFile)
    ensures NumbersOk(w, nextFile + |outputs|)
  {
    forall i, j, g, h | FileClash(w, i, j, g, h)
      ensures i == j && g == h
    {
      if g in v[i] && h in v[j] {
        assert FileClash(v, i, j, g, h);
      }
    }
    forall i, f | 0 <= i < 7 && f in w[i]
      ensures f.number < nextFile + |outputs|
    {
      assert f in v[i] || f in outputs;
    }
  }

  lemma CompactKeepsStructure(s: State, t: State, level: nat, inputs0: Level, inputs1: Level, outputs: Level)
    requires StructureInv(s) && CompactStep(s, t, level, inputs0, inputs1, outputs)
    ensures StructureInv(t)
  {
    ReplaceKeepsInv(s.version, t.version, level, inputs0, inputs1, outputs);
    ReplaceNumbers(s.version, t.version, s.nextFile, level, inputs0, inputs1, outputs);
    FileOrdersFrom(s.version, t.version, {level, level + 1});
  }

  lemma MoveNumbers(v: Version, w: Version, nextFile: nat, level: nat, f: FileMetaData)
    requires NumbersOk(v, nextFile) && Replace(v, w, level, [f], [], [f])
    ensures NumbersOk(w, nextFile)
  {
    assert f in [f] && f in v[level];
    forall i, j, g, h | FileClash(w, i, j, g, h)
      ensures i == j && g == h
    {
      var x := if g in v[i] then i else level;
      var y := if h in v[j] then j else level;
      assert FileClash(v, x, y, g, h);
    }
  }

  lemma MoveKeepsStructure(s: State, t: State, level: nat, f: FileMetaData)
    requires StructureInv(s) && MoveStep(s, t, level, f)
    ensures StructureInv(t) && All(t) == All(s)
  {
    ReplaceKeepsInv(s.version, t.version, level, [f], [], [f]);
    MoveNumbers(s.version, t.version, s.nextFile, level, f);
    FileOrdersFrom(s.version, t.version, {level, level + 1});
    MoveKeepsContents(s, t, level, f);
  }

  lemma MoveKeepsContents(s: State, t: State, level: nat, f: FileMetaData)
    requires MoveStep(s, t, level, f)
    ensures Contents(t.version) == Contents(s.version) && All(t) == All(s)
  {
    ReplaceContents(s.version, t.version, level, [f], [], [f]);
  }

  // ---------- each step keeps the reads ----------

  // Adding the same newer entries to two sources that read alike keeps them alike.
  lemma ReadWithNewer(a: set<Entry>, b: set<Entry>, newer: set<Entry>, u: UserKey, s: nat)
    requires UniqueSequences(a + newer) && UniqueSequences(b + newer)
    requires forall x, n :: x in a + b && n in newer ==> x.ikey.sequence < n.ikey.sequence
    requires Read(a, u, s) == Read(b, u, s)
    ensures Read(a + newer, u, s) == Read(b + newer, u, s)
  {
    if c :| c in newer && Candidate(u, s, c) {
      var n := NewestExists(newer, u, s, c);
      assert IsNewest(a + newer, u, s, n) && IsNewest(b + newer, u, s, n);
      ReadOfNewest(a + newer, u, s, n);
      ReadOfNewest(b + newer, u, s, n);
    } else {
      ReadWithUnseen(a, newer, u, s);
      ReadWithUnseen(b, newer, u, s);
    }
  }

  lemma ReadWithUnseen(a: set<Entry>, more: set<Entry>, u: UserKey, s: nat)
    requires UniqueSequences(a + more)
    requires forall c :: c in more ==> !Candidate(u, s, c)
    ensures Read(a + more, u, s) == Read(a, u, s)
  {
    if c :| c in a && Candidate(u, s, c) {
      var n := NewestExists(a, u, s, c);
      ReadOfNewest(a, u, s, n);
      assert IsNewest(a + more, u, s, n);
      ReadOfNewest(a + more, u, s, n);
    }
  }

  lemma WriteKeepsReads(s: State, t: State, ops: seq<Op>)
    requires StructureInv(s) && ReadsAgree(s) && WriteStep(s, t, ops)
    ensures ReadsAgree(t)
  {
    var batch := BatchEntries(ops, s.lastSequence + 1);
    BatchFresh(s, ops);
    assert All(t) == All(s) + batch;
    forall u: UserKey, q: nat | q >= Floor(t)
      ensures Read(All(t), u, q) == Read(t.history, u, q)
    {
      assert q >= Floor(s);
      ReadWithNewer(All(s), s.history, batch, u, q);
    }
  }

  lemma CompactKeepsReads(s: State, t: State, level: nat, inputs0: Level, inputs1: Level, outputs: Level)
    requires StructureInv(s) && ReadsAgree(s) && CompactStep(s, t, level, inputs0, inputs1, outputs)
    requires NextLevelBoundary(s.version, level, inputs1)
    ensures ReadsAgree(t)
  {
    CompactionPreservesReads(s.version, t.version, level, inputs0, inputs1, outputs, Above(s), Floor(s));
    assert Above(t) == Above(s);
  }

  // What is read does not depend on the hypothesis being met by luck: the compaction keeps
  // all reads if and only if it brings no value back.
  lemma CompactKeepsReadsIff(s: State, t: State, level: nat, inputs0: Level, inputs1: Level, outputs: Level)
    requires StructureInv(s) && ReadsAgree(s) && CompactStep(s, t, level, inputs0, inputs1, outputs)
    ensures ReadsAgree(t) <==>
            forall e :: e in InputEntries(inputs0, inputs1) ==>
              !Resurrects(InputEntries(inputs0, inputs1), Above(s) + Rest(s.version, level, inputs0, inputs1),
                          Floor(s), Work.BaseKeys(s.version, level), e)
  {
    CompactionPreservesReadsIff(s.version, t.version, level, inputs0, inputs1, outputs, Above(s), Floor(s));
    assert Above(t) == Above(s);
    assert PreservesReads(All(s), All(t), Floor(s)) <==> PreservesReads(s.history, All(t), Floor(s)) by {
      forall u: UserKey, q: nat | q >= Floor(s)
        ensures Read(All(s), u, q) == Read(s.history, u, q)
      {
      }
    }
  }

  // ---------- every run ----------

  datatype Step =
    | Writing(ops: seq<Op>)
    | Switching
    | Flushing(level: nat, file: FileMetaData)
    | Moving(level: nat, file: FileMetaData)
    | Compacting(level: nat, inputs0: Level, inputs1: Level, outputs: Level)
    | TakingSnapshot
    | Releasing(index: nat)

  ghost predicate Next(s: State, t: State, step: Step) {
    match step
    case Writing(ops) => WriteStep(s, t, ops)
    case Switching => SwitchStep(s, t)
    case Flushing(level, f) => FlushStep(s, t, level, f)
    case Moving(level, f) => MoveStep(s, t, level, f)
    case Compacting(level, inputs0, inputs1, outputs) => CompactStep(s, t, level, inputs0, inputs1, outputs)
    case TakingSnapshot => SnapshotStep(s, t)
    case Releasing(i) => ReleaseStep(s, t, i)
  }

  // The hypothesis on compactions; all other steps need none.
  ghost predicate Bounded(s: State, step: Step) {
    step.Compacting? && step.level < 6 ==> NextLevelBoundary(s.version, step.level, step.inputs1)
  }

  lemma NextKeepsStructure(s: State, t: State, step: Step)
    requires StructureInv(s) && Next(s, t, step)
    ensures StructureInv(t)
  {
    match step
    case Writing(ops) => WriteKeepsStructure(s, t, ops);
    case Switching => SwitchKeepsStructure(s, t);
    case Flushing(level, f) => FlushKeepsStructure(s, t, level, f);
    case Moving(level, f) => MoveKeepsStructure(s, t, level, f);
    case Compacting(level, inputs0, inputs1, outputs) => CompactKeepsStructure(s, t, level, inputs0, inputs1, outputs);
    case TakingSnapshot =>
    case Releasing(i) =>
  }

  lemma NextKeepsReads(s: State, t: State, step: Step)
    requires StructureInv(s) && ReadsAgree(s) && Next(s, t, step) && Bounded(s, step)
    ensures ReadsAgree(t)
  {
    match step
    case Writing(ops) => WriteKeepsReads(s, t, ops);
    case Switching => SwitchKeepsStructure(s, t);
    case Flushing(level, f) => FlushKeepsStructure(s, t, level, f);
    case Moving(level, f) => MoveKeepsStructure(s, t, level, f);
    case Compacting(level, inputs0, inputs1, outputs) => CompactKeepsReads(s, t, level, inputs0, inputs1, outputs);
    case TakingSnapshot =>
      assert Floor(t) >= Floor(s);
    case Releasing(i) =>
      assert Floor(t) >= Floor(s);
  }

  ghost predicate Run(states: seq<State>, steps: seq<Step>) {
    && |states| == |steps| + 1
    && Init(states[0])
    && forall i :: 0 <= i < |steps| ==> Next(states[i], states[i + 1], steps[i])
  }

  // Whatever the compactions pick and drop, every run keeps the level invariant.
  lemma {:induction false} RunKeepsStructure(states: seq<State>, steps: seq<Step>, i: nat)
    requires Run(states, steps) && i < |states|
    ensures StructureInv(states[i])
  {
    if i == 0 {
      InitOk(states[0]);
    } else {
      RunKeepsStructure(states, steps, i - 1);
      NextKeepsStructure(states[i - 1], states[i], steps[i - 1]);
    }
  }

  lemma InitOk(s: State)
    requires Init(s)
    ensures StructureInv(s) && ReadsAgree(s)
  {
    assert forall l :: 0 <= l < 7 ==> InFileOrder(s.version[l]);
    assert forall l, e :: 0 <= l < 7 ==> !Has(s.version[l], e);
    assert All(s) == {};
  }

  // In every run whose compactions meet the boundary hypothesis, every live snapshot reads
  // exactly what was written: flushing, moving, merging and dropping never show.
  lemma {:induction false} RunKeepsReads(states: seq<State>, steps: seq<Step>, i: nat)
    requires Run(states, steps) && i < |states|
    requires forall k :: 0 <= k < |steps| ==> Bounded(states[k], steps[k])
    ensures StructureInv(states[i]) && ReadsAgree(states[i])
  {
    if i == 0 {
      InitOk(states[0]);
    } else {
      RunKeepsReads(states, steps, i - 1);
      NextKeepsStructure(states[i - 1], states[i], steps[i - 1]);
      NextKeepsReads(states[i - 1], states[i], steps[i - 1]);
    }
  }

  // ---------- what a snapshot reads stays as it is ----------

  // Everything written between s and t has a number above the last one of s.
  ghost predicate AddsLater(s: State, t: State) {
    && s.lastSequence <= t.lastSequence && s.history <= t.history
    && forall e :: e in t.history - s.history ==> e.ikey.sequence > s.lastSequence
  }

  lemma NextAddsLater(s: State, t: State, step: Step)
    requires HistoryOk(s) && Next(s, t, step)
    ensures AddsLater(s, t)
  {
    if step.Writing? {
      BatchFresh(s, step.ops);
    }
  }

  // The same, to be looked into only where AddsLater is written.
  ghost predicate Later(s: State, t: State) {
    forall w {:trigger AddsLater(s, w)} :: w == t ==> AddsLater(s, w)
  }

  lemma LaterStill(s: State, t: State, w: State)
    requires Later(s, t) && Later(t, w)
    ensures Later(s, w)
  {
    assert AddsLater(s, t) && AddsLater(t, w);
  }

  lemma StepAddsLater(states: seq<State>, steps: seq<Step>, i: nat)
    requires Run(states, steps) && i < |steps|
    ensures Later(states[i], states[i + 1])
  {
    RunKeepsStructure(states, steps, i);
    NextAddsLater(states[i], states[i + 1], steps[i]);
  }

  lemma {:induction false} EachAddsLater(states: seq<State>, i: nat, j: nat)
    requires i <= j < |states| && Later(states[i], states[i])
    requires forall k, m {:trigger Later(states[k], states[m])} :: 0 <= k && m == k + 1 < |states| ==> Later(states[k], states[m])
    ensures Later(states[i], states[j])
    decreases j
  {
    if i < j {
      EachAddsLater(states, i, j - 1);
      assert Later(states[j - 1], states[j]);
      LaterStill(states[i], states[j - 1], states[j]);
    }
  }

  lemma RunAddsLater(states: seq<State>, steps: seq<Step>, i: nat, j: nat)
    requires Run(states, steps) && i <= j < |states|
    ensures AddsLater(states[i], states[j])
  {
    forall k, m | 0 <= k && m == k + 1 < |states|
      ensures Later(states[k], states[m])
    {
      StepAddsLater(states, steps, k);
    }
    assert AddsLater(states[i], states[i]);
    EachAddsLater(states, i, j);
    assert Later(states[i], states[j]);
  }

  // A live snapshot reads the same values for as long as it lives, whatever is written,
  // flushed, moved or compacted meanwhile.
  lemma SnapshotReadsStay(states: seq<State>, steps: seq<Step>, i: nat, j: nat, q: nat, u: UserKey)
    requires Run(states, steps) && i <= j < |states|
    requires forall k :: 0 <= k < |steps| ==> Bounded(states[k], steps[k])
    requires q in states[i].snapshots && q in states[j].snapshots
    ensures Read(All(states[j]), u, q) == Read(All(states[i]), u, q)
  {
    RunKeepsReads(states, steps, i);
    RunKeepsReads(states, steps, j);
    RunAddsLater(states, steps, i, j);
    var before, later := states[i].history, states[j].history - states[i].history;
    assert before + later == states[j].history;
    SnapshotAboveFloor(states[i], q);
    SnapshotAboveFloor(states[j], q);
    ReadIgnoresLater(before, later, u, q);
  }

  lemma SnapshotAboveFloor(s: State, q: nat)
    requires SnapshotsOk(s) && q in s.snapshots
    ensures Floor(s) <= q <= s.lastSequence
  {
  }
}
