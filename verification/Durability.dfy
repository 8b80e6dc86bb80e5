/** Crashes. A crash loses the memtables; the version is recovered from the manifest and the
  memtable from what is left of the log (DBImpl::Recover, DBImpl::RecoverLogFile). Reads after
  any number of crashes are those of the history that was not lost. */
module Durability {
  import opened Wrappers
  import opened Keys
  import opened Reads
  import opened CompactionMeaning
  import opened VersionModel
  import opened VersionBuilder
  import opened VersionSteps
  import opened DatabaseModel
  import Work = CompactionWork

  // What was written and is no longer in a memtable: it is in a table, or was dropped by a
  // compaction.
  ghost function Flushed(s: State): set<Entry> {
    s.history - Above(s)
  }

  // The tables alone answer for all that was flushed.
  ghost predicate FlushedReads(s: State) {
    PreservesReads(Flushed(s), Contents(s.version), Floor(s))
  }

  ghost predicate FlushedIsOlder(s: State) {
    forall e, a :: e in Flushed(s) && a in Above(s) ==> e.ikey.sequence < a.ikey.sequence
  }

  ghost predicate Durable(s: State) {
    FlushedIsOlder(s) && FlushedReads(s)
  }

  // The end of the log was lost: all after the operation with number `last`. What had been
  // flushed is safe, its tables were synced. The manifest may know of a higher sequence
  // number than the log still has; numbers go on from there.
  ghost predicate CrashStep(s: State, t: State, last: nat) {
    && last <= t.lastSequence <= s.lastSequence && (forall e :: e in Flushed(s) ==> e.ikey.sequence <= last)
    && Ascending(t.mem) && Work.AsSet(t.mem) == UpTo(Above(s), last)
    && (forall l, f :: 0 <= l < 7 && f in s.version[l] ==> f.number < t.nextFile)
    && t == s.(mem := t.mem, imm := None, lastSequence := t.lastSequence, nextFile := t.nextFile, snapshots := [],
               history := UpTo(s.history, last))
  }

  ghost function UpTo(es: set<Entry>, last: nat): (r: set<Entry>)
    ensures forall e :: e in r <==> e in es && e.ikey.sequence <= last
  {
    set e | e in es && e.ikey.sequence <= last
  }

  // ---------- the tables hold what was flushed ----------

  lemma TablesAreFlushed(s: State)
    requires SourcesOrdered(s) && HistoryOk(s)
    ensures Contents(s.version) <= Flushed(s)
  {
    forall e | e in Contents(s.version)
      ensures e in Flushed(s)
    {
      assert e in All(s);
      assert e in Above(s) ==> e in s.mem || e in Immutable(s);
    }
  }

  // ---------- a crash ----------

  lemma FlushedStays(s: State, t: State, last: nat)
    requires SourcesOrdered(s) && HistoryOk(s) && CrashStep(s, t, last)
    ensures Above(t) == UpTo(Above(s), last) && Flushed(t) == Flushed(s)
  {
    assert Work.AsSet(Immutable(t)) == {};
    forall e
      ensures e in Flushed(t) <==> e in Flushed(s)
    {
    }
  }

  lemma CrashKeepsFlushedReads(s: State, t: State, last: nat)
    requires StructureInv(s) && Durable(s) && CrashStep(s, t, last)
    ensures Durable(t)
  {
    FlushedStays(s, t, last);
    TablesAreFlushed(s);
    forall u: UserKey, q: nat | q >= Floor(t)
      ensures Read(Contents(t.version), u, q) == Read(Flushed(t), u, q)
    {
      var r := if q >= Floor(s) then q else Floor(s);
      ReadBeyond(Flushed(s), u, last, q, r);
      ReadBeyond(Contents(s.version), u, last, q, r);
    }
  }

  lemma CrashKeepsStructure(s: State, t: State, last: nat)
    requires StructureInv(s) && CrashStep(s, t, last)
    ensures StructureInv(t)
  {
    FlushedStays(s, t, last);
    TablesAreFlushed(s);
    forall e | e in All(t)
      ensures e in t.history
    {
    }
    forall a, b | a in t.mem && Stored(t.version, b)
      ensures a.ikey.sequence > b.ikey.sequence
    {
      assert a in Work.AsSet(t.mem) && a in Above(s);
      assert a in s.mem || a in Immutable(s);
    }
  }

  // The memtables and the tables together answer for the history.
  lemma AgreesWhenDurable(s: State)
    requires StructureInv(s) && Durable(s)
    ensures ReadsAgree(s)
  {
    TablesAreFlushed(s);
    var above, flushed := Above(s), Flushed(s);
    assert All(s) == Contents(s.version) + above;
    assert s.history == flushed + above by {
      assert above <= All(s) <= s.history;
    }
    forall u: UserKey, q: nat | q >= Floor(s)
      ensures Read(All(s), u, q) == Read(s.history, u, q)
    {
      ReadWithNewer(Contents(s.version), flushed, above, u, q);
    }
  }

  // ---------- the other steps ----------

  lemma SameFlushed(s: State, t: State)
    requires Durable(s) && Above(t) == Above(s) && t.history == s.history && Contents(t.version) == Contents(s.version)
    requires Floor(t) >= Floor(s)
    ensures Durable(t)
  {
    assert Flushed(t) == Flushed(s);
  }

  lemma WriteKeepsDurable(s: State, t: State, ops: seq<Op>)
    requires StructureInv(s) && Durable(s) && WriteStep(s, t, ops)
    ensures Durable(t)
  {
    BatchFresh(s, ops);
    var batch := BatchEntries(ops, s.lastSequence + 1);
    assert Above(t) == Above(s) + batch;
    assert Flushed(t) == Flushed(s) by {
      forall e
        ensures e in Flushed(t) <==> e in Flushed(s)
      {
        assert e in batch ==> e !in s.history;
      }
    }
    assert Floor(t) >= Floor(s);
  }

  lemma FlushMoves(s: State, t: State, level: nat, f: FileMetaData)
    requires StructureInv(s) && FlushStep(s, t, level, f) && s.imm.Some?
    ensures Above(t) == Work.AsSet(s.mem) && Flushed(t) == Flushed(s) + Work.AsSet(s.imm.value)
    ensures Contents(t.version) == Contents(s.version) + Work.AsSet(s.imm.value)
  {
    var imm := Work.AsSet(s.imm.value);
    assert Work.AsSet(Immutable(t)) == {};
    FlushKeepsStructure(s, t, level, f);
    forall e
      ensures e in Flushed(t) <==> e in Flushed(s) + imm
    {
      assert e in imm ==> e in All(s) && e !in Work.AsSet(s.mem);
    }
    if s.imm.value == [] {
      assert imm == {};
    } else {
      FlushKeepsInv(s.version, t.version, level, f, s.history);
    }
  }

  lemma FlushKeepsDurable(s: State, t: State, level: nat, f: FileMetaData)
    requires StructureInv(s) && Durable(s) && FlushStep(s, t, level, f)
    ensures Durable(t)
  {
    FlushMoves(s, t, level, f);
    TablesAreFlushed(s);
    var imm := Work.AsSet(s.imm.value);
    assert imm <= Above(s) && Above(s) <= s.history;
    forall u: UserKey, q: nat | q >= Floor(t)
      ensures Read(Contents(t.version), u, q) == Read(Flushed(t), u, q)
    {
      ReadWithNewer(Contents(s.version), Flushed(s), imm, u, q);
    }
    assert FlushedIsOlder(t);
  }

  lemma CompactKeepsDurable(s: State, t: State, level: nat, inputs0: Level, inputs1: Level, outputs: Level)
    requires StructureInv(s) && Durable(s) && CompactStep(s, t, level, inputs0, inputs1, outputs)
    requires NextLevelBoundary(s.version, level, inputs1)
    ensures Durable(t)
  {
    CompactionPreservesReads(s.version, t.version, level, inputs0, inputs1, outputs, {}, Floor(s));
    assert {} + Contents(s.version) == Contents(s.version) && {} + Contents(t.version) == Contents(t.version);
    assert Above(t) == Above(s) && Flushed(t) == Flushed(s) && Floor(t) == Floor(s);
  }

  lemma NextKeepsDurable(s: State, t: State, step: Step)
    requires StructureInv(s) && Durable(s) && Next(s, t, step) && Bounded(s, step)
    ensures Durable(t)
  {
    match step
    case Writing(ops) => WriteKeepsDurable(s, t, ops);
    case Switching =>
      assert Work.AsSet(s.mem) == Above(s);
      SameFlushed(s, t);
    case Flushing(level, f) => FlushKeepsDurable(s, t, level, f);
    case Moving(level, f) =>
      MoveKeepsContents(s, t, level, f);
      SameFlushed(s, t);
    case Compacting(level, inputs0, inputs1, outputs) => CompactKeepsDurable(s, t, level, inputs0, inputs1, outputs);
    case TakingSnapshot => SameFlushed(s, t);
    case Releasing(i) => SameFlushed(s, t);
  }

  // ---------- every run, with crashes ----------

  datatype Event = Stepping(step: Step) | Crashing(last: nat)

  ghost predicate Happens(s: State, t: State, event: Event) {
    match event
    case Stepping(step) => Next(s, t, step)
    case Crashing(last) => CrashStep(s, t, last)
  }

  ghost predicate CrashingRun(states: seq<State>, events: seq<Event>) {
    && |states| == |events| + 1
    && Init(states[0])
    && forall i :: 0 <= i < |events| ==> Happens(states[i], states[i + 1], events[i])
  }

  ghost predicate BoundedEvent(s: State, event: Event) {
    event.Stepping? ==> Bounded(s, event.step)
  }

  lemma HappensKeeps(s: State, t: State, event: Event)
    requires StructureInv(s) && Durable(s) && Happens(s, t, event) && BoundedEvent(s, event)
    ensures StructureInv(t) && Durable(t)
  {
    match event
    case Stepping(step) =>
      NextKeepsStructure(s, t, step);
      NextKeepsDurable(s, t, step);
    case Crashing(last) =>
      CrashKeepsStructure(s, t, last);
      CrashKeepsFlushedReads(s, t, last);
  }

  lemma InitDurable(s: State)
    requires Init(s)
    ensures StructureInv(s) && Durable(s)
  {
    InitOk(s);
    assert Flushed(s) == {} && All(s) == {};
    assert Contents(s.version) == {};
  }

  // However often the database crashes, and wherever the log is cut: every live snapshot
  // reads exactly what was written and not lost.
  lemma {:induction false} CrashingRunKeepsReads(states: seq<State>, events: seq<Event>, i: nat)
    requires CrashingRun(states, events) && i < |states|
    requires forall k :: 0 <= k < |events| ==> BoundedEvent(states[k], events[k])
    ensures StructureInv(states[i]) && Durable(states[i]) && ReadsAgree(states[i])
  {
    if i == 0 {
      InitDurable(states[0]);
    } else {
      CrashingRunKeepsReads(states, events, i - 1);
      HappensKeeps(states[i - 1], states[i], events[i - 1]);
    }
    AgreesWhenDurable(states[i]);
  }
}
