/** What the database is for, in terms of operations alone: a key has the value of the last
  operation on it (include/leveldb/db.h, DB::Put, DB::Delete, DB::Write, DB::Get). */
module StoreMeaning {
  import opened Wrappers
  import opened Keys
  import opened Reads
  import opened DatabaseModel

  // Operation i is on key u, and none after it is.
  ghost predicate LastOn(ops: seq<Op>, u: UserKey, i: nat) {
    i < |ops| && ops[i].key == u && forall j :: i < j < |ops| ==> ops[j].key != u
  }

  ghost predicate NoOpOn(ops: seq<Op>, u: UserKey) {
    forall j :: 0 <= j < |ops| ==> ops[j].key != u
  }

  // What an operation leaves at its key.
  function Leaves(op: Op): Option<Value> {
    if op.PutOp? then Some(op.value) else None
  }

  // ---------- one write ----------

  lemma NewestOfBatch(s: State, t: State, ops: seq<Op>, u: UserKey, i: nat)
    requires HistoryOk(s) && WriteStep(s, t, ops) && LastOn(ops, u, i)
    ensures IsNewest(t.history, u, t.lastSequence, OpEntry(ops[i], s.lastSequence + 1 + i))
  {
    var first := s.lastSequence + 1;
    var batch := BatchEntries(ops, first);
    forall o | o in t.history && Candidate(u, t.lastSequence, o)
      ensures o.ikey.sequence <= first + i
    {
      if o in batch {
        var j :| 0 <= j < |ops| && o == OpEntry(ops[j], first + j);
      }
    }
  }

  // After a write a key has what the last operation on it leaves.
  lemma WriteShows(s: State, t: State, ops: seq<Op>, u: UserKey, i: nat)
    requires HistoryOk(s) && WriteStep(s, t, ops) && LastOn(ops, u, i)
    ensures Read(t.history, u, t.lastSequence) == Leaves(ops[i])
  {
    BatchFresh(s, ops);
    NewestOfBatch(s, t, ops, u, i);
    ReadOfNewest(t.history, u, t.lastSequence, OpEntry(ops[i], s.lastSequence + 1 + i));
  }

  // Any other key reads as before.
  lemma WriteLeavesOthers(s: State, t: State, ops: seq<Op>, u: UserKey)
    requires HistoryOk(s) && WriteStep(s, t, ops) && NoOpOn(ops, u)
    ensures Read(t.history, u, t.lastSequence) == Read(s.history, u, s.lastSequence)
  {
    BatchFresh(s, ops);
    var batch := BatchEntries(ops, s.lastSequence + 1);
    ReadWithUnseen(s.history, batch, u, t.lastSequence);
    ReadBeyond(s.history, u, s.lastSequence, s.lastSequence, t.lastSequence);
  }

  // Both, for all keys.
  lemma WriteMeans(s: State, t: State, ops: seq<Op>)
    requires HistoryOk(s) && WriteStep(s, t, ops)
    ensures forall u, i: nat :: LastOn(ops, u, i) ==> Read(t.history, u, t.lastSequence) == Leaves(ops[i])
    ensures forall u :: NoOpOn(ops, u) ==> Read(t.history, u, t.lastSequence) == Read(s.history, u, s.lastSequence)
  {
    forall u, i: nat | LastOn(ops, u, i)
      ensures Read(t.history, u, t.lastSequence) == Leaves(ops[i])
    {
      WriteShows(s, t, ops, u, i);
    }
    forall u | NoOpOn(ops, u)
      ensures Read(t.history, u, t.lastSequence) == Read(s.history, u, s.lastSequence)
    {
      WriteLeavesOthers(s, t, ops, u);
    }
  }

  // ---------- every run ----------

  // What a step writes.
  function OpsOf(step: Step): seq<Op> {
    if step.Writing? then step.ops else []
  }

  // All operations written in the first n steps, in order.
  ghost function WrittenIn(steps: seq<Step>, n: nat): seq<Op>
    requires n <= |steps|
  {
    if n == 0 then [] else WrittenIn(steps, n - 1) + OpsOf(steps[n - 1])
  }

  // What a key reads after these operations.
  ghost predicate ReadsAs(s: State, ops: seq<Op>, u: UserKey) {
    && (NoOpOn(ops, u) ==> Read(s.history, u, s.lastSequence) == None)
    && forall i: nat :: LastOn(ops, u, i) ==> Read(s.history, u, s.lastSequence) == Leaves(ops[i])
  }

  lemma LastOfBoth(before: seq<Op>, ops: seq<Op>, u: UserKey, i: nat)
    ensures LastOn(before + ops, u, i) <==>
            if i < |before| then LastOn(before, u, i) && NoOpOn(ops, u) else LastOn(ops, u, i - |before|)
  {
    var all := before + ops;
    if i < |before| && LastOn(all, u, i) {
      forall j | 0 <= j < |ops|
        ensures ops[j].key != u
      {
        assert all[|before| + j] == ops[j];
      }
      forall j | i < j < |before|
        ensures before[j].key != u
      {
        assert all[j] == before[j];
      }
    }
    if |before| <= i && LastOn(all, u, i) {
      forall j | i - |before| < j < |ops|
        ensures ops[j].key != u
      {
        assert all[|before| + j] == ops[j];
      }
    }
  }

  lemma NoOpOnBoth(before: seq<Op>, ops: seq<Op>, u: UserKey)
    ensures NoOpOn(before + ops, u) <==> NoOpOn(before, u) && NoOpOn(ops, u)
  {
    var all := before + ops;
    if NoOpOn(all, u) {
      forall j | 0 <= j < |ops|
        ensures ops[j].key != u
      {
        assert all[|before| + j] == ops[j];
      }
      forall j | 0 <= j < |before|
        ensures before[j].key != u
      {
        assert all[j] == before[j];
      }
    }
  }

  lemma WriteReadsAs(s: State, t: State, before: seq<Op>, ops: seq<Op>, u: UserKey)
    requires HistoryOk(s) && WriteStep(s, t, ops) && ReadsAs(s, before, u)
    ensures ReadsAs(t, before + ops, u)
  {
    WriteMeans(s, t, ops);
    NoOpOnBoth(before, ops, u);
    forall i: nat | LastOn(before + ops, u, i)
      ensures Read(t.history, u, t.lastSequence) == Leaves((before + ops)[i])
    {
      LastOfBoth(before, ops, u, i);
    }
  }

  lemma StepReadsAs(s: State, t: State, step: Step, before: seq<Op>, u: UserKey)
    requires HistoryOk(s) && Next(s, t, step) && ReadsAs(s, before, u)
    ensures ReadsAs(t, before + OpsOf(step), u)
  {
    if step.Writing? {
      WriteReadsAs(s, t, before, step.ops, u);
    } else {
      assert before + OpsOf(step) == before;
      assert t.history == s.history && t.lastSequence == s.lastSequence;
    }
  }

  // A run, to be looked into only where Run is written.
  ghost predicate Running(states: seq<State>, steps: seq<Step>) {
    forall x {:trigger Run(states, x)} :: x == steps ==> Run(states, x)
  }

  // The same for ReadsAs.
  ghost predicate Told(s: State, ops: seq<Op>, u: UserKey) {
    forall x {:trigger ReadsAs(s, x, u)} :: x == ops ==> ReadsAs(s, x, u)
  }

  lemma NothingYet(s: State, u: UserKey)
    requires Init(s)
    ensures ReadsAs(s, [], u)
  {
  }

  lemma FirstReadsAs(states: seq<State>, steps: seq<Step>, u: UserKey)
    requires Running(states, steps) && |states| > 0
    ensures Told(states[0], [], u)
  {
    assert Run(states, steps);
    NothingYet(states[0], u);
  }

  lemma RunStepReadsAs(states: seq<State>, steps: seq<Step>, n: nat, before: seq<Op>, after: seq<Op>, u: UserKey)
    requires Running(states, steps) && |states| == |steps| + 1 && n < |steps| && Told(states[n], before, u)
    requires after == before + OpsOf(steps[n])
    ensures Told(states[n + 1], after, u)
  {
    assert Run(states, steps) && ReadsAs(states[n], before, u);
    RunKeepsStructure(states, steps, n);
    StepReadsAs(states[n], states[n + 1], steps[n], before, u);
  }

  lemma {:induction false} RunReadsAs(states: seq<State>, steps: seq<Step>, n: nat, u: UserKey)
    requires Running(states, steps) && |states| == |steps| + 1 && n <= |steps|
    ensures Told(states[n], WrittenIn(steps, n), u)
    decreases n
  {
    if n == 0 {
      FirstReadsAs(states, steps, u);
    } else {
      RunReadsAs(states, steps, n - 1, u);
      RunStepReadsAs(states, steps, n - 1, WrittenIn(steps, n - 1), WrittenIn(steps, n), u);
    }
  }

  // In every run a key has the value of the last put on it, unless a deletion of the key came
  // later or there was no put: flushes, moves, compactions and snapshots change nothing.
  lemma RunMeans(states: seq<State>, steps: seq<Step>, n: nat, u: UserKey)
    requires Run(states, steps) && n < |states|
    ensures ReadsAs(states[n], WrittenIn(steps, n), u)
  {
    RunReadsAs(states, steps, n, u);
    assert ReadsAs(states[n], WrittenIn(steps, n), u);
  }

  // The same of what is stored, when the compactions meet the boundary hypothesis.
  lemma StoredMeans(states: seq<State>, steps: seq<Step>, n: nat, u: UserKey, i: nat)
    requires Run(states, steps) && n < |states|
    requires forall k :: 0 <= k < |steps| ==> Bounded(states[k], steps[k])
    ensures LastOn(WrittenIn(steps, n), u, i) ==>
              Read(All(states[n]), u, states[n].lastSequence) == Leaves(WrittenIn(steps, n)[i])
    ensures NoOpOn(WrittenIn(steps, n), u) ==> Read(All(states[n]), u, states[n].lastSequence) == None
  {
    RunMeans(states, steps, n, u);
    RunKeepsReads(states, steps, n);
  }
}
