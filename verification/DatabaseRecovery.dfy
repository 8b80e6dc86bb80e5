/** Recovery of a database after a crash (DBImpl::RecoverLogFile): the memtable that is rebuilt
  from the log, whose end may be lost, is the one a crash step of the model leaves. */
module DatabaseRecovery {
  import opened Wrappers
  import opened Keys
  import opened Coding
  import opened Reads
  import opened VersionModel
  import opened DatabaseModel
  import opened Durability
  import opened LogFormat
  import opened Log
  import opened Recovery
  import Batches = WriteBatches
  import Memtable
  import Work = CompactionWork

  // An operation of a batch, on the key with the position of its bytes.
  function ModelOp(op: Batches.Op): Op {
    match op
    case PutOp(k, x) => PutOp(Rank(k), x)
    case DeleteOp(k) => DeleteOp(Rank(k))
  }

  function EntryOf(x: (nat, Batches.Op)): Entry {
    OpEntry(ModelOp(x.1), x.0)
  }

  ghost function EntriesOf(xs: seq<(nat, Batches.Op)>): (r: set<Entry>)
    ensures forall i :: 0 <= i < |xs| ==> EntryOf(xs[i]) in r
    ensures forall e :: e in r ==> exists i :: 0 <= i < |xs| && e == EntryOf(xs[i])
  {
    set i | 0 <= i < |xs| :: EntryOf(xs[i])
  }

  // Each batch takes the numbers after the one before it.
  ghost predicate InTurn(batches: seq<Batch>) {
    forall i {:trigger batches[i]} :: 0 < i < |batches| ==> batches[i].sequence == batches[i - 1].sequence + |batches[i - 1].ops|
  }

  function EndOf(b: Batch): nat {
    b.sequence + |b.ops|
  }

  lemma {:induction false} LaterBatch(batches: seq<Batch>, i: nat, j: nat)
    requires InTurn(batches) && i < j < |batches|
    ensures EndOf(batches[i]) <= batches[j].sequence
    decreases j
  {
    if i < j - 1 {
      LaterBatch(batches, i, j - 1);
    }
  }

  // The entries of the first n batches, in ascending order below where batch n begins.
  lemma {:induction false} EntriesAscend(batches: seq<Batch>, n: nat)
    requires InTurn(batches) && n <= |batches|
    ensures forall i, j :: 0 <= i < j < |Entries(batches[..n])| ==> Entries(batches[..n])[i].0 < Entries(batches[..n])[j].0
    ensures n > 0 ==> forall i :: 0 <= i < |Entries(batches[..n])| ==> Entries(batches[..n])[i].0 < EndOf(batches[n - 1])
    decreases n
  {
    if n > 0 {
      EntriesAscend(batches, n - 1);
      BatchesUpTo(batches, n, 0);
      if n > 1 {
        assert EndOf(batches[n - 2]) == batches[n - 1].sequence;
      } else {
        assert batches[..0] == [];
      }
    }
  }

  // `all` goes on after `some` with numbers of at least `bound`.
  ghost predicate GoesOn(some: seq<(nat, Batches.Op)>, all: seq<(nat, Batches.Op)>, bound: nat) {
    some <= all && forall i :: |some| <= i < |all| ==> all[i].0 >= bound
  }

  lemma GoesFurther(some: seq<(nat, Batches.Op)>, all: seq<(nat, Batches.Op)>, more: seq<(nat, Batches.Op)>, bound: nat)
    requires GoesOn(some, all, bound) && forall i :: 0 <= i < |more| ==> more[i].0 >= bound
    ensures GoesOn(some, all + more, bound)
  {
  }

  // The entries of the first n batches.
  function FirstEntries(batches: seq<Batch>, n: nat): seq<(nat, Batches.Op)>
    requires n <= |batches|
  {
    if n == 0 then [] else FirstEntries(batches, n - 1) + Batches.Numbered(batches[n - 1].sequence, batches[n - 1].ops)
  }

  lemma {:induction false} FirstEntriesAre(batches: seq<Batch>, n: nat)
    requires n <= |batches|
    ensures FirstEntries(batches, n) == Entries(batches[..n])
    decreases n
  {
    if n == 0 {
      assert batches[..0] == [];
    } else {
      FirstEntriesAre(batches, n - 1);
      BatchesUpTo(batches, n, 0);
    }
  }

  // What follows the first k batches has numbers from where batch k begins.
  lemma {:induction false} EntriesSplit(batches: seq<Batch>, k: nat, n: nat, bound: nat)
    requires InTurn(batches) && k <= n <= |batches|
    requires k < |batches| ==> bound == batches[k].sequence
    ensures GoesOn(FirstEntries(batches, k), FirstEntries(batches, n), bound)
    decreases n
  {
    if k < n {
      EntriesSplit(batches, k, n - 1, bound);
      var last := batches[n - 1];
      if k < n - 1 {
        LaterBatch(batches, k, n - 1);
      }
      GoesFurther(FirstEntries(batches, k), FirstEntries(batches, n - 1), Batches.Numbered(last.sequence, last.ops), bound);
    }
  }

  // The number that the first k batches reach.
  function CutAfter(batches: seq<Batch>, k: nat, start: nat): nat
    requires k <= |batches| && AllNumberable(batches)
  {
    if k < |batches| then batches[k].sequence - 1 else MaxSequence(batches, start)
  }

  lemma {:induction false} MaxIs(batches: seq<Batch>, start: nat, k: nat, bound: nat)
    requires AllNumberable(batches) && InTurn(batches) && k <= |batches| && start <= bound
    requires batches != [] ==> EndOf(batches[|batches| - 1]) <= bound + 1
    ensures start <= MaxSequence(batches[..k], start) <= bound
    ensures k > 0 ==> EndOf(batches[k - 1]) - 1 <= MaxSequence(batches[..k], start)
    decreases k
  {
    if k == 0 {
      assert batches[..0] == [];
    } else {
      MaxIs(batches, start, k - 1, bound);
      BatchesUpTo(batches, k, start);
      if k < |batches| {
        LaterBatch(batches, k - 1, |batches| - 1);
      }
    }
  }

  lemma KeptSet(some: seq<(nat, Batches.Op)>, all: seq<(nat, Batches.Op)>, cut: nat)
    requires GoesOn(some, all, cut + 1) && forall i :: 0 <= i < |some| ==> some[i].0 <= cut
    ensures EntriesOf(some) == UpTo(EntriesOf(all), cut)
  {
    forall e
      ensures e in EntriesOf(some) <==> e in UpTo(EntriesOf(all), cut)
    {
      if e in EntriesOf(some) {
        var i :| 0 <= i < |some| && e == EntryOf(some[i]);
        assert all[i] == some[i];
      }
      if e in UpTo(EntriesOf(all), cut) {
        var i :| 0 <= i < |all| && e == EntryOf(all[i]);
        assert i < |some| && all[i] == some[i];
      }
    }
  }

  lemma SomeUpTo(batches: seq<Batch>, k: nat, start: nat, some: seq<(nat, Batches.Op)>, cut: nat)
    requires AllNumberable(batches) && InTurn(batches) && k <= |batches| && some == Entries(batches[..k])
    requires cut == CutAfter(batches, k, start)
    ensures forall i :: 0 <= i < |some| ==> some[i].0 <= cut
  {
    EntriesAscend(batches, k);
    if k == 0 {
      assert batches[..0] == [];
    } else if k < |batches| {
      LaterBatch(batches, k - 1, k);
    } else {
      assert batches[..k] == batches;
      MaxIs(batches, start, k, start + EndOf(batches[k - 1]));
    }
  }

  // Cutting the entries off behind a batch is cutting them off at a number.
  lemma KeptByNumber(batches: seq<Batch>, k: nat, start: nat)
    requires AllNumberable(batches) && InTurn(batches) && k <= |batches|
    ensures EntriesOf(Entries(batches[..k])) == UpTo(EntriesOf(Entries(batches)), CutAfter(batches, k, start))
  {
    var some, cut := Entries(batches[..k]), CutAfter(batches, k, start);
    assert batches[..|batches|] == batches;
    FirstEntriesAre(batches, k);
    FirstEntriesAre(batches, |batches|);
    EntriesSplit(batches, k, |batches|, cut + 1);
    SomeUpTo(batches, k, start, some, cut);
    KeptSet(some, Entries(batches), cut);
  }

  // ---------- the recovered state ----------

  // The log of the memtable: its batches are what the memtable holds. `start` is the last
  // sequence number in the manifest.
  ghost predicate LogHolds(s: State, batches: seq<Batch>, start: nat) {
    && s.imm.None? && AllNumberable(batches) && InTurn(batches)
    && Above(s) == EntriesOf(Entries(batches))
    && (forall e :: e in Flushed(s) ==> e.ikey.sequence <= start && (batches != [] ==> e.ikey.sequence < batches[0].sequence))
    && start <= s.lastSequence
    && (batches != [] ==> batches[0].sequence <= start + 1 && EndOf(batches[|batches| - 1]) <= s.lastSequence + 1)
  }

  // The state after recovery: this memtable, and this last sequence number.
  ghost function Recovered(s: State, mem: seq<Entry>, last: nat, cut: nat): State {
    s.(mem := mem, imm := None, lastSequence := last, snapshots := [], history := UpTo(s.history, cut))
  }

  lemma FlushedBeforeCut(s: State, batches: seq<Batch>, start: nat, k: nat)
    requires LogHolds(s, batches, start) && k <= |batches|
    ensures forall e :: e in Flushed(s) ==> e.ikey.sequence <= CutAfter(batches, k, start)
    ensures CutAfter(batches, k, start) <= MaxSequence(batches[..k], start) <= s.lastSequence
  {
    MaxIs(batches, start, k, s.lastSequence);
    MaxIs(batches, start, |batches|, s.lastSequence);
    assert batches[..|batches|] == batches;
    if 0 < k < |batches| {
      LaterBatch(batches, 0, k);
      assert EndOf(batches[k - 1]) == batches[k].sequence;
    }
  }

  lemma RecoveryIsCrash(s: State, batches: seq<Batch>, start: nat, k: nat, mem: seq<Entry>)
    requires StructureInv(s) && LogHolds(s, batches, start) && k <= |batches|
    requires Ascending(mem) && Work.AsSet(mem) == EntriesOf(Entries(batches[..k]))
    ensures var cut := CutAfter(batches, k, start);
            CrashStep(s, Recovered(s, mem, MaxSequence(batches[..k], start), cut), cut)
  {
    KeptByNumber(batches, k, start);
    FlushedBeforeCut(s, batches, start, k);
  }

  // ---------- what the recovered memtable says ----------

  // Entry i is of an operation on this key, and no later one is.
  ghost predicate LastOn(xs: seq<(nat, Batches.Op)>, key: Bytes, i: nat) {
    i < |xs| && xs[i].1.key == key && forall j :: i < j < |xs| ==> xs[j].1.key != key
  }

  ghost predicate Ascend(xs: seq<(nat, Batches.Op)>) {
    forall i, j :: 0 <= i < j < |xs| ==> xs[i].0 < xs[j].0
  }

  // The memtable reads, for each key, as the last operation on it says.
  ghost predicate Shows(xs: seq<(nat, Batches.Op)>, mem: seq<Entry>, q: nat) {
    forall key, i: nat {:trigger LastOn(xs, key, i)} :: LastOn(xs, key, i) ==>
      Read(Work.AsSet(mem), Rank(key), q) == if xs[i].1.PutOp? then Some(xs[i].1.value) else None
  }

  lemma EntriesUnique(xs: seq<(nat, Batches.Op)>)
    requires Ascend(xs)
    ensures UniqueSequences(EntriesOf(xs))
  {
    forall a, b | a in EntriesOf(xs) && b in EntriesOf(xs) && a.ikey.sequence == b.ikey.sequence
      ensures a == b
    {
      var i :| 0 <= i < |xs| && a == EntryOf(xs[i]);
      var j :| 0 <= j < |xs| && b == EntryOf(xs[j]);
      assert i == j;
    }
  }

  lemma LastIsNewest(xs: seq<(nat, Batches.Op)>, key: Bytes, i: nat, q: nat)
    requires Ascend(xs) && LastOn(xs, key, i) && forall j :: 0 <= j < |xs| ==> xs[j].0 <= q
    ensures IsNewest(EntriesOf(xs), Rank(key), q, EntryOf(xs[i]))
  {
    forall o | o in EntriesOf(xs) && Candidate(Rank(key), q, o)
      ensures o.ikey.sequence <= xs[i].0
    {
      var j :| 0 <= j < |xs| && o == EntryOf(xs[j]);
      RankOrder(xs[j].1.key, key);
    }
  }

  lemma MemtableShows(xs: seq<(nat, Batches.Op)>, mem: seq<Entry>, q: nat)
    requires Ascend(xs) && Work.AsSet(mem) == EntriesOf(xs) && forall j :: 0 <= j < |xs| ==> xs[j].0 <= q
    ensures Shows(xs, mem, q)
  {
    EntriesUnique(xs);
    forall key, i: nat | LastOn(xs, key, i)
      ensures Read(Work.AsSet(mem), Rank(key), q) == if xs[i].1.PutOp? then Some(xs[i].1.value) else None
    {
      LastIsNewest(xs, key, i, q);
      ReadOfNewest(EntriesOf(xs), Rank(key), q, EntryOf(xs[i]));
    }
  }

  // ---------- the code ----------

  // The entries of the replayed batches go into a new memtable.
  method FillMemtable(entries: seq<(nat, Batches.Op)>) returns (mem: seq<Entry>)
    requires Ascend(entries)
    ensures Ascending(mem) && Work.AsSet(mem) == EntriesOf(entries)
    ensures entries != [] ==> Shows(entries, mem, entries[|entries| - 1].0)
  {
    mem := [];
    for i := 0 to |entries|
      invariant Ascending(mem)
      invariant forall e :: e in mem <==> exists j :: 0 <= j < i && e == EntryOf(entries[j])
    {
      var e := EntryOf(entries[i]);
      Memtable.InsertKeepsOrder(mem, e);
      Memtable.InsertMembers(mem, e);
      mem := Memtable.Insert(mem, e);
    }
    if entries != [] {
      MemtableShows(entries, mem, entries[|entries| - 1].0);
    }
  }

  // RecoverLogFile on a log that was cut off anywhere: the database is where it was after the
  // last batch that the file still has whole, and everything durable holds of it.
  method RecoverMemtable(file: Bytes, paranoid: bool, start: nat, ghost crc: Checksum, ghost batches: seq<Batch>, ghost s: State)
    returns (mem: seq<Entry>, last: nat, ok: bool)
    requires MaskedCrc(crc) && StructureInv(s) && Durable(s) && LogHolds(s, batches, start)
    requires file <= LogOf(AddRecordTo(crc), 0, Records(batches))
    ensures var cut := CutAfter(batches, Whole(AddRecordTo(crc), 0, Records(batches), |file|), start);
            var t := Recovered(s, mem, last, cut);
            ok && CrashStep(s, t, cut) && StructureInv(t) && ReadsAgree(t)
  {
    var entries;
    entries, last, ok := RecoverLogFile(file, paranoid, start, crc);
    CutLogReplays(file, paranoid, start, crc, batches, entries, last, ok);
    ghost var k := Whole(AddRecordTo(crc), 0, Records(batches), |file|);
    EntriesAscend(batches, k);
    mem := FillMemtable(entries);
    RecoveryIsCrash(s, batches, start, k, mem);
    ghost var cut := CutAfter(batches, k, start);
    ghost var t := Recovered(s, mem, last, cut);
    CrashKeepsStructure(s, t, cut);
    CrashKeepsFlushedReads(s, t, cut);
    AgreesWhenDurable(t);
  }
}
