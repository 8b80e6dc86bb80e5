/** When do the drop rules of DBImpl::DoCompactionWork keep the meaning of the database?

  `inputs` are the entries of the compacted files, `rest` all other entries of the
  database. The rules drop an entry that is (A) hidden by a newer input entry that every
  live snapshot already sees, or (T) a tombstone at or below the smallest snapshot whose
  key is at its base level. */
module CompactionMeaning {
  import opened Wrappers
  import opened Keys
  import opened Reads

  ghost predicate Hidden(inputs: set<Entry>, ss: nat, e: Entry) {
    exists n :: n in inputs && n.ikey.user == e.ikey.user && e.ikey.sequence < n.ikey.sequence <= ss
  }

  ghost predicate Obsolete(ss: nat, base: iset<UserKey>, e: Entry) {
    e.ikey.kind.Deletion? && e.ikey.sequence <= ss && e.ikey.user in base
  }

  ghost function Kept(inputs: set<Entry>, ss: nat, base: iset<UserKey>): set<Entry> {
    set e | e in inputs && !Hidden(inputs, ss, e) && !Obsolete(ss, base, e)
  }

  // Nothing that could be dropped is left: of each user key at most one entry at or below the
  // smallest snapshot, and no tombstone there whose key is at its base level.
  ghost predicate Lean(es: set<Entry>, ss: nat, base: iset<UserKey>) {
    && (forall a, b :: a in es && b in es && a.ikey.user == b.ikey.user && a.ikey.sequence <= ss && b.ikey.sequence <= ss ==>
          a.ikey.sequence == b.ikey.sequence)
    && (forall e :: e in es && e.ikey.sequence <= ss && e.ikey.kind.Deletion? ==> e.ikey.user !in base)
  }

  lemma KeptIsLean(inputs: set<Entry>, ss: nat, base: iset<UserKey>)
    ensures Lean(Kept(inputs, ss, base), ss, base)
  {
    var kept := Kept(inputs, ss, base);
    forall a, b | a in kept && b in kept && a.ikey.user == b.ikey.user && a.ikey.sequence <= ss && b.ikey.sequence <= ss
      ensures a.ikey.sequence == b.ikey.sequence
    {
      assert a.ikey.sequence < b.ikey.sequence ==> Hidden(inputs, ss, a);
      assert b.ikey.sequence < a.ikey.sequence ==> Hidden(inputs, ss, b);
    }
  }

  // The dropped tombstone `t` was the newest entry of its key at the smallest snapshot,
  // and what lies directly below it outside the inputs is a value: that value comes back.
  ghost predicate Resurrects(inputs: set<Entry>, rest: set<Entry>, ss: nat, base: iset<UserKey>, t: Entry) {
    && IsNewest(inputs, t.ikey.user, ss, t)
    && Obsolete(ss, base, t)
    && (forall r :: r in rest && Candidate(t.ikey.user, ss, r) ==> r.ikey.sequence < t.ikey.sequence)
    && exists p :: IsNewest(rest, t.ikey.user, t.ikey.sequence, p) && p.ikey.kind.Put?
  }

  ghost predicate PreservesReads(before: set<Entry>, after: set<Entry>, ss: nat) {
    forall u: UserKey, s: nat :: s >= ss ==> Read(after, u, s) == Read(before, u, s)
  }

  // The newest entry was a tombstone that is dropped: nothing comes back.
  lemma DroppedReadsNone(inputs: set<Entry>, rest: set<Entry>, ss: nat, base: iset<UserKey>, u: UserKey, s: nat, n: Entry)
    requires UniqueSequences(inputs + rest) && s >= ss
    requires forall t :: t in inputs ==> !Resurrects(inputs, rest, ss, base, t)
    requires IsNewest(rest + inputs, u, s, n) && n !in rest + Kept(inputs, ss, base)
    ensures Read(rest + Kept(inputs, ss, base), u, s) == None && n.ikey.kind.Deletion?
  {
    var after := rest + Kept(inputs, ss, base);
    assert !Hidden(inputs, ss, n);
    assert Obsolete(ss, base, n) && IsNewest(inputs, u, ss, n);
    if m :| m in after && Candidate(u, s, m) {
      var p := NewestExists(after, u, s, m);
      ReadOfNewest(after, u, s, p);
      assert p.ikey.sequence < n.ikey.sequence;
      assert p !in inputs || Hidden(inputs, ss, p);
      assert IsNewest(rest, u, n.ikey.sequence, p);
      assert !Resurrects(inputs, rest, ss, base, n);
    }
  }

  lemma SameRead(inputs: set<Entry>, rest: set<Entry>, ss: nat, base: iset<UserKey>, u: UserKey, s: nat)
    requires UniqueSequences(inputs + rest)
    requires forall t :: t in inputs ==> !Resurrects(inputs, rest, ss, base, t)
    requires s >= ss
    ensures Read(rest + Kept(inputs, ss, base), u, s) == Read(rest + inputs, u, s)
  {
    var before, after := rest + inputs, rest + Kept(inputs, ss, base);
    if c :| c in before && Candidate(u, s, c) {
      var n := NewestExists(before, u, s, c);
      ReadOfNewest(before, u, s, n);
      if n in after {
        assert IsNewest(after, u, s, n);
        ReadOfNewest(after, u, s, n);
      } else {
        DroppedReadsNone(inputs, rest, ss, base, u, s, n);
      }
    }
  }

  lemma ResurrectionShows(inputs: set<Entry>, rest: set<Entry>, ss: nat, base: iset<UserKey>, t: Entry)
    requires UniqueSequences(inputs + rest)
    requires Resurrects(inputs, rest, ss, base, t)
    ensures Read(rest + inputs, t.ikey.user, ss) == None
    ensures Read(rest + Kept(inputs, ss, base), t.ikey.user, ss).Some?
  {
    var u := t.ikey.user;
    assert IsNewest(rest + inputs, u, ss, t);
    ReadOfNewest(rest + inputs, u, ss, t);
    var p :| IsNewest(rest, u, t.ikey.sequence, p) && p.ikey.kind.Put?;
    var after := rest + Kept(inputs, ss, base);
    assert IsNewest(after, u, ss, p);
    ReadOfNewest(after, u, ss, p);
  }

  // The exact condition: dropping keeps every read at or above the smallest snapshot if
  // and only if no dropped tombstone shields a value outside the inputs.
  lemma CompactionExact(inputs: set<Entry>, rest: set<Entry>, ss: nat, base: iset<UserKey>)
    requires UniqueSequences(inputs + rest)
    ensures PreservesReads(rest + inputs, rest + Kept(inputs, ss, base), ss)
            <==> forall t :: t in inputs ==> !Resurrects(inputs, rest, ss, base, t)
  {
    if forall t :: t in inputs ==> !Resurrects(inputs, rest, ss, base, t) {
      forall u: UserKey, s: nat | s >= ss
        ensures Read(rest + Kept(inputs, ss, base), u, s) == Read(rest + inputs, u, s)
      {
        SameRead(inputs, rest, ss, base, u, s);
      }
    } else {
      var t :| t in inputs && Resurrects(inputs, rest, ss, base, t);
      ResurrectionShows(inputs, rest, ss, base, t);
    }
  }

  // The condition the storage levels give: at base-level keys nothing outside the inputs
  // is older than an input entry.
  lemma NoOlderRest(inputs: set<Entry>, rest: set<Entry>, ss: nat, base: iset<UserKey>)
    requires UniqueSequences(inputs + rest)
    requires forall r, i :: r in rest && i in inputs && i.ikey.user in base && r.ikey.user == i.ikey.user
                            ==> r.ikey.sequence > i.ikey.sequence
    ensures PreservesReads(rest + inputs, rest + Kept(inputs, ss, base), ss)
  {
    CompactionExact(inputs, rest, ss, base);
  }
}
