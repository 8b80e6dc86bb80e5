/** The simple view of the database: a set of entries, read as "the newest entry at or
  below the snapshot". Everything the storage engine does is measured against it. */
module Reads {
  import opened Wrappers
  import opened Keys

  predicate Candidate(u: UserKey, s: nat, e: Entry) {
    e.ikey.user == u && e.ikey.sequence <= s
  }

  ghost predicate IsNewest(es: set<Entry>, u: UserKey, s: nat, e: Entry) {
    && e in es
    && Candidate(u, s, e)
    && forall o :: o in es && Candidate(u, s, o) ==> o.ikey.sequence <= e.ikey.sequence
  }

  // Every record of every batch gets a sequence number of its own.
  ghost predicate UniqueSequences(es: set<Entry>) {
    forall a, b :: a in es && b in es && a.ikey.sequence == b.ikey.sequence ==> a == b
  }

  function Outcome(e: Entry): Option<Value> {
    if e.ikey.kind.Put? then Some(e.value) else None
  }

  // What a reader at snapshot `s` sees for `u`; a tombstone reads as "not found".
  ghost function Read(es: set<Entry>, u: UserKey, s: nat): Option<Value> {
    if exists e :: IsNewest(es, u, s, e) then
      var e :| IsNewest(es, u, s, e);
      Outcome(e)
    else
      None
  }

  lemma {:induction false} NewestExists(es: set<Entry>, u: UserKey, s: nat, c: Entry) returns (e: Entry)
    requires c in es && Candidate(u, s, c)
    ensures IsNewest(es, u, s, e)
    decreases |es|
  {
    var rest := es - {c};
    if o :| o in rest && Candidate(u, s, o) {
      var m := NewestExists(rest, u, s, o);
      e := if m.ikey.sequence <= c.ikey.sequence then c else m;
      forall x | x in es && Candidate(u, s, x)
        ensures x.ikey.sequence <= e.ikey.sequence
      {
        assert x == c || x in rest;
      }
    } else {
      e := c;
      forall x | x in es && Candidate(u, s, x)
        ensures x.ikey.sequence <= e.ikey.sequence
      {
        assert x == c || x in rest;
      }
    }
  }

  // With unique sequence numbers the newest entry decides the read.
  lemma ReadOfNewest(es: set<Entry>, u: UserKey, s: nat, e: Entry)
    requires UniqueSequences(es)
    requires IsNewest(es, u, s, e)
    ensures Read(es, u, s) == Outcome(e)
  {
    var o :| IsNewest(es, u, s, o) && Read(es, u, s) == Outcome(o);
  }

  // Entries written above the snapshot do not show.
  lemma ReadIgnoresLater(es: set<Entry>, later: set<Entry>, u: UserKey, s: nat)
    requires UniqueSequences(es + later)
    requires forall e :: e in later ==> e.ikey.sequence > s
    ensures Read(es + later, u, s) == Read(es, u, s)
  {
    if c :| c in es && Candidate(u, s, c) {
      var n := NewestExists(es, u, s, c);
      assert IsNewest(es + later, u, s, n);
      ReadOfNewest(es, u, s, n);
      ReadOfNewest(es + later, u, s, n);
    }
  }

  // Past the largest number reads no longer depend on the snapshot.
  lemma ReadBeyond(es: set<Entry>, u: UserKey, last: nat, q: nat, r: nat)
    requires UniqueSequences(es) && (forall e :: e in es ==> e.ikey.sequence <= last) && q >= last && r >= last
    ensures Read(es, u, q) == Read(es, u, r)
  {
    if c :| c in es && Candidate(u, q, c) {
      var n := NewestExists(es, u, q, c);
      assert IsNewest(es, u, r, n);
      ReadOfNewest(es, u, q, n);
      ReadOfNewest(es, u, r, n);
    } else {
      assert forall c :: c in es ==> !Candidate(u, r, c);
    }
  }
}
