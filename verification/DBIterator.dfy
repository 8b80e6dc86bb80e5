/** DBIter (db/db_iter.cc): a two-way cursor over user keys, on top of an internal iterator
  over all entries. It behaves as a cursor over the list of visible pairs, whatever mix of
  moves is made. */
module DBIterator {
  import opened Wrappers
  import opened Keys
  import opened Iterators
  import opened UserView

  // Running forward from `from`, the next visible entry whose user key is past `skip`.
  ghost predicate NextHit(es: seq<Entry>, s: nat, from: nat, skip: Option<UserKey>, hit: nat) {
    && from <= hit <= |es|
    && (hit < |es| ==> Visible(es, s, hit) && (skip.Some? ==> es[hit].ikey.user > skip.value))
    && forall i :: from <= i < hit && Visible(es, s, i) ==> Within(es, i, skip)
  }

  // Entries before `from` that could hide one at or after it have a user key within `skip`.
  ghost predicate Shielded(es: seq<Entry>, s: nat, from: nat, skip: Option<UserKey>) {
    forall i, j :: 0 <= j < from <= i < |es| && es[j].ikey.user == es[i].ikey.user && es[j].ikey.sequence <= s
                   ==> Within(es, i, skip)
  }

  // Entries a reader may see at or after `from` do not lie before `skip`.
  ghost predicate NotBefore(es: seq<Entry>, s: nat, from: nat, skip: Option<UserKey>) {
    skip.Some? ==> forall i :: from <= i < |es| && es[i].ikey.sequence <= s ==> es[i].ikey.user >= skip.value
  }

  // Scanning back from below `to`, entry `m` is the best candidate so far.
  ghost predicate BackCandidate(es: seq<Entry>, s: nat, q: int, to: nat, m: nat) {
    && -1 <= q < m < to <= |es|
    && es[m].ikey.sequence <= s && es[m].ikey.kind.Put?
    && (forall i :: q < i < m ==> es[i].ikey.sequence > s)
    && forall i :: q < i < to && Visible(es, s, i) ==> i == m
  }

  // What the backward scan holds when entry q is next; nothing yet, if the last entry seen
  // was a deletion or there was none.
  ghost predicate Scanned(es: seq<Entry>, s: nat, q: int, to: nat, m: nat, kind: ValueType, savedKey: Option<UserKey>,
      savedValue: Value) {
    if kind.Deletion? then -1 <= q < to <= |es| && NoneVisible(es, s, q + 1, to)
    else BackCandidate(es, s, q, to, m) && savedKey == Some(es[m].ikey.user) && savedValue == es[m].value
  }

  lemma ScanPasses(es: seq<Entry>, s: nat, q: nat, to: nat, m: nat, kind: ValueType, savedKey: Option<UserKey>,
      savedValue: Value)
    requires Scanned(es, s, q, to, m, kind, savedKey, savedValue) && es[q].ikey.sequence > s
    ensures Scanned(es, s, q - 1, to, m, kind, savedKey, savedValue)
  {
  }

  lemma ScanTakes(es: seq<Entry>, s: nat, q: nat, to: nat, m: nat, kind: ValueType, savedKey: Option<UserKey>,
      savedValue: Value)
    requires Ascending(es) && Scanned(es, s, q, to, m, kind, savedKey, savedValue) && es[q].ikey.sequence <= s
    requires kind.Put? ==> !(es[q].ikey.user < es[m].ikey.user)
    ensures es[q].ikey.kind.Put? ==> Scanned(es, s, q - 1, to, q, Put, Some(es[q].ikey.user), es[q].value)
    ensures es[q].ikey.kind.Deletion? ==> Scanned(es, s, q - 1, to, m, Deletion, None, [])
  {
  }

  // The entries just before the current one, between it and the internal iterator.
  ghost predicate RestsBefore(es: seq<Entry>, s: nat, p: int, c: nat) {
    && -1 <= p < c < |es|
    && (p >= 0 ==> es[p].ikey.user < es[c].ikey.user)
    && forall i :: p < i < c ==> es[i].ikey.sequence > s
  }

  ghost predicate Within(es: seq<Entry>, i: int, skip: Option<UserKey>) {
    0 <= i < |es| && skip.Some? && es[i].ikey.user <= skip.value
  }

  // The forward scan has reached `p`, hiding keys up to `skip`: nothing past `skip0` was
  // missed, and `skip` hides nothing it should not.
  ghost predicate Scanning(es: seq<Entry>, s: nat, from: nat, skip0: Option<UserKey>, p: nat, skip: Option<UserKey>) {
    && from <= p <= |es|
    && Shielded(es, s, p, skip)
    && NotBefore(es, s, p, skip)
    && (forall i :: from <= i < p && Visible(es, s, i) ==> Within(es, i, skip0))
    && (forall i :: p <= i < |es| && Visible(es, s, i) && Within(es, i, skip) ==> Within(es, i, skip0))
    && (skip0.Some? ==> skip.Some? && skip.value >= skip0.value)
  }

  class DBIter {
    const iter: EntryIterator
    const sequence: nat
    var savedKey: Option<UserKey>  // current key when moving in reverse
    var savedValue: Value
    var direction: Direction
    var valid: bool
    ghost var at: nat  // the current entry, |entries| when not valid

    constructor (iter: EntryIterator, sequence: nat)
      requires Ascending(iter.entries)
      ensures Ok() && !valid && this.iter == iter && this.sequence == sequence
    {
      this.iter, this.sequence := iter, sequence;
      savedKey, savedValue, direction, valid := None, [], Forward, false;
      at := |iter.entries|;
    }

    // The internal position as an index, -1 for "before the first entry".
    ghost function Before(): int
      reads this, iter
    {
      if iter.pos < |iter.entries| then iter.pos else -1
    }

    ghost predicate Ok()
      reads this, iter
    {
      var es := iter.entries;
      && Ascending(es)
      && at <= |es|
      && (valid <==> at < |es|)
      && (valid ==> Visible(es, sequence, at))
      && (valid && direction.Forward? ==> iter.pos == at)
      && (valid && direction.Reverse? ==>
            savedKey == Some(es[at].ikey.user) && savedValue == es[at].value && RestsBefore(es, sequence, Before(), at))
    }

    ghost function Pairs(): seq<(UserKey, Value)>
      reads this, iter
    {
      View(iter.entries, sequence)
    }

    // The cursor position in the list of visible pairs; its length when not valid.
    ghost function Position(): nat
      requires Ok()
      reads this, iter
    {
      PlaceOf(iter.entries, sequence, at)
    }

    lemma PositionInView()
      requires Ok()
      ensures valid <==> Position() < |Pairs()|
      ensures !valid ==> Position() == |Pairs()|
    {
      if valid {
        VisibleInView(iter.entries, sequence, at);
      }
    }

    function Key(): (k: UserKey)
      requires Ok() && valid
      reads this, iter
    {
      if direction.Forward? then iter.entries[iter.pos].ikey.user else savedKey.value
    }

    function GetValue(): (x: Value)
      requires Ok() && valid
      reads this, iter
    {
      if direction.Forward? then iter.entries[iter.pos].value else savedValue
    }

    // What the iterator shows is the pair at the cursor position.
    lemma ShowsPair()
      requires Ok() && valid
      ensures Position() < |Pairs()| && Pairs()[Position()] == (Key(), GetValue())
    {
      VisibleInView(iter.entries, sequence, at);
    }

    method SeekToFirst()
      requires Ok()
      modifies this, iter
      ensures Ok() && Position() == 0
      ensures valid <==> |Pairs()| > 0
    {
      direction := Forward;
      savedValue := [];
      iter.SeekToFirst();
      if iter.Valid() {
        FindNextUserEntry(false);
      } else {
        valid, at := false, |iter.entries|;
      }
      PlaceSkipsInvisible(iter.entries, sequence, 0, at);
      PositionInView();
    }

    // The first visible key at or after the target.
    method Seek(target: UserKey)
      requires Ok()
      modifies this, iter
      ensures Ok()
      ensures Position() <= |Pairs()| && (valid <==> Position() < |Pairs()|)
      ensures forall k :: 0 <= k < Position() ==> Pairs()[k].0 < target
      ensures valid ==> Pairs()[Position()].0 >= target
    {
      direction := Forward;
      savedValue := [];
      savedKey := None;
      var key := LookupKey(target, sequence);
      iter.Seek(key);
      ghost var from := iter.pos;
      if iter.Valid() {
        SeekIsShielded(iter.entries, sequence, target, from);
        FindNextUserEntry(false);
      } else {
        valid, at := false, |iter.entries|;
      }
      SeekSplitsView(iter.entries, sequence, target, from, at);
      PositionInView();
    }

    method SeekToLast()
      requires Ok()
      modifies this, iter
      ensures Ok()
      ensures if |Pairs()| == 0 then !valid else valid && Position() == |Pairs()| - 1
    {
      direction := Reverse;
      savedValue := [];
      iter.SeekToLast();
      var to := |iter.entries|;
      FindPrevUserEntry();
      LastOfView(iter.entries, sequence, at, to);
    }

    method Next()
      requires Ok() && valid
      modifies this, iter
      ensures Ok() && Position() == old(Position()) + 1
    {
      ghost var es := iter.entries;
      ghost var old_at := at;
      VisibleInView(es, sequence, at);
      if direction.Reverse? {  // Switch directions?
        direction := Forward;
        if !iter.Valid() {
          iter.SeekToFirst();
        } else {
          iter.Next();
        }
        if !iter.Valid() {
          assert false;
        }
        ReverseIsShielded(es, sequence, iter.pos, at);
      } else {
        savedKey := Some(iter.Current().ikey.user);
        iter.Next();
        if !iter.Valid() {
          valid, savedKey, at := false, None, |es|;
          return;
        }
        ForwardIsShielded(es, sequence, at);
      }
      FindNextUserEntry(true);
      NextInView(es, sequence, old_at, at);
    }

    // FindNextUserEntry: loop until an entry to yield is found. With `skipping`, entries of
    // user keys up to the saved key are hidden.
    method FindNextUserEntry(skipping0: bool)
      requires Ascending(iter.entries) && iter.Valid() && direction.Forward?
      requires skipping0 ==> savedKey.Some?
      requires var skip := if skipping0 then savedKey else None;
               Shielded(iter.entries, sequence, iter.pos, skip) && NotBefore(iter.entries, sequence, iter.pos, skip)
      modifies this, iter
      ensures Ok() && direction.Forward?
      ensures NextHit(iter.entries, sequence, old(iter.pos), if skipping0 then old(savedKey) else None, at)
    {
      ghost var es := iter.entries;
      ghost var from := iter.pos;
      ghost var skip0 := if skipping0 then savedKey else None;
      var skipping := skipping0;
      while true
        invariant direction.Forward? && iter.pos < |es|
        invariant skipping ==> savedKey.Some?
        invariant Scanning(es, sequence, from, skip0, iter.pos, if skipping then savedKey else None)
        decreases |es| - iter.pos
      {
        ghost var here, skip := iter.pos, if skipping then savedKey else None;
        var e := iter.Current();
        if e.ikey.sequence <= sequence {
          match e.ikey.kind {
            case Deletion =>
              ScanTombstone(es, sequence, from, skip0, here, skip);
              savedKey := Some(e.ikey.user);
              skipping := true;
            case Put =>
              if skipping && e.ikey.user <= savedKey.value {
                // Entry hidden
                ScanHidden(es, sequence, from, skip0, here, skip);
              } else {
                ScanHit(es, sequence, from, skip0, here, skip);
                valid, savedKey := true, None;
                at := iter.pos;
                return;
              }
          }
        } else {
          ScanHidden(es, sequence, from, skip0, here, skip);
        }
        iter.Next();
        if !iter.Valid() {
          break;
        }
      }
      savedKey, valid := None, false;
      at := |es|;
    }

    method Prev()
      requires Ok() && valid
      modifies this, iter
      ensures Ok()
      ensures if old(Position()) == 0 then !valid else valid && Position() == old(Position()) - 1
    {
      ghost var es := iter.entries;
      ghost var c := at;
      if direction.Forward? {  // Switch directions?
        // Scan backwards until the key changes.
        var key := iter.Current().ikey.user;
        savedKey := Some(key);
        while true
          invariant iter.pos <= c && direction.Forward?
          invariant es[iter.pos].ikey.user == key && savedKey == Some(key)
          invariant Ascending(es) && Visible(es, sequence, c) && es == iter.entries
          invariant es[c].ikey.user == key
          decreases iter.pos
        {
          ghost var here := iter.pos;
          iter.Prev();
          if !iter.Valid() {
            SameKeyInvisible(es, sequence, 0, c);
            PlaceSkipsInvisible(es, sequence, 0, c);
            valid, savedKey, savedValue, at := false, None, [], |es|;
            return;
          }
          if iter.Current().ikey.user < key {
            SameKeyInvisible(es, sequence, here, c);
            break;
          }
          UsersAscend(es, iter.pos, c);
        }
        direction := Reverse;
      } else {
        RestInvisible(es, sequence, Before(), c);
      }
      ghost var to := Before() + 1;
      FindPrevUserEntry();
      PrevInView(es, sequence, c, at, to);
    }

    // The loop of FindPrevUserEntry, from a valid position: back to an entry of a smaller key,
    // or to the beginning.
    method ScanBack(ghost to: nat) returns (valueType: ValueType, ghost m: nat)
      requires Ascending(iter.entries) && direction.Reverse? && iter.Valid() && to == iter.pos + 1
      modifies this`savedKey, this`savedValue, iter
      ensures Scanned(iter.entries, sequence, Before(), to, m, valueType, savedKey, savedValue)
      ensures valueType.Deletion? ==> Before() == -1
      ensures valueType.Put? && Before() >= 0 ==> iter.entries[Before()].ikey.user < iter.entries[m].ikey.user
    {
      ghost var es := iter.entries;
      m, valueType := 0, Deletion;
      while true
        invariant iter.pos < |es| && Scanned(es, sequence, iter.pos, to, m, valueType, savedKey, savedValue)
        decreases iter.pos
      {
        var e := iter.Current();
        if e.ikey.sequence <= sequence {
          if valueType.Put? && e.ikey.user < savedKey.value {
            // A non-deleted value in entries for previous keys.
            return;
          }
          ScanTakes(es, sequence, iter.pos, to, m, valueType, savedKey, savedValue);
          valueType := e.ikey.kind;
          if valueType.Deletion? {
            savedKey, savedValue := None, [];
          } else {
            savedKey, savedValue := Some(e.ikey.user), e.value;
            m := iter.pos;
          }
        } else {
          ScanPasses(es, sequence, iter.pos, to, m, valueType, savedKey, savedValue);
        }
        iter.Prev();
        if !iter.Valid() {
          return;
        }
      }
    }

    // FindPrevUserEntry: scan back; the last entry of a key met on the way is its newest.
    method FindPrevUserEntry()
      requires Ascending(iter.entries) && direction.Reverse?
      modifies this, iter
      ensures Ok()
      ensures var to := old(Before()) + 1;
              && (valid ==> at < to && NoneVisible(iter.entries, sequence, at + 1, to))
              && (!valid ==> NoneVisible(iter.entries, sequence, 0, to))
    {
      ghost var es := iter.entries;
      ghost var m: nat := 0;
      var valueType := Deletion;
      if iter.Valid() {
        valueType, m := ScanBack(iter.pos + 1);
      }
      if valueType.Deletion? {
        valid, savedKey, savedValue, direction := false, None, [], Forward;
        at := |es|;
      } else {
        valid, at := true, m;
      }
    }
  }

  // ---------- facts used by the moves ----------

  lemma SeekIsShielded(es: seq<Entry>, s: nat, target: UserKey, from: nat)
    requires Ascending(es) && from == LowerBound(es, LookupKey(target, s))
    ensures Shielded(es, s, from, None)
  {
    forall i, j | 0 <= j < from <= i < |es| && es[j].ikey.user == es[i].ikey.user
      ensures es[j].ikey.sequence > s
    {
      assert Less(es[j].ikey, LookupKey(target, s));
      assert i == from || Less(es[from].ikey, es[i].ikey);
      LookupKeyBound(target, s, es[j].ikey);
      LookupKeyBound(target, s, es[i].ikey);
    }
  }

  lemma SeekSplitsView(es: seq<Entry>, s: nat, target: UserKey, from: nat, hit: nat)
    requires Ascending(es) && from == LowerBound(es, LookupKey(target, s))
    requires NextHit(es, s, from, None, hit)
    ensures forall k :: 0 <= k < PlaceOf(es, s, hit) ==> k < |View(es, s)| && View(es, s)[k].0 < target
    ensures PlaceOf(es, s, hit) <= |View(es, s)|
    ensures hit < |es| ==> PlaceOf(es, s, hit) < |View(es, s)| && View(es, s)[PlaceOf(es, s, hit)].0 >= target
  {
    PlaceSkipsInvisible(es, s, from, hit);
    ViewMembers(es, s, from);
    ViewGrows(es, s, from, |es|);
    forall k | 0 <= k < PlaceOf(es, s, hit)
      ensures k < |View(es, s)| && View(es, s)[k].0 < target
    {
      var p := ViewFirst(es, s, from)[k];
      assert p in ViewFirst(es, s, from) && p == View(es, s)[k];
      var i :| 0 <= i < from && Visible(es, s, i) && p == (es[i].ikey.user, es[i].value);
      LookupKeyBound(target, s, es[i].ikey);
    }
    if hit < |es| {
      VisibleInView(es, s, hit);
      assert hit == from || Less(es[from].ikey, es[hit].ikey);
    }
  }

  lemma ForwardIsShielded(es: seq<Entry>, s: nat, c: nat)
    requires Ascending(es) && c < |es|
    ensures Shielded(es, s, c + 1, Some(es[c].ikey.user)) && NotBefore(es, s, c + 1, Some(es[c].ikey.user))
  {
    forall i | c < i < |es|
      ensures es[i].ikey.user >= es[c].ikey.user
    {
      UsersAscend(es, c, i);
    }
    forall j | 0 <= j <= c
      ensures es[j].ikey.user <= es[c].ikey.user
    {
      UsersAscend(es, j, c);
    }
  }

  lemma ReverseIsShielded(es: seq<Entry>, s: nat, from: nat, c: nat)
    requires Ascending(es) && RestsBefore(es, s, from - 1, c)
    ensures Shielded(es, s, from, Some(es[c].ikey.user)) && NotBefore(es, s, from, Some(es[c].ikey.user))
  {
    forall i | c <= i < |es|
      ensures es[i].ikey.user >= es[c].ikey.user
    {
      UsersAscend(es, c, i);
    }
    forall j | 0 <= j < from
      ensures es[j].ikey.user <= es[c].ikey.user
    {
      UsersAscend(es, j, c);
    }
  }

  // An entry above the snapshot, or one within the skipped keys, is passed over.
  lemma ScanHidden(es: seq<Entry>, s: nat, from: nat, skip0: Option<UserKey>, p: nat, skip: Option<UserKey>)
    requires Scanning(es, s, from, skip0, p, skip) && p < |es|
    requires es[p].ikey.sequence > s || Within(es, p, skip)
    ensures Scanning(es, s, from, skip0, p + 1, skip)
  {
  }

  // A tombstone hides the rest of its key.
  lemma ScanTombstone(es: seq<Entry>, s: nat, from: nat, skip0: Option<UserKey>, p: nat, skip: Option<UserKey>)
    requires Ascending(es) && Scanning(es, s, from, skip0, p, skip) && p < |es|
    requires es[p].ikey.sequence <= s && es[p].ikey.kind.Deletion?
    ensures Scanning(es, s, from, skip0, p + 1, Some(es[p].ikey.user))
  {
    var skip' := Some(es[p].ikey.user);
    forall i | p < i < |es|
      ensures es[i].ikey.user >= es[p].ikey.user
    {
      UsersAscend(es, p, i);
    }
    forall i | p < i < |es| && Within(es, i, skip')
      ensures !Visible(es, s, i)
    {
      assert es[i].ikey.user == es[p].ikey.user;
    }
  }

  lemma ScanHit(es: seq<Entry>, s: nat, from: nat, skip0: Option<UserKey>, p: nat, skip: Option<UserKey>)
    requires Scanning(es, s, from, skip0, p, skip) && p < |es|
    requires es[p].ikey.sequence <= s && es[p].ikey.kind.Put? && !Within(es, p, skip)
    ensures Visible(es, s, p) && NextHit(es, s, from, skip0, p)
  {
  }

  lemma NextInView(es: seq<Entry>, s: nat, c: nat, hit: nat)
    requires Ascending(es) && Visible(es, s, c) && c < hit <= |es|
    requires NoneVisible(es, s, c + 1, hit)
    ensures PlaceOf(es, s, hit) == PlaceOf(es, s, c) + 1
  {
    PlaceSkipsInvisible(es, s, c + 1, hit);
  }

  // Between the first entry of a key and its visible one nothing is visible.
  lemma SameKeyInvisible(es: seq<Entry>, s: nat, first: nat, c: nat)
    requires Ascending(es) && Visible(es, s, c) && first <= c && es[first].ikey.user == es[c].ikey.user
    ensures NoneVisible(es, s, first, c)
  {
    forall i | first <= i < c
      ensures es[i].ikey.user == es[c].ikey.user
    {
      UsersAscend(es, first, i);
      UsersAscend(es, i, c);
    }
  }

  lemma RestInvisible(es: seq<Entry>, s: nat, p: int, c: nat)
    requires RestsBefore(es, s, p, c)
    ensures NoneVisible(es, s, p + 1, c)
  {
  }

  lemma PrevInView(es: seq<Entry>, s: nat, c: nat, hit: nat, to: nat)
    requires Visible(es, s, c) && to <= c && NoneVisible(es, s, to, c)
    requires hit <= |es|
    requires hit < |es| ==> hit < to && Visible(es, s, hit) && NoneVisible(es, s, hit + 1, to)
    requires hit == |es| ==> NoneVisible(es, s, 0, to)
    ensures hit == |es| ==> PlaceOf(es, s, c) == 0
    ensures hit < |es| ==> PlaceOf(es, s, c) == PlaceOf(es, s, hit) + 1
  {
    if hit < |es| {
      PlaceSkipsInvisible(es, s, hit + 1, c);
    } else {
      PlaceSkipsInvisible(es, s, 0, c);
    }
  }

  lemma LastOfView(es: seq<Entry>, s: nat, hit: nat, to: nat)
    requires to == |es| && hit <= |es|
    requires hit < |es| ==> Visible(es, s, hit) && NoneVisible(es, s, hit + 1, to)
    requires hit == |es| ==> NoneVisible(es, s, 0, to)
    ensures hit == |es| ==> View(es, s) == []
    ensures hit < |es| ==> PlaceOf(es, s, hit) + 1 == |View(es, s)|
  {
    if hit < |es| {
      PlaceSkipsInvisible(es, s, hit + 1, to);
    } else {
      PlaceSkipsInvisible(es, s, 0, to);
    }
  }
}
