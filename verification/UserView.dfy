/** The user's view of a sorted run of entries at a snapshot: one pair for every user key
  whose newest visible entry is a value. */
module UserView {
  import opened Wrappers
  import opened Keys
  import opened Reads

  // Entry `i` is what a reader at snapshot `s` gets for its user key.
  ghost predicate Visible(es: seq<Entry>, s: nat, i: int) {
    && 0 <= i < |es|
    && es[i].ikey.sequence <= s && es[i].ikey.kind.Put?
    && forall j :: 0 <= j < i && es[j].ikey.user == es[i].ikey.user ==> es[j].ikey.sequence > s
  }

  ghost predicate NoneVisible(es: seq<Entry>, s: nat, lo: int, hi: int) {
    forall i :: lo <= i < hi ==> !Visible(es, s, i)
  }

  // The pairs visible among the first `n` entries, in key order.
  ghost function ViewFirst(es: seq<Entry>, s: nat, n: nat): (r: seq<(UserKey, Value)>)
    requires n <= |es|
  {
    if n == 0 then [] else
      ViewFirst(es, s, n - 1) + (if Visible(es, s, n - 1) then [(es[n - 1].ikey.user, es[n - 1].value)] else [])
  }

  ghost function View(es: seq<Entry>, s: nat): seq<(UserKey, Value)> {
    ViewFirst(es, s, |es|)
  }

  // The place in the view that entry `i` has, or would have.
  ghost function PlaceOf(es: seq<Entry>, s: nat, i: nat): nat
    requires i <= |es|
  {
    |ViewFirst(es, s, i)|
  }

  lemma {:induction false} PlaceSkipsInvisible(es: seq<Entry>, s: nat, lo: nat, hi: nat)
    requires lo <= hi <= |es| && NoneVisible(es, s, lo, hi)
    ensures ViewFirst(es, s, lo) == ViewFirst(es, s, hi)
  {
    if lo < hi {
      PlaceSkipsInvisible(es, s, lo, hi - 1);
    }
  }

  lemma {:induction false} ViewGrows(es: seq<Entry>, s: nat, lo: nat, hi: nat)
    requires lo <= hi <= |es|
    ensures ViewFirst(es, s, lo) <= ViewFirst(es, s, hi)
  {
    if lo < hi {
      ViewGrows(es, s, lo, hi - 1);
    }
  }

  lemma VisibleInView(es: seq<Entry>, s: nat, i: nat)
    requires Visible(es, s, i)
    ensures PlaceOf(es, s, i) < |View(es, s)|
    ensures View(es, s)[PlaceOf(es, s, i)] == (es[i].ikey.user, es[i].value)
    ensures PlaceOf(es, s, i + 1) == PlaceOf(es, s, i) + 1
  {
    ViewGrows(es, s, i + 1, |es|);
  }

  lemma {:induction false} ViewMembers(es: seq<Entry>, s: nat, n: nat)
    requires n <= |es|
    ensures forall p :: p in ViewFirst(es, s, n)
                        <==> exists i :: 0 <= i < n && Visible(es, s, i) && p == (es[i].ikey.user, es[i].value)
  {
    if n > 0 {
      ViewMembers(es, s, n - 1);
    }
  }

  lemma UsersAscend(es: seq<Entry>, i: nat, j: nat)
    requires Ascending(es) && i <= j < |es|
    ensures es[i].ikey.user <= es[j].ikey.user
  {
  }

  lemma {:induction false} ViewAscends(es: seq<Entry>, s: nat, n: nat)
    requires n <= |es| && Ascending(es)
    ensures forall i, j :: 0 <= i < j < |ViewFirst(es, s, n)| ==> ViewFirst(es, s, n)[i].0 < ViewFirst(es, s, n)[j].0
  {
    if n > 0 {
      ViewAscends(es, s, n - 1);
      ViewMembers(es, s, n - 1);
      if Visible(es, s, n - 1) {
        var front := ViewFirst(es, s, n - 1);
        forall k | 0 <= k < |front|
          ensures front[k].0 < es[n - 1].ikey.user
        {
          assert front[k] in front;
          var i :| 0 <= i < n - 1 && Visible(es, s, i) && front[k] == (es[i].ikey.user, es[i].value);
          UsersAscend(es, i, n - 1);
        }
      }
    }
  }

  // The view is the simple map: a key is listed with a value exactly when a point read at
  // the snapshot finds that value.
  lemma ViewIsSimpleMap(es: seq<Entry>, s: nat, all: set<Entry>, u: UserKey, x: Value)
    requires Ascending(es) && UniqueSequences(all) && forall e :: e in es <==> e in all
    ensures (u, x) in View(es, s) <==> Read(all, u, s) == Some(x)
  {
    ViewMembers(es, s, |es|);
    if (u, x) in View(es, s) {
      var i :| 0 <= i < |es| && Visible(es, s, i) && (u, x) == (es[i].ikey.user, es[i].value);
      VisibleIsNewest(es, s, all, i);
      ReadOfNewest(all, u, s, es[i]);
    }
    if Read(all, u, s) == Some(x) {
      var e :| IsNewest(all, u, s, e);
      ReadOfNewest(all, u, s, e);
      var i :| 0 <= i < |es| && es[i] == e;
      NewestIsVisible(es, s, all, i);
    }
  }

  lemma VisibleIsNewest(es: seq<Entry>, s: nat, all: set<Entry>, i: nat)
    requires Ascending(es) && (forall e :: e in es <==> e in all) && Visible(es, s, i)
    ensures IsNewest(all, es[i].ikey.user, s, es[i])
  {
    forall o | o in all && Candidate(es[i].ikey.user, s, o)
      ensures o.ikey.sequence <= es[i].ikey.sequence
    {
      var j :| 0 <= j < |es| && es[j] == o;
      assert i < j ==> Less(es[i].ikey, es[j].ikey);
    }
  }

  lemma NewestIsVisible(es: seq<Entry>, s: nat, all: set<Entry>, i: nat)
    requires Ascending(es) && UniqueSequences(all) && (forall e :: e in es <==> e in all)
    requires i < |es| && IsNewest(all, es[i].ikey.user, s, es[i]) && es[i].ikey.kind.Put?
    ensures Visible(es, s, i)
  {
    forall j | 0 <= j < i && es[j].ikey.user == es[i].ikey.user
      ensures es[j].ikey.sequence > s
    {
      assert Less(es[j].ikey, es[i].ikey);
      assert es[j] in all;
    }
  }
}
