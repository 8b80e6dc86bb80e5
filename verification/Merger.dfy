/** MergingIterator (table/merger.cc): a two-way cursor over the union of sorted sources
  with distinct keys. */
module Merger {
  import opened Keys
  import opened Iterators

  ghost predicate PartOf(es: seq<Entry>, union: seq<Entry>) {
    Ascending(es) && forall x :: 0 <= x < |es| ==> es[x] in union
  }

  ghost predicate NothingShared(es: seq<Entry>, fs: seq<Entry>) {
    forall e :: e in es ==> e !in fs
  }

  // `union` lists the entries of all sources in key order; no two sources share an entry.
  ghost predicate IsUnion(sources: seq<seq<Entry>>, union: seq<Entry>) {
    && Ascending(union)
    && (forall i {:trigger PartOf(sources[i], union)} :: 0 <= i < |sources| ==> PartOf(sources[i], union))
    && (forall e {:trigger SourceFor(sources, e)} :: e in union ==> SourceFor(sources, e))
    && (forall i, j {:trigger NothingShared(sources[i], sources[j])} ::
          0 <= i < |sources| && 0 <= j < |sources| && i != j ==> NothingShared(sources[i], sources[j]))
  }

  ghost predicate SourceFor(sources: seq<seq<Entry>>, e: Entry) {
    exists i :: 0 <= i < |sources| && e in sources[i]
  }

  lemma FindSource(sources: seq<seq<Entry>>, union: seq<Entry>, c: nat) returns (i: nat)
    requires IsUnion(sources, union) && c < |union|
    ensures i < |sources| && union[c] in sources[i]
  {
    assert SourceFor(sources, union[c]);
    i :| 0 <= i < |sources| && union[c] in sources[i];
  }

  // The first `p` entries of a source are those among the first `c` of the union.
  ghost predicate CutAt(es: seq<Entry>, p: int, union: seq<Entry>, c: int) {
    && 0 <= p <= |es| && 0 <= c <= |union|
    && (forall x, y :: 0 <= x < p && c <= y < |union| ==> Less(es[x].ikey, union[y].ikey))
    && (forall x, y :: p <= x < |es| && 0 <= y < c ==> Less(union[y].ikey, es[x].ikey))
  }

  lemma IndexInUnion(union: seq<Entry>, e: Entry) returns (y: nat)
    requires e in union
    ensures y < |union| && union[y] == e
  {
    y :| 0 <= y < |union| && union[y] == e;
  }

  // At cut `c`, a source holds union[c] exactly when that is its next entry.
  lemma NextOfCut(sources: seq<seq<Entry>>, union: seq<Entry>, i: nat, p: nat, c: nat)
    requires IsUnion(sources, union) && i < |sources| && CutAt(sources[i], p, union, c)
    ensures p < |sources[i]| ==> c < |union| && !Less(sources[i][p].ikey, union[c].ikey)
    ensures c < |union| && union[c] in sources[i] ==> p < |sources[i]| && sources[i][p] == union[c]
  {
    var es := sources[i];
    assert PartOf(es, union);
    if p < |es| {
      var y := IndexInUnion(union, es[p]);
      assert c <= y;
    }
    if c < |union| && union[c] in es {
      var x :| 0 <= x < |es| && es[x] == union[c];
      assert p <= x;
    }
  }

  lemma PrevOfCut(sources: seq<seq<Entry>>, union: seq<Entry>, i: nat, p: nat, c: nat)
    requires IsUnion(sources, union) && i < |sources| && CutAt(sources[i], p, union, c)
    ensures p > 0 ==> c > 0 && !Less(union[c - 1].ikey, sources[i][p - 1].ikey)
    ensures c > 0 && union[c - 1] in sources[i] ==> p > 0 && sources[i][p - 1] == union[c - 1]
  {
    var es := sources[i];
    assert PartOf(es, union);
    if p > 0 {
      var y := IndexInUnion(union, es[p - 1]);
      assert y < c;
    }
    if c > 0 && union[c - 1] in es {
      var x :| 0 <= x < |es| && es[x] == union[c - 1];
      assert x < p;
    }
  }

  // Passing union[c] moves the cut of the source that holds it, and of no other.
  lemma CutMoves(sources: seq<seq<Entry>>, union: seq<Entry>, i: nat, p: nat, c: nat)
    requires IsUnion(sources, union) && i < |sources| && c < |union|
    requires 0 <= p <= |sources[i]|
    ensures union[c] !in sources[i] ==> (CutAt(sources[i], p, union, c) <==> CutAt(sources[i], p, union, c + 1))
    ensures p < |sources[i]| && sources[i][p] == union[c] ==>
              (CutAt(sources[i], p, union, c) <==> CutAt(sources[i], p + 1, union, c + 1))
  {
    var es := sources[i];
    assert PartOf(es, union);
    forall x | 0 <= x < |es|
      ensures Less(es[x].ikey, union[c].ikey) || Less(union[c].ikey, es[x].ikey) || es[x] == union[c]
    {
      var y := IndexInUnion(union, es[x]);
    }
  }

  lemma CutOfSeek(sources: seq<seq<Entry>>, union: seq<Entry>, i: nat, target: InternalKey)
    requires IsUnion(sources, union) && i < |sources|
    ensures CutAt(sources[i], LowerBound(sources[i], target), union, LowerBound(union, target))
  {
    var es := sources[i];
    assert PartOf(es, union);
    var p, c := LowerBound(es, target), LowerBound(union, target);
    forall x | p <= x < |es|
      ensures !Less(es[x].ikey, target)
    {
      assert x == p || Less(es[p].ikey, es[x].ikey);
    }
    forall y | c <= y < |union|
      ensures !Less(union[y].ikey, target)
    {
      assert y == c || Less(union[c].ikey, union[y].ikey);
    }
  }

  class MergingIterator {
    const children: seq<EntryIterator>
    ghost const sources: seq<seq<Entry>>
    ghost const union: seq<Entry>
    var current: nat  // |children| for the null pointer
    var direction: Direction
    ghost var at: nat  // position in the union, |union| when not valid

    constructor (children: seq<EntryIterator>, ghost union: seq<Entry>)
      requires forall i, j :: 0 <= i < j < |children| ==> children[i] != children[j]
      requires IsUnion(seq(|children|, i requires 0 <= i < |children| => children[i].entries), union)
      ensures Ok() && this.children == children && this.union == union && at == |union|
    {
      this.children := children;
      this.sources := seq(|children|, i requires 0 <= i < |children| => children[i].entries);
      this.union := union;
      current, direction, at := |children|, Forward, |union|;
    }

    // The number of entries of child `i` that lie before (moving forward), or at and before
    // (in reverse), its position; an invalid child has run off the end it moves towards.
    ghost function Passed(i: nat): int
      requires i < |children|
      reads this, children[i]
    {
      var child := children[i];
      if direction.Forward? then child.pos else if child.pos < |child.entries| then child.pos + 1 else 0
    }

    ghost predicate Shape()
      reads this
    {
      && |sources| == |children| && current <= |children|
      && (forall i :: 0 <= i < |children| ==> children[i].entries == sources[i])
      && (forall i, j :: 0 <= i < j < |children| ==> children[i] != children[j])
      && IsUnion(sources, union)
    }

    ghost predicate AllCut(c: int)
      requires Shape()
      reads this, children
    {
      forall i {:trigger Passed(i)} :: 0 <= i < |children| ==> CutAt(sources[i], Passed(i), union, c)
    }

    ghost predicate Ok()
      reads this, children
    {
      && Shape()
      && at <= |union|
      && (current < |children| <==> at < |union|)
      && (current < |children| ==>
            && children[current].Valid() && children[current].Current() == union[at]
            && AllCut(if direction.Forward? then at else at + 1))
    }

    predicate Valid()
      reads this
    {
      current < |children|
    }

    function Current(): (e: Entry)
      requires Ok() && Valid()
      reads this, children
      ensures e == union[at]
    {
      children[current].Current()
    }

    method SeekToFirst()
      requires Ok()
      modifies this, children
      ensures Ok() && at == 0
    {
      for i := 0 to |children|
        invariant Shape() && forall j :: 0 <= j < i ==> children[j].pos == 0
      {
        children[i].SeekToFirst();
      }
      direction := Forward;
      FindSmallest(0);
    }

    method SeekToLast()
      requires Ok()
      modifies this, children
      ensures Ok() && at == if union == [] then 0 else |union| - 1
    {
      for i := 0 to |children|
        invariant Shape()
        invariant forall j :: 0 <= j < i ==>
                    children[j].pos == if children[j].entries == [] then 0 else |children[j].entries| - 1
      {
        children[i].SeekToLast();
      }
      direction := Reverse;
      FindLargest(|union|);
    }

    method Seek(target: InternalKey)
      requires Ok()
      modifies this, children
      ensures Ok() && at == LowerBound(union, target)
    {
      for i := 0 to |children|
        invariant Shape() && forall j :: 0 <= j < i ==> children[j].pos == LowerBound(sources[j], target)
      {
        children[i].Seek(target);
      }
      direction := Forward;
      forall i | 0 <= i < |children|
        ensures CutAt(sources[i], Passed(i), union, LowerBound(union, target))
      {
        CutOfSeek(sources, union, i, target);
      }
      FindSmallest(LowerBound(union, target));
    }

    method Next()
      requires Ok() && Valid()
      modifies this, children
      ensures Ok() && at == old(at) + 1
    {
      if direction.Reverse? {
        TurnForward();
      }
      ghost var c := at;
      forall i | 0 <= i < |children|
        ensures i != current ==> CutAt(sources[i], Passed(i), union, c + 1)
        ensures i == current ==> CutAt(sources[i], Passed(i) + 1, union, c + 1)
      {
        assert CutAt(sources[i], Passed(i), union, c);
        CutMoves(sources, union, i, Passed(i), c);
        OnlyInCurrent(i);
      }
      children[current].Next();
      FindSmallest(c + 1);
    }

    method Prev()
      requires Ok() && Valid()
      modifies this, children
      ensures Ok() && at == if old(at) == 0 then |union| else old(at) - 1
    {
      if direction.Forward? {
        TurnReverse();
      }
      ghost var c := at;
      forall i | 0 <= i < |children|
        ensures CutAt(sources[i], if i == current then Passed(i) - 1 else Passed(i), union, c)
      {
        CutOneBack(i);
      }
      children[current].Prev();
      FindLargest(c);
    }

    lemma CutOneBack(i: nat)
      requires Ok() && Valid() && direction.Reverse? && i < |children|
      ensures CutAt(sources[i], if i == current then Passed(i) - 1 else Passed(i), union, at)
    {
      assert CutAt(sources[i], Passed(i), union, at + 1);
      OnlyInCurrent(i);
      CutMoves(sources, union, i, if i == current then Passed(i) - 1 else Passed(i), at);
    }

    // No other child holds the current entry.
    lemma OnlyInCurrent(i: nat)
      requires Shape() && i < |children| && current < |children| && at < |union|
      requires children[current].Valid() && children[current].Current() == union[at]
      ensures i != current ==> union[at] !in sources[i]
    {
      assert union[at] in sources[current];
      assert i != current ==> NothingShared(sources[current], sources[i]);
    }

    // Switching to forward: every other child moves to its first entry after the key.
    method TurnForward()
      requires Ok() && Valid() && direction.Reverse?
      modifies this, children
      ensures Ok() && Valid() && direction.Forward? && at == old(at) && current == old(current)
    {
      var key := children[current].Current().ikey;
      ghost var here := children[current].pos;
      assert CutAt(sources[current], here + 1, union, at + 1) by {
        assert Passed(current) == here + 1;
      }
      for i := 0 to |children|
        invariant Shape() && current == old(current) && at == old(at) && direction.Reverse?
        invariant children[current].pos == here && children[current].Current() == union[at]
        invariant forall j :: 0 <= j < i && j != current ==> children[j].pos == LowerBound(sources[j], key)
      {
        if i != current {
          children[i].Seek(key);
          if children[i].Valid() && !Less(key, children[i].Current().ikey) && !Less(children[i].Current().ikey, key) {
            children[i].Next();
          }
          SeekMisses(i, key);
        }
      }
      direction := Forward;
      LowerBoundOfMember(union, at);
      forall i | 0 <= i < |children|
        ensures CutAt(sources[i], Passed(i), union, at)
      {
        if i == current {
          CutMoves(sources, union, i, here, at);
        } else {
          CutOfSeek(sources, union, i, key);
        }
      }
    }

    // Switching to reverse: every other child moves to its last entry before the key.
    method TurnReverse()
      requires Ok() && Valid() && direction.Forward?
      modifies this, children
      ensures Ok() && Valid() && direction.Reverse? && at == old(at) && current == old(current)
    {
      var key := children[current].Current().ikey;
      ghost var here := children[current].pos;
      assert CutAt(sources[current], here, union, at) by {
        assert Passed(current) == here;
      }
      for i := 0 to |children|
        invariant Shape() && current == old(current) && at == old(at) && direction.Forward?
        invariant children[current].pos == here && children[current].Current() == union[at]
        invariant forall j :: 0 <= j < i && j != current ==> BeforeKey(sources[j], children[j].pos, key)
      {
        if i != current {
          children[i].Seek(key);
          if children[i].Valid() {
            children[i].Prev();
          } else {
            children[i].SeekToLast();
          }
        }
      }
      direction := Reverse;
      LowerBoundOfMember(union, at);
      forall i | 0 <= i < |children|
        ensures CutAt(sources[i], Passed(i), union, at + 1)
      {
        if i == current {
          CutMoves(sources, union, i, here, at);
        } else {
          CutBeforeKey(i, key);
        }
      }
    }

    // A child at its last entry before the key, or not valid.
    static predicate BeforeKey(source: seq<Entry>, pos: nat, key: InternalKey) {
      var lb := LowerBound(source, key);
      pos == if lb == 0 then |source| else lb - 1
    }

    lemma CutBeforeKey(i: nat, key: InternalKey)
      requires Shape() && direction.Reverse? && i < |children| && current < |children| && i != current && at < |union|
      requires children[current].Valid() && children[current].Current() == union[at] && key == union[at].ikey
      requires LowerBound(union, key) == at && BeforeKey(sources[i], children[i].pos, key)
      ensures CutAt(sources[i], Passed(i), union, at + 1)
    {
      CutOfSeek(sources, union, i, key);
      OnlyInCurrent(i);
      CutMoves(sources, union, i, LowerBound(sources[i], key), at);
    }

    // With distinct keys a child never lands on the current key.
    lemma SeekMisses(i: nat, key: InternalKey)
      requires Shape() && i < |children| && current < |children| && i != current && at < |union|
      requires children[current].Valid() && children[current].Current() == union[at] && key == union[at].ikey
      ensures var lb := LowerBound(sources[i], key);
              lb < |sources[i]| ==> Less(key, sources[i][lb].ikey) || Less(sources[i][lb].ikey, key)
    {
      OnlyInCurrent(i);
      var lb := LowerBound(sources[i], key);
      assert PartOf(sources[i], union);
      if lb < |sources[i]| {
        var y := IndexInUnion(union, sources[i][lb]);
      }
    }

    method FindSmallest(ghost c: nat)
      requires Shape() && c <= |union| && direction.Forward? && AllCut(c)
      modifies this`current, this`at
      ensures Ok() && at == c
    {
      var smallest: nat := |children|;
      for i := 0 to |children|
        invariant smallest <= |children|
        invariant smallest == |children| ==> forall j :: 0 <= j < i ==> !children[j].Valid()
        invariant smallest < |children| ==> smallest < i && children[smallest].Valid()
        invariant smallest < |children| ==> forall j :: 0 <= j < i && children[j].Valid() ==>
                                              !Less(children[j].Current().ikey, children[smallest].Current().ikey)
      {
        var child := children[i];
        if child.Valid() {
          if smallest == |children| {
            smallest := i;
          } else if Less(child.Current().ikey, children[smallest].Current().ikey) {
            smallest := i;
          }
        }
      }
      SmallestIsNext(smallest, c);
      current := smallest;
      at := c;
      assert forall i :: 0 <= i < |children| ==> Passed(i) == old(Passed(i));
    }

    lemma SmallestIsNext(smallest: nat, c: nat)
      requires Shape() && c <= |union| && direction.Forward? && AllCut(c) && smallest <= |children|
      requires smallest == |children| ==> forall j :: 0 <= j < |children| ==> !children[j].Valid()
      requires smallest < |children| ==> children[smallest].Valid()
      requires smallest < |children| ==> forall j :: 0 <= j < |children| && children[j].Valid() ==>
                                           !Less(children[j].Current().ikey, children[smallest].Current().ikey)
      ensures smallest < |children| <==> c < |union|
      ensures smallest < |children| ==> children[smallest].Current() == union[c]
    {
      if c < |union| {
        var i := FindSource(sources, union, c);
        assert CutAt(sources[i], Passed(i), union, c);
        NextOfCut(sources, union, i, Passed(i), c);
      }
      if smallest < |children| {
        assert CutAt(sources[smallest], Passed(smallest), union, c);
        NextOfCut(sources, union, smallest, Passed(smallest), c);
        assert PartOf(sources[smallest], union);
        var y := IndexInUnion(union, children[smallest].Current());
        assert y == c;
      }
    }

    method FindLargest(ghost c: nat)
      requires Shape() && c <= |union| && direction.Reverse? && AllCut(c)
      modifies this`current, this`at
      ensures Ok() && at == if c == 0 then |union| else c - 1
    {
      var largest: nat := |children|;
      var i := |children|;
      while i > 0
        invariant 0 <= i <= |children|
        invariant largest <= |children|
        invariant largest == |children| ==> forall j :: i <= j < |children| ==> !children[j].Valid()
        invariant largest < |children| ==> children[largest].Valid()
        invariant largest < |children| ==> forall j :: i <= j < |children| && children[j].Valid() ==>
                                             !Less(children[largest].Current().ikey, children[j].Current().ikey)
      {
        i := i - 1;
        var child := children[i];
        if child.Valid() {
          if largest == |children| {
            largest := i;
          } else if Less(children[largest].Current().ikey, child.Current().ikey) {
            largest := i;
          }
        }
      }
      LargestIsPrevious(largest, c);
      current := largest;
      at := if c == 0 then |union| else c - 1;
      assert forall i :: 0 <= i < |children| ==> Passed(i) == old(Passed(i));
    }

    lemma LargestIsPrevious(largest: nat, c: nat)
      requires Shape() && c <= |union| && direction.Reverse? && AllCut(c) && largest <= |children|
      requires largest == |children| ==> forall j :: 0 <= j < |children| ==> !children[j].Valid()
      requires largest < |children| ==> children[largest].Valid()
      requires largest < |children| ==> forall j :: 0 <= j < |children| && children[j].Valid() ==>
                                          !Less(children[largest].Current().ikey, children[j].Current().ikey)
      ensures largest < |children| <==> c > 0
      ensures largest < |children| ==> children[largest].Current() == union[c - 1]
    {
      if c > 0 {
        var i := FindSource(sources, union, c - 1);
        assert CutAt(sources[i], Passed(i), union, c);
        PrevOfCut(sources, union, i, Passed(i), c);
      }
      if largest < |children| {
        assert CutAt(sources[largest], Passed(largest), union, c);
        PrevOfCut(sources, union, largest, Passed(largest), c);
        assert PartOf(sources[largest], union);
        var y := IndexInUnion(union, children[largest].Current());
        assert y == c - 1;
      }
    }
  }

  lemma LowerBoundOfMember(union: seq<Entry>, at: nat)
    requires Ascending(union) && at < |union|
    ensures LowerBound(union, union[at].ikey) == at
  {
    assert !Less(union[at].ikey, union[at].ikey);
  }
}
