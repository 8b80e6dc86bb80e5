/** The skip list of the memtable (db/skiplist.h): one writer, any number of readers that
  run between its single pointer stores. Keys stand for positions in the comparator's
  order; a node is known by its key, since equal keys are never inserted. */
module SkipListModel {
  import opened Wrappers

  type Key = real

  const MAX_HEIGHT := 12

  datatype Node = Head | At(key: Key)

  // The pointer next_[level] of a node.
  datatype Slot = Slot(node: Node, level: nat)

  // The shared memory. `lists` is a record of what is linked at each level.
  datatype Shared = Shared(next: map<Slot, Option<Key>>, maxHeight: nat, lists: seq<seq<Key>>)

  ghost predicate Ascending(list: seq<Key>) {
    forall i, j :: 0 <= i < j < |list| ==> list[i] < list[j]
  }

  function NodeAt(list: seq<Key>, i: int): Node
    requires -1 <= i < |list|
  {
    if i == -1 then Head else At(list[i])
  }

  function KeyAfter(list: seq<Key>, i: int): Option<Key>
    requires -1 <= i < |list|
  {
    if i + 1 < |list| then Some(list[i + 1]) else None
  }

  // The pointers of one level spell out the list.
  ghost predicate Linked(next: map<Slot, Option<Key>>, level: nat, list: seq<Key>) {
    forall i :: -1 <= i < |list| ==>
      Slot(NodeAt(list, i), level) in next && next[Slot(NodeAt(list, i), level)] == KeyAfter(list, i)
  }

  ghost predicate SubList(upper: seq<Key>, lower: seq<Key>) {
    forall k :: k in upper ==> k in lower
  }

  // Every level is strictly ascending and a subsequence of the level below.
  ghost predicate SharedInv(s: Shared) {
    && |s.lists| == MAX_HEIGHT && 1 <= s.maxHeight <= MAX_HEIGHT
    && (forall l {:trigger Ascending(s.lists[l])} :: 0 <= l < MAX_HEIGHT ==> Ascending(s.lists[l]))
    && (forall l {:trigger Linked(s.next, l, s.lists[l])} :: 0 <= l < MAX_HEIGHT ==> Linked(s.next, l, s.lists[l]))
    && (forall u, l {:trigger SubList(s.lists[u], s.lists[l])} :: 0 <= l < u < MAX_HEIGHT ==> SubList(s.lists[u], s.lists[l]))
  }

  // KeyIsAfterNode: a null node is considered infinite.
  predicate KeyIsAfter(key: Key, n: Option<Key>) {
    n.Some? && n.value < key
  }

  // The least key at or after `target`, None when there is none.
  ghost predicate LeastAtOrAfter(list: seq<Key>, target: Key, r: Option<Key>) {
    match r
    case Some(k) => k in list && k >= target && forall o :: o in list && o >= target ==> k <= o
    case None => forall o :: o in list ==> o < target
  }

  // ---------- searching ----------

  // A search for `key` stands at node `x` of `level`: before the key, and on that list.
  ghost predicate Standing(s: Shared, key: Key, x: Node, level: nat) {
    && level < MAX_HEIGHT <= |s.lists|
    && (x.At? ==> x.key < key && x.key in s.lists[level])
  }

  lemma Place(s: Shared, key: Key, x: Node, level: nat) returns (i: int)
    requires SharedInv(s) && Standing(s, key, x, level)
    ensures -1 <= i < |s.lists[level]| && NodeAt(s.lists[level], i) == x
    ensures Slot(x, level) in s.next && s.next[Slot(x, level)] == KeyAfter(s.lists[level], i)
    ensures Ascending(s.lists[level])
  {
    assert Ascending(s.lists[level]) && Linked(s.next, level, s.lists[level]);
    if x.Head? {
      i := -1;
    } else {
      i :| 0 <= i < |s.lists[level]| && s.lists[level][i] == x.key;
    }
  }

  // One load of a next pointer, and the move it decides.
  lemma SearchMove(s: Shared, key: Key, x: Node, level: nat)
    requires SharedInv(s) && Standing(s, key, x, level)
    ensures Slot(x, level) in s.next
    ensures var n := s.next[Slot(x, level)];
            && (KeyIsAfter(key, n) ==> Standing(s, key, At(n.value), level))
            && (!KeyIsAfter(key, n) ==> LeastAtOrAfter(s.lists[level], key, n))
            && (level > 0 ==> Standing(s, key, x, level - 1))
  {
    var i := Place(s, key, x, level);
    var list := s.lists[level];
    assert level > 0 ==> SubList(s.lists[level], s.lists[level - 1]);
    if !KeyIsAfter(key, s.next[Slot(x, level)]) {
      forall o | o in list
        ensures o < key || (i + 1 < |list| && list[i + 1] <= o)
      {
        var j :| 0 <= j < |list| && list[j] == o;
      }
    }
  }

  // ---------- the writer's stores ----------

  function InsertAfter(list: seq<Key>, i: int, key: Key): seq<Key>
    requires -1 <= i < |list|
  {
    list[..i + 1] + [key] + list[i + 1..]
  }

  // prev[level]: the last node before the key on its level.
  ghost predicate IsPrev(s: Shared, key: Key, level: nat, p: Node) {
    && Standing(s, key, p, level)
    && Slot(p, level) in s.next
    && !KeyIsAfter(key, s.next[Slot(p, level)])
    && key !in s.lists[level]
  }

  // The pointer of the node is ready: it points where that of its predecessor does.
  ghost predicate Linkable(s: Shared, key: Key, level: nat, p: Node) {
    && Slot(At(key), level) in s.next && Slot(p, level) in s.next
    && s.next[Slot(At(key), level)] == s.next[Slot(p, level)]
  }

  // x->NoBarrier_SetNext(i, prev[i]->NoBarrier_Next(i)): the node is not yet on this list.
  function Prepare(s: Shared, key: Key, level: nat, p: Node): Shared
    requires Slot(p, level) in s.next
  {
    s.(next := s.next[Slot(At(key), level) := s.next[Slot(p, level)]])
  }

  ghost function Publish(s: Shared, key: Key, level: nat, p: Node, i: int): Shared
    requires level < |s.lists| && -1 <= i < |s.lists[level]|
  {
    s.(next := s.next[Slot(p, level) := Some(key)], lists := s.lists[level := InsertAfter(s.lists[level], i, key)])
  }

  lemma OtherLevelsStay(s: Shared, t: Shared, level: nat)
    requires SharedInv(s) && level < MAX_HEIGHT && |t.lists| == MAX_HEIGHT
    requires forall l :: 0 <= l < MAX_HEIGHT && l != level ==> t.lists[l] == s.lists[l]
    requires forall x: Slot :: x in s.next && x.level != level ==> x in t.next && t.next[x] == s.next[x]
    ensures forall l :: 0 <= l < MAX_HEIGHT && l != level ==> Ascending(t.lists[l]) && Linked(t.next, l, t.lists[l])
  {
    forall l | 0 <= l < MAX_HEIGHT && l != level
      ensures Ascending(t.lists[l]) && Linked(t.next, l, t.lists[l])
    {
      assert Ascending(s.lists[l]) && Linked(s.next, l, s.lists[l]);
    }
  }

  // Preparing the new node changes no list.
  lemma PrepareKeepsInv(s: Shared, key: Key, level: nat, p: Node)
    requires SharedInv(s) && IsPrev(s, key, level, p)
    ensures SharedInv(Prepare(s, key, level, p))
    ensures Prepare(s, key, level, p).lists == s.lists
  {
    var t := Prepare(s, key, level, p);
    OtherLevelsStay(s, t, level);
    assert Ascending(s.lists[level]) && Linked(s.next, level, s.lists[level]);
    forall u, l | 0 <= l < u < MAX_HEIGHT
      ensures SubList(t.lists[u], t.lists[l])
    {
      assert SubList(s.lists[u], s.lists[l]);
    }
  }

  // One store links the node into one level: all levels stay in order and nested.
  lemma PublishKeepsInv(s: Shared, key: Key, level: nat, p: Node, i: int)
    requires SharedInv(s) && IsPrev(s, key, level, p)
    requires -1 <= i < |s.lists[level]| && NodeAt(s.lists[level], i) == p
    requires Slot(At(key), level) in s.next && s.next[Slot(At(key), level)] == s.next[Slot(p, level)]
    requires level > 0 ==> key in s.lists[level - 1]
    ensures SharedInv(Publish(s, key, level, p, i))
  {
    var t := Publish(s, key, level, p, i);
    var list := s.lists[level];
    OtherLevelsStay(s, t, level);
    assert Ascending(list) && Linked(s.next, level, list);
    assert s.next[Slot(p, level)] == KeyAfter(list, i);
    InsertAscends(list, i, key);
    PublishLinks(s.next, level, list, i, key);
    PublishNests(s, key, level, p, i);
  }

  lemma PublishNests(s: Shared, key: Key, level: nat, p: Node, i: int)
    requires SharedInv(s) && level < MAX_HEIGHT && -1 <= i < |s.lists[level]|
    requires level > 0 ==> key in s.lists[level - 1]
    ensures var t := Publish(s, key, level, p, i);
            forall u, l {:trigger SubList(t.lists[u], t.lists[l])} :: 0 <= l < u < MAX_HEIGHT ==>
              SubList(t.lists[u], t.lists[l])
  {
    var t := Publish(s, key, level, p, i);
    var list := s.lists[level];
    InsertAfterMembers(list, i, key);
    forall u, l | 0 <= l < u < MAX_HEIGHT
      ensures SubList(t.lists[u], t.lists[l])
    {
      assert SubList(s.lists[u], s.lists[l]);
      if u == level && l < level - 1 {
        assert SubList(s.lists[level - 1], s.lists[l]);
      }
    }
  }

  lemma InsertAscends(list: seq<Key>, i: int, key: Key)
    requires Ascending(list) && -1 <= i < |list|
    requires (i >= 0 ==> list[i] < key) && (i + 1 < |list| ==> key < list[i + 1])
    ensures Ascending(InsertAfter(list, i, key))
  {
    var more := InsertAfter(list, i, key);
    forall j, k | 0 <= j < k < |more|
      ensures more[j] < more[k]
    {
      BelowOrAbove(list, i, key, if j <= i then j else if j == i + 1 then k - 1 else j - 1);
      BelowOrAbove(list, i, key, if k <= i then k else if k == i + 1 then j else k - 1);
      InsertIndex(list, i, key, j);
      InsertIndex(list, i, key, k);
    }
  }

  lemma BelowOrAbove(list: seq<Key>, i: int, key: Key, j: nat)
    requires Ascending(list) && -1 <= i < |list| && j < |list|
    requires (i >= 0 ==> list[i] < key) && (i + 1 < |list| ==> key < list[i + 1])
    ensures (j <= i ==> list[j] < key) && (j > i ==> key < list[j])
  {
  }

  lemma InsertIndex(list: seq<Key>, i: int, key: Key, j: nat)
    requires -1 <= i < |list| && j <= |list|
    ensures InsertAfter(list, i, key)[j] == if j <= i then list[j] else if j == i + 1 then key else list[j - 1]
  {
  }

  // Where the nodes of the longer list are in the shorter one.
  lemma InsertShifts(list: seq<Key>, i: int, key: Key, j: int)
    requires -1 <= i < |list| && -1 <= j <= |list|
    ensures var more := InsertAfter(list, i, key);
            && (j <= i ==> NodeAt(more, j) == NodeAt(list, j))
            && (j < i ==> KeyAfter(more, j) == KeyAfter(list, j))
            && (j == i ==> KeyAfter(more, j) == Some(key))
            && (j == i + 1 ==> NodeAt(more, j) == At(key) && KeyAfter(more, j) == KeyAfter(list, i))
            && (j > i + 1 ==> NodeAt(more, j) == NodeAt(list, j - 1) && KeyAfter(more, j) == KeyAfter(list, j - 1))
  {
  }

  lemma PublishLinks(next: map<Slot, Option<Key>>, level: nat, list: seq<Key>, i: int, key: Key)
    requires Ascending(list) && Linked(next, level, list) && -1 <= i < |list| && key !in list
    requires Slot(At(key), level) in next && next[Slot(At(key), level)] == KeyAfter(list, i)
    ensures Linked(next[Slot(NodeAt(list, i), level) := Some(key)], level, InsertAfter(list, i, key))
  {
    var more := InsertAfter(list, i, key);
    var next' := next[Slot(NodeAt(list, i), level) := Some(key)];
    forall j | -1 <= j < |more|
      ensures Slot(NodeAt(more, j), level) in next' && next'[Slot(NodeAt(more, j), level)] == KeyAfter(more, j)
    {
      InsertShifts(list, i, key, j);
      if j < i {
        NodesDiffer(list, j, i);
      } else if j > i + 1 {
        NodesDiffer(list, i, j - 1);
      }
    }
  }

  lemma NodesDiffer(list: seq<Key>, i: int, j: int)
    requires Ascending(list) && -1 <= i < j < |list|
    ensures NodeAt(list, i) != NodeAt(list, j)
  {
  }

  // ---------- the interleaving ----------

  datatype Writer =
    | Idle
    | Searching(key: Key, x: Node, level: nat, prev: map<nat, Node>)
    | Found(key: Key, prev: map<nat, Node>)
    | Linking(key: Key, height: nat, prev: map<nat, Node>, i: nat, prepared: bool)

  datatype Reader = Reading(target: Key, x: Node, level: nat) | Returned(target: Key, result: Option<Key>)

  datatype World = World(shared: Shared, writer: Writer, readers: map<nat, Reader>)

  datatype Step =
    | StartInsert(key: Key)
    | WriterLoads
    | ChoosesHeight(height: nat)
    | PreparesNode
    | PublishesNode
    | StartRead(id: nat, target: Key)
    | ReaderLoads(id: nat)

  ghost predicate PrevsFrom(s: Shared, key: Key, prev: map<nat, Node>, from: nat, to: nat) {
    forall l: nat :: from <= l < to ==> l in prev && IsPrev(s, key, l, prev[l])
  }

  ghost predicate WriterInv(s: Shared, w: Writer)
    requires |s.lists| == MAX_HEIGHT
  {
    match w
    case Idle => true
    case Searching(key, x, level, prev) =>
      && Standing(s, key, x, level) && level < s.maxHeight && key !in s.lists[0]
      && PrevsFrom(s, key, prev, level + 1, s.maxHeight)
    case Found(key, prev) =>
      key !in s.lists[0] && PrevsFrom(s, key, prev, 0, s.maxHeight)
    case Linking(key, height, prev, i, prepared) =>
      && i < height <= s.maxHeight <= MAX_HEIGHT
      && PrevsFrom(s, key, prev, i, height)
      && (i > 0 ==> key in s.lists[i - 1])
      && (prepared ==> Slot(At(key), i) in s.next && s.next[Slot(At(key), i)] == s.next[Slot(prev[i], i)])
  }

  ghost predicate ReaderInv(s: Shared, r: Reader) {
    r.Reading? ==> Standing(s, r.target, r.x, r.level)
  }

  ghost predicate WorldInv(w: World) {
    // Levels that the writer has not reached hold nothing: the search starts below them.
    && SharedInv(w.shared)
    && (forall l {:trigger w.shared.lists[l]} :: w.shared.maxHeight <= l < MAX_HEIGHT ==> w.shared.lists[l] == [])
    && WriterInv(w.shared, w.writer)
    && forall id :: id in w.readers ==> ReaderInv(w.shared, w.readers[id])
  }

  ghost predicate Next(w: World, v: World, step: Step)
    requires |w.shared.lists| == MAX_HEIGHT && w.shared.maxHeight > 0
  {
    match step
    case StartInsert(key) =>
      // REQUIRES of Insert: nothing that compares equal to the key is in the list.
      w.writer.Idle? && key !in w.shared.lists[0]
      && v == w.(writer := Searching(key, Head, w.shared.maxHeight - 1, map[]))
    case WriterLoads =>
      && w.writer.Searching? && Slot(w.writer.x, w.writer.level) in w.shared.next
      && var Searching(key, x, level, prev) := w.writer;
         var n := w.shared.next[Slot(x, level)];
         v == w.(writer :=
           if KeyIsAfter(key, n) then Searching(key, At(n.value), level, prev)
           else if level == 0 then Found(key, prev[level := x])
           else Searching(key, x, level - 1, prev[level := x]))
    case ChoosesHeight(height) =>
      && w.writer.Found? && 1 <= height <= MAX_HEIGHT
      && var prev := map l: nat | 0 <= l < MAX_HEIGHT && (l in w.writer.prev || l >= w.shared.maxHeight) ::
                       if l >= w.shared.maxHeight then Head else w.writer.prev[l];
         v == w.(shared := w.shared.(maxHeight := if height > w.shared.maxHeight then height else w.shared.maxHeight),
                 writer := Linking(w.writer.key, height, prev, 0, false))
    case PreparesNode =>
      && w.writer.Linking? && !w.writer.prepared && w.writer.i in w.writer.prev
      && Slot(w.writer.prev[w.writer.i], w.writer.i) in w.shared.next
      && v == w.(shared := Prepare(w.shared, w.writer.key, w.writer.i, w.writer.prev[w.writer.i]),
                 writer := w.writer.(prepared := true))
    case PublishesNode =>
      && w.writer.Linking? && w.writer.prepared && w.writer.i in w.writer.prev && w.writer.i < |w.shared.lists|
      && (exists i :: -1 <= i < |w.shared.lists[w.writer.i]|
             && NodeAt(w.shared.lists[w.writer.i], i) == w.writer.prev[w.writer.i]
             && v.shared == Publish(w.shared, w.writer.key, w.writer.i, w.writer.prev[w.writer.i], i))
      && v == w.(shared := v.shared,
                 writer := if w.writer.i + 1 == w.writer.height then Idle
                           else w.writer.(i := w.writer.i + 1, prepared := false))
    case StartRead(id, target) =>
      v == w.(readers := w.readers[id := Reading(target, Head, w.shared.maxHeight - 1)])
    case ReaderLoads(id) =>
      && id in w.readers && w.readers[id].Reading? && Slot(w.readers[id].x, w.readers[id].level) in w.shared.next
      && var Reading(target, x, level) := w.readers[id];
         var n := w.shared.next[Slot(x, level)];
         v == w.(readers := w.readers[id :=
           if KeyIsAfter(target, n) then Reading(target, At(n.value), level)
           else if level == 0 then Returned(target, n)
           else Reading(target, x, level - 1)])
  }

  // Lists only grow.
  ghost predicate Grows(s: Shared, t: Shared) {
    |s.lists| == |t.lists| == MAX_HEIGHT
    && forall l {:trigger SubList(s.lists[l], t.lists[l])} :: 0 <= l < MAX_HEIGHT ==> SubList(s.lists[l], t.lists[l])
  }

  // A search in progress is not disturbed by nodes that appear.
  lemma StandingStays(s: Shared, t: Shared, key: Key, x: Node, level: nat)
    requires Grows(s, t) && Standing(s, key, x, level)
    ensures Standing(t, key, x, level)
  {
    assert SubList(s.lists[level], t.lists[level]);
  }

  lemma ReadersStay(w: World, v: World)
    requires WorldInv(w) && Grows(w.shared, v.shared) && v.readers == w.readers
    ensures forall id :: id in v.readers ==> ReaderInv(v.shared, v.readers[id])
  {
    forall id | id in v.readers
      ensures ReaderInv(v.shared, v.readers[id])
    {
      var r := v.readers[id];
      assert ReaderInv(w.shared, w.readers[id]);
      if r.Reading? {
        StandingStays(w.shared, v.shared, r.target, r.x, r.level);
      }
    }
  }

  // A key that is not on level 0 is on no level.
  lemma AbsentAbove(s: Shared, key: Key, level: nat)
    requires SharedInv(s) && level < MAX_HEIGHT && key !in s.lists[0]
    ensures key !in s.lists[level]
  {
    assert level > 0 ==> SubList(s.lists[level], s.lists[0]);
  }

  lemma WriterLoadKeepsInv(w: World, v: World)
    requires WorldInv(w) && Next(w, v, WriterLoads)
    ensures WorldInv(v)
  {
    var Searching(key, x, level, prev) := w.writer;
    SearchMove(w.shared, key, x, level);
    AbsentAbove(w.shared, key, level);
  }

  lemma HeightKeepsInv(w: World, v: World, height: nat)
    requires WorldInv(w) && Next(w, v, ChoosesHeight(height))
    ensures WorldInv(v)
  {
    var s, t := w.shared, v.shared;
    forall l {:trigger Ascending(t.lists[l])} | 0 <= l < MAX_HEIGHT
      ensures Ascending(t.lists[l])
    {
      assert Ascending(s.lists[l]);
    }
    forall l | 0 <= l < MAX_HEIGHT
      ensures Linked(t.next, l, t.lists[l])
    {
      assert Linked(s.next, l, s.lists[l]);
    }
    forall u, l | 0 <= l < u < MAX_HEIGHT
      ensures SubList(t.lists[u], t.lists[l])
    {
      assert SubList(s.lists[u], s.lists[l]);
    }
    forall l: nat | l < height
      ensures l in v.writer.prev && IsPrev(t, v.writer.key, l, v.writer.prev[l])
    {
      if l >= s.maxHeight {
        assert Linked(s.next, l, s.lists[l]);
        assert NodeAt(s.lists[l], -1) == Head;
      } else {
        assert IsPrev(s, w.writer.key, l, w.writer.prev[l]);
      }
    }
    assert Grows(s, t);
    ReadersStay(w, v);
  }

  lemma PrepareStepKeepsInv(w: World, v: World)
    requires WorldInv(w) && Next(w, v, PreparesNode)
    ensures WorldInv(v)
  {
    var Linking(key, height, prev, i, prepared) := w.writer;
    var s, t := w.shared, v.shared;
    assert IsPrev(s, key, i, prev[i]);
    PrepareKeepsInv(s, key, i, prev[i]);
    forall l: nat | i <= l < height
      ensures IsPrev(t, key, l, prev[l])
    {
      assert IsPrev(s, key, l, prev[l]);
      assert prev[l] != At(key);
    }
    assert Grows(s, t);
    ReadersStay(w, v);
  }

  // Linking the node into level `i` leaves the predecessors found for the levels above.
  lemma PrevsStay(s: Shared, t: Shared, key: Key, prev: map<nat, Node>, i: nat, height: nat, j: int)
    requires |s.lists| == MAX_HEIGHT && i < height <= MAX_HEIGHT && PrevsFrom(s, key, prev, i, height)
    requires -1 <= j < |s.lists[i]| && t == Publish(s, key, i, prev[i], j)
    ensures PrevsFrom(t, key, prev, i + 1, height)
  {
    forall l: nat | i + 1 <= l < height
      ensures l in prev && IsPrev(t, key, l, prev[l])
    {
      assert IsPrev(s, key, l, prev[l]);
    }
  }

  lemma PublishGrows(s: Shared, key: Key, i: nat, p: Node, j: int)
    requires |s.lists| == MAX_HEIGHT && i < MAX_HEIGHT && -1 <= j < |s.lists[i]|
    ensures Grows(s, Publish(s, key, i, p, j))
    ensures key in Publish(s, key, i, p, j).lists[i]
  {
    var t := Publish(s, key, i, p, j);
    var list := s.lists[i];
    assert list == list[..j + 1] + list[j + 1..];
    assert t.lists[i][j + 1] == key;
  }

  // What the writer knows when it is about to publish at level i.
  lemma PublishShared(s: Shared, key: Key, prev: map<nat, Node>, i: nat, height: nat, j: int)
    requires SharedInv(s) && i < height <= s.maxHeight && PrevsFrom(s, key, prev, i, height)
    requires i > 0 ==> key in s.lists[i - 1]
    requires Slot(At(key), i) in s.next && Slot(prev[i], i) in s.next
    requires s.next[Slot(At(key), i)] == s.next[Slot(prev[i], i)]
    requires -1 <= j < |s.lists[i]| && NodeAt(s.lists[i], j) == prev[i]
    ensures var t := Publish(s, key, i, prev[i], j);
            SharedInv(t) && Grows(s, t) && PrevsFrom(t, key, prev, i + 1, height) && key in t.lists[i]
  {
    assert IsPrev(s, key, i, prev[i]);
    PublishKeepsInv(s, key, i, prev[i], j);
    PublishGrows(s, key, i, prev[i], j);
    PrevsStay(s, Publish(s, key, i, prev[i], j), key, prev, i, height, j);
  }

  function AfterPublish(writer: Writer): Writer
    requires writer.Linking?
  {
    if writer.i + 1 == writer.height then Idle else writer.(i := writer.i + 1, prepared := false)
  }

  lemma PublishStepKeepsInv(w: World, v: World)
    requires WorldInv(w) && Next(w, v, PublishesNode)
    ensures WorldInv(v)
  {
    var s := w.shared;
    var prev, i := w.writer.prev, w.writer.i;
    var j :| -1 <= j < |s.lists[i]| && NodeAt(s.lists[i], j) == prev[i]
             && v.shared == Publish(s, w.writer.key, i, prev[i], j);
    assert v == World(Publish(s, w.writer.key, i, prev[i], j), AfterPublish(w.writer), w.readers);
    PublishedInv(w, j);
  }

  lemma PublishedInv(w: World, j: int)
    requires WorldInv(w) && w.writer.Linking? && w.writer.prepared
    requires -1 <= j < |w.shared.lists[w.writer.i]|
    requires NodeAt(w.shared.lists[w.writer.i], j) == w.writer.prev[w.writer.i]
    ensures var t := Publish(w.shared, w.writer.key, w.writer.i, w.writer.prev[w.writer.i], j);
            WorldInv(World(t, AfterPublish(w.writer), w.readers))
  {
    var s, prev, i := w.shared, w.writer.prev, w.writer.i;
    var v := World(Publish(s, w.writer.key, i, prev[i], j), AfterPublish(w.writer), w.readers);
    assert IsPrev(s, w.writer.key, i, prev[i]);
    PublishShared(s, w.writer.key, prev, i, w.writer.height, j);
    ReadersStay(w, v);
  }

  lemma ReaderLoadKeepsInv(w: World, v: World, id: nat)
    requires WorldInv(w) && Next(w, v, ReaderLoads(id))
    ensures WorldInv(v)
    ensures v.readers[id].Returned? ==> LeastAtOrAfter(v.shared.lists[0], v.readers[id].target, v.readers[id].result)
  {
    var Reading(target, x, level) := w.readers[id];
    assert ReaderInv(w.shared, w.readers[id]);
    SearchMove(w.shared, target, x, level);
  }

  // Every step, by the writer or by any reader, keeps every level in order and nested, and
  // every search in progress on course.
  lemma NextKeepsInv(w: World, v: World, step: Step)
    requires WorldInv(w) && Next(w, v, step)
    ensures WorldInv(v)
  {
    match step
    case StartInsert(key) =>
    case WriterLoads => WriterLoadKeepsInv(w, v);
    case ChoosesHeight(height) => HeightKeepsInv(w, v, height);
    case PreparesNode => PrepareStepKeepsInv(w, v);
    case PublishesNode => PublishStepKeepsInv(w, v);
    case StartRead(id, target) =>
    case ReaderLoads(id) => ReaderLoadKeepsInv(w, v, id);
  }

  lemma NextGrows(w: World, v: World, step: Step)
    requires WorldInv(w) && Next(w, v, step)
    ensures forall k :: k in w.shared.lists[0] ==> k in v.shared.lists[0]
  {
  }

  ghost predicate Init(w: World) {
    && w.shared.lists == seq(MAX_HEIGHT, _ => []) && w.shared.maxHeight == 1
    && (forall l: nat :: l < MAX_HEIGHT ==> Slot(Head, l) in w.shared.next && w.shared.next[Slot(Head, l)] == None)
    && w.writer == Idle && w.readers == map[]
  }

  ghost predicate Run(worlds: seq<World>, steps: seq<Step>) {
    && |worlds| == |steps| + 1 && Init(worlds[0])
    && forall i :: 0 <= i < |steps| ==> Taken(worlds[i], worlds[i + 1], steps[i])
  }

  ghost predicate Taken(w: World, v: World, step: Step) {
    |w.shared.lists| == MAX_HEIGHT && w.shared.maxHeight > 0 && Next(w, v, step)
  }

  lemma {:induction false} RunKeepsInv(worlds: seq<World>, steps: seq<Step>, i: nat)
    requires Run(worlds, steps) && i < |worlds|
    ensures WorldInv(worlds[i])
  {
    if i > 0 {
      RunKeepsInv(worlds, steps, i - 1);
      NextKeepsInv(worlds[i - 1], worlds[i], steps[i - 1]);
    } else {
      var s := worlds[0].shared;
      assert forall l :: 0 <= l < MAX_HEIGHT ==> s.lists[l] == [];
    }
  }

  lemma {:induction false} RunGrows(worlds: seq<World>, steps: seq<Step>, i: nat, j: nat)
    requires Run(worlds, steps) && i <= j < |worlds|
    ensures |worlds[i].shared.lists| == |worlds[j].shared.lists| == MAX_HEIGHT
    ensures forall k :: k in worlds[i].shared.lists[0] ==> k in worlds[j].shared.lists[0]
    decreases j - i
  {
    RunKeepsInv(worlds, steps, i);
    RunKeepsInv(worlds, steps, j);
    if i < j {
      RunKeepsInv(worlds, steps, i + 1);
      NextGrows(worlds[i], worlds[i + 1], steps[i]);
      RunGrows(worlds, steps, i + 1, j);
    }
  }

  // In every run, a read that returns at step `j` returns the least key at or after its
  // target among those on level 0 at that moment. So it misses no key that was on level 0
  // at any earlier moment `i`, in particular when the read began.
  lemma ReadsAreExact(worlds: seq<World>, steps: seq<Step>, i: nat, j: nat, id: nat)
    requires Run(worlds, steps) && i <= j < |steps|
    requires steps[j] == ReaderLoads(id) && worlds[j + 1].readers[id].Returned?
    ensures var r := worlds[j + 1].readers[id];
            && |worlds[i].shared.lists| == |worlds[j + 1].shared.lists| == MAX_HEIGHT
            && LeastAtOrAfter(worlds[j + 1].shared.lists[0], r.target, r.result)
            && forall k :: k in worlds[i].shared.lists[0] && k >= r.target ==> r.result.Some? && r.result.value <= k
  {
    RunKeepsInv(worlds, steps, j);
    ReaderLoadKeepsInv(worlds[j], worlds[j + 1], id);
    RunGrows(worlds, steps, i, j + 1);
  }

  // ---------- the list used by one thread ----------

  // The greatest key before `key`, the head when there is none.
  ghost predicate GreatestBefore(list: seq<Key>, key: Key, x: Node) {
    match x
    case At(k) => k in list && k < key && forall o :: o in list && o < key ==> o <= k
    case Head => forall o :: o in list ==> o >= key
  }

  lemma LastBefore(s: Shared, key: Key, x: Node, level: nat)
    requires SharedInv(s) && Standing(s, key, x, level)
    requires Slot(x, level) in s.next && !KeyIsAfter(key, s.next[Slot(x, level)])
    ensures GreatestBefore(s.lists[level], key, x)
  {
    var i := Place(s, key, x, level);
    var list := s.lists[level];
    forall o | o in list
      ensures o >= key || (x.At? && o <= x.key)
    {
      var j :| 0 <= j < |list| && list[j] == o;
    }
  }

  class SkipList {
    var next: map<Slot, Option<Key>>
    var maxHeight: nat
    ghost var lists: seq<seq<Key>>

    ghost function View(): Shared
      reads this
    {
      Shared(next, maxHeight, lists)
    }

    ghost predicate Valid()
      reads this
    {
      && SharedInv(View())
      && forall l {:trigger lists[l]} :: maxHeight <= l < MAX_HEIGHT ==> lists[l] == []
    }

    constructor ()
      ensures Valid() && lists[0] == []
    {
      next := map l: nat | 0 <= l < MAX_HEIGHT :: Slot(Head, l) := None;
      maxHeight := 1;
      lists := seq(MAX_HEIGHT, _ => []);
      new;
      assert forall l :: 0 <= l < MAX_HEIGHT ==> lists[l] == [];
    }

    // The earliest node at or after the key, and the last node before it on every level.
    method FindGreaterOrEqual(key: Key) returns (r: Option<Key>, prev: map<nat, Node>)
      requires Valid()
      ensures LeastAtOrAfter(lists[0], key, r)
      ensures key !in lists[0] ==> PrevsFrom(View(), key, prev, 0, maxHeight)
    {
      var x := Head;
      var level: nat := maxHeight - 1;
      prev := map[];
      ghost var i := -1;
      while true
        invariant level < maxHeight && Standing(View(), key, x, level)
        invariant -1 <= i < |lists[level]| && NodeAt(lists[level], i) == x
        invariant key !in lists[0] ==> PrevsFrom(View(), key, prev, level + 1, maxHeight)
        decreases level, |lists[level]| - i
      {
        SearchMove(View(), key, x, level);
        ghost var p := Place(View(), key, x, level);
        assert p == i;
        var n := next[Slot(x, level)];
        if KeyIsAfter(key, n) {
          // Keep searching in this list
          x := At(n.value);
          i := i + 1;
        } else {
          if key !in lists[0] {
            AbsentAbove(View(), key, level);
          }
          prev := prev[level := x];
          if level == 0 {
            return n, prev;
          }
          // Switch to next list
          level := level - 1;
          i := Place(View(), key, x, level);
        }
      }
    }

    method FindLessThan(key: Key) returns (x: Node)
      requires Valid()
      ensures GreatestBefore(lists[0], key, x)
    {
      x := Head;
      var level: nat := maxHeight - 1;
      ghost var i := -1;
      while true
        invariant level < maxHeight && Standing(View(), key, x, level)
        invariant -1 <= i < |lists[level]| && NodeAt(lists[level], i) == x
        decreases level, |lists[level]| - i
      {
        SearchMove(View(), key, x, level);
        ghost var p := Place(View(), key, x, level);
        assert p == i;
        var n := next[Slot(x, level)];
        if n.None? || n.value >= key {
          if level == 0 {
            LastBefore(View(), key, x, 0);
            return;
          }
          // Switch to next list
          level := level - 1;
          i := Place(View(), key, x, level);
        } else {
          x := At(n.value);
          i := i + 1;
        }
      }
    }

    method Contains(key: Key) returns (found: bool)
      requires Valid()
      ensures found <==> key in lists[0]
    {
      var x, _ := FindGreaterOrEqual(key);
      found := x.Some? && x.value == key;
    }

    // Insert at a randomly chosen height: the key joins level 0 in order, nothing else moves.
    method Insert(key: Key, height: nat)
      requires Valid() && key !in lists[0] && 1 <= height <= MAX_HEIGHT
      modifies this
      ensures Valid()
      ensures Ascending(lists[0]) && forall k :: k in lists[0] <==> k in old(lists[0]) || k == key
    {
      var x: Option<Key>, prev: map<nat, Node> := FindGreaterOrEqual(key);
      if height > maxHeight {
        var l := maxHeight;
        while l < height
          invariant Valid() && maxHeight <= l <= height && View() == old(View())
          invariant PrevsFrom(View(), key, prev, 0, l)
        {
          HeadIsPrev(View(), key, l);
          prev := prev[l := Head];
          l := l + 1;
        }
        MaxHeightStored(View(), height);
        maxHeight := height;
      }
      ghost var before := lists[0];
      for i := 0 to height
        invariant Valid() && height <= maxHeight
        invariant PrevsFrom(View(), key, prev, i, height)
        invariant i > 0 ==> key in lists[i - 1]
        invariant i == 0 ==> lists[0] == before
        invariant i > 0 ==> forall k :: k in lists[0] <==> k in before || k == key
      {
        LinkLevel(key, i, prev, height);
      }
      assert Ascending(View().lists[0]);
    }

    // Link the node into one level: its own pointer first, then the one store that publishes it.
    method LinkLevel(key: Key, i: nat, prev: map<nat, Node>, ghost height: nat)
      requires Valid() && i < height <= maxHeight && PrevsFrom(View(), key, prev, i, height)
      requires i > 0 ==> key in lists[i - 1]
      modifies this`next, this`lists
      ensures Valid() && PrevsFrom(View(), key, prev, i + 1, height) && key in lists[i]
      ensures i > 0 ==> lists[0] == old(lists[0])
      ensures i == 0 ==> forall k :: k in lists[0] <==> k in old(lists[0]) || k == key
    {
      PrepareLink(key, i, prev, height);
      PublishLink(key, i, prev, height);
    }

    // The pointer of the node itself; no reader gets there yet.
    method PrepareLink(key: Key, i: nat, prev: map<nat, Node>, ghost height: nat)
      requires Valid() && i < height <= maxHeight && PrevsFrom(View(), key, prev, i, height)
      requires i > 0 ==> key in lists[i - 1]
      modifies this`next
      ensures Valid() && PrevsFrom(View(), key, prev, i, height)
      ensures Linkable(View(), key, i, prev[i])
    {
      ghost var s := View();
      assert IsPrev(s, key, i, prev[i]);
      PrepareKeepsInv(s, key, i, prev[i]);
      PreparedPrevs(s, key, prev, i, height);
      next := next[Slot(At(key), i) := next[Slot(prev[i], i)]];
      assert View() == Prepare(s, key, i, prev[i]);
    }

    // The one store that publishes it.
    method PublishLink(key: Key, i: nat, prev: map<nat, Node>, ghost height: nat)
      requires Valid() && i < height <= maxHeight && PrevsFrom(View(), key, prev, i, height)
      requires i > 0 ==> key in lists[i - 1]
      requires Linkable(View(), key, i, prev[i])
      modifies this`next, this`lists
      ensures Valid() && PrevsFrom(View(), key, prev, i + 1, height) && key in lists[i]
      ensures i > 0 ==> lists[0] == old(lists[0])
      ensures i == 0 ==> forall k :: k in lists[0] <==> k in old(lists[0]) || k == key
    {
      ghost var t := View();
      ghost var j := Place(t, key, prev[i], i);
      PublishKeepsInv(t, key, i, prev[i], j);
      PrevsStay(t, Publish(t, key, i, prev[i], j), key, prev, i, height, j);
      InsertAfterMembers(lists[i], j, key);
      next := next[Slot(prev[i], i) := Some(key)];
      lists := lists[i := InsertAfter(lists[i], j, key)];
      assert View() == Publish(t, key, i, prev[i], j);
    }

    // The last node of the list, the head when it is empty.
    method FindLast() returns (x: Node)
      requires Valid()
      ensures if lists[0] == [] then x == Head else x == At(lists[0][|lists[0]| - 1])
    {
      x := Head;
      var level: nat := maxHeight - 1;
      ghost var i := -1;
      while true
        invariant level < maxHeight && -1 <= i < |lists[level]| && NodeAt(lists[level], i) == x
        decreases level, |lists[level]| - i
      {
        assert Linked(View().next, level, View().lists[level]);
        var n := next[Slot(x, level)];
        if n.None? {
          if level == 0 {
            return;
          }
          assert SubList(View().lists[level], View().lists[level - 1]);
          level := level - 1;
          i := if x.Head? then -1 else IndexOf(lists[level], x.key);
        } else {
          x := At(n.value);
          i := i + 1;
        }
      }
    }
  }

  ghost function IndexOf(list: seq<Key>, k: Key): (i: int)
    requires k in list
    ensures 0 <= i < |list| && list[i] == k
  {
    var i :| 0 <= i < |list| && list[i] == k;
    i
  }

  lemma InsertAfterMembers(list: seq<Key>, i: int, key: Key)
    requires -1 <= i < |list|
    ensures forall k :: k in InsertAfter(list, i, key) <==> k in list || k == key
  {
    assert list == list[..i + 1] + list[i + 1..];
  }

  lemma HeadIsPrev(s: Shared, key: Key, level: nat)
    requires SharedInv(s) && level < MAX_HEIGHT && s.lists[level] == []
    ensures IsPrev(s, key, level, Head)
  {
    assert Linked(s.next, level, s.lists[level]);
    assert NodeAt(s.lists[level], -1) == Head;
  }

  lemma MaxHeightStored(s: Shared, height: nat)
    requires SharedInv(s) && 1 <= height <= MAX_HEIGHT
    ensures SharedInv(s.(maxHeight := height))
  {
    var t := s.(maxHeight := height);
    forall l | 0 <= l < MAX_HEIGHT
      ensures Ascending(t.lists[l]) && Linked(t.next, l, t.lists[l])
    {
      assert Ascending(s.lists[l]) && Linked(s.next, l, s.lists[l]);
    }
    forall u, l | 0 <= l < u < MAX_HEIGHT
      ensures SubList(t.lists[u], t.lists[l])
    {
      assert SubList(s.lists[u], s.lists[l]);
    }
  }

  lemma PreparedPrevs(s: Shared, key: Key, prev: map<nat, Node>, i: nat, height: nat)
    requires i < height && PrevsFrom(s, key, prev, i, height)
    ensures PrevsFrom(Prepare(s, key, i, prev[i]), key, prev, i, height)
    ensures Prepare(s, key, i, prev[i]).next[Slot(At(key), i)] == Prepare(s, key, i, prev[i]).next[Slot(prev[i], i)]
  {
    var t := Prepare(s, key, i, prev[i]);
    forall l: nat | i <= l < height
      ensures IsPrev(t, key, l, prev[l])
    {
      assert IsPrev(s, key, l, prev[l]);
      assert prev[l] != At(key);
    }
  }
}
