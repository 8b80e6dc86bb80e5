/** The states of the cache (util/cache.cc, LRUCache) and the steps its operations are made
  of: who holds references, which list an entry is on, what is charged, what was deleted. */
module CacheStates {
  import opened Wrappers
  import opened Keys
  import opened HandleTables
  import opened LruLists

  const LRU_HEAD: Id := 0
  const IN_USE_HEAD: Id := 1

  // refs has the handles that are allocated; clients counts the handles that callers hold;
  // deleted lists the calls of deleters, in order.
  datatype Cache = Cache(infos: Infos, refs: map<Id, nat>, inCache: set<Id>, links: Links, lru: seq<Id>, inUse: seq<Id>,
                         usage: nat, clients: map<Id, nat>, deleted: seq<Id>)

  ghost function Sum(infos: Infos, s: set<Id>): nat
    requires s <= infos.Keys
  {
    if s == {} then 0
    else
      var x :| x in s;
      infos[x].charge + Sum(infos, s - {x})
  }

  lemma {:induction false} SumWithout(infos: Infos, s: set<Id>, x: Id)
    requires s <= infos.Keys && x in s
    ensures Sum(infos, s) == infos[x].charge + Sum(infos, s - {x})
    decreases |s|
  {
    var y :| y in s && Sum(infos, s) == infos[y].charge + Sum(infos, s - {y});
    if x != y {
      SumWithout(infos, s - {y}, x);
      SumWithout(infos, s - {x}, y);
      assert s - {y} - {x} == s - {x} - {y};
    }
  }

  lemma {:induction false} SumOfMore(infos: Infos, infos': Infos, s: set<Id>)
    requires s <= infos.Keys && forall id :: id in infos ==> id in infos' && infos'[id] == infos[id]
    ensures Sum(infos', s) == Sum(infos, s)
    decreases |s|
  {
    if s != {} {
      var x :| x in s;
      SumOfMore(infos, infos', s - {x});
      SumWithout(infos, s, x);
      SumWithout(infos', s, x);
    }
  }

  // How many references a handle should have; `extra` is one being taken or given back.
  ghost function Owed(c: Cache, id: Id, extra: Option<Id>): nat {
    (if id in c.clients then c.clients[id] else 0) + (if id in c.inCache then 1 else 0) + (if extra == Some(id) then 1 else 0)
  }

  // A handle is allocated exactly while something refers to it.
  ghost predicate CountOk(c: Cache, id: Id, extra: Option<Id>) {
    && id >= 2 && id in c.infos && id in c.clients
    && (id in c.refs <==> Owed(c, id, extra) > 0) && (id in c.refs ==> c.refs[id] == Owed(c, id, extra))
  }

  // A cached handle that only the cache refers to is on the LRU list, any other cached handle
  // on the in-use list.
  ghost predicate ListOk(c: Cache, id: Id) {
    && (id in c.lru <==> id in c.inCache && id in c.refs && c.refs[id] == 1)
    && (id in c.inUse <==> id in c.inCache && id in c.refs && c.refs[id] >= 2)
  }

  ghost predicate DeletedOk(c: Cache, id: Id) {
    id in c.deleted <==> id in c.infos && id !in c.refs
  }

  ghost predicate Counts(c: Cache, extra: Option<Id>) {
    && c.inCache <= c.infos.Keys && (extra.Some? ==> extra.value in c.infos)
    && (forall id {:trigger CountOk(c, id, extra)} :: id in c.infos || id in c.clients || id in c.refs ==> CountOk(c, id, extra))
  }

  ghost predicate Lists(c: Cache) {
    && Ring(c.links, LRU_HEAD, c.lru) && Ring(c.links, IN_USE_HEAD, c.inUse)
    && forall id {:trigger ListOk(c, id)} :: id in c.lru || id in c.inUse || id in c.inCache ==> ListOk(c, id)
  }

  ghost predicate Ok(c: Cache, extra: Option<Id>) {
    && Counts(c, extra) && Lists(c)
    && c.usage == Sum(c.infos, c.inCache)
    && NoDuplicates(c.deleted) && (forall id {:trigger DeletedOk(c, id)} :: id in c.deleted || id in c.infos ==> DeletedOk(c, id))
  }

  function IndexOf(list: seq<Id>, e: Id): (r: nat)
    requires e in list
    ensures r < |list| && list[r] == e
  {
    if list[0] == e then 0 else 1 + IndexOf(list[1..], e)
  }

  function Drop(list: seq<Id>, e: Id): seq<Id> {
    if e in list then Without(list, IndexOf(list, e)) else list
  }

  lemma DropHas(list: seq<Id>, e: Id)
    requires NoDuplicates(list)
    ensures NoDuplicates(Drop(list, e)) && forall id :: id in Drop(list, e) <==> id in list && id != e
  {
    if e in list {
      WithoutHas(list, IndexOf(list, e));
    }
  }

  lemma ListsApart(c: Cache)
    requires Lists(c) && (forall id :: id in c.infos || id in c.clients || id in c.refs ==> id >= 2)
    ensures Apart(LRU_HEAD, c.lru, IN_USE_HEAD, c.inUse) && Apart(IN_USE_HEAD, c.inUse, LRU_HEAD, c.lru)
  {
    forall id | id in c.lru || id in c.inUse
      ensures id >= 2 && !(id in c.lru && id in c.inUse)
    {
      assert ListOk(c, id);
    }
  }

  // Both were released, and b after every release of a.
  ghost predicate ReleasedBefore(releases: seq<Id>, a: Id, b: Id) {
    && a in releases
    && exists k :: 0 <= k < |releases| && releases[k] == b && a !in releases[k..]
  }

  // A list is in the order in which its handles were last released.
  ghost predicate InReleaseOrder(list: seq<Id>, releases: seq<Id>) {
    && (forall id :: id in list ==> id in releases)
    && forall i, j :: 0 <= i < j < |list| ==> ReleasedBefore(releases, list[i], list[j])
  }

  lemma ReleasedLast(list: seq<Id>, releases: seq<Id>, e: Id)
    requires InReleaseOrder(list, releases) && e !in list
    ensures InReleaseOrder(list, releases + [e]) && InReleaseOrder(list + [e], releases + [e])
  {
    var more := releases + [e];
    forall i, j | 0 <= i < j < |list| + 1
      ensures ReleasedBefore(more, (list + [e])[i], (list + [e])[j])
    {
      var a, b := list[i], (list + [e])[j];
      if j == |list| {
        assert more[|releases|] == b && a !in more[|releases|..];
      } else {
        assert ReleasedBefore(releases, a, b);
        var k :| 0 <= k < |releases| && releases[k] == b && a !in releases[k..];
        assert more[k..] == releases[k..] + [e];
        assert more[k] == b && a !in more[k..];
      }
    }
    forall i, j | 0 <= i < j < |list|
      ensures ReleasedBefore(more, list[i], list[j])
    {
      assert (list + [e])[i] == list[i] && (list + [e])[j] == list[j];
    }
  }

  lemma DropKeepsOrder(list: seq<Id>, releases: seq<Id>, e: Id)
    requires InReleaseOrder(list, releases)
    ensures InReleaseOrder(Drop(list, e), releases)
  {
  }

  // e goes to the end of the in-use list, or of the LRU list, from the other one.
  function ToInUse(c: Cache, e: Id): Cache
    requires e in c.links.next && e in c.links.prev && IN_USE_HEAD in Unlink(c.links, e).prev
  {
    c.(links := Append(Unlink(c.links, e), IN_USE_HEAD, e), lru := Drop(c.lru, e), inUse := c.inUse + [e])
  }

  function ToLru(c: Cache, e: Id): Cache
    requires e in c.links.next && e in c.links.prev && LRU_HEAD in Unlink(c.links, e).prev
  {
    c.(links := Append(Unlink(c.links, e), LRU_HEAD, e), lru := c.lru + [e], inUse := Drop(c.inUse, e))
  }

  // A move between two lists, for the links alone.
  lemma MoveRings(l: Links, from: Id, a: seq<Id>, to: Id, b: seq<Id>, e: Id)
    requires Ring(l, from, a) && Ring(l, to, b) && Apart(from, a, to, b) && e in a
    ensures e in l.next && e in l.prev && to in Unlink(l, e).prev
    ensures Ring(Append(Unlink(l, e), to, e), from, Drop(a, e)) && Ring(Append(Unlink(l, e), to, e), to, b + [e])
  {
    var k := IndexOf(a, e);
    UnlinkRing(l, from, a, k);
    UnlinkKeeps(l, from, a, k, to, b);
    DropHas(a, e);
    AppendRing(Unlink(l, e), to, b, e);
    AppendKeeps(Unlink(l, e), to, b, e, from, Drop(a, e));
  }

  // LRUCache::Ref.
  function RefStep(c: Cache, e: Id): Cache
    requires e in c.refs
    requires c.refs[e] == 1 && e in c.inCache ==>
               e in c.links.next && e in c.links.prev && IN_USE_HEAD in Unlink(c.links, e).prev
  {
    (if c.refs[e] == 1 && e in c.inCache then ToInUse(c, e) else c).(refs := c.refs[e := c.refs[e] + 1])
  }

  lemma CountedAreNoHeads(c: Cache, extra: Option<Id>)
    requires Counts(c, extra)
    ensures forall id :: id in c.infos || id in c.clients || id in c.refs ==> id >= 2
  {
    forall id | id in c.infos || id in c.clients || id in c.refs
      ensures id >= 2
    {
      assert CountOk(c, id, extra);
    }
  }

  lemma RefLists(c: Cache, e: Id)
    requires Ok(c, None) && e in c.refs
    ensures c.refs[e] == 1 && e in c.inCache ==> e in c.links.next && e in c.links.prev && IN_USE_HEAD in Unlink(c.links, e).prev
    ensures Lists(RefStep(c, e))
  {
    CountedAreNoHeads(c, None);
    ListsApart(c);
    assert CountOk(c, e, None);
    if c.refs[e] == 1 && e in c.inCache {
      assert ListOk(c, e);
      MoveRings(c.links, LRU_HEAD, c.lru, IN_USE_HEAD, c.inUse, e);
      DropHas(c.lru, e);
    }
    var r := RefStep(c, e);
    forall id | id in r.lru || id in r.inUse || id in r.inCache
      ensures ListOk(r, id)
    {
      assert ListOk(c, id);
    }
  }

  lemma RefKeeps(c: Cache, e: Id)
    requires Ok(c, None) && e in c.refs
    ensures c.refs[e] == 1 && e in c.inCache ==> e in c.links.next && e in c.links.prev && IN_USE_HEAD in Unlink(c.links, e).prev
    ensures Ok(RefStep(c, e), Some(e))
    ensures RefStep(c, e).lru == Drop(c.lru, e)
  {
    RefLists(c, e);
    assert e in c.lru ==> ListOk(c, e);
    var r := RefStep(c, e);
    assert CountOk(c, e, None);
    forall id | id in r.infos || id in r.clients || id in r.refs
      ensures CountOk(r, id, Some(e))
    {
      assert CountOk(c, id, None);
    }
    forall id | id in r.deleted || id in r.infos
      ensures DeletedOk(r, id)
    {
      assert DeletedOk(c, id);
    }
  }

  // LRUCache::Unref: the last reference runs the deleter.
  function UnrefStep(c: Cache, e: Id): Cache
    requires e in c.refs && c.refs[e] > 0
    requires c.refs[e] == 2 && e in c.inCache ==>
               e in c.links.next && e in c.links.prev && LRU_HEAD in Unlink(c.links, e).prev
  {
    var n := c.refs[e] - 1;
    if n == 0 then c.(refs := c.refs - {e}, deleted := c.deleted + [e])
    else (if e in c.inCache && n == 1 then ToLru(c, e) else c).(refs := c.refs[e := n])
  }

  lemma UnrefLists(c: Cache, e: Id)
    requires Ok(c, Some(e))
    ensures e in c.refs && c.refs[e] > 0 && (c.refs[e] == 1 ==> e !in c.inCache)
    ensures c.refs[e] == 2 && e in c.inCache ==> e in c.links.next && e in c.links.prev && LRU_HEAD in Unlink(c.links, e).prev
    ensures Lists(UnrefStep(c, e))
  {
    CountedAreNoHeads(c, Some(e));
    ListsApart(c);
    assert CountOk(c, e, Some(e));
    if c.refs[e] == 2 && e in c.inCache {
      assert ListOk(c, e);
      MoveRings(c.links, IN_USE_HEAD, c.inUse, LRU_HEAD, c.lru, e);
      DropHas(c.inUse, e);
    }
    var r := UnrefStep(c, e);
    forall id | id in r.lru || id in r.inUse || id in r.inCache
      ensures ListOk(r, id)
    {
      assert ListOk(c, id);
    }
  }

  lemma UnrefKeeps(c: Cache, e: Id)
    requires Ok(c, Some(e))
    ensures e in c.refs && c.refs[e] > 0 && (c.refs[e] == 1 ==> e !in c.inCache)
    ensures c.refs[e] == 2 && e in c.inCache ==> e in c.links.next && e in c.links.prev && LRU_HEAD in Unlink(c.links, e).prev
    ensures Ok(UnrefStep(c, e), None)
    ensures UnrefStep(c, e).lru == if c.refs[e] == 2 && e in c.inCache then c.lru + [e] else c.lru
  {
    UnrefLists(c, e);
    var r := UnrefStep(c, e);
    assert CountOk(c, e, Some(e)) && DeletedOk(c, e);
    forall id | id in r.infos || id in r.clients || id in r.refs
      ensures CountOk(r, id, None)
    {
      assert CountOk(c, id, Some(e));
    }
    forall id | id in r.deleted || id in r.infos
      ensures DeletedOk(r, id)
    {
      assert DeletedOk(c, id);
    }
  }

  // The first half of FinishErase: the handle leaves its list and the cache.
  function UncacheStep(c: Cache, e: Id): Cache
    requires e in c.infos && e in c.links.next && e in c.links.prev && c.infos[e].charge <= c.usage
  {
    c.(links := Unlink(c.links, e), lru := Drop(c.lru, e), inUse := Drop(c.inUse, e), inCache := c.inCache - {e},
       usage := c.usage - c.infos[e].charge)
  }

  lemma UncacheRings(l: Links, head: Id, a: seq<Id>, head2: Id, b: seq<Id>, e: Id)
    requires Ring(l, head, a) && Ring(l, head2, b) && Apart(head, a, head2, b) && e in a
    ensures e in l.next && e in l.prev
    ensures Ring(Unlink(l, e), head, Drop(a, e)) && Ring(Unlink(l, e), head2, Drop(b, e))
  {
    UnlinkRing(l, head, a, IndexOf(a, e));
    UnlinkKeeps(l, head, a, IndexOf(a, e), head2, b);
  }

  lemma UncacheLists(c: Cache, e: Id)
    requires Ok(c, None) && e in c.inCache
    ensures e in c.infos && e in c.links.next && e in c.links.prev && c.infos[e].charge <= c.usage
    ensures Lists(UncacheStep(c, e))
  {
    CountedAreNoHeads(c, None);
    ListsApart(c);
    SumWithout(c.infos, c.inCache, e);
    assert CountOk(c, e, None) && ListOk(c, e);
    if e in c.lru {
      UncacheRings(c.links, LRU_HEAD, c.lru, IN_USE_HEAD, c.inUse, e);
    } else {
      UncacheRings(c.links, IN_USE_HEAD, c.inUse, LRU_HEAD, c.lru, e);
    }
    DropHas(c.lru, e);
    DropHas(c.inUse, e);
    var r := UncacheStep(c, e);
    forall id | id in r.lru || id in r.inUse || id in r.inCache
      ensures ListOk(r, id)
    {
      assert ListOk(c, id);
    }
  }

  lemma UncacheKeeps(c: Cache, e: Id)
    requires Ok(c, None) && e in c.inCache
    ensures e in c.infos && e in c.links.next && e in c.links.prev && c.infos[e].charge <= c.usage
    ensures Ok(UncacheStep(c, e), Some(e))
  {
    UncacheLists(c, e);
    SumWithout(c.infos, c.inCache, e);
    var r := UncacheStep(c, e);
    forall id | id in r.infos || id in r.clients || id in r.refs
      ensures CountOk(r, id, Some(e))
    {
      assert CountOk(c, id, None);
    }
    forall id | id in r.deleted || id in r.infos
      ensures DeletedOk(r, id)
    {
      assert DeletedOk(c, id);
    }
  }

  // A new handle: one reference, for the caller.
  function NewStep(c: Cache, e: Id, info: Info): Cache {
    c.(infos := c.infos[e := info], refs := c.refs[e := 1], clients := c.clients[e := 1])
  }

  lemma NewKeeps(c: Cache, e: Id, info: Info)
    requires Ok(c, None) && e !in c.infos && e >= 2
    ensures Ok(NewStep(c, e, info), None)
  {
    var r := NewStep(c, e, info);
    SumOfMore(c.infos, r.infos, c.inCache);
    forall id | id in r.infos || id in r.clients || id in r.refs
      ensures CountOk(r, id, None)
    {
      assert id != e ==> CountOk(c, id, None);
    }
    forall id | id in r.lru || id in r.inUse || id in r.inCache
      ensures ListOk(r, id)
    {
      assert ListOk(c, id);
      assert id in c.refs ==> CountOk(c, id, None);
    }
    forall id | id in r.deleted || id in r.infos
      ensures DeletedOk(r, id)
    {
      assert id != e ==> DeletedOk(c, id);
      assert e in c.deleted ==> DeletedOk(c, e);
    }
  }

  // Into the cache, on the in-use list.
  function AdoptStep(c: Cache, e: Id): Cache
    requires e in c.infos && e in c.refs && IN_USE_HEAD in c.links.prev
  {
    c.(links := Append(c.links, IN_USE_HEAD, e), inUse := c.inUse + [e], inCache := c.inCache + {e},
       refs := c.refs[e := c.refs[e] + 1], usage := c.usage + c.infos[e].charge)
  }

  lemma AdoptKeeps(c: Cache, e: Id)
    requires Ok(c, None) && e in c.refs && e !in c.inCache
    ensures e in c.infos && IN_USE_HEAD in c.links.prev && Ok(AdoptStep(c, e), None)
  {
    CountedAreNoHeads(c, None);
    ListsApart(c);
    assert CountOk(c, e, None);
    assert e in c.lru || e in c.inUse ==> ListOk(c, e);
    AppendRing(c.links, IN_USE_HEAD, c.inUse, e);
    AppendKeeps(c.links, IN_USE_HEAD, c.inUse, e, LRU_HEAD, c.lru);
    AdoptedOk(c, e);
  }

  lemma AdoptedOk(c: Cache, e: Id)
    requires Ok(c, None) && e in c.refs && e !in c.inCache && e in c.infos && IN_USE_HEAD in c.links.prev
    requires Ring(AdoptStep(c, e).links, LRU_HEAD, c.lru) && Ring(AdoptStep(c, e).links, IN_USE_HEAD, c.inUse + [e])
    ensures Ok(AdoptStep(c, e), None)
  {
    var r := AdoptStep(c, e);
    SumWithout(c.infos, r.inCache, e);
    assert r.inCache - {e} == c.inCache;
    assert CountOk(c, e, None);
    forall id | id in r.infos || id in r.clients || id in r.refs
      ensures CountOk(r, id, None)
    {
      assert CountOk(c, id, None);
    }
    forall id | id in r.lru || id in r.inUse || id in r.inCache
      ensures ListOk(r, id)
    {
      assert id in c.lru || id in c.inUse || id in c.inCache ==> ListOk(c, id);
      assert e in c.lru || e in c.inUse ==> ListOk(c, e);
    }
    forall id | id in r.deleted || id in r.infos
      ensures DeletedOk(r, id)
    {
      assert DeletedOk(c, id);
    }
  }

  // A caller takes a handle over, or gives one back.
  function ClientStep(c: Cache, e: Id, n: nat): Cache {
    c.(clients := c.clients[e := n])
  }

  lemma ClientTakes(c: Cache, e: Id)
    requires Ok(c, Some(e))
    ensures e in c.clients && Ok(ClientStep(c, e, c.clients[e] + 1), None)
  {
    assert CountOk(c, e, Some(e));
    var r := ClientStep(c, e, c.clients[e] + 1);
    forall id | id in r.infos || id in r.clients || id in r.refs
      ensures CountOk(r, id, None)
    {
      assert CountOk(c, id, Some(e));
    }
    ListsOfClients(c, r);
  }

  lemma ClientGives(c: Cache, e: Id)
    requires Ok(c, None) && e in c.clients && c.clients[e] > 0
    ensures Ok(ClientStep(c, e, c.clients[e] - 1), Some(e))
  {
    assert CountOk(c, e, None);
    var r := ClientStep(c, e, c.clients[e] - 1);
    forall id | id in r.infos || id in r.clients || id in r.refs
      ensures CountOk(r, id, Some(e))
    {
      assert CountOk(c, id, None);
    }
    ListsOfClients(c, r);
  }

  lemma ListsOfClients(c: Cache, r: Cache)
    requires Lists(c) && r == c.(clients := r.clients)
    requires forall id :: id in c.deleted || id in c.infos ==> DeletedOk(c, id)
    ensures Lists(r) && forall id :: id in r.deleted || id in r.infos ==> DeletedOk(r, id)
  {
    forall id | id in r.lru || id in r.inUse || id in r.inCache
      ensures ListOk(r, id)
    {
      assert ListOk(c, id);
    }
    forall id | id in r.deleted || id in r.infos
      ensures DeletedOk(r, id)
    {
      assert DeletedOk(c, id);
    }
  }
}
