/** One shard of the cache (util/cache.cc, LRUCache). */
module LruCaches {
  import opened Wrappers
  import opened Keys
  import opened Coding
  import opened HandleTables
  import opened LruLists
  import opened CacheStates

  // Ok, stated so that the proofs below unfold it only where they say so.
  ghost predicate Sound(c: Cache, extra: Option<Id>) {
    forall x {:trigger Ok(c, x)} :: x == extra ==> Ok(c, x)
  }

  class LRUCache {
    var capacity: nat
    var usage: nat
    var links: Links
    // The handles: what never changes, the reference counts, the in_cache flags.
    var infos: Infos
    var refs: map<Id, nat>
    var inCache: set<Id>
    const table: HandleTable
    var nextId: Id
    ghost var lru: seq<Id>
    ghost var inUse: seq<Id>
    ghost var clients: map<Id, nat>
    // The deleter calls so far.
    ghost var deleted: seq<Id>
    // The calls of Release so far.
    ghost var releases: seq<Id>

    ghost function Now(): Cache
      reads this
    {
      Cache(infos, refs, inCache, links, lru, inUse, usage, clients, deleted)
    }

    // The table lacks `out`, which is still marked as cached.
    ghost predicate Tabled(out: Option<Id>)
      reads this`infos, this`inCache, this`nextId, table
    {
      && table.Valid(infos) && table.members == (if out.Some? then inCache - {out.value} else inCache)
      && nextId >= 2 && forall id :: id in infos ==> id < nextId
    }

    ghost predicate Valid()
      reads this, table
    {
      Sound(Now(), None) && Tabled(None) && InReleaseOrder(lru, releases)
    }

    constructor (capacity: nat)
      ensures Valid() && fresh(table) && this.capacity == capacity
      ensures inCache == {} && clients == map[] && deleted == [] && releases == []
    {
      this.capacity, usage := capacity, 0;
      // Two empty circular lists.
      links := Links(map[LRU_HEAD := LRU_HEAD, IN_USE_HEAD := IN_USE_HEAD],
                     map[LRU_HEAD := LRU_HEAD, IN_USE_HEAD := IN_USE_HEAD]);
      infos, refs, inCache, nextId := map[], map[], {}, 2;
      table := new HandleTable();
      lru, inUse, clients, deleted, releases := [], [], map[], [], [];
      new;
      assert Ok(Now(), None);
    }

    method Ref(e: Id)
      requires Sound(Now(), None) && e in refs
      modifies this`links, this`refs, this`lru, this`inUse
      ensures Sound(Now(), Some(e)) && refs == old(refs)[e := old(refs)[e] + 1] && lru == Drop(old(lru), e)
    {
      ghost var c := Now();
      assert Ok(c, None);
      RefKeeps(c, e);
      if refs[e] == 1 && e in inCache {
        // If on the LRU list, move to the in-use list.
        links := Unlink(links, e);
        links := Append(links, IN_USE_HEAD, e);
        lru, inUse := Drop(lru, e), inUse + [e];
      }
      refs := refs[e := refs[e] + 1];
      assert Now() == RefStep(c, e);
    }

    method Unref(e: Id)
      requires Sound(Now(), Some(e))
      modifies this`links, this`refs, this`lru, this`inUse, this`deleted
      ensures Sound(Now(), None) && e in old(refs)
      ensures deleted == if old(refs)[e] == 1 then old(deleted) + [e] else old(deleted)
      ensures lru == if e in inCache && old(refs)[e] == 2 then old(lru) + [e] else old(lru)
      ensures old(refs)[e] == 1 || e !in inCache ==> inUse == old(inUse)
    {
      ghost var c := Now();
      assert Ok(c, Some(e));
      UnrefKeeps(c, e);
      var n := refs[e] - 1;
      if n == 0 {
        // Deallocate.
        deleted := deleted + [e];
        refs := refs - {e};
      } else {
        if e in inCache && n == 1 {
          // No longer in use; move to the LRU list.
          links := Unlink(links, e);
          links := Append(links, LRU_HEAD, e);
          lru, inUse := lru + [e], Drop(inUse, e);
        }
        refs := refs[e := n];
      }
      assert Now() == UnrefStep(c, e);
    }

    // Finish taking e out of the cache; the table does not have it any more.
    method FinishErase(e: Option<Id>) returns (erased: bool)
      requires Sound(Now(), None) && (e.Some? ==> e.value in inCache && e.value in clients)
      modifies this`links, this`refs, this`lru, this`inUse, this`deleted, this`inCache, this`usage
      ensures Sound(Now(), None) && erased == e.Some?
      ensures if e.Some? then Erased(old(Now()), Now(), e.value) else Now() == old(Now())
    {
      erased := e.Some?;
      if e.Some? {
        ghost var c := Now();
        assert Ok(c, None);
        UncacheKeeps(c, e.value);
        assert CountOk(c, e.value, None);
        links := Unlink(links, e.value);
        inCache := inCache - {e.value};
        usage := usage - infos[e.value].charge;
        lru, inUse := Drop(lru, e.value), Drop(inUse, e.value);
        assert Now() == UncacheStep(c, e.value);
        Unref(e.value);
      }
    }

    // A handle the caller holds is alive.
    lemma HeldIsAlive(e: Id)
      requires Valid() && e in clients && clients[e] > 0
      ensures e in refs && e in infos && e !in deleted
    {
      assert Ok(Now(), None) && CountOk(Now(), e, None) && DeletedOk(Now(), e);
    }

    // A reference for a caller.
    method Acquire(e: Id)
      requires Valid() && e in inCache
      modifies this`links, this`refs, this`lru, this`inUse, this`clients
      ensures Valid() && e in old(clients) && clients == old(clients)[e := old(clients)[e] + 1]
      ensures lru == Drop(old(lru), e)
    {
      assert Ok(Now(), None) && CountOk(Now(), e, None);
      Ref(e);
      DropKeepsOrder(old(lru), releases, e);
      ghost var c := Now();
      assert Ok(c, Some(e));
      ClientTakes(c, e);
      clients := clients[e := clients[e] + 1];
      assert Now() == ClientStep(c, e, c.clients[e] + 1);
    }

    method Lookup(key: Bytes, hash: uint32) returns (e: Option<Id>)
      requires Valid()
      modifies this`links, this`refs, this`lru, this`inUse, this`clients
      ensures Valid()
      ensures e.None? ==> Now() == old(Now())
      ensures e.None? ==> forall id :: id in inCache && id in infos ==> !HasTag(infos[id], key, hash)
      ensures e.Some? ==> e.value in inCache && e.value in infos && HasTag(infos[e.value], key, hash)
      ensures e.Some? ==> e.value in old(clients) && clients == old(clients)[e.value := old(clients)[e.value] + 1]
      ensures e.Some? ==> lru == Drop(old(lru), e.value)
    {
      e := table.Lookup(key, hash, infos);
      if e.Some? {
        Acquire(e.value);
      }
    }

    // The last caller to give a cached handle back makes it the newest of those that may be
    // evicted.
    method Release(e: Id)
      requires Valid() && e in clients && clients[e] > 0
      modifies this`links, this`refs, this`lru, this`inUse, this`clients, this`deleted, this`releases
      ensures Valid() && clients == old(clients)[e := old(clients)[e] - 1] && releases == old(releases) + [e]
      ensures lru == if clients[e] == 0 && e in inCache then old(lru) + [e] else old(lru)
      ensures deleted == if clients[e] == 0 && e !in inCache then old(deleted) + [e] else old(deleted)
    {
      ghost var c := Now();
      assert Ok(c, None) && CountOk(c, e, None);
      ClientGives(c, e);
      clients := clients[e := clients[e] - 1];
      releases := releases + [e];
      assert Now() == ClientStep(c, e, c.clients[e] - 1);
      assert e in c.lru ==> ListOk(c, e);
      ReleasedLast(c.lru, old(releases), e);
      Unref(e);
    }

    // Take the handle with this key, if any, out of the table and then out of the cache.
    method Discard(key: Bytes, hash: uint32) returns (ghost out: Option<Id>, erased: bool)
      requires Valid()
      modifies this`links, this`refs, this`lru, this`inUse, this`deleted, this`inCache, this`usage, table
      ensures Valid() && erased == out.Some?
      ensures out.None? ==> Now() == old(Now())
      ensures out.None? ==> forall id :: id in inCache && id in infos ==> !HasTag(infos[id], key, hash)
      ensures out.Some? ==> out.value in old(inCache) && out.value in infos && HasTag(infos[out.value], key, hash)
      ensures out.Some? ==> Erased(old(Now()), Now(), out.value)
    {
      var e := table.Remove(key, hash, infos);
      out := e;
      if e.Some? {
        CachedIsKnown(Now(), e.value);
      }
      erased := FinishErase(e);
      if e.Some? {
        DropKeepsOrder(old(lru), releases, e.value);
      }
    }

    // A new handle, held by the caller alone.
    method MakeHandle(key: Bytes, hash: uint32, value: Value, charge: nat) returns (e: Id)
      requires Valid()
      modifies this`infos, this`refs, this`clients, this`nextId
      ensures Valid() && e !in old(infos) && infos == old(infos)[e := Info(key, hash, value, charge)]
      ensures clients == old(clients)[e := 1] && e in refs && e !in inCache
    {
      e := nextId;
      ghost var c := Now();
      assert Ok(c, None) && Tabled(None);
      var info := Info(key, hash, value, charge);
      NewKeeps(c, e, info);
      MoreInfos(table.list, infos, table.members, infos[e := info]);
      infos := infos[e := info];
      refs := refs[e := 1];
      clients := clients[e := 1];
      nextId := nextId + 1;
      assert Now() == NewStep(c, e, info);
      assert e in c.inCache ==> CountOk(c, e, None);
    }

    // The cache takes a reference; the table is next.
    method Adopt(e: Id)
      requires Sound(Now(), None) && e in refs && e !in inCache
      modifies this`links, this`refs, this`inUse, this`inCache, this`usage
      ensures Sound(Now(), None) && inCache == old(inCache) + {e}
    {
      ghost var c := Now();
      assert Ok(c, None);
      AdoptKeeps(c, e);
      refs := refs[e := refs[e] + 1];
      inCache := inCache + {e};
      links := Append(links, IN_USE_HEAD, e);
      inUse := inUse + [e];
      usage := usage + infos[e].charge;
      assert Now() == AdoptStep(c, e);
    }

    method TakeIn(e: Id) returns (previous: Option<Id>)
      requires Valid() && e in refs && e in infos && e !in inCache
      modifies this`links, this`refs, this`inUse, this`inCache, this`usage, table
      ensures Sound(Now(), None) && Tabled(previous) && inCache == old(inCache) + {e}
      ensures previous.Some? ==> previous.value in old(inCache) && previous.value in infos && previous.value in clients
      ensures previous.Some? ==> SameTag(infos[previous.value], infos[e])
    {
      Adopt(e);
      previous := table.Insert(e, infos);
      if previous.Some? {
        CachedIsKnown(Now(), previous.value);
      }
    }

    // The handle goes into the cache and replaces the one with the same key.
    method Enter(e: Id) returns (ghost replaced: Option<Id>)
      requires Valid() && e in refs && e in infos && e !in inCache
      modifies this`links, this`refs, this`lru, this`inUse, this`deleted, this`inCache, this`usage, table
      ensures Valid() && Entered(old(inCache), old(lru), old(deleted), Now(), e, replaced)
    {
      var previous := TakeIn(e);
      replaced := previous;
      ghost var taken := Now();
      var _ := FinishErase(previous);
      EnteredAfter(old(inCache), taken, Now(), e, previous);
      if previous.Some? {
        DropKeepsOrder(old(lru), releases, previous.value);
      }
    }

    // What Insert does to the cache; `full` is the state before the evictions.
    method Settle(e: Id) returns (ghost replaced: Option<Id>, ghost full: Cache, ghost m: nat)
      requires Valid() && e in refs && e in infos && e !in inCache
      modifies this`links, this`refs, this`lru, this`inUse, this`deleted, this`inCache, this`usage, table
      ensures Valid() && Settled(old(inCache), old(lru), old(deleted), full, Now(), e, replaced, m, capacity)
      ensures OldestReleasesGo(full.lru, m, lru, releases)
    {
      replaced := None;
      if capacity > 0 {
        replaced := Enter(e);
      }
      full := Now();
      m := EvictToCapacity();
      VictimsAreOldest(full, Now(), m, releases);
    }

    method Insert(key: Bytes, hash: uint32, value: Value, charge: nat)
      returns (e: Id, ghost replaced: Option<Id>, ghost full: Cache, ghost m: nat)
      requires Valid()
      modifies this, table
      ensures Valid() && capacity == old(capacity)
      ensures e !in old(infos) && infos == old(infos)[e := Info(key, hash, value, charge)]
      ensures clients == old(clients)[e := 1] && releases == old(releases)
      ensures Settled(old(inCache), old(lru), old(deleted), full, Now(), e, replaced, m, capacity)
      ensures OldestReleasesGo(full.lru, m, lru, releases)
    {
      e := MakeHandle(key, hash, value, charge);
      replaced, full, m := Settle(e);
    }

    method Erase(key: Bytes, hash: uint32) returns (ghost out: Option<Id>)
      requires Valid()
      modifies this`links, this`refs, this`lru, this`inUse, this`deleted, this`inCache, this`usage, table
      ensures Valid()
      ensures out.None? ==> Now() == old(Now())
      ensures out.Some? ==> Erased(old(Now()), Now(), out.value)
      ensures forall id :: id in inCache && id in infos ==> !HasTag(infos[id], key, hash)
    {
      ghost var members := inCache;
      assert UniqueTags(infos, members);
      var erased;
      out, erased := Discard(key, hash);
      if out.Some? {
        forall id | id in inCache && id in infos
          ensures !HasTag(infos[id], key, hash)
        {
          assert Distinct(infos, members, id, out.value);
        }
      }
    }

    // The oldest entry that no caller holds goes.
    method EvictOldest()
      requires Valid() && lru != []
      modifies this`links, this`refs, this`lru, this`inUse, this`deleted, this`inCache, this`usage, table
      ensures Valid() && Evicted(old(Now()), Now())
    {
      ghost var c := Now();
      assert Ok(c, None) && UniqueTags(c.infos, c.inCache);
      assert LinkedAt(links, LRU_HEAD, lru, 0);
      var oldest := links.next[LRU_HEAD];
      assert oldest == lru[0] && ListOk(c, oldest) && CountOk(c, oldest, None);
      ghost var out;
      var erased;
      out, erased := Discard(infos[oldest].key, infos[oldest].hash);
      assert out == Some(oldest) by {
        assert SameTag(c.infos[oldest], c.infos[oldest]);
        if out.Some? {
          assert Distinct(c.infos, c.inCache, out.value, oldest);
        }
      }
      OldestDropped(c, oldest);
    }

    // The end of Insert: evict until the usage fits or nothing is left to evict.
    method EvictToCapacity() returns (ghost m: nat)
      requires Valid()
      modifies this`links, this`refs, this`lru, this`inUse, this`deleted, this`inCache, this`usage, table
      ensures Valid() && EvictedFirst(old(Now()), Now(), m) && NoneTooMany(old(Now()), m, capacity)
      ensures usage <= capacity || lru == []
    {
      ghost var c := Now();
      m := 0;
      NothingEvicted(c);
      EmptyRing(Now());
      while usage > capacity && links.next[LRU_HEAD] != LRU_HEAD
        invariant Evicting(c, m, Some(capacity)) && LRU_HEAD in links.next
        decreases |lru|
      {
        EvictNext(c, m, Some(capacity));
        m := m + 1;
      }
    }

    // In the middle of a run of evictions that began in state c.
    ghost predicate Evicting(c: Cache, m: nat, limit: Option<nat>)
      reads this, table
    {
      && Valid() && EvictedFirst(c, Now(), m) && (limit.Some? ==> NoneTooMany(c, m, limit.value))
      && LRU_HEAD in links.next && (links.next[LRU_HEAD] == LRU_HEAD <==> lru == [])
    }

    method EvictNext(ghost c: Cache, ghost m: nat, ghost limit: Option<nat>)
      requires Evicting(c, m, limit) && Sound(c, None) && lru != [] && (limit.Some? ==> usage > limit.value)
      modifies this`links, this`refs, this`lru, this`inUse, this`deleted, this`inCache, this`usage, table
      ensures Evicting(c, m + 1, limit) && |lru| < |old(lru)|
    {
      ghost var before := Now();
      if limit.Some? {
        StillTooFull(c, before, m, limit.value);
      }
      EvictOldest();
      EvictedMore(c, before, Now(), m);
      EmptyRing(Now());
    }

    method Prune() returns (ghost m: nat)
      requires Valid()
      modifies this`links, this`refs, this`lru, this`inUse, this`deleted, this`inCache, this`usage, table
      ensures Valid() && lru == [] && EvictedFirst(old(Now()), Now(), m)
      ensures m == |old(lru)| && deleted == old(deleted) + old(lru)
    {
      ghost var c := Now();
      m := 0;
      NothingEvicted(c);
      EmptyRing(Now());
      while links.next[LRU_HEAD] != LRU_HEAD
        invariant Evicting(c, m, None) && LRU_HEAD in links.next
        decreases |lru|
      {
        EvictNext(c, m, None);
        m := m + 1;
      }
      assert c.lru[..m] == c.lru;
    }
  }

  // One handle has left the cache; its deleter ran if no caller holds it.
  ghost predicate Erased(c: Cache, c': Cache, e: Id) {
    && e in c.inCache && e in c.clients && c'.inCache == c.inCache - {e}
    && c'.lru == Drop(c.lru, e) && c'.inUse == Drop(c.inUse, e)
    && c'.infos == c.infos && c'.clients == c.clients
    && c'.deleted == if c.clients[e] == 0 then c.deleted + [e] else c.deleted
  }

  lemma EnteredAfter(inCache: set<Id>, taken: Cache, c: Cache, e: Id, previous: Option<Id>)
    requires e in taken.infos && e !in inCache && taken.inCache == inCache + {e}
    requires previous.Some? ==> previous.value in inCache && previous.value in taken.infos
    requires previous.Some? ==> SameTag(taken.infos[previous.value], taken.infos[e])
    requires if previous.Some? then Erased(taken, c, previous.value) else c == taken
    ensures Entered(inCache, taken.lru, taken.deleted, c, e, previous)
  {
    if previous.Some? {
      assert inCache + {e} - {previous.value} == inCache - {previous.value} + {e};
    }
  }

  // Handle e is in the cache, in place of the handle with the same key, if there was one:
  // Valid has keys in the cache unique.
  ghost predicate Entered(inCache: set<Id>, lru: seq<Id>, deleted: seq<Id>, c: Cache, e: Id, replaced: Option<Id>) {
    && e in c.infos
    && match replaced
       case None =>
         c.inCache == inCache + {e} && c.lru == lru && c.deleted == deleted
       case Some(r) =>
         && r in inCache && r in c.infos && SameTag(c.infos[r], c.infos[e]) && r in c.clients
         && c.inCache == inCache - {r} + {e} && c.lru == Drop(lru, r)
         && c.deleted == if c.clients[r] == 0 then deleted + [r] else deleted
  }

  // Handle e was entered, unless nothing is cached at all, and then no more of the oldest
  // entries were evicted than it took for the rest to fit.
  ghost predicate Settled(inCache: set<Id>, lru: seq<Id>, deleted: seq<Id>, full: Cache, c: Cache, e: Id, replaced: Option<Id>,
      m: nat, capacity: nat) {
    && (if capacity > 0 then Entered(inCache, lru, deleted, full, e, replaced)
        else full.inCache == inCache && full.lru == lru && full.deleted == deleted)
    && EvictedFirst(full, c, m) && NoneTooMany(full, m, capacity) && (c.usage <= capacity || c.lru == [])
  }

  // The oldest entry has left the cache and its deleter has run.
  ghost predicate Evicted(c: Cache, c': Cache) {
    && c.lru != [] && c'.lru == Without(c.lru, 0) && c'.inUse == c.inUse
    && c'.inCache == c.inCache - {c.lru[0]} && c'.deleted == c.deleted + [c.lru[0]]
    && c'.infos == c.infos && c'.clients == c.clients
  }

  ghost function First(list: seq<Id>, m: nat): set<Id>
    requires m <= |list|
  {
    set i | 0 <= i < m :: list[i]
  }

  // The m oldest entries have left the cache, in order.
  ghost predicate EvictedFirst(c: Cache, c': Cache, m: nat) {
    && m <= |c.lru| && |c'.lru| == |c.lru| - m && (forall i :: 0 <= i < |c'.lru| ==> c'.lru[i] == c.lru[i + m])
    && c'.inUse == c.inUse && c'.inCache == c.inCache - First(c.lru, m) && c'.deleted == c.deleted + c.lru[..m]
    && c'.infos == c.infos && c'.clients == c.clients
  }

  // After the first j evictions the cache was still too full.
  ghost predicate Exceeds(c: Cache, j: nat, limit: nat) {
    j <= |c.lru| && c.inCache <= c.infos.Keys && Sum(c.infos, c.inCache - First(c.lru, j)) > limit
  }

  // The last of m evictions was needed, and so all the more the others.
  ghost predicate NoneTooMany(c: Cache, m: nat, limit: nat) {
    m > 0 ==> Exceeds(c, m - 1, limit)
  }

  lemma StillTooFull(c: Cache, c1: Cache, m: nat, limit: nat)
    requires EvictedFirst(c, c1, m) && Sound(c, None) && Sound(c1, None) && c1.usage > limit
    ensures NoneTooMany(c, m + 1, limit)
  {
    assert Ok(c, None) && Ok(c1, None);
  }

  // The first m handles were last released before any of those that stay.
  ghost predicate OldestReleasesGo(list: seq<Id>, m: nat, left: seq<Id>, releases: seq<Id>) {
    m <= |list| && forall i, id :: 0 <= i < m && id in left ==> ReleasedBefore(releases, list[i], id)
  }

  // Eviction takes the least recently used.
  lemma VictimsAreOldest(full: Cache, c: Cache, m: nat, releases: seq<Id>)
    requires EvictedFirst(full, c, m) && InReleaseOrder(full.lru, releases)
    ensures OldestReleasesGo(full.lru, m, c.lru, releases)
  {
    forall i, id | 0 <= i < m && id in c.lru
      ensures ReleasedBefore(releases, full.lru[i], id)
    {
      var j :| 0 <= j < |c.lru| && c.lru[j] == id;
      assert c.lru[j] == full.lru[j + m];
    }
  }

  lemma NothingEvicted(c: Cache)
    ensures EvictedFirst(c, c, 0)
  {
    assert First(c.lru, 0) == {};
    assert c.deleted + c.lru[..0] == c.deleted;
  }

  lemma EvictedMore(c: Cache, c1: Cache, c2: Cache, m: nat)
    requires EvictedFirst(c, c1, m) && Evicted(c1, c2)
    ensures EvictedFirst(c, c2, m + 1)
  {
    assert c1.lru[0] == c.lru[m];
    assert c.lru[..m + 1] == c.lru[..m] + [c.lru[m]];
    assert First(c.lru, m + 1) == First(c.lru, m) + {c.lru[m]};
  }

  lemma OldestDropped(c: Cache, e: Id)
    requires Ok(c, None) && c.lru != [] && e == c.lru[0]
    ensures Drop(c.lru, e) == Without(c.lru, 0) && Drop(c.inUse, e) == c.inUse
    ensures e in c.clients && c.clients[e] == 0
  {
    assert ListOk(c, e) && CountOk(c, e, None);
  }

  lemma CachedIsKnown(c: Cache, e: Id)
    requires Sound(c, None) && e in c.inCache
    ensures e in c.infos && e in c.clients
  {
    assert Ok(c, None) && CountOk(c, e, None);
  }

  lemma EmptyRing(c: Cache)
    requires Sound(c, None)
    ensures LRU_HEAD in c.links.next && (c.links.next[LRU_HEAD] == LRU_HEAD <==> c.lru == [])
  {
    assert Ok(c, None) && LinkedAt(c.links, LRU_HEAD, c.lru, 0);
  }
}
