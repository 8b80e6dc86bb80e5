/** The hash table of the cache (util/cache.cc, HandleTable): chained buckets that are spread
  over more buckets as the table fills. Handles are numbers; what a handle stands for is in a
  map from handles to their immutable parts. */
module HandleTables {
  import opened Wrappers
  import opened Keys
  import opened Coding

  type Id = nat

  datatype Info = Info(key: Bytes, hash: uint32, value: Value, charge: nat)

  type Infos = map<Id, Info>

  predicate HasTag(i: Info, key: Bytes, hash: uint32) {
    i.hash == hash && i.key == key
  }

  predicate SameTag(a: Info, b: Info) {
    HasTag(a, b.key, b.hash)
  }

  predicate IsPower2(n: nat) {
    n == 1 || (n > 0 && n % 2 == 0 && IsPower2(n / 2))
  }

  ghost predicate NoDuplicates<T(!new)>(s: seq<T>) {
    forall i, j :: 0 <= i < j < |s| ==> s[i] != s[j]
  }

  // The bucket of a hash: `hash & (length - 1)`, the length being a power of two.
  function Bucket(hash: uint32, length: nat): (r: nat)
    requires length > 0
    ensures r < length
  {
    hash % length
  }

  ghost predicate InPlace(list: seq<seq<Id>>, infos: Infos, members: set<Id>, id: Id) {
    && id in infos && |list| > 0
    && (id in members <==> id in list[Bucket(infos[id].hash, |list|)])
  }

  ghost predicate ChainOk(list: seq<seq<Id>>, infos: Infos, members: set<Id>, b: nat)
    requires b < |list|
  {
    && NoDuplicates(list[b])
    && forall id :: id in list[b] ==> id in members && id in infos && Bucket(infos[id].hash, |list|) == b
  }

  ghost predicate UniqueTags(infos: Infos, members: set<Id>) {
    forall a, b :: Distinct(infos, members, a, b)
  }

  ghost predicate Distinct(infos: Infos, members: set<Id>, a: Id, b: Id) {
    a in members && b in members && a in infos && b in infos && SameTag(infos[a], infos[b]) ==> a == b
  }

  // The chains hold exactly these handles, each once and in the bucket of its hash.
  ghost predicate Holds(list: seq<seq<Id>>, infos: Infos, members: set<Id>) {
    && |list| > 0
    && (forall id :: id in members ==> InPlace(list, infos, members, id))
    && (forall b :: 0 <= b < |list| ==> ChainOk(list, infos, members, b))
  }

  lemma HoldsOne(list: seq<seq<Id>>, infos: Infos, members: set<Id>, id: Id, b: nat)
    requires Holds(list, infos, members) && id in infos && b == Bucket(infos[id].hash, |list|)
    ensures id in members <==> id in list[b]
  {
    assert ChainOk(list, infos, members, b);
    if id in members {
      assert InPlace(list, infos, members, id);
    }
  }

  // A chain with one more handle, or one less, or another in place of one.
  lemma ChainChanges(list: seq<seq<Id>>, infos: Infos, members: set<Id>, b: nat, chain: seq<Id>, members': set<Id>)
    requires Holds(list, infos, members) && b < |list| && NoDuplicates(chain)
    requires forall id :: id in chain ==> id in infos && Bucket(infos[id].hash, |list|) == b
    requires forall id :: id in members' <==> id in chain || (id in members && id !in list[b])
    ensures Holds(list[b := chain], infos, members')
  {
    var more := list[b := chain];
    assert ChainOk(list, infos, members, b);
    forall id | id in members'
      ensures InPlace(more, infos, members', id)
    {
      if id !in chain {
        assert InPlace(list, infos, members, id);
      }
    }
    forall c | 0 <= c < |more|
      ensures ChainOk(more, infos, members', c)
    {
      assert ChainOk(list, infos, members, c);
    }
  }

  // Handles made later do not matter.
  lemma MoreInfos(list: seq<seq<Id>>, infos: Infos, members: set<Id>, infos': Infos)
    requires Holds(list, infos, members) && UniqueTags(infos, members)
    requires forall id :: id in infos ==> id in infos' && infos'[id] == infos[id]
    ensures Holds(list, infos', members) && UniqueTags(infos', members)
  {
    forall a, b
      ensures Distinct(infos', members, a, b)
    {
      assert Distinct(infos, members, a, b);
      assert a in members ==> InPlace(list, infos, members, a);
      assert b in members ==> InPlace(list, infos, members, b);
    }
    forall id | id in members
      ensures InPlace(list, infos', members, id) && id in infos
    {
      assert InPlace(list, infos, members, id);
    }
    forall b | 0 <= b < |list|
      ensures ChainOk(list, infos', members, b)
    {
      assert ChainOk(list, infos, members, b);
    }
  }

  function Replace(chain: seq<Id>, p: nat, h: Id): seq<Id>
    requires p <= |chain|
  {
    if p < |chain| then chain[p := h] else chain + [h]
  }

  function Without(chain: seq<Id>, p: nat): (r: seq<Id>)
    requires p < |chain|
    ensures |r| == |chain| - 1
    ensures forall i :: 0 <= i < |r| ==> r[i] == if i < p then chain[i] else chain[i + 1]
  {
    chain[..p] + chain[p + 1..]
  }

  lemma WithoutHas(chain: seq<Id>, p: nat)
    requires p < |chain| && NoDuplicates(chain)
    ensures NoDuplicates(Without(chain, p))
    ensures forall id :: id in Without(chain, p) <==> id in chain && id != chain[p]
  {
    var r := Without(chain, p);
    forall id
      ensures id in r <==> id in chain && id != chain[p]
    {
      if id in chain && id != chain[p] {
        var i :| 0 <= i < |chain| && chain[i] == id;
        assert r[if i < p then i else i - 1] == id;
      }
    }
  }

  lemma ReplaceHas(chain: seq<Id>, p: nat, h: Id)
    requires p <= |chain| && NoDuplicates(chain) && h !in chain
    ensures NoDuplicates(Replace(chain, p, h))
    ensures forall id :: id in Replace(chain, p, h) <==> id == h || (id in chain && !(p < |chain| && id == chain[p]))
  {
    var r := Replace(chain, p, h);
    assert r[p] == h;
    forall id
      ensures id in r <==> id == h || (id in chain && !(p < |chain| && id == chain[p]))
    {
      if id in chain && !(p < |chain| && id == chain[p]) {
        var i :| 0 <= i < |chain| && chain[i] == id;
        assert r[i] == id;
      }
    }
  }

  class HandleTable {
    var list: seq<seq<Id>>
    var elems: nat
    ghost var members: set<Id>

    ghost predicate Valid(infos: Infos)
      reads this
    {
      Holds(list, infos, members) && UniqueTags(infos, members) && |members| == elems && IsPower2(|list|)
    }

    constructor ()
      ensures Valid(map[]) && members == {}
    {
      list, elems, members := [[], [], [], []], 0, {};
      new;
      assert IsPower2(4) by {
        assert IsPower2(2);
      }
      forall b | 0 <= b < |list|
        ensures ChainOk(list, map[], members, b)
      {
        assert list[b] == [];
      }
    }

    // Where the handle with this key is, or the end of its chain.
    method FindPointer(key: Bytes, hash: uint32, infos: Infos) returns (b: nat, p: nat)
      requires Valid(infos)
      ensures b == Bucket(hash, |list|) && p <= |list[b]|
      ensures p < |list[b]| ==> list[b][p] in infos && HasTag(infos[list[b][p]], key, hash)
      ensures p == |list[b]| ==> forall id :: id in members && id in infos ==> !HasTag(infos[id], key, hash)
    {
      b, p := Bucket(hash, |list|), 0;
      assert ChainOk(list, infos, members, b);
      assert forall i :: 0 <= i < |list[b]| ==> list[b][i] in infos;
      while p < |list[b]| && !HasTag(infos[list[b][p]], key, hash)
        invariant p <= |list[b]| && forall i :: 0 <= i < p ==> !HasTag(infos[list[b][i]], key, hash)
      {
        p := p + 1;
      }
      if p == |list[b]| {
        forall id | id in members && id in infos
          ensures !HasTag(infos[id], key, hash)
        {
          HoldsOne(list, infos, members, id, Bucket(infos[id].hash, |list|));
        }
      }
    }

    method Lookup(key: Bytes, hash: uint32, infos: Infos) returns (r: Option<Id>)
      requires Valid(infos)
      ensures r.Some? ==> r.value in members && r.value in infos && HasTag(infos[r.value], key, hash)
      ensures r.None? ==> forall id :: id in members && id in infos ==> !HasTag(infos[id], key, hash)
    {
      var b, p := FindPointer(key, hash, infos);
      if p < |list[b]| {
        HoldsOne(list, infos, members, list[b][p], b);
        r := Some(list[b][p]);
      } else {
        r := None;
      }
    }

    // Take h in; the handle it replaces is returned.
    method Insert(h: Id, infos: Infos) returns (old_: Option<Id>)
      requires Valid(infos) && h in infos && h !in members
      modifies this
      ensures Valid(infos)
      ensures old_.None? ==> members == old(members) + {h}
      ensures old_.Some? ==> old_.value in old(members) && members == old(members) - {old_.value} + {h}
      ensures old_.Some? ==> old_.value in infos && SameTag(infos[old_.value], infos[h])
    {
      var b, p := FindPointer(infos[h].key, infos[h].hash, infos);
      old_ := if p < |list[b]| then Some(list[b][p]) else None;
      InsertHolds(h, infos, b, p);
      list := list[b := Replace(list[b], p, h)];
      members := (if old_.Some? then members - {old_.value} else members) + {h};
      if old_.None? {
        elems := elems + 1;
        if elems > |list| {
          Resize(infos);
        }
      }
    }

    lemma InsertHolds(h: Id, infos: Infos, b: nat, p: nat)
      requires Valid(infos) && h in infos && h !in members
      requires b == Bucket(infos[h].hash, |list|) && p <= |list[b]|
      requires p < |list[b]| ==> list[b][p] in infos && SameTag(infos[list[b][p]], infos[h])
      requires p == |list[b]| ==> forall id :: id in members && id in infos ==> !SameTag(infos[id], infos[h])
      ensures var more := (if p < |list[b]| then members - {list[b][p]} else members) + {h};
              && Holds(list[b := Replace(list[b], p, h)], infos, more) && UniqueTags(infos, more)
              && (p < |list[b]| ==> list[b][p] in members)
    {
      var chain := list[b];
      var more := (if p < |chain| then members - {chain[p]} else members) + {h};
      assert ChainOk(list, infos, members, b);
      ReplaceHas(chain, p, h);
      ChainChanges(list, infos, members, b, Replace(chain, p, h), more);
      forall x, y
        ensures Distinct(infos, more, x, y)
      {
        assert Distinct(infos, members, x, y);
        if p < |chain| {
          assert Distinct(infos, members, x, chain[p]) && Distinct(infos, members, y, chain[p]);
        }
      }
    }

    // Take the handle with this key out.
    method Remove(key: Bytes, hash: uint32, infos: Infos) returns (result: Option<Id>)
      requires Valid(infos)
      modifies this
      ensures Valid(infos)
      ensures result.Some? ==> result.value in old(members) && members == old(members) - {result.value}
      ensures result.Some? ==> result.value in infos && HasTag(infos[result.value], key, hash)
      ensures result.None? ==> members == old(members)
      ensures result.None? ==> forall id :: id in members && id in infos ==> !HasTag(infos[id], key, hash)
    {
      var b, p := FindPointer(key, hash, infos);
      result := None;
      if p < |list[b]| {
        var h := list[b][p];
        result := Some(h);
        assert ChainOk(list, infos, members, b);
        WithoutHas(list[b], p);
        ChainChanges(list, infos, members, b, Without(list[b], p), members - {h});
        list := list[b := Without(list[b], p)];
        members := members - {h};
        elems := elems - 1;
        forall x, y
          ensures Distinct(infos, members, x, y)
        {
          assert Distinct(infos, old(members), x, y);
        }
      }
    }

    // Twice as many buckets until there are as many as handles; every chain is taken apart.
    method Resize(infos: Infos)
      requires Valid(infos)
      modifies this
      ensures Valid(infos) && members == old(members) && elems == old(elems) && |list| >= elems
    {
      var newLength := 4;
      assert IsPower2(4) by {
        assert IsPower2(2);
      }
      while newLength < elems
        modifies {}
        invariant newLength >= 4 && IsPower2(newLength)
        decreases elems - newLength
      {
        newLength := newLength * 2;
      }
      var newList := seq(newLength, _ => []);
      ghost var moved: set<Id> := {};
      assert Holds(newList, infos, moved) by {
        forall b | 0 <= b < |newList|
          ensures ChainOk(newList, infos, moved, b)
        {
          assert newList[b] == [];
        }
      }
      var count := 0;
      var i := 0;
      while i < |list|
        modifies {}
        invariant 0 <= i <= |list| && |newList| == newLength
        invariant Holds(newList, infos, moved) && count == |moved|
        invariant forall id :: id in moved <==> id in members && id in infos && Bucket(infos[id].hash, |list|) < i
      {
        newList, count, moved := MoveChain(infos, i, newList, count, moved);
        i := i + 1;
      }
      forall id | id in members
        ensures id in moved
      {
        assert InPlace(list, infos, members, id);
      }
      assert moved == members;
      list := newList;
    }

    method MoveChain(infos: Infos, i: nat, newList0: seq<seq<Id>>, count0: nat, ghost moved0: set<Id>)
      returns (newList: seq<seq<Id>>, count: nat, ghost moved: set<Id>)
      requires Valid(infos) && i < |list|
      requires Holds(newList0, infos, moved0) && count0 == |moved0|
      requires forall id :: id in moved0 <==> id in members && id in infos && Bucket(infos[id].hash, |list|) < i
      ensures |newList| == |newList0| && Holds(newList, infos, moved) && count == |moved|
      ensures forall id :: id in moved <==> id in members && id in infos && Bucket(infos[id].hash, |list|) < i + 1
    {
      assert ChainOk(list, infos, members, i);
      newList, count, moved := MoveHandles(infos, list[i], newList0, count0, moved0);
      forall id
        ensures id in moved <==> id in members && id in infos && Bucket(infos[id].hash, |list|) < i + 1
      {
        if id in members && id in infos && Bucket(infos[id].hash, |list|) == i {
          HoldsOne(list, infos, members, id, i);
        }
      }
    }
  }

  // The handles of one chain, one after the other, to the front of their new chains.
  method MoveHandles(infos: Infos, chain: seq<Id>, newList0: seq<seq<Id>>, count0: nat, ghost moved0: set<Id>)
    returns (newList: seq<seq<Id>>, count: nat, ghost moved: set<Id>)
    requires Holds(newList0, infos, moved0) && count0 == |moved0| && NoDuplicates(chain)
    requires forall id :: id in chain ==> id in infos && id !in moved0
    ensures |newList| == |newList0| && Holds(newList, infos, moved) && count == |moved|
    ensures forall id :: id in moved <==> id in moved0 || id in chain
  {
    newList, count, moved := newList0, count0, moved0;
    var p := 0;
    while p < |chain|
      invariant 0 <= p <= |chain| && |newList| == |newList0|
      invariant Holds(newList, infos, moved) && count == |moved|
      invariant forall id :: id in moved <==> id in moved0 || id in chain[..p]
    {
      var h := chain[p];
      assert h in chain && h !in moved;
      var b := Bucket(infos[h].hash, |newList|);
      Prepends(newList, infos, moved, h, b);
      newList := newList[b := [h] + newList[b]];
      moved := moved + {h};
      count := count + 1;
      p := p + 1;
    }
    assert chain[..p] == chain;
  }

  lemma Prepends(list: seq<seq<Id>>, infos: Infos, members: set<Id>, h: Id, b: nat)
    requires Holds(list, infos, members) && h in infos && h !in members && b == Bucket(infos[h].hash, |list|)
    ensures Holds(list[b := [h] + list[b]], infos, members + {h})
  {
    assert ChainOk(list, infos, members, b);
    var chain := [h] + list[b];
    forall id
      ensures id in chain <==> id == h || id in list[b]
    {
    }
    ChainChanges(list, infos, members, b, chain, members + {h});
  }
}
