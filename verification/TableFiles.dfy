/** A table file of the database, from its entries to a lookup: BuildTable (db/builder.cc),
  then TableCache::Get with SaveValue (db/table_cache.cc, db/version_set.cc). What the bytes
  answer is what a file of a version answers in the model of the database. */
module TableFiles {
  import opened Wrappers
  import opened Keys
  import opened Coding
  import opened Comparators
  import opened BlockFormat
  import opened Block
  import opened TableFormat
  import opened FilterBlock
  import opened TableLayout
  import opened TableStates
  import opened TableBuilding
  import opened Table
  import opened FilterPolicies
  import opened VersionModel
  import Bloom
  import Separators

  // ---------- stored entries and entries of the model ----------

  function EntryOf(p: Pair): Entry {
    Entry(Separators.KeyOf(p.key), p.value)
  }

  function EntriesOf(pairs: seq<Pair>): (r: seq<Entry>)
    ensures |r| == |pairs| && forall i :: 0 <= i < |r| ==> r[i] == EntryOf(pairs[i])
  {
    if pairs == [] then [] else EntriesOf(pairs[..|pairs| - 1]) + [EntryOf(pairs[|pairs| - 1])]
  }

  // A stored internal key: at least a tag, of one of the two kinds.
  predicate IsInternalKey(k: Bytes) {
    |k| >= 8 && Separators.ValidTag(k)
  }

  // The entries a table is built from: internal keys in strictly ascending order.
  ghost predicate Buildable(pairs: seq<Pair>) {
    Ordered(Separators.StoredLess, pairs) && forall i :: 0 <= i < |pairs| ==> IsInternalKey(pairs[i].key)
  }

  lemma AscendsInModel(pairs: seq<Pair>)
    requires Buildable(pairs)
    ensures Ascending(EntriesOf(pairs))
  {
    forall i, j | 0 <= i < j < |pairs|
      ensures Less(EntriesOf(pairs)[i].ikey, EntriesOf(pairs)[j].ikey)
    {
      assert InOrder(Separators.StoredLess, pairs, i, j);
      Separators.StoredOrderIsRanked(pairs[i].key, pairs[j].key);
    }
  }

  lemma SeekTag(s: nat)
    ensures (s * 256 + 1) / 256 == s && (s * 256 + 1) % 256 == 1
  {
  }

  lemma KeyOfParts(k: Bytes, user: Bytes, s: nat, tag: nat)
    requires |k| >= 8 && Separators.UserPart(k) == user && Separators.TagPart(k) == tag && tag / 256 == s && tag % 256 == 1
    ensures IsInternalKey(k) && Separators.KeyOf(k) == LookupKey(Rank(user), s)
  {
  }

  // The lookup key as bytes.
  function SeekKey(user: Bytes, s: nat): (r: Bytes)
    requires s <= MAX_SEQUENCE_NUMBER
    ensures IsInternalKey(r) && Separators.UserPart(r) == user && Separators.KeyOf(r) == LookupKey(Rank(user), s)
  {
    var r := Separators.StoredKey(user, s * 256 + 1);
    SeekTag(s);
    KeyOfParts(r, user, s, s * 256 + 1);
    r
  }

  lemma FirstIsLowerBound(less: (Bytes, Bytes) -> bool, pairs: seq<Pair>, es: seq<Entry>, key: Bytes, ikey: InternalKey)
    requires |es| == |pairs| && forall q :: 0 <= q < |pairs| ==> (less(pairs[q].key, key) <==> Less(es[q].ikey, ikey))
    ensures IsFirst(less, pairs, key, LowerBound(es, ikey))
  {
  }

  // Seeking among the bytes leads to the same entry as seeking in the model.
  lemma SeeksAlike(pairs: seq<Pair>, key: Bytes)
    requires Buildable(pairs) && IsInternalKey(key)
    ensures IsFirst(Separators.StoredLess, pairs, key, LowerBound(EntriesOf(pairs), Separators.KeyOf(key)))
  {
    var es, ikey := EntriesOf(pairs), Separators.KeyOf(key);
    forall q | 0 <= q < |pairs|
      ensures Separators.StoredLess(pairs[q].key, key) <==> Less(es[q].ikey, ikey)
    {
      Separators.StoredOrderIsRanked(pairs[q].key, key);
    }
    FirstIsLowerBound(Separators.StoredLess, pairs, es, key, ikey);
  }

  // ---------- building ----------

  // A bound for the sizes that the first n entries lead to; g is what a filter grows by.
  function Weight(pairs: seq<Pair>, n: nat, g: nat): nat
    requires n <= |pairs|
  {
    if n == 0 then 0 else Weight(pairs, n - 1, g) + |pairs[n - 1].key| + |pairs[n - 1].value| + 64 + g
  }

  lemma {:induction false} WeightGrows(pairs: seq<Pair>, n: nat, m: nat, g: nat)
    requires n <= m <= |pairs|
    ensures Weight(pairs, n, g) + 64 * (m - n) <= Weight(pairs, m, g)
    decreases m - n
  {
    if n < m {
      WeightGrows(pairs, n, m - 1, g);
    }
  }

  const WEIGHT_LIMIT := 0x4000_0000

  // The table has the Bloom filter on user keys, or none.
  ghost predicate UsesBloom(policy: Option<NamedPolicy>, b: Bloom.Policy) {
    b.Valid() && (policy.Some? ==> policy.value.policy == Internal(BloomPolicy(b)))
  }

  ghost predicate DatabaseOptions(o: Options, b: Bloom.Policy) {
    && o.comparator == Separators.InternalComparator() && o.restartInterval >= 1
    && UsesBloom(o.policy, b) && (o.policy.Some? ==> |o.policy.value.name| < 0x8000_0000)
  }

  ghost predicate HasEntries(builder: TableBuilder, entries: seq<Pair>)
    reads builder, builder.dataBlock, builder.indexBlock, builder.filterBlock
  {
    builder.Valid() && builder.entries == entries
  }

  // The same, to be looked into only where HasEntries is written.
  ghost predicate Holds(builder: TableBuilder, entries: seq<Pair>)
    reads builder, builder.dataBlock, builder.indexBlock, builder.filterBlock
  {
    forall es {:trigger HasEntries(builder, es)} :: es == entries ==> HasEntries(builder, es)
  }

  // How far a builder has got with the first n entries.
  ghost predicate BuiltSoFar(builder: TableBuilder, pairs: seq<Pair>, n: nat, b: Bloom.Policy)
    reads builder, builder.dataBlock, builder.indexBlock, builder.filterBlock
    requires n <= |pairs|
  {
    var w := Weight(pairs, n, b.bitsPerKey + 10);
    && Holds(builder, pairs[..n])
    && builder.Sizes().0 <= 8 + w && builder.Sizes().1 <= 8 + w && builder.offset <= n * 0x1_0000_0005
    && FilterBytes(builder) <= w
  }

  lemma StillRoom(builder: TableBuilder, pairs: seq<Pair>, n: nat, b: Bloom.Policy, size: nat)
    requires n <= |pairs| && BuiltSoFar(builder, pairs, n, b)
    requires Weight(pairs, n, b.bitsPerKey + 10) + size < WEIGHT_LIMIT
    ensures builder.Room(size)
  {
    WeightGrows(pairs, 0, n, b.bitsPerKey + 10);
  }

  lemma FitsNext(less: (Bytes, Bytes) -> bool, pairs: seq<Pair>, n: nat)
    requires Ordered(less, pairs) && n < |pairs|
    ensures Fits(less, pairs[..n], pairs[n].key)
  {
    if n > 0 {
      assert InOrder(less, pairs, n - 1, n);
    }
  }

  // The filters built so far, and the one under way.
  ghost function FilterBytes(builder: TableBuilder): nat
    reads builder, builder.filterBlock
  {
    if builder.filterBlock == null then 0 else |builder.filterBlock.FilterData()|
  }

  // Adding, with what the filter grows by.
  method AddOne(builder: TableBuilder, key: Bytes, value: Bytes, ghost b: Bloom.Policy, ghost entries: seq<Pair>)
    requires Holds(builder, entries) && builder.Room(|key| + |value|) && UsesBloom(builder.options.policy, b)
    requires Fits(builder.options.comparator.less, entries, key)
    modifies builder, builder.dataBlock, builder.indexBlock, builder.filterBlock
    ensures Holds(builder, entries + [Pair(key, value)])
    ensures builder.Grown(key, value, old(builder.Sizes())) && builder.offset <= old(builder.offset) + 0x1_0000_0005
    ensures FilterBytes(builder) <= old(FilterBytes(builder)) + b.bitsPerKey + 10
  {
    assert HasEntries(builder, entries);
    if builder.filterBlock != null {
      FilterGrowth(b, builder.filterBlock.waiting, key);
    }
    builder.Add(key, value);
  }

  // Once around the loop of BuildTable.
  method AddNext(builder: TableBuilder, pairs: seq<Pair>, n: nat, ghost b: Bloom.Policy)
    requires n < |pairs| && BuiltSoFar(builder, pairs, n, b) && UsesBloom(builder.options.policy, b)
    requires Ordered(builder.options.comparator.less, pairs)
    requires Weight(pairs, |pairs|, b.bitsPerKey + 10) < WEIGHT_LIMIT
    modifies builder, builder.dataBlock, builder.indexBlock, builder.filterBlock
    ensures BuiltSoFar(builder, pairs, n + 1, b)
  {
    WeightGrows(pairs, n + 1, |pairs|, b.bitsPerKey + 10);
    StillRoom(builder, pairs, n, b, |pairs[n].key| + |pairs[n].value|);
    FitsNext(builder.options.comparator.less, pairs, n);
    AddOne(builder, pairs[n].key, pairs[n].value, b, pairs[..n]);
    assert pairs[..n + 1] == pairs[..n] + [pairs[n]];
  }

  method FinishTable(builder: TableBuilder, ghost pairs: seq<Pair>) returns (contents: Bytes, ghost t: TableFile)
    requires Holds(builder, pairs) && builder.Room(0) && FilterBytes(builder) < 0x1_0000_0000
    requires builder.options.policy.Some? ==> |builder.options.policy.value.name| < 0x8000_0000
    modifies builder, builder.dataBlock, builder.indexBlock, builder.filterBlock
    ensures IsTable(builder.options, contents, t) && t.entries == pairs
  {
    assert HasEntries(builder, pairs);
    t := builder.Finish();
    contents := builder.file;
  }

  method NewTable(o: Options, ghost same: (Bytes, Bytes) -> bool) returns (builder: TableBuilder)
    requires o.restartInterval >= 1 && Lawful(o.comparator, same)
    ensures fresh(builder) && fresh(builder.dataBlock) && fresh(builder.indexBlock)
    ensures builder.filterBlock != null ==> fresh(builder.filterBlock)
    ensures Holds(builder, []) && builder.options == o && builder.Sizes() == (8, 8) && builder.offset == 0
    ensures FilterBytes(builder) == 0
  {
    builder := new TableBuilder(o, same);
    assert HasEntries(builder, []);
  }

  datatype BuiltFile = BuiltFile(contents: Bytes, smallest: Bytes, largest: Bytes)

  // The loop of BuildTable.
  method AddAll(builder: TableBuilder, pairs: seq<Pair>, ghost b: Bloom.Policy) returns (largest: Bytes)
    requires pairs != [] && BuiltSoFar(builder, pairs, 0, b) && UsesBloom(builder.options.policy, b)
    requires Ordered(builder.options.comparator.less, pairs)
    requires Weight(pairs, |pairs|, b.bitsPerKey + 10) < WEIGHT_LIMIT
    modifies builder, builder.dataBlock, builder.indexBlock, builder.filterBlock
    ensures BuiltSoFar(builder, pairs, |pairs|, b) && largest == pairs[|pairs| - 1].key
  {
    largest := pairs[0].key;
    for n := 0 to |pairs|
      invariant BuiltSoFar(builder, pairs, n, b)
      invariant largest == if n == 0 then pairs[0].key else pairs[n - 1].key
    {
      largest := pairs[n].key;
      AddNext(builder, pairs, n, b);
    }
  }

  // BuildTable: all entries of an iterator go into a new file.
  method BuildTable(o: Options, pairs: seq<Pair>, ghost same: (Bytes, Bytes) -> bool, ghost b: Bloom.Policy)
    returns (f: BuiltFile, ghost t: TableFile)
    requires pairs != [] && Ordered(o.comparator.less, pairs) && Lawful(o.comparator, same)
    requires o.restartInterval >= 1 && UsesBloom(o.policy, b) && (o.policy.Some? ==> |o.policy.value.name| < 0x8000_0000)
    requires Weight(pairs, |pairs|, b.bitsPerKey + 10) < WEIGHT_LIMIT
    ensures IsTable(o, f.contents, t) && t.entries == pairs
    ensures f.smallest == pairs[0].key && f.largest == pairs[|pairs| - 1].key
  {
    var builder := NewTable(o, same);
    assert pairs[..0] == [];
    var largest := AddAll(builder, pairs, b);
    assert pairs[..|pairs|] == pairs;
    StillRoom(builder, pairs, |pairs|, b, 0);
    var contents;
    contents, t := FinishTable(builder, pairs);
    f := BuiltFile(contents, pairs[0].key, largest);
  }

  // ---------- looking up ----------

  // The reader has the comparator and the checksum of the database, and no filter policy, or
  // a Bloom policy that hashes as the writer's did.
  ghost predicate ReadsDatabase(r: ReadOptions, o: Options, made: Bloom.Policy, used: Bloom.Policy) {
    && r.comparator == o.comparator && r.crc == o.crc
    && UsesBloom(r.policy, used) && made.hash == used.hash
  }

  // TableCache::Get and SaveValue: the first entry at or after the lookup key, if it is one
  // of the user key asked for.
  method Get(f: BuiltFile, r: ReadOptions, user: Bytes, s: nat, ghost o: Options, ghost t: TableFile,
      ghost made: Bloom.Policy, ghost used: Bloom.Policy)
    returns (hit: Option<Pair>, ok: bool)
    requires s <= MAX_SEQUENCE_NUMBER && Buildable(t.entries)
    requires DatabaseOptions(o, made) && IsTable(o, f.contents, t) && ReadsDatabase(r, o, made, used)
    ensures ok && hit == HitOf(t.entries, user, s)
  {
    Separators.InternalIsLawful();
    InternalNeverHides(made, used);
    SeeksAlike(t.entries, SeekKey(user, s));
    ghost var p := LowerBound(EntriesOf(t.entries), LookupKey(Rank(user), s));
    var table := Open(r, f.contents, o, t);
    if table.None? {
      return None, false;
    }
    var found;
    found, ok := InternalGet(table.value, SeekKey(user, s), o, t, Separators.SameUserKey, p);
    hit := None;
    if found.Some? && Separators.UserPart(found.value.0) == user {
      hit := Some(Pair(found.value.0, found.value.1));
    }
  }

  // The first entry of the user key at or below the sequence number.
  function HitOf(pairs: seq<Pair>, user: Bytes, s: nat): Option<Pair>
    requires s <= MAX_SEQUENCE_NUMBER
  {
    var p := LowerBound(EntriesOf(pairs), LookupKey(Rank(user), s));
    if p < |pairs| && Separators.UserPart(pairs[p].key) == user then Some(pairs[p]) else None
  }

  // The file of a version that these bytes are.
  function MetaDataOf(number: nat, f: BuiltFile, pairs: seq<Pair>): FileMetaData {
    FileMetaData(number, |f.contents|, Separators.KeyOf(f.smallest), Separators.KeyOf(f.largest), EntriesOf(pairs))
  }

  lemma BuiltIsWellFormed(number: nat, f: BuiltFile, pairs: seq<Pair>)
    requires pairs != [] && Buildable(pairs)
    requires f.smallest == pairs[0].key && f.largest == pairs[|pairs| - 1].key
    ensures WellFormed(MetaDataOf(number, f, pairs))
  {
    AscendsInModel(pairs);
  }

  // The bytes answer as the file of the version does.
  lemma HitsAlike(number: nat, f: BuiltFile, pairs: seq<Pair>, user: Bytes, s: nat)
    requires s <= MAX_SEQUENCE_NUMBER
    ensures FileHit(MetaDataOf(number, f, pairs), Rank(user), s)
         == if HitOf(pairs, user, s).Some? then Some(EntryOf(HitOf(pairs, user, s).value)) else None
  {
    var p := LowerBound(EntriesOf(pairs), LookupKey(Rank(user), s));
    if p < |pairs| {
      RankOrder(Separators.UserPart(pairs[p].key), user);
    }
  }

  // From the entries to the answer: a file is built and looked into, and what comes out is
  // what the model of the database has for the file.
  method BuildAndGet(number: nat, o: Options, r: ReadOptions, pairs: seq<Pair>, user: Bytes, s: nat,
      ghost made: Bloom.Policy, ghost used: Bloom.Policy)
    returns (f: BuiltFile, hit: Option<Pair>)
    requires pairs != [] && Buildable(pairs) && DatabaseOptions(o, made) && ReadsDatabase(r, o, made, used)
    requires Weight(pairs, |pairs|, made.bitsPerKey + 10) < WEIGHT_LIMIT && s <= MAX_SEQUENCE_NUMBER
    ensures WellFormed(MetaDataOf(number, f, pairs))
    ensures FileHit(MetaDataOf(number, f, pairs), Rank(user), s)
         == if hit.Some? then Some(EntryOf(hit.value)) else None
    ensures hit.Some? ==> hit.value in pairs && Separators.UserPart(hit.value.key) == user
  {
    ghost var t;
    Separators.InternalIsLawful();
    f, t := BuildTable(o, pairs, Separators.SameUserKey, made);
    BuiltIsWellFormed(number, f, pairs);
    var ok;
    hit, ok := Get(f, r, user, s, o, t, made, used);
    HitsAlike(number, f, pairs, user, s);
  }
}
