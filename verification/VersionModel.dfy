/** A version: seven levels of sorted files (db/version_edit.h, db/version_set.h). */
module VersionModel {
  import opened Wrappers
  import opened Keys
  import opened Reads

  const NUM_LEVELS := 7

  // `entries` is what the table with this number holds, in key order.
  datatype FileMetaData = FileMetaData(
    number: nat, size: nat, smallest: InternalKey, largest: InternalKey, entries: seq<Entry>)

  type Level = seq<FileMetaData>

  type Version = v: seq<Level> | |v| == 7 witness [[], [], [], [], [], [], []]

  ghost predicate WellFormed(f: FileMetaData) {
    && |f.entries| > 0
    && Ascending(f.entries)
    && f.smallest == f.entries[0].ikey
    && f.largest == f.entries[|f.entries| - 1].ikey
  }

  ghost predicate AllWellFormed(files: Level) {
    forall f {:trigger WellFormed(f)} :: f in files ==> WellFormed(f)
  }

  ghost predicate Has(files: Level, e: Entry) {
    exists f :: f in files && e in f.entries
  }

  ghost predicate Stored(v: Version, e: Entry) {
    exists l :: 0 <= l < 7 && Has(v[l], e)
  }

  ghost function LevelContents(files: Level): (es: set<Entry>)
    ensures forall e :: e in es <==> Has(files, e)
  {
    set f, e | f in files && e in f.entries :: e
  }

  ghost function Contents(v: Version): (es: set<Entry>)
    ensures forall e :: e in es <==> Stored(v, e)
  {
    set l, f, e | 0 <= l < 7 && f in v[l] && e in f.entries :: e
  }

  // Levels above 0: files in key order, no two sharing an internal key.
  ghost predicate SortedDisjoint(files: Level) {
    forall i, j :: 0 <= i < j < |files| ==> Less(files[i].largest, files[j].smallest)
  }

  ghost predicate OlderFile(f: FileMetaData, g: FileMetaData) {
    forall a, b :: a in f.entries && b in g.entries && a.ikey.user == b.ikey.user
                   ==> a.ikey.sequence < b.ikey.sequence
  }

  // Level 0: the file with the larger number has the newer entries of a shared key.
  ghost predicate AgeOrdered(files: Level) {
    && (forall f, g :: f in files && g in files && f.number == g.number ==> f == g)
    && (forall f, g {:trigger OlderFile(f, g)} :: f in files && g in files && f.number < g.number ==> OlderFile(f, g))
  }

  // For one user key everything in the shallower level is newer.
  ghost predicate Newer(shallow: Level, deep: Level) {
    forall a, b :: Has(shallow, a) && Has(deep, b) && a.ikey.user == b.ikey.user
                   ==> a.ikey.sequence > b.ikey.sequence
  }

  ghost predicate LevelOrder(v: Version) {
    forall i, j {:trigger Newer(v[i], v[j])} :: 0 <= i < j < 7 ==> Newer(v[i], v[j])
  }

  ghost predicate VersionInv(v: Version) {
    && (forall l {:trigger AllWellFormed(v[l])} :: 0 <= l < 7 ==> AllWellFormed(v[l]))
    && (forall l {:trigger SortedDisjoint(v[l])} :: 1 <= l < 7 ==> SortedDisjoint(v[l]))
    && AgeOrdered(v[0])
    && LevelOrder(v)
    && UniqueSequences(Contents(v))
  }

  // AfterFile and BeforeFile (db/version_set.cc:107-119); None is the null slice.
  predicate AfterFile(user: Option<UserKey>, f: FileMetaData) {
    user.Some? && user.value > f.largest.user
  }

  predicate BeforeFile(user: Option<UserKey>, f: FileMetaData) {
    user.Some? && user.value < f.smallest.user
  }

  // The user-key range of `f` meets [begin, end].
  predicate Overlaps(f: FileMetaData, begin: Option<UserKey>, end: Option<UserKey>) {
    !AfterFile(begin, f) && !BeforeFile(end, f)
  }

  predicate Covers(f: FileMetaData, u: UserKey) {
    f.smallest.user <= u <= f.largest.user
  }

  lemma EntryInRange(f: FileMetaData, e: Entry)
    requires WellFormed(f) && e in f.entries
    ensures !Less(e.ikey, f.smallest) && !Less(f.largest, e.ikey)
    ensures Covers(f, e.ikey.user)
  {
  }

  lemma FileRange(f: FileMetaData)
    requires WellFormed(f)
    ensures !Less(f.largest, f.smallest) && f.smallest.user <= f.largest.user
    ensures f.entries[0] in f.entries && f.entries[|f.entries| - 1] in f.entries
  {
  }

  // Table::InternalGet: the first entry of the table at or after the key, if any.
  function TableGet(f: FileMetaData, key: InternalKey): Option<Entry> {
    var i := LowerBound(f.entries, key);
    if i < |f.entries| then Some(f.entries[i]) else None
  }

  // The entry SaveValue accepts: the table's answer if it has the user key asked for.
  function FileHit(f: FileMetaData, u: UserKey, s: nat): Option<Entry> {
    match TableGet(f, LookupKey(u, s))
    case Some(e) => if e.ikey.user == u then Some(e) else None
    case None => None
  }

  ghost predicate NoCandidate(files: Level, u: UserKey, s: nat) {
    forall e :: Has(files, e) ==> !Candidate(u, s, e)
  }

  ghost predicate NewestOf(files: Level, u: UserKey, s: nat, e: Entry) {
    Has(files, e) && Candidate(u, s, e)
    && forall o :: Has(files, o) && Candidate(u, s, o) ==> o.ikey.sequence <= e.ikey.sequence
  }

  lemma FileHitIsNewest(f: FileMetaData, u: UserKey, s: nat)
    requires WellFormed(f)
    ensures FileHit(f, u, s).None? ==> forall e :: e in f.entries ==> !Candidate(u, s, e)
    ensures FileHit(f, u, s).Some? ==>
              var h := FileHit(f, u, s).value;
              && h in f.entries && Candidate(u, s, h)
              && forall e :: e in f.entries && Candidate(u, s, e) ==> e.ikey.sequence <= h.ikey.sequence
  {
    var key := LookupKey(u, s);
    var i := LowerBound(f.entries, key);
    forall k | 0 <= k < |f.entries| && Candidate(u, s, f.entries[k])
      ensures i <= k && f.entries[i].ikey.user == u && f.entries[k].ikey.sequence <= f.entries[i].ikey.sequence
    {
      LookupKeyBound(u, s, f.entries[k].ikey);
      assert i <= k;
      if i < k {
        assert Less(f.entries[i].ikey, f.entries[k].ikey);
      }
    }
  }
}
