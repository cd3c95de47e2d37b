/** The compactor's operations over the manifest and the segment files. */
module Compactor {
  import opened ByteStrings
  import opened Keys
  import opened Entries
  import opened Merge
  import opened Scan
  import opened Manifest
  import opened Compaction

  // ---- Segments a compactor may meet ----

  /** The exclusive end of a compactor's full scan. */
  function TopKey(): Bytes {
    seq(256, _ => 0xFF)
  }

  /** Encoded keys of namespaces shorter than 65535 bytes lie below the scan's end. */
  lemma KeysBelowTop(ns: Bytes, key: Bytes)
    requires |ns| < MaxNamespace
    ensures Less(EncodeKey(ns, key), TopKey())
  {
    var k := EncodeKey(ns, key);
    HeadThenTail(k, TopKey());
    HeadThenTail(k[1..], TopKey()[1..]);
    assert k[1..][0] == k[1] && TopKey()[1..][0] == 0xFF;
  }

  /** The full scan reaches the record, and its LSN is one the engine assigns. */
  predicate RecordOk(e: Entry) {
    Less(e.key, TopKey()) && e.lsn > 0
  }

  predicate RecordsOk(es: seq<Entry>) {
    forall e :: e in es ==> RecordOk(e)
  }

  /** A listed segment has a sorted file. */
  predicate SegmentOk(m: Meta, files: Files) {
    m.id in files && files[m.id] != [] && Sorted(files[m.id]) && RecordsOk(files[m.id])
  }

  predicate DistinctIds(ms: seq<Meta>) {
    forall i, j :: 0 <= i < j < |ms| ==> ms[i].id != ms[j].id
  }

  ghost predicate WellFormed(ms: seq<Meta>, files: Files) {
    DistinctIds(ms) && forall m :: m in ms ==> SegmentOk(m, files)
  }

  /** Every segment's death time bounds its records', as a flush records it. An import does not. */
  ghost predicate Bounded(ms: seq<Meta>, files: Files, window: nat) {
    forall m, e :: m in ms && e in FileOf(files, m.id) ==> DeathTime(e, window) <= m.death
  }

  lemma {:induction false} MetaBounded(id: nat, es: seq<Entry>, window: nat)
    requires es != [] && Window(window)
    ensures Bounded([MetaOf(id, es, window)], map[id := es], window)
  {
    MetaRecords(id, es, window);
  }

  lemma {:induction false} DropDistinct(ms: seq<Meta>, ids: set<nat>)
    requires DistinctIds(ms)
    ensures DistinctIds(Drop(ms, ids))
  {
    if ms != [] {
      DropDistinct(ms[..|ms| - 1], ids);
      DropMembers(ms[..|ms| - 1], ids);
    }
  }

  lemma {:induction false} DropWellFormed(ms: seq<Meta>, files: Files, ids: set<nat>)
    requires WellFormed(ms, files)
    ensures WellFormed(Drop(ms, ids), files - ids)
  {
    DropDistinct(ms, ids);
    DropMembers(ms, ids);
    forall m | m in Drop(ms, ids)
      ensures SegmentOk(m, files - ids)
    {
      assert SegmentOk(m, files);
    }
  }

  lemma {:induction false} AddWellFormed(ms: seq<Meta>, files: Files, m: Meta, es: seq<Entry>)
    requires WellFormed(ms, files) && !Lists(ms, m.id) && es != [] && Sorted(es) && RecordsOk(es)
    ensures WellFormed(ms + [m], files[m.id := es])
  {
    var files' := files[m.id := es];
    forall x | x in ms + [m]
      ensures SegmentOk(x, files')
    {
      if x in ms {
        assert SegmentOk(x, files);
      }
    }
  }

  lemma {:induction false} WellFormedSorted(ms: seq<Meta>, files: Files)
    requires WellFormed(ms, files)
    ensures AllSorted(Contents(ms, files))
  {
    forall i | 0 <= i < |ms|
      ensures Sorted(Contents(ms, files)[i])
    {
      assert SegmentOk(ms[i], files);
    }
  }

  // ---- Merging a cohort ----

  /** The highest LSN of every key; records with LSN 0 are never taken up. */
  ghost predicate Highest(m: Table, all: seq<Entry>) {
    && (forall k :: k in m ==> m[k].key == k && m[k] in all && HighestAt(m[k], all))
    && (forall e :: e in all && e.lsn > 0 ==> e.key in m)
  }

  ghost predicate HighestAt(x: Entry, all: seq<Entry>) {
    forall e :: e in all && e.key == x.key ==> e.lsn <= x.lsn
  }

  function TakeUp(m: Table, e: Entry): Table {
    if e.lsn > (if e.key in m then m[e.key].lsn else 0) then m[e.key := e] else m
  }

  lemma {:induction false} TakeUpHighest(m: Table, seen: seq<Entry>, e: Entry)
    requires Highest(m, seen)
    ensures Highest(TakeUp(m, e), seen + [e])
  {
    var m' := TakeUp(m, e);
    forall k | k in m'
      ensures m'[k].key == k && m'[k] in seen + [e] && HighestAt(m'[k], seen + [e])
    {
      if k != e.key || m'[k] != e {
        assert HighestAt(m[k], seen);
      } else if k in m {
        assert HighestAt(m[k], seen);
      }
    }
  }

  lemma {:induction false} WholeSlice(es: seq<Entry>)
    requires RecordsOk(es)
    ensures Slice(es, [], TopKey()) == es
  {
    if es != [] {
      assert es[|es| - 1] in es && RecordOk(es[|es| - 1]);
      WholeSlice(es[..|es| - 1]);
    }
  }

  method MergeSegment(merged: Table, es: seq<Entry>, ghost seen: seq<Entry>) returns (m: Table)
    requires Highest(merged, seen)
    ensures Highest(m, seen + es)
  {
    m := merged;
    assert seen + es[..0] == seen;
    for i := 0 to |es|
      invariant Highest(m, seen + es[..i])
    {
      TakeUpHighest(m, seen + es[..i], es[i]);
      assert seen + es[..i] + [es[i]] == seen + es[..i + 1];
      m := TakeUp(m, es[i]);
    }
    assert es[..|es|] == es;
  }

  /** What a compactor's full scan of a segment returns. */
  function FullScan(es: seq<Entry>): seq<Entry> {
    Slice(es, [], TopKey())
  }

  function FullScans(ids: seq<nat>, files: Files): (r: seq<seq<Entry>>)
    ensures |r| == |ids| && forall i :: 0 <= i < |ids| ==> r[i] == FullScan(FileOf(files, ids[i]))
  {
    seq(|ids|, i requires 0 <= i < |ids| => FullScan(FileOf(files, ids[i])))
  }

  /** Scans every segment of the cohort, keeping the highest LSN per key. */
  method MergeCohort(ids: seq<nat>, files: Files) returns (merged: Table)
    ensures Highest(merged, Flatten(FullScans(ids, files)))
  {
    merged := map[];
    assert FullScans(ids[..0], files) == [];
    for i := 0 to |ids|
      invariant Highest(merged, Flatten(FullScans(ids[..i], files)))
    {
      var entries := Slice(FileOf(files, ids[i]), [], TopKey());
      merged := MergeSegment(merged, entries, Flatten(FullScans(ids[..i], files)));
      assert FullScans(ids[..i + 1], files) == FullScans(ids[..i], files) + [entries];
      FlattenSnoc(FullScans(ids[..i], files), entries);
    }
    assert ids[..|ids|] == ids;
  }

  /** The scan misses nothing when all keys lie below its end. */
  lemma {:induction false} FullScanIsWhole(ids: seq<nat>, files: Files)
    requires forall id :: id in ids ==> RecordsOk(FileOf(files, id))
    ensures FullScans(ids, files) == FilesOf(ids, files)
  {
    forall i | 0 <= i < |ids|
      ensures FullScan(FileOf(files, ids[i])) == FileOf(files, ids[i])
    {
      assert ids[i] in ids && RecordsOk(FileOf(files, ids[i]));
      WholeSlice(FileOf(files, ids[i]));
    }
  }

  function Survivors(m: Table, now: int, window: nat): Table {
    map k | k in m && !Gone(m[k], now, window) :: m[k]
  }

  /** Exactly the cohort's live puts that nothing in the cohort shadows. */
  ghost predicate Survives(es: seq<Entry>, cohort: seq<Entry>, now: int, window: nat) {
    Sorted(es) && forall e :: e in es <==> e in cohort && !Excused(e, cohort, now, window)
  }

  lemma {:induction false} SurvivorsSurvive(m: Table, cohort: seq<Entry>, es: seq<Entry>, now: int, window: nat)
    requires Highest(m, cohort) && OneRecordPerLsn(cohort) && (forall e :: e in cohort ==> e.lsn > 0)
    requires Sorted(es) && AsTable(es) == Survivors(m, now, window)
    ensures Survives(es, cohort, now, window)
  {
    AsTableMembers(es);
    AsTableOfSorted(es);
    forall e | e in es
      ensures e in cohort && !Excused(e, cohort, now, window)
    {
      assert e == m[e.key];
      assert HighestAt(e, cohort);
    }
    forall e | e in cohort && !Excused(e, cohort, now, window)
      ensures e in es
    {
      var x := m[e.key];
      assert x.lsn <= e.lsn && HighestAt(x, cohort);
      assert e.key in AsTable(es) && AsTable(es)[e.key] == e;
    }
  }

  // ---- Cohorts ----

  datatype Cohort = Cohort(bucket: int, ids: seq<nat>, maxDeath: int, expired: bool)

  function InBucket(ms: seq<Meta>, bucket: int): seq<Meta> {
    if ms == [] then []
    else InBucket(ms[..|ms| - 1], bucket) + (if ms[|ms| - 1].bucket == bucket then [ms[|ms| - 1]] else [])
  }

  function Ids(ms: seq<Meta>): (r: seq<nat>)
    ensures |r| == |ms| && forall i :: 0 <= i < |ms| ==> r[i] == ms[i].id
  {
    seq(|ms|, i requires 0 <= i < |ms| => ms[i].id)
  }

  function LatestDeath(ms: seq<Meta>): int {
    if ms == [] then 0
    else if |ms| == 1 then ms[0].death
    else
      var d, last := LatestDeath(ms[..|ms| - 1]), ms[|ms| - 1].death;
      if last > d then last else d
  }

  function CohortOf(ms: seq<Meta>, bucket: int, now: int): Cohort {
    var mine := InBucket(ms, bucket);
    Cohort(bucket, Ids(mine), LatestDeath(mine), now > LatestDeath(mine))
  }

  lemma {:induction false} InBucketMembers(ms: seq<Meta>, bucket: int)
    ensures forall m :: m in InBucket(ms, bucket) <==> m in ms && m.bucket == bucket
  {
    if ms != [] {
      assert ms == ms[..|ms| - 1] + [ms[|ms| - 1]];
      InBucketMembers(ms[..|ms| - 1], bucket);
    }
  }

  lemma {:induction false} InBucketDistinct(ms: seq<Meta>, bucket: int)
    requires DistinctIds(ms)
    ensures DistinctIds(InBucket(ms, bucket))
  {
    if ms != [] {
      InBucketDistinct(ms[..|ms| - 1], bucket);
      InBucketMembers(ms[..|ms| - 1], bucket);
    }
  }

  lemma {:induction false} LatestDeathBounds(ms: seq<Meta>, m: Meta)
    requires m in ms
    ensures m.death <= LatestDeath(ms)
  {
    if |ms| > 1 {
      assert ms == ms[..|ms| - 1] + [ms[|ms| - 1]];
      if m in ms[..|ms| - 1] {
        LatestDeathBounds(ms[..|ms| - 1], m);
      }
    }
  }

  lemma {:induction false} IdsMembers(ms: seq<Meta>, id: nat)
    ensures id in Ids(ms) <==> Lists(ms, id)
  {
    if id in Ids(ms) {
      var i :| 0 <= i < |ms| && Ids(ms)[i] == id;
      assert ms[i] in ms;
    }
    if m :| m in ms && m.id == id {
      var i :| 0 <= i < |ms| && ms[i] == m;
      assert Ids(ms)[i] == id;
    }
  }

  /** Fully expired cohorts first, then by latest death time. */
  predicate Before(a: Cohort, b: Cohort) {
    if a.expired == b.expired then a.maxDeath <= b.maxDeath else a.expired
  }

  predicate Prioritised(cs: seq<Cohort>) {
    forall i, j :: 0 <= i < j < |cs| ==> Before(cs[i], cs[j])
  }

  predicate DistinctBuckets(cs: seq<Cohort>) {
    forall i, j :: 0 <= i < j < |cs| ==> cs[i].bucket != cs[j].bucket
  }

  /** One cohort for each of the buckets, in order of priority. */
  ghost predicate Grouped(cs: seq<Cohort>, ms: seq<Meta>, now: int, buckets: set<int>) {
    && Prioritised(cs) && DistinctBuckets(cs)
    && (forall c :: c in cs ==> c.bucket in buckets && c == CohortOf(ms, c.bucket, now))
    && (forall b :: b in buckets ==> CohortOf(ms, b, now) in cs)
  }

  method InsertCohort(cs: seq<Cohort>, c: Cohort) returns (r: seq<Cohort>)
    requires Prioritised(cs) && DistinctBuckets(cs) && NewBucket(cs, c)
    ensures Prioritised(r) && DistinctBuckets(r) && forall x :: x in r <==> x in cs || x == c
  {
    var i := |cs|;
    while i > 0 && !Before(cs[i - 1], c)
      invariant 0 <= i <= |cs| && forall j :: i <= j < |cs| ==> Before(c, cs[j])
    {
      i := i - 1;
    }
    r := cs[..i] + [c] + cs[i..];
    InsertedOrder(cs, c, i, r);
    InsertedMembers(cs, c, i, r);
  }

  /** Where position `x` of the list with `c` put in at `i` comes from. */
  lemma InsertedAt(cs: seq<Cohort>, c: Cohort, i: nat, x: nat)
    requires i <= |cs| && x <= |cs|
    ensures (cs[..i] + [c] + cs[i..])[x] == if x < i then cs[x] else if x == i then c else cs[x - 1]
  {
  }

  predicate Fits(cs: seq<Cohort>, c: Cohort, i: nat) {
    i <= |cs| && (forall j :: i <= j < |cs| ==> Before(c, cs[j])) && (i > 0 ==> Before(cs[i - 1], c))
  }

  predicate NewBucket(cs: seq<Cohort>, c: Cohort) {
    forall j :: 0 <= j < |cs| ==> cs[j].bucket != c.bucket
  }

  lemma {:induction false} InsertedPair(cs: seq<Cohort>, c: Cohort, i: nat, x: nat, y: nat)
    requires Prioritised(cs) && DistinctBuckets(cs) && NewBucket(cs, c) && Fits(cs, c, i) && x < y <= |cs|
    ensures var r := cs[..i] + [c] + cs[i..]; Before(r[x], r[y]) && r[x].bucket != r[y].bucket
  {
    InsertedAt(cs, c, i, x);
    InsertedAt(cs, c, i, y);
    if y == i && x < i - 1 {
      assert Before(cs[x], cs[i - 1]);
    }
  }

  lemma {:induction false} InsertedOrder(cs: seq<Cohort>, c: Cohort, i: nat, r: seq<Cohort>)
    requires Prioritised(cs) && DistinctBuckets(cs) && NewBucket(cs, c) && Fits(cs, c, i) && r == cs[..i] + [c] + cs[i..]
    ensures Prioritised(r) && DistinctBuckets(r)
  {
    forall x, y | 0 <= x < y < |r|
      ensures Before(r[x], r[y]) && r[x].bucket != r[y].bucket
    {
      InsertedPair(cs, c, i, x, y);
    }
  }

  lemma {:induction false} InsertedMembers(cs: seq<Cohort>, c: Cohort, i: nat, r: seq<Cohort>)
    requires i <= |cs| && r == cs[..i] + [c] + cs[i..]
    ensures forall x :: x in r <==> x in cs || x == c
  {
    assert cs == cs[..i] + cs[i..];
  }

  /** Groups segments by bucket, in no particular order, and sorts the groups by priority. */
  method IdentifyCohorts(ms: seq<Meta>, now: int) returns (cs: seq<Cohort>)
    ensures Grouped(cs, ms, now, set m | m in ms :: m.bucket)
  {
    cs := [];
    var todo := set m | m in ms :: m.bucket;
    ghost var done: set<int> := {};
    while todo != {}
      invariant Grouped(cs, ms, now, done) && todo + done == (set m | m in ms :: m.bucket) && todo !! done
      decreases todo
    {
      var b :| b in todo;
      assert forall i :: 0 <= i < |cs| ==> cs[i] in cs;
      cs := InsertCohort(cs, CohortOf(ms, b, now));
      todo, done := todo - {b}, done + {b};
    }
    assert done == set m | m in ms :: m.bucket;
  }
}
