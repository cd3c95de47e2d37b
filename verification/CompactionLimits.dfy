/** What compaction does to deleted keys and to imported segments. */
module CompactionLimits {
  import opened ByteStrings
  import opened Entries
  import opened Merge
  import opened Manifest
  import opened Replication
  import opened Compaction
  import opened Compactor
  import opened CompactionCycle
  import Scan

  // ---- Reads after a cycle ----

  /** The cycle leaves `e` listed. */
  ghost predicate Kept(e: Entry, ms0: seq<Meta>, files0: Files, pins: set<nat>, done: set<int>, now: int, window: nat) {
    InSpared(e, ms0, files0, pins, done) || SurvivorOf(e, ms0, files0, pins, done, now, window)
  }

  /** A key reads as its kept record with the highest LSN. */
  lemma {:induction false} CycleReads(ms0: seq<Meta>, files0: Files, ms: seq<Meta>, files: Files, pins: set<nat>, done: set<int>, now: int, window: nat, e: Entry)
    requires CycleOutcome(ms0, files0, ms, files, pins, done, now, window) && OneRecordPerLsn(All(ms0, files0))
    requires Kept(e, ms0, files0, pins, done, now, window)
    requires forall f :: Kept(f, ms0, files0, pins, done, now, window) && f.key == e.key ==> f.lsn <= e.lsn
    ensures e.key in Newest(Tables(Contents(ms, files))) && Newest(Tables(Contents(ms, files)))[e.key] == e
  {
    var segs := Contents(ms, files);
    WellFormedSorted(ms, files);
    CycleExact(ms0, files0, ms, files, pins, done, now, window, e);
    RecordedKeys(segs, e);
    NewestRecord(segs, e.key);
    var n := Newest(Tables(segs))[e.key];
    CycleExact(ms0, files0, ms, files, pins, done, now, window, n);
    CycleWithin(ms0, files0, ms, files, pins, done, now, window, n);
    CycleWithin(ms0, files0, ms, files, pins, done, now, window, e);
  }

  // ---- Keys whose newest record is dropped ----

  /** A key whose newest record in a rewritten cohort is a tombstone or dead shows afterwards exactly what
      the segments outside the cohort hold. */
  lemma {:induction false} DroppedKeyFallsThrough(outside: seq<seq<Entry>>, cohort: seq<seq<Entry>>, es: seq<Entry>, now: int, window: nat, k: Bytes)
    requires AllSorted(cohort) && OneRecordPerLsn(Flatten(cohort)) && Survives(es, Flatten(cohort), now, window)
    requires k in Newest(Tables(cohort)) && Gone(Newest(Tables(cohort))[k], now, window)
    ensures k in Newest(Tables(outside + [es])) <==> k in Newest(Tables(outside))
    ensures k in Newest(Tables(outside)) ==> Newest(Tables(outside + [es]))[k] == Newest(Tables(outside))[k]
  {
    NewestRecord(cohort, k);
    AsTableMembers(es);
    Scan.TablesSnoc(outside, es);
    Scan.NewestSnoc(Tables(outside), AsTable(es));
  }

  /** So a deleted key still reads as deleted if and only if no segment outside the cohort has a put as
      its newest record. */
  lemma {:induction false} DeletedStaysDeletedIff(outside: seq<seq<Entry>>, cohort: seq<seq<Entry>>, es: seq<Entry>, now: int, window: nat, k: Bytes)
    requires AllSorted(cohort) && OneRecordPerLsn(Flatten(cohort)) && Survives(es, Flatten(cohort), now, window)
    requires k in Newest(Tables(cohort)) && Newest(Tables(cohort))[k].op.Delete?
    ensures ValueOf(Newest(Tables(outside + [es])), k) == None <==>
            !(k in Newest(Tables(outside)) && Newest(Tables(outside))[k].op.Put?)
  {
    DroppedKeyFallsThrough(outside, cohort, es, now, window, k);
  }

  /** A live put and a newer tombstone of its key, flushed to segments of different buckets. */
  ghost predicate Apart(ms0: seq<Meta>, files0: Files, now: int, window: nat, put: Entry, tombstone: Entry) {
    && put.op.Put? && !Gone(put, now, window) && tombstone.op.Delete? && put.key == tombstone.key && put.lsn < tombstone.lsn
    && |ms0| == 2 && ms0[0].bucket != ms0[1].bucket && FileOf(files0, ms0[0].id) == [put] && FileOf(files0, ms0[1].id) == [tombstone]
    && BucketRecords(ms0, files0, {}, ms0[0].bucket, now) == [put] && !CycleCohort(ms0, {}, ms0[0].bucket, now).expired
    && BucketRecords(ms0, files0, {}, ms0[1].bucket, now) == [tombstone]
  }

  lemma {:induction false} ApartRecords(ms0: seq<Meta>, files0: Files, now: int, window: nat, put: Entry, tombstone: Entry)
    requires Apart(ms0, files0, now, window, put, tombstone)
    ensures Contents(ms0, files0) == [[put], [tombstone]] && All(ms0, files0) == [put, tombstone]
  {
    var c := Contents(ms0, files0);
    assert c == [[put], [tombstone]];
    assert c == [[put]] + [[tombstone]];
    FlattenSnoc([[put]], [tombstone]);
    OneFlattened(put);
  }

  lemma {:induction false} OneFlattened(e: Entry)
    ensures Flatten([[e]]) == [e]
  {
    var none: seq<seq<Entry>> := [];
    FlattenSnoc(none, [e]);
    assert none + [[e]] == [[e]] && Flatten(none) == [];
  }

  lemma {:induction false} PutKept(ms0: seq<Meta>, files0: Files, now: int, window: nat, put: Entry, tombstone: Entry, done: set<int>)
    requires Apart(ms0, files0, now, window, put, tombstone)
    ensures Kept(put, ms0, files0, {}, done, now, window)
  {
    var m := ms0[0];
    if m.bucket in done {
      assert !Outranked(put, [put]);
      assert Survivor(put, ms0, files0, {}, m.bucket, now, window);
    } else {
      assert m in ms0 && Spared(m, {}, done) && put in FileOf(files0, m.id);
    }
  }

  lemma {:induction false} TombstonesGo(e: Entry, ms0: seq<Meta>, files0: Files, done: set<int>, now: int, window: nat)
    requires e.op.Delete?
    ensures !SurvivorOf(e, ms0, files0, {}, done, now, window)
  {
  }

  lemma {:induction false} TombstoneDropped(ms0: seq<Meta>, files0: Files, now: int, window: nat, put: Entry, tombstone: Entry, done: set<int>)
    requires Apart(ms0, files0, now, window, put, tombstone) && ms0[1].bucket in done
    ensures !Kept(tombstone, ms0, files0, {}, done, now, window)
  {
    TombstonesGo(tombstone, ms0, files0, done, now, window);
  }

  /** Before the cycle the key is deleted; after any cycle that visits the tombstone's bucket it is back. */
  lemma {:induction false} ApartComesBack(ms0: seq<Meta>, files0: Files, ms: seq<Meta>, files: Files, done: set<int>, now: int, window: nat, put: Entry, tombstone: Entry)
    requires Apart(ms0, files0, now, window, put, tombstone) && ms0[1].bucket in done
    requires CycleOutcome(ms0, files0, ms, files, {}, done, now, window)
    ensures ValueOf(Newest(Tables(Contents(ms0, files0))), put.key) == None
    ensures ValueOf(Newest(Tables(Contents(ms, files))), put.key) == Some(put.op.value)
  {
    DeletedBefore(ms0, files0, now, window, put, tombstone);
    PutKept(ms0, files0, now, window, put, tombstone, done);
    forall f | Kept(f, ms0, files0, {}, done, now, window)
      ensures f == put
    {
      OnlyPutKept(ms0, files0, ms, files, done, now, window, put, tombstone, f);
    }
    CycleReads(ms0, files0, ms, files, {}, done, now, window, put);
  }

  lemma {:induction false} DeletedBefore(ms0: seq<Meta>, files0: Files, now: int, window: nat, put: Entry, tombstone: Entry)
    requires Apart(ms0, files0, now, window, put, tombstone)
    ensures ValueOf(Newest(Tables(Contents(ms0, files0))), put.key) == None && OneRecordPerLsn(All(ms0, files0))
  {
    ApartRecords(ms0, files0, now, window, put, tombstone);
    TwoReaders(put, tombstone);
    TwoLsns(put, tombstone);
  }

  lemma TwoLsns(a: Entry, b: Entry)
    requires a.lsn != b.lsn
    ensures OneRecordPerLsn([a, b])
  {
    assert forall x :: x in [a, b] ==> x == a || x == b;
  }

  lemma {:induction false} OnlyPutKept(ms0: seq<Meta>, files0: Files, ms: seq<Meta>, files: Files, done: set<int>, now: int, window: nat,
                                       put: Entry, tombstone: Entry, f: Entry)
    requires Apart(ms0, files0, now, window, put, tombstone) && ms0[1].bucket in done
    requires CycleOutcome(ms0, files0, ms, files, {}, done, now, window) && Kept(f, ms0, files0, {}, done, now, window)
    ensures f == put
  {
    CycleExact(ms0, files0, ms, files, {}, done, now, window, f);
    CycleWithin(ms0, files0, ms, files, {}, done, now, window, f);
    ApartRecords(ms0, files0, now, window, put, tombstone);
    TombstoneDropped(ms0, files0, now, window, put, tombstone, done);
  }

  const Hour := 3600
  const Second := NanosPerSecond

  lemma {:induction false} OneFile(files: Files, id: nat)
    ensures CohortRecords([id], files) == FileOf(files, id)
  {
    var none: seq<seq<Entry>> := [];
    assert FilesOf([id], files) == none + [FileOf(files, id)];
    FlattenSnoc(none, FileOf(files, id));
    assert Flatten(none) == [];
  }

  lemma {:induction false} InBucketOne(a: Meta, bucket: int)
    ensures InBucket([a], bucket) == if a.bucket == bucket then [a] else []
  {
    assert [a][..0] == [];
    assert InBucket([], bucket) == [];
  }

  lemma {:induction false} InBucketTwo(a: Meta, b: Meta, bucket: int)
    ensures InBucket([a, b], bucket) == (if a.bucket == bucket then [a] else []) + if b.bucket == bucket then [b] else []
  {
    assert [a, b][..1] == [a];
    InBucketOne(a, bucket);
  }

  /** The cohorts of two segments in different buckets. */
  lemma {:induction false} TwoBuckets(a: Meta, b: Meta, now: int)
    requires a.bucket != b.bucket
    ensures CycleCohort([a, b], {}, a.bucket, now) == Cohort(a.bucket, [a.id], a.death, now > a.death)
    ensures CycleCohort([a, b], {}, b.bucket, now) == Cohort(b.bucket, [b.id], b.death, now > b.death)
  {
    var ms := [a, b];
    InBucketTwo(a, b, a.bucket);
    InBucketTwo(a, b, b.bucket);
    DropNone(ms, {});
    assert Ids([a]) == [a.id] && Ids([b]) == [b.id];
  }

  const EarlyPut := Entry(SomeKey, Put([1]), 1, 3599 * Second, 0)
  const LateDelete := Entry(SomeKey, Delete, 2, 3601 * Second, 0)

  lemma HourMetas()
    ensures MetaOf(0, [EarlyPut], Hour) == Meta(0, 0, 7199 * Second) && MetaOf(1, [LateDelete], Hour) == Meta(1, 1, 7201 * Second)
  {
  }

  lemma {:induction false} PutAndDeleteApart()
    ensures Apart([MetaOf(0, [EarlyPut], Hour), MetaOf(1, [LateDelete], Hour)], map[0 := [EarlyPut], 1 := [LateDelete]], 3602 * Second, Hour, EarlyPut, LateDelete)
  {
    HourMetas();
    var files0 := map[0 := [EarlyPut], 1 := [LateDelete]];
    TwoBuckets(Meta(0, 0, 7199 * Second), Meta(1, 1, 7201 * Second), 3602 * Second);
    OneFile(files0, 0);
    OneFile(files0, 1);
  }

  /** The key is put at 3599 s and deleted at 3601 s, each flushed at once, with one-hour cohorts. A cycle
      at 3602 s that visits both buckets, or just the second, brings the put back. */
  lemma {:induction false} DeletedKeyComesBack(ms0: seq<Meta>, files0: Files, ms: seq<Meta>, files: Files, done: set<int>)
    requires ms0 == [MetaOf(0, [EarlyPut], Hour), MetaOf(1, [LateDelete], Hour)] && files0 == map[0 := [EarlyPut], 1 := [LateDelete]]
    requires CycleOutcome(ms0, files0, ms, files, {}, done, 3602 * Second, Hour) && 1 in done
    ensures ValueOf(Newest(Tables(Contents(ms0, files0))), SomeKey) == None
    ensures ValueOf(Newest(Tables(Contents(ms, files))), SomeKey) == Some([1])
  {
    HourMetas();
    PutAndDeleteApart();
    ApartComesBack(ms0, files0, ms, files, done, 3602 * Second, Hour, EarlyPut, LateDelete);
  }

  // ---- Imported segments ----

  /** The metadata an import records: bucket 0 and death time 0, whatever the segment holds. */
  function ImportMeta(id: nat): Meta {
    Meta(id, 0, 0)
  }

  lemma {:induction false} OnlyInBucket(ms0: seq<Meta>, files0: Files, pins: set<nat>, bucket: int, now: int, b: int, e: Entry)
    requires forall m :: m in ms0 && e in FileOf(files0, m.id) ==> m.id !in pins && m.bucket == bucket
    requires e in BucketRecords(ms0, files0, pins, b, now)
    ensures b == bucket
  {
    var c := CycleCohort(ms0, pins, b, now);
    CohortMembers(c.ids, files0, e);
    var id :| id in c.ids && e in FileOf(files0, id);
    BucketMetas(ms0, pins, b, now, id);
  }

  /** A live record that nothing in its cohort shadows, held only by unpinned segments of one bucket, is
      lost if and only if the cycle has any budget and `now` is past the latest death time listed for
      the bucket. For imported segments that time is 0. */
  lemma {:induction false} LiveRecordLostIff(ms0: seq<Meta>, files0: Files, ms: seq<Meta>, files: Files, pins: set<nat>, done: set<int>, now: int, window: nat,
                                             budget: nat, bytes: nat, bucket: int, e: Entry)
    requires CycleOutcome(ms0, files0, ms, files, pins, done, now, window) && WithinBudget(ms0, pins, now, budget, bytes, done)
    requires e in BucketRecords(ms0, files0, pins, bucket, now) && !Excused(e, BucketRecords(ms0, files0, pins, bucket, now), now, window)
    requires forall m :: m in ms0 && e in FileOf(files0, m.id) ==> m.id !in pins && m.bucket == bucket
    ensures e !in All(ms, files) <==> budget > 0 && now > LatestDeath(InBucket(Drop(ms0, pins), bucket))
  {
    CycleExact(ms0, files0, ms, files, pins, done, now, window, e);
    InSomeSegment(ms0, files0, pins, bucket, now, e);
    if b :| b in done && Survivor(e, ms0, files0, pins, b, now, window) {
      OnlyInBucket(ms0, files0, pins, bucket, now, b, e);
    }
    if bucket in done && !CycleCohort(ms0, pins, bucket, now).expired {
      assert Survivor(e, ms0, files0, pins, bucket, now, window);
    }
  }

  lemma {:induction false} InSomeSegment(ms0: seq<Meta>, files0: Files, pins: set<nat>, bucket: int, now: int, e: Entry)
    requires e in BucketRecords(ms0, files0, pins, bucket, now)
    ensures bucket in Buckets(ms0, pins)
    ensures exists m :: m in ms0 && e in FileOf(files0, m.id) && m.bucket == bucket
  {
    var c := CycleCohort(ms0, pins, bucket, now);
    CohortMembers(c.ids, files0, e);
    var id :| id in c.ids && e in FileOf(files0, id);
    BucketMetas(ms0, pins, bucket, now, id);
    var m :| m in ms0 && m.id == id && m.id !in pins && m.bucket == bucket;
    DropMembers(ms0, pins);
    assert m in Drop(ms0, pins);
  }

  /** An empty store with one imported segment of one record. */
  method ImportOne(e: Entry, window: nat) returns (s: Store)
    requires Window(window) && RecordOk(e)
    ensures fresh(s) && fresh(s.manifest) && s.Valid() && s.window == window
    ensures s.manifest.segments == [ImportMeta(1)] && s.files == map[1 := [e]]
  {
    s := new Store(window);
    s.Register(ImportMeta(1), [e]);
  }

  method CompactImported(s: Store, e: Entry, now: int, budget: nat, size: seq<Entry> -> nat)
    requires s.Valid() && s.manifest.segments == [ImportMeta(1)] && s.files == map[1 := [e]]
    requires !Gone(e, now, s.window) && now > 0 && budget > 0
    modifies s, s.manifest
    ensures s.Records() == []
  {
    ghost var ms0, files0 := s.manifest.segments, s.files;
    ImportedStore(ms0, files0, e, now, s.window);
    OneRecordApart(e);
    var stats; ghost var done, visits;
    stats, done, visits := CompactCycle(s, now, {}, budget, size);
    ImportedGone(ms0, files0, e, now, s.window, s.manifest.segments, s.files, done, budget, stats.bytes);
  }

  lemma OneRecordApart(e: Entry)
    ensures OneRecordPerLsn([e])
  {
  }

  /** Imports a segment with one live record and runs a cycle: the record is gone. */
  method ImportThenCompact(e: Entry, now: int, window: nat, budget: nat, size: seq<Entry> -> nat) returns (s: Store)
    requires Window(window) && RecordOk(e) && !Gone(e, now, window) && now > 0 && budget > 0
    ensures s.Records() == []
  {
    s := ImportOne(e, window);
    CompactImported(s, e, now, budget, size);
  }

  lemma {:induction false} ImportedGone(ms0: seq<Meta>, files0: Files, e: Entry, now: int, window: nat, ms: seq<Meta>, files: Files, done: set<int>, budget: nat, bytes: nat)
    requires ms0 == [ImportMeta(1)] && files0 == map[1 := [e]] && !Gone(e, now, window) && now > 0 && budget > 0
    requires CycleOutcome(ms0, files0, ms, files, {}, done, now, window) && WithinBudget(ms0, {}, now, budget, bytes, done)
    ensures All(ms, files) == []
  {
    ImportedStore(ms0, files0, e, now, window);
    OnlyRecordLost(ms0, files0, ms, files, done, now, window, budget, bytes, e);
    NothingElse(ms0, files0, ms, files, done, now, window, e);
  }

  /** The only record of a store is live, and its bucket's listed death time is over. */
  lemma {:induction false} OnlyRecordLost(ms0: seq<Meta>, files0: Files, ms: seq<Meta>, files: Files, done: set<int>, now: int, window: nat, budget: nat, bytes: nat, e: Entry)
    requires CycleOutcome(ms0, files0, ms, files, {}, done, now, window) && WithinBudget(ms0, {}, now, budget, bytes, done) && budget > 0
    requires BucketRecords(ms0, files0, {}, 0, now) == [e] && !Excused(e, [e], now, window)
    requires (forall m :: m in ms0 ==> m.bucket == 0) && now > LatestDeath(InBucket(Drop(ms0, {}), 0))
    ensures e !in All(ms, files)
  {
    LiveRecordLostIff(ms0, files0, ms, files, {}, done, now, window, budget, bytes, 0, e);
  }

  lemma {:induction false} NothingElse(ms0: seq<Meta>, files0: Files, ms: seq<Meta>, files: Files, done: set<int>, now: int, window: nat, e: Entry)
    requires CycleOutcome(ms0, files0, ms, files, {}, done, now, window) && All(ms0, files0) == [e] && e !in All(ms, files)
    ensures All(ms, files) == []
  {
    if All(ms, files) != [] {
      var f := All(ms, files)[0];
      CycleWithin(ms0, files0, ms, files, {}, done, now, window, f);
      assert false;
    }
  }

  lemma {:induction false} OneSegmentStore(m: Meta, files: Files, now: int)
    ensures All([m], files) == FileOf(files, m.id)
    ensures CycleCohort([m], {}, m.bucket, now).ids == [m.id] && LatestDeath(InBucket(Drop([m], {}), m.bucket)) == m.death
  {
    DropNone([m], {});
    InBucketOne(m, m.bucket);
    OneFile(files, m.id);
    assert Ids([m]) == [m.id];
    assert Contents([m], files) == FilesOf([m.id], files);
  }

  lemma {:induction false} ImportedStore(ms0: seq<Meta>, files0: Files, e: Entry, now: int, window: nat)
    requires ms0 == [ImportMeta(1)] && files0 == map[1 := [e]] && !Gone(e, now, window) && now > 0
    ensures All(ms0, files0) == [e] && BucketRecords(ms0, files0, {}, 0, now) == [e] && !Excused(e, [e], now, window)
            && LatestDeath(InBucket(Drop(ms0, {}), 0)) == 0
  {
    OneSegmentStore(ImportMeta(1), files0, now);
    OneFile(files0, 1);
  }

  // ---- Records with a time to live ----

  /** A put with a time to live that nothing in its cohort shadows, in unpinned segments of one bucket, is
      listed after a cycle if and only if its bucket was not visited or its time is not over. */
  lemma {:induction false} TtlDecides(ms0: seq<Meta>, files0: Files, ms: seq<Meta>, files: Files, pins: set<nat>, done: set<int>, now: int, window: nat, bucket: int, e: Entry)
    requires CycleOutcome(ms0, files0, ms, files, pins, done, now, window) && Bounded(ms0, files0, window)
    requires e.op.Put? && MinI64 <= e.timestamp <= MaxI64 && 0 < e.ttl < 0x1_0000_0000
    requires e in BucketRecords(ms0, files0, pins, bucket, now) && !Outranked(e, BucketRecords(ms0, files0, pins, bucket, now))
    requires forall m :: m in ms0 && e in FileOf(files0, m.id) ==> m.id !in pins && m.bucket == bucket
    ensures var end := e.timestamp + e.ttl * NanosPerSecond;
            e in All(ms, files) <==> bucket !in done || now < if end > MaxI64 then MaxI64 else end
  {
    TtlDeath(e, window);
    CycleExact(ms0, files0, ms, files, pins, done, now, window, e);
    InSomeSegment(ms0, files0, pins, bucket, now, e);
    if CycleCohort(ms0, pins, bucket, now).expired {
      ExpiredIsDead(ms0, files0, pins, bucket, now, window, e);
    }
    if bucket in done && DeathTime(e, window) > now {
      assert Survivor(e, ms0, files0, pins, bucket, now, window);
    }
    if bucket !in done {
      var m :| m in ms0 && e in FileOf(files0, m.id) && m.bucket == bucket;
      assert Spared(m, pins, done);
    }
  }
}
