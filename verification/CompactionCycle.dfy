/** A compaction cycle over the store: which cohorts it visits under pins and a write budget, and
    exactly which records are listed afterwards. */
module CompactionCycle {
  import opened ByteStrings
  import opened Collections
  import opened Entries
  import opened Manifest
  import opened Compaction
  import opened Compactor
  import Scan
  import Paging

  datatype Stats = Stats(collected: nat, removed: nat, written: nat, bytes: nat, relocated: nat)

  /** The statistics after rewriting a cohort into `es`. */
  function Counted(stats: Stats, ids: seq<nat>, es: seq<Entry>, size: seq<Entry> -> nat): Stats {
    var s := stats.(collected := stats.collected + 1, removed := stats.removed + |ids|);
    if es == [] then s else s.(written := s.written + 1, bytes := s.bytes + size(es), relocated := s.relocated + |es|)
  }

  /** One visited cohort: its bucket, and the records written for it. */
  datatype Visit = Visit(bucket: int, es: seq<Entry>)

  function Total(visits: seq<Visit>, f: Visit -> nat): nat {
    if visits == [] then 0 else Total(visits[..|visits| - 1], f) + f(visits[|visits| - 1])
  }

  function Written(): Visit -> nat {
    (v: Visit) => if v.es == [] then 0 else 1
  }

  function Relocated(): Visit -> nat {
    (v: Visit) => |v.es|
  }

  function Cost(es: seq<Entry>, size: seq<Entry> -> nat): nat {
    if es == [] then 0 else size(es)
  }

  function BytesFor(size: seq<Entry> -> nat): Visit -> nat {
    (v: Visit) => Cost(v.es, size)
  }

  lemma TotalSnoc(visits: seq<Visit>, v: Visit, f: Visit -> nat)
    ensures Total(visits + [v], f) == Total(visits, f) + f(v)
  {
    assert (visits + [v])[..|visits|] == visits;
  }

  // ---- Crash points ----

  /** The manifest entries that rewriting a cohort appends: the new segment first, then the removals. */
  function RewriteLog(es: seq<Entry>, id: nat, ids: seq<nat>, window: nat): seq<LogEntry>
    requires Window(window)
  {
    (if es == [] then [] else [Add(MetaOf(id, es, window))]) + Removals(ids)
  }

  lemma {:induction false} RemovalPrefix(ids: seq<nat>, n: nat)
    requires n <= |ids|
    ensures Removals(ids)[..n] == Removals(ids[..n]) && IdSet(ids[..n]) <= IdSet(ids)
  {
  }

  /** Wherever the manifest's log ends inside a rewrite, the segments it lists hold every survivor of the
      cohort and everything outside it. Files are deleted only after the last entry. */
  lemma {:induction false} EveryCrashPointKeepsSurvivors(log: seq<LogEntry>, files: Files, ids: seq<nat>, es: seq<Entry>, id: nat, n: nat, now: int, window: nat)
    requires Window(window) && ListsAll(Replay(log), ids) && !Lists(Replay(log), id)
    requires Survives(es, CohortRecords(ids, files), now, window) && n <= |RewriteLog(es, id, ids, window)|
    ensures var onDisk := if es == [] then files else files[id := es];
            var listed := All(Replay(log + RewriteLog(es, id, ids, window)[..n]), onDisk);
            && (forall e :: e in es ==> e in listed)
            && RetainsBut(All(Replay(log), files), listed, CohortRecords(ids, files), now, window)
  {
    if es == [] {
      assert RewriteLog(es, id, ids, window) == Removals(ids);
      RemovalRetains(log, files, ids, n, now, window);
    } else {
      RewritePrefix(log, es, id, ids, n, window);
      if n == 0 {
        NewFileFrame(Replay(log), files, ids, id, es);
        UnchangedRetains(Replay(log), files, ids, now, window);
      } else {
        AfterAddRetains(log, files, ids, es, id, n - 1, now, window);
      }
    }
  }

  lemma {:induction false} UnchangedRetains(ms: seq<Meta>, files: Files, ids: seq<nat>, now: int, window: nat)
    requires ListsAll(ms, ids)
    ensures RetainsBut(All(ms, files), All(ms, files), CohortRecords(ids, files), now, window)
  {
    forall e | e in CohortRecords(ids, files)
      ensures e in All(ms, files)
    {
      CohortInAll(ms, files, ids, e);
    }
  }

  lemma {:induction false} RewritePrefix(log: seq<LogEntry>, es: seq<Entry>, id: nat, ids: seq<nat>, n: nat, window: nat)
    requires Window(window) && es != [] && n <= 1 + |ids|
    ensures log + RewriteLog(es, id, ids, window)[..n] ==
            if n == 0 then log else log + [Add(MetaOf(id, es, window))] + Removals(ids)[..n - 1]
  {
  }

  lemma {:induction false} RemovalRetains(log: seq<LogEntry>, files: Files, ids: seq<nat>, n: nat, now: int, window: nat)
    requires ListsAll(Replay(log), ids) && n <= |ids| && Survives([], CohortRecords(ids, files), now, window)
    ensures RetainsBut(All(Replay(log), files), All(Replay(log + Removals(ids)[..n]), files), CohortRecords(ids, files), now, window)
  {
    var none: seq<Entry> := [];
    assert forall e :: e !in none;
    RemovalPrefix(ids, n);
    ReplayRemovals(log, ids[..n]);
    DropRetains(Replay(log), files, ids, IdSet(ids[..n]), now, window);
  }

  /** A file that no listed segment names changes nothing. */
  lemma {:induction false} NewFileFrame(ms: seq<Meta>, files: Files, ids: seq<nat>, id: nat, es: seq<Entry>)
    requires ListsAll(ms, ids) && !Lists(ms, id)
    ensures id !in ids && All(ms, files) == All(ms, files[id := es])
    ensures CohortRecords(ids, files) == CohortRecords(ids, files[id := es])
  {
    AllFrame(ms, files, files[id := es]);
    assert id in ids ==> Lists(ms, id);
    CohortFrame(ids, files, files[id := es]);
  }

  lemma {:induction false} CohortFrame(ids: seq<nat>, files: Files, files': Files)
    requires forall id :: id in ids ==> FileOf(files, id) == FileOf(files', id)
    ensures CohortRecords(ids, files) == CohortRecords(ids, files')
  {
    assert forall i :: 0 <= i < |ids| ==> ids[i] in ids;
    assert FilesOf(ids, files) == FilesOf(ids, files');
  }

  lemma {:induction false} AfterAddRetains(log: seq<LogEntry>, files: Files, ids: seq<nat>, es: seq<Entry>, id: nat, n: nat, now: int, window: nat)
    requires Window(window) && ListsAll(Replay(log), ids) && !Lists(Replay(log), id) && es != [] && n <= |ids|
    requires Survives(es, CohortRecords(ids, files), now, window)
    ensures var log' := log + [Add(MetaOf(id, es, window))] + Removals(ids)[..n];
            RetainsBut(All(Replay(log), files), All(Replay(log'), files[id := es]), CohortRecords(ids, files), now, window)
  {
    var m, files' := MetaOf(id, es, window), files[id := es];
    NewFileFrame(Replay(log), files, ids, id, es);
    RemovalPrefix(ids, n);
    ReplaySnoc(log, Add(m));
    ReplayRemovals(log + [Add(m)], ids[..n]);
    RewriteRetains(Replay(log), files', ids, IdSet(ids[..n]), m, now, window);
  }

  // ---- Counting ----

  function AllIds(ms: seq<Meta>): set<nat> {
    set m | m in ms :: m.id
  }

  lemma {:induction false} DropCount(ms: seq<Meta>, ids: set<nat>)
    requires DistinctIds(ms)
    ensures |Drop(ms, ids)| == |ms| - |ids * AllIds(ms)|
  {
    if ms == [] {
      assert ids * AllIds(ms) == {};
    } else {
      var ms', m := ms[..|ms| - 1], ms[|ms| - 1];
      assert ms == ms' + [m];
      DropCount(ms', ids);
      assert m.id !in AllIds(ms');
      assert ids * AllIds(ms) == if m.id in ids then ids * AllIds(ms') + {m.id} else ids * AllIds(ms');
    }
  }

  lemma {:induction false} IdSetSize(ids: seq<nat>)
    requires NoRepeats(ids)
    ensures |IdSet(ids)| == |ids|
  {
    if ids == [] {
      assert IdSet(ids) == {};
    } else {
      var ids', id := ids[..|ids| - 1], ids[|ids| - 1];
      assert ids == ids' + [id];
      IdSetSize(ids');
      assert IdSet(ids) == IdSet(ids') + {id};
    }
  }

  lemma {:induction false} RemovedCount(ms: seq<Meta>, ids: seq<nat>)
    requires DistinctIds(ms) && NoRepeats(ids) && ListsAll(ms, ids)
    ensures |Drop(ms, IdSet(ids))| == |ms| - |ids|
  {
    DropCount(ms, IdSet(ids));
    IdSetSize(ids);
    assert IdSet(ids) * AllIds(ms) == IdSet(ids) by {
      forall id | id in IdSet(ids)
        ensures id in AllIds(ms)
      {
        assert Lists(ms, id);
      }
    }
  }

  // ---- What a cycle leaves ----

  /** The cohort a cycle forms for a bucket: the unpinned segments of that bucket. */
  function CycleCohort(ms0: seq<Meta>, pins: set<nat>, bucket: int, now: int): Cohort {
    CohortOf(Drop(ms0, pins), bucket, now)
  }

  /** The records of that cohort. */
  function BucketRecords(ms0: seq<Meta>, files0: Files, pins: set<nat>, bucket: int, now: int): seq<Entry> {
    CohortRecords(CycleCohort(ms0, pins, bucket, now).ids, files0)
  }

  /** `e` is rewritten when its bucket is visited: the cohort is not fully expired, and `e` is a live put
      that nothing in the cohort shadows. */
  ghost predicate Survivor(e: Entry, ms0: seq<Meta>, files0: Files, pins: set<nat>, bucket: int, now: int, window: nat) {
    var all := BucketRecords(ms0, files0, pins, bucket, now);
    !CycleCohort(ms0, pins, bucket, now).expired && e in all && !Excused(e, all, now, window)
  }

  /** The cycle does not touch the segment: it is pinned, or its bucket was not visited. */
  predicate Spared(m: Meta, pins: set<nat>, done: set<int>) {
    m.id in pins || m.bucket !in done
  }

  /** Old segments still listed are exactly the spared ones, with their files. */
  ghost predicate OldListed(ms0: seq<Meta>, files0: Files, ms: seq<Meta>, files: Files, pins: set<nat>, done: set<int>) {
    && (forall m :: m in ms && m.id < NextId(ms0) <==> m in ms0 && Spared(m, pins, done))
    && (forall m :: m in ms0 && Spared(m, pins, done) ==> FileOf(files, m.id) == FileOf(files0, m.id))
  }

  /** `e` is in a segment written by this cycle. */
  ghost predicate InNew(e: Entry, ms0: seq<Meta>, ms: seq<Meta>, files: Files) {
    exists m :: m in ms && m.id >= NextId(ms0) && e in FileOf(files, m.id)
  }

  ghost predicate SurvivorOf(e: Entry, ms0: seq<Meta>, files0: Files, pins: set<nat>, done: set<int>, now: int, window: nat) {
    exists b :: b in done && Survivor(e, ms0, files0, pins, b, now, window)
  }

  /** New segments hold exactly the survivors of the visited buckets. */
  ghost predicate NewListed(ms0: seq<Meta>, files0: Files, ms: seq<Meta>, files: Files, pins: set<nat>, done: set<int>, now: int, window: nat) {
    forall e :: InNew(e, ms0, ms, files) <==> SurvivorOf(e, ms0, files0, pins, done, now, window)
  }

  /** The segment is listed as a flush or a rewrite of its file lists it. */
  ghost predicate Described(m: Meta, files: Files, window: nat) {
    Window(window) && m.id in files && files[m.id] != [] && m == MetaOf(m.id, files[m.id], window)
  }

  ghost predicate NewDescribed(ms0: seq<Meta>, ms: seq<Meta>, files: Files, window: nat) {
    forall m :: m in ms && m.id >= NextId(ms0) ==> Described(m, files, window)
  }

  /** What a compaction cycle that visited the buckets `done` does to the store. */
  ghost predicate CycleOutcome(ms0: seq<Meta>, files0: Files, ms: seq<Meta>, files: Files, pins: set<nat>, done: set<int>, now: int, window: nat) {
    && WellFormed(ms, files) && OldListed(ms0, files0, ms, files, pins, done)
    && NewListed(ms0, files0, ms, files, pins, done, now, window) && NewDescribed(ms0, ms, files, window)
  }

  ghost predicate InSpared(e: Entry, ms0: seq<Meta>, files0: Files, pins: set<nat>, done: set<int>) {
    exists m :: m in ms0 && Spared(m, pins, done) && e in FileOf(files0, m.id)
  }

  /** A record is listed after a cycle exactly when a spared segment holds it or it survives its cohort. */
  lemma {:induction false} CycleExact(ms0: seq<Meta>, files0: Files, ms: seq<Meta>, files: Files, pins: set<nat>, done: set<int>, now: int, window: nat, e: Entry)
    requires CycleOutcome(ms0, files0, ms, files, pins, done, now, window)
    ensures e in All(ms, files) <==> InSpared(e, ms0, files0, pins, done) || SurvivorOf(e, ms0, files0, pins, done, now, window)
  {
    AllMembers(ms, files, e);
    if m :| m in ms && e in FileOf(files, m.id) {
      if m.id >= NextId(ms0) {
        assert InNew(e, ms0, ms, files);
      }
    }
    if SurvivorOf(e, ms0, files0, pins, done, now, window) {
      assert InNew(e, ms0, ms, files);
    }
    if m :| m in ms0 && Spared(m, pins, done) && e in FileOf(files0, m.id) {
      assert m in ms;
    }
  }

  lemma {:induction false} InOwnBucket(ms0: seq<Meta>, files0: Files, pins: set<nat>, m: Meta, now: int, e: Entry)
    requires m in ms0 && m.id !in pins && e in FileOf(files0, m.id)
    ensures e in BucketRecords(ms0, files0, pins, m.bucket, now)
  {
    var mine := InBucket(Drop(ms0, pins), m.bucket);
    DropMembers(ms0, pins);
    InBucketMembers(Drop(ms0, pins), m.bucket);
    IdsMembers(mine, m.id);
    CohortMembers(Ids(mine), files0, e);
  }

  /** A record is lost only from an unpinned segment of a visited bucket, and only if that cohort was
      fully expired or the record is a tombstone, dead, or shadowed within its own cohort. */
  lemma {:induction false} CycleLosesOnly(ms0: seq<Meta>, files0: Files, ms: seq<Meta>, files: Files, pins: set<nat>, done: set<int>, now: int, window: nat, m: Meta, e: Entry)
    requires CycleOutcome(ms0, files0, ms, files, pins, done, now, window) && m in ms0 && e in FileOf(files0, m.id)
    ensures e in All(ms, files) || (m.id !in pins && m.bucket in done
              && (CycleCohort(ms0, pins, m.bucket, now).expired || Excused(e, BucketRecords(ms0, files0, pins, m.bucket, now), now, window)))
  {
    CycleExact(ms0, files0, ms, files, pins, done, now, window, e);
    if !Spared(m, pins, done) {
      InOwnBucket(ms0, files0, pins, m, now, e);
    } else {
      assert InSpared(e, ms0, files0, pins, done);
    }
  }

  // ---- Stores whose death times bound their records ----

  lemma {:induction false} BucketMetas(ms0: seq<Meta>, pins: set<nat>, bucket: int, now: int, id: nat)
    requires id in CycleCohort(ms0, pins, bucket, now).ids
    ensures exists m :: m in ms0 && m.id == id && m.id !in pins && m.bucket == bucket && m.death <= CycleCohort(ms0, pins, bucket, now).maxDeath
  {
    var mine := InBucket(Drop(ms0, pins), bucket);
    IdsMembers(mine, id);
    var m :| m in mine && m.id == id;
    InBucketMembers(Drop(ms0, pins), bucket);
    DropMembers(ms0, pins);
    LatestDeathBounds(mine, m);
  }

  /** Every record of a fully expired cohort is dead, if death times bound the records. */
  lemma {:induction false} ExpiredIsDead(ms0: seq<Meta>, files0: Files, pins: set<nat>, bucket: int, now: int, window: nat, e: Entry)
    requires Bounded(ms0, files0, window) && CycleCohort(ms0, pins, bucket, now).expired
    requires e in BucketRecords(ms0, files0, pins, bucket, now)
    ensures Gone(e, now, window)
  {
    var c := CycleCohort(ms0, pins, bucket, now);
    CohortMembers(c.ids, files0, e);
    var id :| id in c.ids && e in FileOf(files0, id);
    BucketMetas(ms0, pins, bucket, now, id);
  }

  lemma {:induction false} DescribedBounds(m: Meta, files: Files, window: nat, e: Entry)
    requires Described(m, files, window) && e in FileOf(files, m.id)
    ensures DeathTime(e, window) <= m.death
  {
    MetaRecords(m.id, files[m.id], window);
  }

  /** A cycle keeps death times bounding the records: spared segments keep theirs, and the written ones
      record the latest of their survivors. */
  lemma {:induction false} CycleKeepsBounded(ms0: seq<Meta>, files0: Files, ms: seq<Meta>, files: Files, pins: set<nat>, done: set<int>, now: int, window: nat)
    requires CycleOutcome(ms0, files0, ms, files, pins, done, now, window) && Bounded(ms0, files0, window)
    ensures Bounded(ms, files, window)
  {
    forall m, e | m in ms && e in FileOf(files, m.id)
      ensures DeathTime(e, window) <= m.death
    {
      if m.id >= NextId(ms0) {
        DescribedBounds(m, files, window, e);
      }
    }
  }

  lemma {:induction false} AddKeepsBounded(ms: seq<Meta>, files: Files, window: nat, id: nat, es: seq<Entry>)
    requires Window(window) && Bounded(ms, files, window) && es != [] && !Lists(ms, id)
    ensures Bounded(ms + [MetaOf(id, es, window)], files[id := es], window)
  {
    MetaRecords(id, es, window);
    assert forall m :: m in ms ==> m.id != id;
  }

  lemma {:induction false} DropKeepsBounded(ms: seq<Meta>, files: Files, window: nat, gone: set<nat>)
    requires Bounded(ms, files, window)
    ensures Bounded(Drop(ms, gone), files - gone, window)
  {
    DropMembers(ms, gone);
  }

  lemma {:induction false} ReplaceKeepsBounded(ms: seq<Meta>, files: Files, window: nat, id: nat, es: seq<Entry>, gone: set<nat>)
    requires Window(window) && es != [] && !Lists(ms, id)
    ensures Bounded(ms, files, window) ==> Bounded(Drop(ms + [MetaOf(id, es, window)], gone), files[id := es] - gone, window)
  {
    if Bounded(ms, files, window) {
      AddKeepsBounded(ms, files, window, id, es);
      DropKeepsBounded(ms + [MetaOf(id, es, window)], files[id := es], window, gone);
    }
  }

  lemma {:induction false} BucketInAll(ms0: seq<Meta>, files0: Files, pins: set<nat>, bucket: int, now: int, e: Entry)
    requires e in BucketRecords(ms0, files0, pins, bucket, now)
    ensures e in All(ms0, files0)
  {
    var c := CycleCohort(ms0, pins, bucket, now);
    CohortMembers(c.ids, files0, e);
    var id :| id in c.ids && e in FileOf(files0, id);
    BucketMetas(ms0, pins, bucket, now, id);
    AllMembers(ms0, files0, e);
  }

  /** Nothing is invented. */
  lemma {:induction false} CycleWithin(ms0: seq<Meta>, files0: Files, ms: seq<Meta>, files: Files, pins: set<nat>, done: set<int>, now: int, window: nat, e: Entry)
    requires CycleOutcome(ms0, files0, ms, files, pins, done, now, window) && e in All(ms, files)
    ensures e in All(ms0, files0)
  {
    CycleExact(ms0, files0, ms, files, pins, done, now, window, e);
    if m :| m in ms0 && Spared(m, pins, done) && e in FileOf(files0, m.id) {
      AllMembers(ms0, files0, e);
    } else {
      var b :| b in done && Survivor(e, ms0, files0, pins, b, now, window);
      BucketInAll(ms0, files0, pins, b, now, e);
    }
  }

  lemma {:induction false} LostIsExcused(ms0: seq<Meta>, files0: Files, ms: seq<Meta>, files: Files, pins: set<nat>, done: set<int>, now: int, window: nat, m: Meta, e: Entry)
    requires CycleOutcome(ms0, files0, ms, files, pins, done, now, window) && Bounded(ms0, files0, window) && m in ms0 && e in FileOf(files0, m.id)
    ensures e in All(ms, files) || (m.id !in pins && Excused(e, BucketRecords(ms0, files0, pins, m.bucket, now), now, window) && Excused(e, All(ms0, files0), now, window))
  {
    CycleLosesOnly(ms0, files0, ms, files, pins, done, now, window, m, e);
    if e !in All(ms, files) {
      InOwnBucket(ms0, files0, pins, m, now, e);
      if CycleCohort(ms0, pins, m.bucket, now).expired {
        ExpiredIsDead(ms0, files0, pins, m.bucket, now, window, e);
      }
      WiderExcuse(ms0, files0, pins, m.bucket, now, window, e);
    }
  }

  /** With bounding death times a cycle loses only tombstones, dead records and records shadowed within
      their own cohort. */
  lemma {:induction false} CycleRetains(ms0: seq<Meta>, files0: Files, ms: seq<Meta>, files: Files, pins: set<nat>, done: set<int>, now: int, window: nat)
    requires CycleOutcome(ms0, files0, ms, files, pins, done, now, window) && Bounded(ms0, files0, window)
    ensures Retains(All(ms0, files0), All(ms, files), now, window)
    ensures forall m, e :: m in ms0 && e in FileOf(files0, m.id) ==>
              e in All(ms, files) || (m.id !in pins && Excused(e, BucketRecords(ms0, files0, pins, m.bucket, now), now, window))
  {
    forall e | e in All(ms, files)
      ensures e in All(ms0, files0)
    {
      CycleWithin(ms0, files0, ms, files, pins, done, now, window, e);
    }
    forall m, e | m in ms0 && e in FileOf(files0, m.id)
      ensures e in All(ms, files) || (m.id !in pins && Excused(e, BucketRecords(ms0, files0, pins, m.bucket, now), now, window))
    {
      LostIsExcused(ms0, files0, ms, files, pins, done, now, window, m, e);
    }
    forall e | e in All(ms0, files0)
      ensures e in All(ms, files) || Excused(e, All(ms0, files0), now, window)
    {
      AllMembers(ms0, files0, e);
      var m :| m in ms0 && e in FileOf(files0, m.id);
      LostIsExcused(ms0, files0, ms, files, pins, done, now, window, m, e);
    }
  }

  lemma {:induction false} WiderExcuse(ms0: seq<Meta>, files0: Files, pins: set<nat>, bucket: int, now: int, window: nat, e: Entry)
    requires Excused(e, BucketRecords(ms0, files0, pins, bucket, now), now, window)
    ensures Excused(e, All(ms0, files0), now, window)
  {
    if !Gone(e, now, window) {
      var f :| f in BucketRecords(ms0, files0, pins, bucket, now) && f.key == e.key && f.lsn > e.lsn;
      BucketInAll(ms0, files0, pins, bucket, now, f);
    }
  }

  /** So a range scan over the listed segments returns every unexpired record before and after. */
  lemma {:induction false} CycleKeepsScans(ms0: seq<Meta>, files0: Files, ms: seq<Meta>, files: Files, pins: set<nat>, done: set<int>, now: int, window: nat,
                                           lo: Bytes, hi: Bytes, e: Entry)
    requires CycleOutcome(ms0, files0, ms, files, pins, done, now, window) && WellFormed(ms0, files0) && Bounded(ms0, files0, window)
    requires OneRecordPerLsn(All(ms0, files0))
    requires e in Puts(Scan.SegmentList(Contents(ms0, files0), lo, hi)) && DeathTime(e, window) > now
    ensures e in Puts(Scan.SegmentList(Contents(ms, files), lo, hi))
  {
    CycleRetains(ms0, files0, ms, files, pins, done, now, window);
    WellFormedSorted(ms0, files0);
    WellFormedSorted(ms, files);
    ScanKeepsLiveKeys(Contents(ms0, files0), Contents(ms, files), now, window, lo, hi, e);
  }

  // ---- The cycle's steps ----

  /** One past the highest listed id, 1 for an empty list. */
  function NextId(ms: seq<Meta>): (n: nat)
    ensures n > 0 && forall m :: m in ms ==> m.id < n
  {
    if ms == [] then 1
    else
      assert ms == ms[..|ms| - 1] + [ms[|ms| - 1]];
      var n := NextId(ms[..|ms| - 1]);
      if ms[|ms| - 1].id >= n then ms[|ms| - 1].id + 1 else n
  }

  ghost predicate Ongoing(ms0: seq<Meta>, files0: Files, ms: seq<Meta>, files: Files, pins: set<nat>, done: set<int>, now: int, window: nat, nextId: nat) {
    && CycleOutcome(ms0, files0, ms, files, pins, done, now, window)
    && nextId >= NextId(ms0) && (forall m :: m in ms ==> m.id < nextId)
  }

  lemma {:induction false} StartCycle(ms0: seq<Meta>, files0: Files, pins: set<nat>, now: int, window: nat)
    requires WellFormed(ms0, files0)
    ensures Ongoing(ms0, files0, ms0, files0, pins, {}, now, window, NextId(ms0))
  {
  }

  /** Which ids a bucket's cohort has. */
  lemma {:induction false} CohortIdIff(ms0: seq<Meta>, pins: set<nat>, bucket: int, now: int, m: Meta)
    requires DistinctIds(ms0) && m in ms0
    ensures m.id in CycleCohort(ms0, pins, bucket, now).ids <==> m.id !in pins && m.bucket == bucket
  {
    var mine := InBucket(Drop(ms0, pins), bucket);
    DropMembers(ms0, pins);
    InBucketMembers(Drop(ms0, pins), bucket);
    IdsMembers(mine, m.id);
    if m.id in Ids(mine) {
      var x :| x in mine && x.id == m.id;
      SameIdSameMeta(ms0, m, x);
    }
  }

  lemma {:induction false} SameIdSameMeta(ms: seq<Meta>, a: Meta, b: Meta)
    requires DistinctIds(ms) && a in ms && b in ms && a.id == b.id
    ensures a == b
  {
  }

  lemma {:induction false} CohortIdsOld(ms0: seq<Meta>, pins: set<nat>, bucket: int, now: int, id: nat)
    requires id in CycleCohort(ms0, pins, bucket, now).ids
    ensures id < NextId(ms0)
  {
    BucketMetas(ms0, pins, bucket, now, id);
  }

  /** A cohort not visited yet is listed with the files it had. */
  lemma {:induction false} CohortIntact(ms0: seq<Meta>, files0: Files, ms: seq<Meta>, files: Files, pins: set<nat>, done: set<int>, bucket: int, now: int)
    requires OldListed(ms0, files0, ms, files, pins, done) && bucket !in done
    ensures ListsAll(ms, CycleCohort(ms0, pins, bucket, now).ids)
    ensures CohortRecords(CycleCohort(ms0, pins, bucket, now).ids, files) == BucketRecords(ms0, files0, pins, bucket, now)
  {
    var ids := CycleCohort(ms0, pins, bucket, now).ids;
    forall id | id in ids
      ensures Lists(ms, id) && FileOf(files, id) == FileOf(files0, id)
    {
      BucketMetas(ms0, pins, bucket, now, id);
      var m :| m in ms0 && m.id == id && m.id !in pins && m.bucket == bucket;
      assert Spared(m, pins, done) && m in ms;
    }
    CohortFrame(ids, files, files0);
  }

  lemma {:induction false} CohortDistinct(ms0: seq<Meta>, pins: set<nat>, bucket: int, now: int)
    requires DistinctIds(ms0)
    ensures NoRepeats(CycleCohort(ms0, pins, bucket, now).ids)
  {
    DropDistinct(ms0, pins);
    InBucketDistinct(Drop(ms0, pins), bucket);
  }

  /** Dropping a bucket's cohort leaves exactly the segments spared from then on. */
  lemma {:induction false} OldAfter(ms0: seq<Meta>, files0: Files, ms: seq<Meta>, files: Files, pins: set<nat>, done: set<int>, bucket: int, now: int,
                                    ms': seq<Meta>, files': Files)
    requires DistinctIds(ms0) && OldListed(ms0, files0, ms, files, pins, done) && bucket !in done
    requires var ids := CycleCohort(ms0, pins, bucket, now).ids;
             && (forall m: Meta :: m.id < NextId(ms0) ==> (m in ms' <==> m in ms && m.id !in ids))
             && (forall id: nat :: id < NextId(ms0) && id !in ids ==> FileOf(files', id) == FileOf(files, id))
    ensures OldListed(ms0, files0, ms', files', pins, done + {bucket})
  {
    forall m | m in ms0
      ensures Spared(m, pins, done + {bucket}) <==> Spared(m, pins, done) && m.id !in CycleCohort(ms0, pins, bucket, now).ids
    {
      CohortIdIff(ms0, pins, bucket, now, m);
    }
  }

  /** The new segments after a step: those before it and `es`, the survivors of the bucket. */
  lemma {:induction false} NewAfter(ms0: seq<Meta>, files0: Files, ms: seq<Meta>, files: Files, pins: set<nat>, done: set<int>, bucket: int, now: int, window: nat,
                                    ms': seq<Meta>, files': Files, es: seq<Entry>)
    requires NewListed(ms0, files0, ms, files, pins, done, now, window)
    requires forall e :: InNew(e, ms0, ms', files') <==> InNew(e, ms0, ms, files) || e in es
    requires forall e :: e in es <==> Survivor(e, ms0, files0, pins, bucket, now, window)
    ensures NewListed(ms0, files0, ms', files', pins, done + {bucket}, now, window)
  {
    forall e
      ensures SurvivorOf(e, ms0, files0, pins, done + {bucket}, now, window) <==> SurvivorOf(e, ms0, files0, pins, done, now, window) || e in es
    {
      if b :| b in done && Survivor(e, ms0, files0, pins, b, now, window) {
        assert b in done + {bucket};
      }
      if e in es {
        assert bucket in done + {bucket};
      }
    }
  }

  /** Visiting a bucket without survivors: its segments are dropped. */
  lemma {:induction false} DropStep(ms0: seq<Meta>, files0: Files, ms: seq<Meta>, files: Files, pins: set<nat>, done: set<int>, bucket: int, now: int, window: nat, nextId: nat)
    requires DistinctIds(ms0) && Ongoing(ms0, files0, ms, files, pins, done, now, window, nextId) && bucket !in done
    requires forall e :: !Survivor(e, ms0, files0, pins, bucket, now, window)
    ensures var gone := IdSet(CycleCohort(ms0, pins, bucket, now).ids);
            Ongoing(ms0, files0, Drop(ms, gone), files - gone, pins, done + {bucket}, now, window, nextId)
  {
    var ids := CycleCohort(ms0, pins, bucket, now).ids;
    var gone := IdSet(ids);
    DropMembers(ms, gone);
    DropWellFormed(ms, files, gone);
    OldAfter(ms0, files0, ms, files, pins, done, bucket, now, Drop(ms, gone), files - gone);
    forall e
      ensures InNew(e, ms0, Drop(ms, gone), files - gone) <==> InNew(e, ms0, ms, files)
    {
      NewKept(ms0, ms, files, pins, bucket, now, e);
    }
    NewAfter(ms0, files0, ms, files, pins, done, bucket, now, window, Drop(ms, gone), files - gone, []);
    StillDescribed(ms0, ms, files, pins, bucket, now, window);
  }

  lemma {:induction false} StillDescribed(ms0: seq<Meta>, ms: seq<Meta>, files: Files, pins: set<nat>, bucket: int, now: int, window: nat)
    requires NewDescribed(ms0, ms, files, window)
    ensures var gone := IdSet(CycleCohort(ms0, pins, bucket, now).ids); NewDescribed(ms0, Drop(ms, gone), files - gone, window)
  {
    var gone := IdSet(CycleCohort(ms0, pins, bucket, now).ids);
    DropMembers(ms, gone);
    forall id | id in gone
      ensures id < NextId(ms0)
    {
      CohortIdsOld(ms0, pins, bucket, now, id);
    }
  }

  lemma {:induction false} MoreDescribed(ms0: seq<Meta>, ms: seq<Meta>, files: Files, window: nat, nextId: nat, es: seq<Entry>)
    requires NewDescribed(ms0, ms, files, window) && Window(window) && es != [] && forall m :: m in ms ==> m.id < nextId
    ensures NewDescribed(ms0, ms + [MetaOf(nextId, es, window)], files[nextId := es], window)
  {
  }

  lemma {:induction false} NewKept(ms0: seq<Meta>, ms: seq<Meta>, files: Files, pins: set<nat>, bucket: int, now: int, e: Entry)
    ensures var gone := IdSet(CycleCohort(ms0, pins, bucket, now).ids);
            InNew(e, ms0, Drop(ms, gone), files - gone) <==> InNew(e, ms0, ms, files)
  {
    var gone := IdSet(CycleCohort(ms0, pins, bucket, now).ids);
    DropMembers(ms, gone);
    forall id | id in gone
      ensures id < NextId(ms0)
    {
      CohortIdsOld(ms0, pins, bucket, now, id);
    }
    if m :| m in ms && m.id >= NextId(ms0) && e in FileOf(files, m.id) {
      assert m in Drop(ms, gone) && e in FileOf(files - gone, m.id);
    }
  }

  /** Visiting a bucket with survivors: they become segment `nextId`. */
  lemma {:induction false} RewriteStep(ms0: seq<Meta>, files0: Files, ms: seq<Meta>, files: Files, pins: set<nat>, done: set<int>, bucket: int, now: int, window: nat,
                                       nextId: nat, es: seq<Entry>, m: Meta)
    requires DistinctIds(ms0) && Ongoing(ms0, files0, ms, files, pins, done, now, window, nextId) && bucket !in done && m.id == nextId
    requires es != [] && Sorted(es) && RecordsOk(es) && forall e :: e in es <==> Survivor(e, ms0, files0, pins, bucket, now, window)
    requires Window(window) && m == MetaOf(nextId, es, window)
    ensures var gone := IdSet(CycleCohort(ms0, pins, bucket, now).ids);
            Ongoing(ms0, files0, Drop(ms + [m], gone), files[nextId := es] - gone, pins, done + {bucket}, now, window, nextId + 1)
  {
    var ids := CycleCohort(ms0, pins, bucket, now).ids;
    var gone, ms1, files1 := IdSet(ids), ms + [m], files[nextId := es];
    assert !Lists(ms, nextId);
    AddWellFormed(ms, files, m, es);
    DropWellFormed(ms1, files1, gone);
    DropMembers(ms1, gone);
    OldAfter(ms0, files0, ms, files, pins, done, bucket, now, Drop(ms1, gone), files1 - gone);
    forall e
      ensures InNew(e, ms0, Drop(ms1, gone), files1 - gone) <==> InNew(e, ms0, ms, files) || e in es
    {
      NewKept(ms0, ms1, files1, pins, bucket, now, e);
      NewAdded(ms0, ms, files, nextId, es, m, e);
    }
    NewAfter(ms0, files0, ms, files, pins, done, bucket, now, window, Drop(ms1, gone), files1 - gone, es);
    MoreDescribed(ms0, ms, files, window, nextId, es);
    StillDescribed(ms0, ms1, files1, pins, bucket, now, window);
  }

  lemma {:induction false} NewAdded(ms0: seq<Meta>, ms: seq<Meta>, files: Files, nextId: nat, es: seq<Entry>, m: Meta, e: Entry)
    requires m.id == nextId >= NextId(ms0) && forall x :: x in ms ==> x.id < nextId
    ensures InNew(e, ms0, ms + [m], files[nextId := es]) <==> InNew(e, ms0, ms, files) || e in es
  {
    var ms1, files1 := ms + [m], files[nextId := es];
    if x :| x in ms && x.id >= NextId(ms0) && e in FileOf(files, x.id) {
      assert x in ms1 && e in FileOf(files1, x.id);
    }
    if e in es {
      assert m in ms1 && e in FileOf(files1, m.id);
    }
    if x :| x in ms1 && x.id >= NextId(ms0) && e in FileOf(files1, x.id) {
      assert x in ms || x == m;
    }
  }

  lemma {:induction false} StepCount(ms0: seq<Meta>, files0: Files, ms: seq<Meta>, files: Files, pins: set<nat>, done: set<int>, bucket: int, now: int, window: nat, nextId: nat, m: Meta)
    requires DistinctIds(ms0) && Ongoing(ms0, files0, ms, files, pins, done, now, window, nextId) && bucket !in done && m.id == nextId
    ensures var ids := CycleCohort(ms0, pins, bucket, now).ids;
            |Drop(ms, IdSet(ids))| == |ms| - |ids| && |Drop(ms + [m], IdSet(ids))| == |ms| - |ids| + 1
  {
    var ids := CycleCohort(ms0, pins, bucket, now).ids;
    CohortIntact(ms0, files0, ms, files, pins, done, bucket, now);
    CohortDistinct(ms0, pins, bucket, now);
    RemovedCount(ms, ids);
    DropSnoc(ms, m, IdSet(ids));
    assert nextId in ids ==> Lists(ms, nextId);
  }

  // ---- The store ----

  class Store {
    const window: nat
    const manifest: ManifestFile
    var files: Files

    ghost predicate Valid()
      reads this, manifest
    {
      manifest.Valid() && Window(window) && WellFormed(manifest.segments, files)
    }

    function Records(): seq<Entry>
      reads this, manifest
    {
      All(manifest.segments, files)
    }

    constructor (window: nat)
      requires Window(window)
      ensures Valid() && manifest.segments == [] && manifest.log == [] && files == map[] && fresh(manifest) && this.window == window
    {
      this.window := window;
      manifest := new ManifestFile([]);
      files := map[];
    }

    /** Lists a segment whose file has been written, as a flush or an import does. */
    method Register(meta: Meta, es: seq<Entry>)
      requires Valid() && !Lists(manifest.segments, meta.id) && es != [] && Sorted(es) && RecordsOk(es)
      modifies this, manifest
      ensures Valid() && manifest.segments == old(manifest.segments) + [meta] && files == old(files)[meta.id := es]
    {
      AddWellFormed(manifest.segments, files, meta, es);
      files := files[meta.id := es];
      manifest.AddSegment(meta);
    }

    /** Lists a flushed segment as its writer describes it. */
    method Flush(id: nat, es: seq<Entry>)
      requires Valid() && !Lists(manifest.segments, id) && es != [] && Sorted(es) && RecordsOk(es)
      modifies this, manifest
      ensures Valid() && manifest.segments == old(manifest.segments) + [MetaOf(id, es, window)] && files == old(files)[id := es]
      ensures Bounded(old(manifest.segments), old(files), window) ==> Bounded(manifest.segments, files, window)
    {
      if Bounded(manifest.segments, files, window) {
        AddKeepsBounded(manifest.segments, files, window, id, es);
      }
      Register(MetaOf(id, es, window), es);
    }

    /** Manifest first, then the files. */
    method CollectExpired(cohort: Cohort, stats: Stats) returns (r: Stats)
      requires Valid()
      modifies this, manifest
      ensures Valid()
      ensures manifest.segments == Drop(old(manifest.segments), IdSet(cohort.ids)) && manifest.log == old(manifest.log) + Removals(cohort.ids)
      ensures files == old(files) - IdSet(cohort.ids)
      ensures r == Counted(stats, cohort.ids, [], _ => 0)
      ensures Bounded(old(manifest.segments), old(files), window) ==> Bounded(manifest.segments, files, window)
    {
      if Bounded(manifest.segments, files, window) {
        DropKeepsBounded(manifest.segments, files, window, IdSet(cohort.ids));
      }
      DropWellFormed(manifest.segments, files, IdSet(cohort.ids));
      manifest.RemoveSegments(cohort.ids);
      files := files - IdSet(cohort.ids);
      r := stats.(removed := stats.removed + |cohort.ids|, collected := stats.collected + 1);
    }

    /** Merges the cohort and computes its survivors, in key order. */
    method CollectSurvivors(cohort: Cohort, now: int) returns (es: seq<Entry>)
      requires Valid() && ListsAll(manifest.segments, cohort.ids) && OneRecordPerLsn(Records())
      ensures Survives(es, CohortRecords(cohort.ids, files), now, window) && RecordsOk(es)
    {
      ghost var all := CohortRecords(cohort.ids, files);
      forall id | id in cohort.ids
        ensures RecordsOk(FileOf(files, id))
      {
        CohortFileOk(manifest.segments, files, cohort.ids, id);
      }
      forall e | e in all
        ensures RecordOk(e) && e in Records()
      {
        CohortMembers(cohort.ids, files, e);
        CohortInAll(manifest.segments, files, cohort.ids, e);
      }
      FullScanIsWhole(cohort.ids, files);
      var merged := MergeCohort(cohort.ids, files);
      es := Paging.SortedEntries(Survivors(merged, now, window));
      SurvivorsSurvive(merged, all, es, now, window);
    }

    method ReplaceCohort(cohort: Cohort, id: nat, es: seq<Entry>, ghost m: Meta)
      requires Valid() && !Lists(manifest.segments, id) && es != [] && Sorted(es) && RecordsOk(es) && m == MetaOf(id, es, window)
      modifies this, manifest
      ensures Valid()
      ensures manifest.segments == Drop(old(manifest.segments) + [m], IdSet(cohort.ids))
      ensures manifest.log == old(manifest.log) + RewriteLog(es, id, cohort.ids, window)
      ensures files == old(files)[id := es] - IdSet(cohort.ids)
      ensures Bounded(old(manifest.segments), old(files), window) ==> Bounded(manifest.segments, files, window)
    {
      ReplaceKeepsBounded(manifest.segments, files, window, id, es, IdSet(cohort.ids));
      AddWellFormed(manifest.segments, files, m, es);
      DropWellFormed(manifest.segments + [m], files[id := es], IdSet(cohort.ids));
      RewriteAppends(manifest.log, es, id, cohort.ids, window);
      files := files[id := es];
      manifest.AddSegment(MetaOf(id, es, window));
      manifest.RemoveSegments(cohort.ids);
      files := files - IdSet(cohort.ids);
    }

    /** Writes the survivors to a new segment, lists it, and only then removes the old ones. Without
        survivors the cohort is just removed. */
    method CompactPartial(cohort: Cohort, now: int, nextId: nat, size: seq<Entry> -> nat, stats: Stats) returns (r: Stats, ghost es: seq<Entry>)
      requires Valid() && ListsAll(manifest.segments, cohort.ids) && !Lists(manifest.segments, nextId) && OneRecordPerLsn(Records())
      modifies this, manifest
      ensures Valid()
      ensures Survives(es, CohortRecords(cohort.ids, old(files)), now, window) && RecordsOk(es)
      ensures manifest.log == old(manifest.log) + RewriteLog(es, nextId, cohort.ids, window)
      ensures es == [] ==> manifest.segments == Drop(old(manifest.segments), IdSet(cohort.ids)) && files == old(files) - IdSet(cohort.ids)
      ensures es != [] ==>
                && manifest.segments == Drop(old(manifest.segments) + [MetaOf(nextId, es, window)], IdSet(cohort.ids))
                && files == old(files)[nextId := es] - IdSet(cohort.ids)
      ensures r == Counted(stats, cohort.ids, es, size)
      ensures Bounded(old(manifest.segments), old(files), window) ==> Bounded(manifest.segments, files, window)
    {
      var survivors := CollectSurvivors(cohort, now);
      es := survivors;
      if survivors == [] {
        r := CollectExpired(cohort, stats);
        assert RewriteLog([], nextId, cohort.ids, window) == Removals(cohort.ids);
        return;
      }
      ReplaceCohort(cohort, nextId, survivors, MetaOf(nextId, survivors, window));
      r := Counted(stats, cohort.ids, survivors, size);
    }
  }

  lemma {:induction false} RewriteAppends(log: seq<LogEntry>, es: seq<Entry>, id: nat, ids: seq<nat>, window: nat)
    requires Window(window) && es != []
    ensures log + [Add(MetaOf(id, es, window))] + Removals(ids) == log + RewriteLog(es, id, ids, window)
  {
  }

  lemma {:induction false} CohortFileOk(ms: seq<Meta>, files: Files, ids: seq<nat>, id: nat)
    requires WellFormed(ms, files) && ListsAll(ms, ids) && id in ids
    ensures RecordsOk(FileOf(files, id))
  {
    assert Lists(ms, id);
    var m :| m in ms && m.id == id;
    assert SegmentOk(m, files);
  }

  // ---- The cycle ----

  /** The cohorts from `i` on belong to buckets not visited yet. */
  ghost predicate AllPending(cs: seq<Cohort>, i: nat, ms0: seq<Meta>, pins: set<nat>, now: int, done: set<int>) {
    i <= |cs| && forall j :: i <= j < |cs| ==> cs[j] == CycleCohort(ms0, pins, cs[j].bucket, now) && cs[j].bucket !in done
  }

  function Buckets(ms0: seq<Meta>, pins: set<nat>): set<int> {
    set m | m in Drop(ms0, pins) :: m.bucket
  }

  lemma {:induction false} GroupedPending(cs: seq<Cohort>, ms0: seq<Meta>, pins: set<nat>, now: int)
    requires Grouped(cs, Drop(ms0, pins), now, Buckets(ms0, pins))
    ensures AllPending(cs, 0, ms0, pins, now, {})
  {
    assert forall j :: 0 <= j < |cs| ==> cs[j] in cs;
  }

  lemma {:induction false} StillOnePerLsn(ms0: seq<Meta>, files0: Files, ms: seq<Meta>, files: Files, pins: set<nat>, done: set<int>, now: int, window: nat)
    requires CycleOutcome(ms0, files0, ms, files, pins, done, now, window) && OneRecordPerLsn(All(ms0, files0))
    ensures OneRecordPerLsn(All(ms, files))
  {
    forall e | e in All(ms, files)
      ensures e in All(ms0, files0)
    {
      CycleWithin(ms0, files0, ms, files, pins, done, now, window, e);
    }
  }

  function RemovedFor(ms0: seq<Meta>, pins: set<nat>, now: int): Visit -> nat {
    (v: Visit) => |CycleCohort(ms0, pins, v.bucket, now).ids|
  }

  /** The statistics add up over the visits. */
  ghost predicate Tallied(stats: Stats, visits: seq<Visit>, ms0: seq<Meta>, pins: set<nat>, now: int, size: seq<Entry> -> nat) {
    && stats.collected == |visits| && stats.removed == Total(visits, RemovedFor(ms0, pins, now))
    && stats.written == Total(visits, Written()) && stats.bytes == Total(visits, BytesFor(size)) && stats.relocated == Total(visits, Relocated())
  }

  /** Every visit found fewer bytes written than the budget. */
  ghost predicate BudgetLeft(visits: seq<Visit>, budget: nat, size: seq<Entry> -> nat) {
    forall j :: 0 <= j < |visits| ==> Total(visits[..j], BytesFor(size)) < budget
  }

  /** `es` are the survivors of a bucket, in key order. */
  ghost predicate SurvivorList(es: seq<Entry>, ms0: seq<Meta>, files0: Files, pins: set<nat>, bucket: int, now: int, window: nat) {
    Sorted(es) && forall e :: e in es <==> Survivor(e, ms0, files0, pins, bucket, now, window)
  }

  ghost predicate AllSurvivors(visits: seq<Visit>, ms0: seq<Meta>, files0: Files, pins: set<nat>, now: int, window: nat) {
    forall j :: 0 <= j < |visits| ==> SurvivorList(visits[j].es, ms0, files0, pins, visits[j].bucket, now, window)
  }

  lemma {:induction false} TallyOne(stats: Stats, visits: seq<Visit>, ms0: seq<Meta>, pins: set<nat>, now: int, size: seq<Entry> -> nat, v: Visit, budget: nat)
    requires Tallied(stats, visits, ms0, pins, now, size) && BudgetLeft(visits, budget, size) && stats.bytes < budget
    ensures Tallied(Counted(stats, CycleCohort(ms0, pins, v.bucket, now).ids, v.es, size), visits + [v], ms0, pins, now, size)
    ensures BudgetLeft(visits + [v], budget, size)
  {
    TotalSnoc(visits, v, RemovedFor(ms0, pins, now));
    TotalSnoc(visits, v, Written());
    TotalSnoc(visits, v, BytesFor(size));
    TotalSnoc(visits, v, Relocated());
    forall j | 0 <= j < |visits + [v]|
      ensures Total((visits + [v])[..j], BytesFor(size)) < budget
    {
      assert (visits + [v])[..j] == visits[..j];
      if j == |visits| {
        assert visits[..j] == visits;
      }
    }
  }

  /** One cohort of the cycle. Collecting an expired one writes nothing. */
  method CompactCohort(s: Store, c: Cohort, now: int, nextId: nat, size: seq<Entry> -> nat, stats: Stats,
                       ghost ms0: seq<Meta>, ghost files0: Files, ghost pins: set<nat>, ghost done: set<int>)
    returns (r: Stats, next: nat, ghost es: seq<Entry>)
    requires s.Valid() && DistinctIds(ms0) && OneRecordPerLsn(All(ms0, files0))
    requires c == CycleCohort(ms0, pins, c.bucket, now) && c.bucket !in done
    requires Ongoing(ms0, files0, s.manifest.segments, s.files, pins, done, now, s.window, nextId)
    requires |s.manifest.segments| + stats.removed == |ms0| + stats.written
    modifies s, s.manifest
    ensures s.Valid() && Ongoing(ms0, files0, s.manifest.segments, s.files, pins, done + {c.bucket}, now, s.window, next)
    ensures |s.manifest.segments| + r.removed == |ms0| + r.written
    ensures SurvivorList(es, ms0, files0, pins, c.bucket, now, s.window) && (c.expired ==> es == []) && r == Counted(stats, c.ids, es, size)
  {
    ghost var ms, files := s.manifest.segments, s.files;
    CohortIntact(ms0, files0, ms, files, pins, done, c.bucket, now);
    StillOnePerLsn(ms0, files0, ms, files, pins, done, now, s.window);
    StepCount(ms0, files0, ms, files, pins, done, c.bucket, now, s.window, nextId, Meta(nextId, 0, 0));
    if c.expired {
      DropStep(ms0, files0, ms, files, pins, done, c.bucket, now, s.window, nextId);
      es := [];
      r := s.CollectExpired(c, stats);
      return r, nextId, es;
    }
    r, es := s.CompactPartial(c, now, nextId, size, stats);
    if es == [] {
      assert forall e :: e !in es;
      DropStep(ms0, files0, ms, files, pins, done, c.bucket, now, s.window, nextId);
    } else {
      RewriteStep(ms0, files0, ms, files, pins, done, c.bucket, now, s.window, nextId, es, MetaOf(nextId, es, s.window));
      StepCount(ms0, files0, ms, files, pins, done, c.bucket, now, s.window, nextId, MetaOf(nextId, es, s.window));
    }
    next := nextId + 1;
    OngoingMore(ms0, files0, s.manifest.segments, s.files, pins, done + {c.bucket}, now, s.window, nextId, es);
  }

  lemma {:induction false} OngoingMore(ms0: seq<Meta>, files0: Files, ms: seq<Meta>, files: Files, pins: set<nat>, done: set<int>, now: int, window: nat, nextId: nat, es: seq<Entry>)
    requires Ongoing(ms0, files0, ms, files, pins, done, now, window, if es == [] then nextId else nextId + 1)
    ensures Ongoing(ms0, files0, ms, files, pins, done, now, window, nextId + 1)
  {
  }

  /** The visits so far: the first cohorts in order, each with its survivors. */
  ghost predicate VisitsOf(visits: seq<Visit>, cs: seq<Cohort>) {
    |visits| <= |cs| && forall j :: 0 <= j < |visits| ==> visits[j].bucket == cs[j].bucket && (cs[j].expired ==> visits[j].es == [])
  }

  lemma {:induction false} ExpiredCostNothing(visits: seq<Visit>, cs: seq<Cohort>, size: seq<Entry> -> nat)
    requires VisitsOf(visits, cs) && AllExpired(cs, |visits|)
    ensures Total(visits, BytesFor(size)) == 0
  {
    if visits != [] {
      ExpiredCostNothing(visits[..|visits| - 1], cs, size);
    }
  }

  /** What the visits so far add up to. */
  ghost predicate Accounted(stats: Stats, visits: seq<Visit>, cs: seq<Cohort>, ms0: seq<Meta>, files0: Files, pins: set<nat>, now: int, window: nat,
                            size: seq<Entry> -> nat, budget: nat) {
    && VisitsOf(visits, cs) && AllSurvivors(visits, ms0, files0, pins, now, window)
    && Tallied(stats, visits, ms0, pins, now, size) && BudgetLeft(visits, budget, size)
  }

  lemma {:induction false} AccountMore(stats: Stats, visits: seq<Visit>, cs: seq<Cohort>, ms0: seq<Meta>, files0: Files, pins: set<nat>, now: int, window: nat,
                                       size: seq<Entry> -> nat, budget: nat, es: seq<Entry>)
    requires Accounted(stats, visits, cs, ms0, files0, pins, now, window, size, budget) && |visits| < |cs| && stats.bytes < budget
    requires var c := cs[|visits|];
             c == CycleCohort(ms0, pins, c.bucket, now) && SurvivorList(es, ms0, files0, pins, c.bucket, now, window) && (c.expired ==> es == [])
    ensures var c := cs[|visits|];
            Accounted(Counted(stats, c.ids, es, size), visits + [Visit(c.bucket, es)], cs, ms0, files0, pins, now, window, size, budget)
  {
    TallyOne(stats, visits, ms0, pins, now, size, Visit(cs[|visits|].bucket, es), budget);
  }

  /** Visits cohorts in order until the write budget is used up. */
  method VisitCohorts(s: Store, cohorts: seq<Cohort>, now: int, budget: nat, size: seq<Entry> -> nat, ghost ms0: seq<Meta>, ghost files0: Files, ghost pins: set<nat>)
    returns (stats: Stats, ghost done: set<int>, ghost visits: seq<Visit>)
    requires s.Valid() && DistinctIds(ms0) && OneRecordPerLsn(All(ms0, files0)) && ms0 == s.manifest.segments
    requires Ongoing(ms0, files0, s.manifest.segments, s.files, pins, {}, now, s.window, NextId(ms0))
    requires DistinctBuckets(cohorts) && AllPending(cohorts, 0, ms0, pins, now, {})
    modifies s, s.manifest
    ensures s.Valid() && CycleOutcome(ms0, files0, s.manifest.segments, s.files, pins, done, now, s.window)
    ensures |s.manifest.segments| + stats.removed == |ms0| + stats.written
    ensures Accounted(stats, visits, cohorts, ms0, files0, pins, now, s.window, size, budget)
    ensures Visited(cohorts, |visits|, done) && (|visits| == |cohorts| || stats.bytes >= budget)
  {
    stats := Stats(0, 0, 0, 0, 0);
    var nextId := NextId(s.manifest.segments);
    done, visits := {}, [];
    var n: nat := 0;
    while n < |cohorts| && stats.bytes < budget
      invariant n <= |cohorts| && |visits| == n && s.Valid() && AllPending(cohorts, n, ms0, pins, now, done)
      invariant Ongoing(ms0, files0, s.manifest.segments, s.files, pins, done, now, s.window, nextId)
      invariant |s.manifest.segments| + stats.removed == |ms0| + stats.written
      invariant Accounted(stats, visits, cohorts, ms0, files0, pins, now, s.window, size, budget) && Visited(cohorts, n, done)
      decreases |cohorts| - n
    {
      VisitNext(cohorts, n, ms0, pins, now, done);
      ghost var es, before := [], stats;
      stats, nextId, es := CompactCohort(s, cohorts[n], now, nextId, size, stats, ms0, files0, pins, done);
      AccountMore(before, visits, cohorts, ms0, files0, pins, now, s.window, size, budget, es);
      visits := visits + [Visit(cohorts[n].bucket, es)];
      done := done + {cohorts[n].bucket};
      n := n + 1;
    }
  }

  lemma {:induction false} VisitNext(cs: seq<Cohort>, n: nat, ms0: seq<Meta>, pins: set<nat>, now: int, done: set<int>)
    requires n < |cs| && DistinctBuckets(cs) && AllPending(cs, n, ms0, pins, now, done) && Visited(cs, n, done)
    ensures AllPending(cs, n + 1, ms0, pins, now, done + {cs[n].bucket}) && Visited(cs, n + 1, done + {cs[n].bucket})
    ensures AllExpired(cs, n + 1) ==> AllExpired(cs, n) && cs[n].expired
  {
  }

  /** Each bucket of `done` is visited once. */
  ghost predicate VisitedOnce(visits: seq<Visit>, done: set<int>) {
    && (forall i, j :: 0 <= i < j < |visits| ==> visits[i].bucket != visits[j].bucket)
    && (forall b :: b in done <==> exists j :: 0 <= j < |visits| && visits[j].bucket == b)
  }

  /** One cycle over the cohorts of unpinned segments, fully expired ones first. `done` are the visited
      buckets: all of them if budget is left, and with any budget at all every fully expired one. No visit
      starts once the bytes written reach the budget. */
  method CompactCycle(s: Store, now: int, pins: set<nat>, budget: nat, size: seq<Entry> -> nat)
    returns (stats: Stats, ghost done: set<int>, ghost visits: seq<Visit>)
    requires s.Valid() && OneRecordPerLsn(s.Records())
    modifies s, s.manifest
    ensures s.Valid()
    ensures CycleOutcome(old(s.manifest.segments), old(s.files), s.manifest.segments, s.files, pins, done, now, s.window)
    ensures |s.manifest.segments| == |old(s.manifest.segments)| - stats.removed + stats.written
    ensures WithinBudget(old(s.manifest.segments), pins, now, budget, stats.bytes, done)
    ensures VisitedOnce(visits, done) && AllSurvivors(visits, old(s.manifest.segments), old(s.files), pins, now, s.window)
    ensures Tallied(stats, visits, old(s.manifest.segments), pins, now, size) && BudgetLeft(visits, budget, size)
    ensures Bounded(old(s.manifest.segments), old(s.files), s.window) ==> Bounded(s.manifest.segments, s.files, s.window)
  {
    ghost var ms0, files0 := s.manifest.segments, s.files;
    var cohorts := IdentifyCohorts(Drop(s.manifest.segments, pins), now);
    StartCycle(ms0, files0, pins, now, s.window);
    GroupedPending(cohorts, ms0, pins, now);
    stats, done, visits := VisitCohorts(s, cohorts, now, budget, size, ms0, files0, pins);
    VisitsWithinBudget(cohorts, visits, done, ms0, pins, now, stats, size, budget);
    if Bounded(ms0, files0, s.window) {
      CycleKeepsBounded(ms0, files0, s.manifest.segments, s.files, pins, done, now, s.window);
    }
  }

  lemma {:induction false} VisitsWithinBudget(cs: seq<Cohort>, visits: seq<Visit>, done: set<int>, ms0: seq<Meta>, pins: set<nat>, now: int,
                                              stats: Stats, size: seq<Entry> -> nat, budget: nat)
    requires Grouped(cs, Drop(ms0, pins), now, Buckets(ms0, pins)) && DistinctBuckets(cs) && VisitsOf(visits, cs) && Visited(cs, |visits|, done)
    requires Tallied(stats, visits, ms0, pins, now, size) && BudgetLeft(visits, budget, size) && (|visits| == |cs| || stats.bytes >= budget)
    ensures WithinBudget(ms0, pins, now, budget, stats.bytes, done) && VisitedOnce(visits, done)
  {
    VisitedBuckets(cs, |visits|, done, ms0, pins, now);
    assert visits != [] ==> Total(visits[..0], BytesFor(size)) < budget;
    if budget > 0 && |visits| < |cs| {
      if AllExpired(cs, |visits|) {
        ExpiredCostNothing(visits, cs, size);
        assert false;
      }
      ExpiredVisited(cs, |visits|, done, ms0, pins, now);
    }
  }

  /** Which buckets a cycle visits. */
  ghost predicate WithinBudget(ms0: seq<Meta>, pins: set<nat>, now: int, budget: nat, bytes: nat, done: set<int>) {
    && done <= Buckets(ms0, pins) && (budget == 0 ==> done == {}) && (bytes < budget ==> done == Buckets(ms0, pins))
    && (budget > 0 ==> forall b :: b in Buckets(ms0, pins) && CycleCohort(ms0, pins, b, now).expired ==> b in done)
  }

  /** The buckets of the first `i` cohorts. */
  ghost predicate Visited(cs: seq<Cohort>, i: nat, done: set<int>) {
    i <= |cs| && forall b :: b in done <==> exists j :: 0 <= j < i && cs[j].bucket == b
  }

  predicate AllExpired(cs: seq<Cohort>, i: nat) {
    i <= |cs| && forall j :: 0 <= j < i ==> cs[j].expired
  }

  lemma {:induction false} VisitedBuckets(cs: seq<Cohort>, i: nat, done: set<int>, ms0: seq<Meta>, pins: set<nat>, now: int)
    requires Grouped(cs, Drop(ms0, pins), now, Buckets(ms0, pins)) && Visited(cs, i, done)
    ensures done <= Buckets(ms0, pins) && (i == |cs| ==> done == Buckets(ms0, pins))
  {
    assert forall j :: 0 <= j < |cs| ==> cs[j] in cs;
    forall b | b in done
      ensures b in Buckets(ms0, pins)
    {
      var j :| 0 <= j < i && cs[j].bucket == b;
      assert cs[j] in cs;
    }
    if i == |cs| {
      forall b | b in Buckets(ms0, pins)
        ensures b in done
      {
        var c := CohortOf(Drop(ms0, pins), b, now);
        assert c in cs;
        var j :| 0 <= j < |cs| && cs[j] == c;
        assert cs[j].bucket == b;
      }
    }
  }

  /** Expired cohorts come first and cost nothing, so the budget stops the cycle only behind them. */
  lemma {:induction false} ExpiredVisited(cs: seq<Cohort>, i: nat, done: set<int>, ms0: seq<Meta>, pins: set<nat>, now: int)
    requires Grouped(cs, Drop(ms0, pins), now, Buckets(ms0, pins)) && Visited(cs, i, done) && !AllExpired(cs, i)
    ensures forall b :: b in Buckets(ms0, pins) && CycleCohort(ms0, pins, b, now).expired ==> b in done
  {
    var k :| 0 <= k < i && !cs[k].expired;
    forall b | b in Buckets(ms0, pins) && CycleCohort(ms0, pins, b, now).expired
      ensures b in done
    {
      var c := CohortOf(Drop(ms0, pins), b, now);
      assert c in cs;
      var j :| 0 <= j < |cs| && cs[j] == c;
      assert j <= k;
      assert cs[j].bucket == b;
    }
  }
}
