/** Death-time compaction: cohorts, the rewrite of one cohort, the order of manifest updates, and what
    a whole cycle can lose. */
module Compaction {
  import opened ByteStrings
  import opened Entries
  import opened Merge
  import opened Scan
  import opened Manifest
  import opened Replication

  type Files = map<nat, seq<Entry>>

  // ---- Death times and buckets ----

  const MaxI64 := 0x7FFF_FFFF_FFFF_FFFF
  const MinI64 := -0x8000_0000_0000_0000
  const NanosPerSecond := 1_000_000_000

  predicate Window(secs: nat) {
    0 < secs <= MaxI64
  }

  function Saturated(x: int): int {
    if x > MaxI64 then MaxI64 else if x < MinI64 then MinI64 else x
  }

  /** Write time plus time to live, or plus the cohort window for records without one. */
  function DeathTime(e: Entry, window: nat): int {
    Saturated(e.timestamp + Saturated((if e.ttl > 0 then e.ttl else window) * NanosPerSecond))
  }

  function TruncatingDivide(a: int, b: nat): int
    requires b > 0
  {
    if a >= 0 then a / b else -(-a / b)
  }

  function CohortBucket(e: Entry, window: nat): int
    requires Window(window)
  {
    var secs := TruncatingDivide(e.timestamp, NanosPerSecond);
    TruncatingDivide(if e.ttl > 0 then secs + e.ttl else secs, window)
  }

  function MaxDeath(es: seq<Entry>, window: nat): (d: int)
    requires es != []
    ensures forall i :: 0 <= i < |es| ==> DeathTime(es[i], window) <= d
    ensures exists i :: 0 <= i < |es| && DeathTime(es[i], window) == d
  {
    var last := DeathTime(es[|es| - 1], window);
    if |es| == 1 then last
    else
      var d := MaxDeath(es[..|es| - 1], window);
      if last > d then last else d
  }

  /** The metadata a flush records: the first record's bucket, the latest death time. */
  function MetaOf(id: nat, es: seq<Entry>, window: nat): Meta
    requires es != [] && Window(window)
  {
    Meta(id, CohortBucket(es[0], window), MaxDeath(es, window))
  }

  /** A segment is listed under its first record's bucket and dies when its last record does. */
  lemma {:induction false} MetaRecords(id: nat, es: seq<Entry>, window: nat)
    requires es != [] && Window(window)
    ensures var m := MetaOf(id, es, window);
            && m.id == id && m.bucket == CohortBucket(es[0], window)
            && (forall e :: e in es ==> DeathTime(e, window) <= m.death)
            && (exists e :: e in es && DeathTime(e, window) == m.death)
  {
    var m := MetaOf(id, es, window);
    assert forall i :: 0 <= i < |es| ==> DeathTime(es[i], window) <= m.death;
    var i :| 0 <= i < |es| && DeathTime(es[i], window) == m.death;
    assert es[i] in es;
  }

  lemma TruncatedQuotient(a: int, b: nat)
    requires b > 0
    ensures a >= 0 ==> TruncatingDivide(a, b) * b <= a < (TruncatingDivide(a, b) + 1) * b
    ensures a < 0 ==> (TruncatingDivide(a, b) - 1) * b < a <= TruncatingDivide(a, b) * b
  {
  }

  /** Bucket `b` spans the seconds from `b * window` up to the next bucket's; a record with a time to live
      belongs where it ends. Before the epoch division truncates upwards. */
  lemma {:induction false} BucketSpan(e: Entry, window: nat, secs: int)
    requires Window(window)
    requires e.timestamp >= 0 ==> secs * NanosPerSecond <= e.timestamp < (secs + 1) * NanosPerSecond
    requires e.timestamp < 0 ==> (secs - 1) * NanosPerSecond < e.timestamp <= secs * NanosPerSecond
    ensures var b, t := CohortBucket(e, window), secs + e.ttl;
            if t >= 0 then b * window <= t < (b + 1) * window else (b - 1) * window < t <= b * window
  {
    TruncatedQuotient(e.timestamp, NanosPerSecond);
    TruncatedQuotient(secs + e.ttl, window);
  }

  /** A record dies when its time to live is over, or the cohort window if it has none, but not after the
      end of time. */
  lemma EndOfLife(e: Entry, window: nat)
    requires MinI64 <= e.timestamp <= MaxI64 && e.ttl < 0x1_0000_0000 && window * NanosPerSecond <= MaxI64
    ensures var t := e.timestamp + (if e.ttl == 0 then window else e.ttl) * NanosPerSecond;
            DeathTime(e, window) == if t > MaxI64 then MaxI64 else t
  {
  }

  lemma TtlDeath(e: Entry, window: nat)
    requires MinI64 <= e.timestamp <= MaxI64 && 0 < e.ttl < 0x1_0000_0000
    ensures var t := e.timestamp + e.ttl * NanosPerSecond; DeathTime(e, window) == if t > MaxI64 then MaxI64 else t
  {
  }

  // ---- What may be lost ----

  predicate Gone(e: Entry, now: int, window: nat) {
    e.op.Delete? || DeathTime(e, window) <= now
  }

  ghost predicate Outranked(e: Entry, all: seq<Entry>) {
    exists f :: f in all && f.key == e.key && f.lsn > e.lsn
  }

  ghost predicate Excused(e: Entry, all: seq<Entry>, now: int, window: nat) {
    Gone(e, now, window) || Outranked(e, all)
  }

  /** `rest` has no new record, and misses only tombstones, dead records and shadowed ones. */
  ghost predicate Retains(all: seq<Entry>, rest: seq<Entry>, now: int, window: nat) {
    && (forall e :: e in rest ==> e in all)
    && (forall e :: e in all ==> e in rest || Excused(e, all, now, window))
  }

  /** `rest` has no new record, and misses only records of the cohort that are excused within it: it
      keeps every survivor of the cohort and everything outside it. */
  ghost predicate RetainsBut(all: seq<Entry>, rest: seq<Entry>, cohort: seq<Entry>, now: int, window: nat) {
    && (forall e :: e in rest ==> e in all)
    && (forall e :: e in all ==> e in rest || (e in cohort && Excused(e, cohort, now, window)))
    && (forall e :: e in cohort && !Excused(e, cohort, now, window) ==> e in rest)
  }

  /** An LSN names one record of a key. */
  ghost predicate OneRecordPerLsn(all: seq<Entry>) {
    forall a, b :: a in all && b in all && a.key == b.key && a.lsn == b.lsn ==> a == b
  }

  /** If the newest record of a key is an unexpired put, it still is. */
  lemma {:induction false} LiveKeysKeep(segs: seq<seq<Entry>>, segs': seq<seq<Entry>>, now: int, window: nat, k: Bytes)
    requires AllSorted(segs) && AllSorted(segs') && OneRecordPerLsn(Flatten(segs))
    requires Retains(Flatten(segs), Flatten(segs'), now, window)
    requires k in Newest(Tables(segs)) && !Gone(Newest(Tables(segs))[k], now, window)
    ensures k in Newest(Tables(segs')) && Newest(Tables(segs'))[k] == Newest(Tables(segs))[k]
  {
    var e := Newest(Tables(segs))[k];
    NewestRecord(segs, k);
    RecordedKeys(segs', e);
    NewestRecord(segs', k);
  }

  /** ... so a range scan returns it before and after. */
  lemma {:induction false} ScanKeepsLiveKeys(segs: seq<seq<Entry>>, segs': seq<seq<Entry>>, now: int, window: nat, lo: Bytes, hi: Bytes, e: Entry)
    requires AllSorted(segs) && AllSorted(segs') && OneRecordPerLsn(Flatten(segs))
    requires Retains(Flatten(segs), Flatten(segs'), now, window)
    requires e in Puts(SegmentList(segs, lo, hi)) && DeathTime(e, window) > now
    ensures e in Puts(SegmentList(segs', lo, hi))
  {
    var s, s' := SegmentList(segs, lo, hi), SegmentList(segs', lo, hi);
    PutsMembers(s);
    PutsMembers(s');
    AsTableOfSorted(s);
    LiveKeysKeep(segs, segs', now, window, e.key);
    assert e.key in AsTable(s') && AsTable(s')[e.key] == e;
    AsTableMembers(s');
  }

  // ---- The records of listed segments ----

  function FileOf(files: Files, id: nat): seq<Entry> {
    if id in files then files[id] else []
  }

  function Contents(ms: seq<Meta>, files: Files): (r: seq<seq<Entry>>)
    ensures |r| == |ms| && forall i :: 0 <= i < |ms| ==> r[i] == FileOf(files, ms[i].id)
  {
    seq(|ms|, i requires 0 <= i < |ms| => FileOf(files, ms[i].id))
  }

  function All(ms: seq<Meta>, files: Files): seq<Entry> {
    Flatten(Contents(ms, files))
  }

  lemma {:induction false} AllMembers(ms: seq<Meta>, files: Files, e: Entry)
    ensures e in All(ms, files) <==> exists m :: m in ms && e in FileOf(files, m.id)
  {
    var c := Contents(ms, files);
    FlattenMembers(c, e);
    if i :| 0 <= i < |c| && e in c[i] {
      assert ms[i] in ms && e in FileOf(files, ms[i].id);
    }
    if m :| m in ms && e in FileOf(files, m.id) {
      var i :| 0 <= i < |ms| && ms[i] == m;
      assert e in c[i];
    }
  }

  function FilesOf(ids: seq<nat>, files: Files): (r: seq<seq<Entry>>)
    ensures |r| == |ids| && forall i :: 0 <= i < |ids| ==> r[i] == FileOf(files, ids[i])
  {
    seq(|ids|, i requires 0 <= i < |ids| => FileOf(files, ids[i]))
  }

  /** The records of a cohort. */
  function CohortRecords(ids: seq<nat>, files: Files): seq<Entry> {
    Flatten(FilesOf(ids, files))
  }

  lemma {:induction false} CohortMembers(ids: seq<nat>, files: Files, e: Entry)
    ensures e in CohortRecords(ids, files) <==> exists id :: id in ids && e in FileOf(files, id)
  {
    var c := FilesOf(ids, files);
    FlattenMembers(c, e);
    if i :| 0 <= i < |c| && e in c[i] {
      assert ids[i] in ids && e in FileOf(files, ids[i]);
    }
    if id :| id in ids && e in FileOf(files, id) {
      var i :| 0 <= i < |ids| && ids[i] == id;
      assert e in c[i];
    }
  }

  ghost predicate Lists(ms: seq<Meta>, id: nat) {
    exists m :: m in ms && m.id == id
  }

  ghost predicate ListsAll(ms: seq<Meta>, ids: seq<nat>) {
    forall id :: id in ids ==> Lists(ms, id)
  }

  lemma {:induction false} CohortInAll(ms: seq<Meta>, files: Files, ids: seq<nat>, e: Entry)
    requires ListsAll(ms, ids) && e in CohortRecords(ids, files)
    ensures e in All(ms, files)
  {
    CohortMembers(ids, files, e);
    var id :| id in ids && e in FileOf(files, id);
    assert Lists(ms, id);
    var m :| m in ms && m.id == id;
    AllMembers(ms, files, e);
  }

  /** Which files the list needs. */
  predicate AgreeOn(ms: seq<Meta>, files: Files, files': Files) {
    forall m :: m in ms ==> FileOf(files, m.id) == FileOf(files', m.id)
  }

  lemma {:induction false} AllFrame(ms: seq<Meta>, files: Files, files': Files)
    requires AgreeOn(ms, files, files')
    ensures All(ms, files) == All(ms, files')
  {
    assert forall i :: 0 <= i < |ms| ==> ms[i] in ms;
    assert Contents(ms, files) == Contents(ms, files');
  }

  /** A record of a listed segment, with part of the cohort `ids` already removed. */
  lemma {:induction false} KeptOrCohort(ms: seq<Meta>, files: Files, ids: seq<nat>, removed: set<nat>, e: Entry)
    requires removed <= IdSet(ids) && e in All(ms, files)
    ensures e in All(Drop(ms, removed), files) || e in CohortRecords(ids, files)
  {
    AllMembers(ms, files, e);
    var m :| m in ms && e in FileOf(files, m.id);
    DropMembers(ms, removed);
    AllMembers(Drop(ms, removed), files, e);
    CohortMembers(ids, files, e);
  }

  lemma {:induction false} DroppedInAll(ms: seq<Meta>, files: Files, removed: set<nat>, e: Entry)
    requires e in All(Drop(ms, removed), files)
    ensures e in All(ms, files)
  {
    AllMembers(Drop(ms, removed), files, e);
    DropMembers(ms, removed);
    AllMembers(ms, files, e);
  }

  /** Removing any part of a cohort that has no survivor. */
  lemma {:induction false} DropRetains(ms: seq<Meta>, files: Files, ids: seq<nat>, removed: set<nat>, now: int, window: nat)
    requires ListsAll(ms, ids) && removed <= IdSet(ids)
    requires forall e :: e in CohortRecords(ids, files) ==> Excused(e, CohortRecords(ids, files), now, window)
    ensures RetainsBut(All(ms, files), All(Drop(ms, removed), files), CohortRecords(ids, files), now, window)
  {
    forall e | e in All(Drop(ms, removed), files)
      ensures e in All(ms, files)
    {
      DroppedInAll(ms, files, removed, e);
    }
    forall e | e in All(ms, files)
      ensures e in All(Drop(ms, removed), files) || e in CohortRecords(ids, files)
    {
      KeptOrCohort(ms, files, ids, removed, e);
    }
  }

  lemma {:induction false} AllSnoc(ms: seq<Meta>, m: Meta, files: Files)
    ensures All(ms + [m], files) == All(ms, files) + FileOf(files, m.id)
  {
    assert Contents(ms + [m], files) == Contents(ms, files) + [FileOf(files, m.id)];
    FlattenSnoc(Contents(ms, files), FileOf(files, m.id));
  }

  /** Removing any part of a cohort after its survivors were added as segment `m`. */
  lemma {:induction false} RewriteRetains(ms: seq<Meta>, files: Files, ids: seq<nat>, removed: set<nat>, m: Meta, now: int, window: nat)
    requires ListsAll(ms, ids) && removed <= IdSet(ids) && m.id !in ids
    requires forall e :: e in FileOf(files, m.id) <==> e in CohortRecords(ids, files) && !Excused(e, CohortRecords(ids, files), now, window)
    ensures RetainsBut(All(ms, files), All(Drop(ms + [m], removed), files), CohortRecords(ids, files), now, window)
  {
    var all, rest := All(ms, files), All(Drop(ms + [m], removed), files);
    DropSnoc(ms, m, removed);
    AllSnoc(Drop(ms, removed), m, files);
    forall e | e in rest
      ensures e in all
    {
      if e in FileOf(files, m.id) {
        CohortInAll(ms, files, ids, e);
      } else {
        DroppedInAll(ms, files, removed, e);
      }
    }
    forall e | e in all
      ensures e in rest || (e in CohortRecords(ids, files) && Excused(e, CohortRecords(ids, files), now, window))
    {
      KeptOrCohort(ms, files, ids, removed, e);
    }
  }
}
