/** Snapshots: pinned segments, and why a live snapshot's answers never change. */
module Snapshots {
  import opened ByteStrings
  import opened Keys
  import opened Entries
  import opened Merge
  import opened Manifest
  import opened Compaction
  import opened Compactor
  import opened CompactionCycle
  import Scan
  import Pages
  import Immutable

  // ---- The registry ----

  class SnapshotRegistry {
    var nextId: nat
    var pinned: map<nat, seq<nat>>

    ghost predicate Valid()
      reads this
    {
      forall sid :: sid in pinned ==> sid < nextId
    }

    constructor ()
      ensures Valid() && pinned == map[]
    {
      nextId, pinned := 0, map[];
    }

    /** Pins `ids` under an id no live snapshot has. */
    method Register(ids: seq<nat>) returns (sid: nat)
      requires Valid()
      modifies this
      ensures Valid() && sid !in old(pinned) && pinned == old(pinned)[sid := ids]
    {
      sid := nextId;
      nextId := nextId + 1;
      pinned := pinned[sid := ids];
    }

    method Release(sid: nat)
      requires Valid()
      modifies this
      ensures Valid() && pinned == old(pinned) - {sid}
    {
      pinned := pinned - {sid};
    }

    /** The ids compaction must not touch. */
    method PinnedIds() returns (ids: set<nat>)
      ensures forall id :: id in ids <==> exists sid :: sid in pinned && id in pinned[sid]
    {
      ids := PinSet(pinned);
    }
  }

  /** The ids that some live snapshot pins. */
  function PinSet(pinned: map<nat, seq<nat>>): (r: set<nat>)
    ensures forall id :: id in r <==> exists sid :: sid in pinned && id in pinned[sid]
  {
    set sid, id | sid in pinned && id in pinned[sid] :: id
  }

  // ---- What a snapshot answers ----

  /** Point read: the highest LSN over the pinned segments. */
  method SnapshotGet(files: Files, ids: seq<nat>, ns: Bytes, key: Bytes) returns (value: Option<Bytes>)
    requires |ns| <= MaxNamespace
    ensures value == ValueOf(Newest(Tables(FilesOf(ids, files))), EncodeKey(ns, key))
  {
    value := Immutable.Get(FilesOf(ids, files), ns, key);
  }

  method SnapshotRange(files: Files, ids: seq<nat>, ns: Bytes, start: Bytes, end: Bytes) returns (items: seq<Pages.Pair>)
    requires |ns| <= MaxNamespace && Scan.Readers(FilesOf(ids, files))
    ensures Immutable.Ascending(items)
    ensures forall p :: p in items <==> Immutable.Reads(FilesOf(ids, files), ns, start, end, p)
  {
    items := Immutable.Range(FilesOf(ids, files), ns, start, end);
  }

  // ---- Runs ----

  datatype World = World(ms: seq<Meta>, files: Files, pinned: map<nat, seq<nat>>, nextSnapshot: nat, nextSegment: nat)

  datatype Step =
    | Flush(entries: seq<Entry>)
    | Compact(now: int)
    | Take
    | Release(sid: nat)

  /** The id counter of a reopened store. */
  function ReopenedNext(ms: seq<Meta>): nat {
    if ms == [] then 0 else NextId(ms)
  }

  ghost predicate Next(w: World, step: Step, w': World, window: nat)
    requires Window(window)
  {
    match step
    case Flush(es) =>
      && es != [] && Sorted(es) && RecordsOk(es)
      && w' == w.(ms := w.ms + [MetaOf(w.nextSegment, es, window)], files := w.files[w.nextSegment := es], nextSegment := w.nextSegment + 1)
    case Compact(now) =>
      && (exists done :: CycleOutcome(w.ms, w.files, w'.ms, w'.files, PinSet(w.pinned), done, now, window))
      && w'.pinned == w.pinned && w'.nextSnapshot == w.nextSnapshot && w'.nextSegment == ReopenedNext(w'.ms)
    case Take => w' == w.(pinned := w.pinned[w.nextSnapshot := Ids(w.ms)], nextSnapshot := w.nextSnapshot + 1)
    case Release(sid) => w' == w.(pinned := w.pinned - {sid})
  }

  /** Segment files are well formed, pinned segments are listed, and ids to come are fresh. */
  ghost predicate Inv(w: World, window: nat) {
    && WellFormed(w.ms, w.files)
    && (forall m :: m in w.ms ==> m.id < w.nextSegment)
    && (forall sid :: sid in w.pinned ==> sid < w.nextSnapshot && ListsAll(w.ms, w.pinned[sid]))
  }

  lemma {:induction false} ListsMore(ms: seq<Meta>, ms': seq<Meta>, ids: seq<nat>)
    requires ListsAll(ms, ids) && forall m :: m in ms && m.id in ids ==> m in ms'
    ensures ListsAll(ms', ids)
  {
    forall id | id in ids
      ensures Lists(ms', id)
    {
      assert Lists(ms, id);
    }
  }

  lemma {:induction false} ListsOwn(ms: seq<Meta>)
    ensures ListsAll(ms, Ids(ms))
  {
    forall id | id in Ids(ms)
      ensures Lists(ms, id)
    {
      IdsMembers(ms, id);
    }
  }

  /** Compaction spares pinned segments and their files. */
  lemma {:induction false} PinsKept(w: World, w': World, now: int, window: nat)
    requires Window(window) && Next(w, Compact(now), w', window)
    ensures forall m :: m in w.ms && m.id in PinSet(w.pinned) ==> m in w'.ms && FileOf(w'.files, m.id) == FileOf(w.files, m.id)
  {
    var done :| CycleOutcome(w.ms, w.files, w'.ms, w'.files, PinSet(w.pinned), done, now, window);
    forall m | m in w.ms && m.id in PinSet(w.pinned)
      ensures m in w'.ms && FileOf(w'.files, m.id) == FileOf(w.files, m.id)
    {
      assert Spared(m, PinSet(w.pinned), done);
    }
  }

  lemma {:induction false} StepKeeps(w: World, step: Step, w': World, window: nat)
    requires Window(window) && Inv(w, window) && Next(w, step, w', window)
    ensures Inv(w', window)
  {
    match step
    case Flush(es) =>
      assert !Lists(w.ms, w.nextSegment);
      AddWellFormed(w.ms, w.files, MetaOf(w.nextSegment, es, window), es);
      forall sid | sid in w.pinned
        ensures ListsAll(w'.ms, w'.pinned[sid])
      {
        ListsMore(w.ms, w'.ms, w.pinned[sid]);
      }
    case Compact(now) =>
      PinsKept(w, w', now, window);
      forall sid | sid in w.pinned
        ensures ListsAll(w'.ms, w'.pinned[sid])
      {
        ListsMore(w.ms, w'.ms, w.pinned[sid]);
      }
    case Take => ListsOwn(w.ms);
    case Release(sid) =>
  }

  /** A step leaves the files of a snapshot that stays live alone. */
  lemma {:induction false} StepStable(w: World, step: Step, w': World, window: nat, sid: nat)
    requires Window(window) && Inv(w, window) && Next(w, step, w', window) && sid in w.pinned && sid in w'.pinned
    ensures w'.pinned[sid] == w.pinned[sid] && FilesOf(w.pinned[sid], w'.files) == FilesOf(w.pinned[sid], w.files)
  {
    var ids := w.pinned[sid];
    if step.Compact? {
      PinsKept(w, w', step.now, window);
    }
    forall i | 0 <= i < |ids|
      ensures FileOf(w'.files, ids[i]) == FileOf(w.files, ids[i])
    {
      assert ids[i] in ids;
      assert Lists(w.ms, ids[i]);
      var m :| m in w.ms && m.id == ids[i];
      assert ids[i] in PinSet(w.pinned);
    }
  }

  ghost predicate StepsTo(ws: seq<World>, steps: seq<Step>, i: nat, window: nat)
    requires Window(window) && i < |steps| && |ws| == |steps| + 1
  {
    Next(ws[i], steps[i], ws[i + 1], window)
  }

  /** A run: flushes, compactions and snapshots taken and released, in any order. */
  ghost predicate Run(ws: seq<World>, steps: seq<Step>, window: nat)
    requires Window(window)
  {
    |ws| == |steps| + 1 && Inv(ws[0], window) && forall i :: 0 <= i < |steps| ==> StepsTo(ws, steps, i, window)
  }

  lemma {:induction false} RunKeeps(ws: seq<World>, steps: seq<Step>, window: nat, n: nat)
    requires Window(window) && Run(ws, steps, window) && n <= |steps|
    ensures Inv(ws[n], window)
  {
    if n > 0 {
      RunKeeps(ws, steps, window, n - 1);
      assert StepsTo(ws, steps, n - 1, window);
      StepKeeps(ws[n - 1], steps[n - 1], ws[n], window);
    }
  }

  /** Over every run during which it is not released, a snapshot's segments hold the same records, so
      every read of it returns the same. */
  lemma {:induction false} SnapshotStable(ws: seq<World>, steps: seq<Step>, window: nat, sid: nat, n: nat)
    requires Window(window) && Run(ws, steps, window) && n <= |steps| && forall i :: 0 <= i <= n ==> sid in ws[i].pinned
    ensures ws[n].pinned[sid] == ws[0].pinned[sid]
    ensures FilesOf(ws[0].pinned[sid], ws[n].files) == FilesOf(ws[0].pinned[sid], ws[0].files)
  {
    if n > 0 {
      SnapshotStable(ws, steps, window, sid, n - 1);
      RunKeeps(ws, steps, window, n - 1);
      assert StepsTo(ws, steps, n - 1, window);
      StepStable(ws[n - 1], steps[n - 1], ws[n], window, sid);
    }
  }

  /** A snapshot leaves the pin set only by its own release. */
  lemma {:induction false} OnlyReleaseUnpins(ws: seq<World>, steps: seq<Step>, window: nat, sid: nat, n: nat)
    requires Window(window) && Run(ws, steps, window) && n <= |steps| && sid in ws[0].pinned
    requires forall i :: 0 <= i < n ==> steps[i] != Release(sid)
    ensures forall i :: 0 <= i <= n ==> sid in ws[i].pinned
  {
    if n > 0 {
      OnlyReleaseUnpins(ws, steps, window, sid, n - 1);
      RunKeeps(ws, steps, window, n - 1);
      assert StepsTo(ws, steps, n - 1, window);
    }
  }

  /** Until it is released, whatever else happens, a snapshot reads what it read when the run began. */
  lemma {:induction false} SnapshotReadsStable(ws: seq<World>, steps: seq<Step>, window: nat, sid: nat, n: nat, k: Bytes)
    requires Window(window) && Run(ws, steps, window) && n <= |steps| && sid in ws[0].pinned
    requires forall i :: 0 <= i < n ==> steps[i] != Release(sid)
    ensures sid in ws[n].pinned
    ensures ValueOf(Newest(Tables(FilesOf(ws[n].pinned[sid], ws[n].files))), k)
         == ValueOf(Newest(Tables(FilesOf(ws[0].pinned[sid], ws[0].files))), k)
  {
    OnlyReleaseUnpins(ws, steps, window, sid, n);
    SnapshotStable(ws, steps, window, sid, n);
  }

  // ---- What a snapshot holds when it is taken ----

  lemma OwnFiles(ms: seq<Meta>, files: Files)
    ensures FilesOf(Ids(ms), files) == Contents(ms, files)
  {
  }

  /** A snapshot that is taken pins every listed segment: it reads what the store reads from its segments. */
  lemma {:induction false} TakeReads(w: World, w': World, window: nat, k: Bytes)
    requires Window(window) && Next(w, Take, w', window)
    ensures var sid := w.nextSnapshot;
            && sid in w'.pinned && FilesOf(w'.pinned[sid], w'.files) == Contents(w.ms, w.files)
            && ValueOf(Newest(Tables(FilesOf(w'.pinned[sid], w'.files))), k) == ValueOf(Newest(Tables(Contents(w.ms, w.files))), k)
  {
    OwnFiles(w.ms, w.files);
  }

  lemma {:induction false} RunFrom(ws: seq<World>, steps: seq<Step>, window: nat, i: nat)
    requires Window(window) && Run(ws, steps, window) && i <= |steps|
    ensures Run(ws[i..], steps[i..], window)
  {
    RunKeeps(ws, steps, window, i);
    forall j | 0 <= j < |steps[i..]|
      ensures StepsTo(ws[i..], steps[i..], j, window)
    {
      assert StepsTo(ws, steps, i + j, window);
    }
  }

  /** Until it is released, a snapshot taken at step `i` holds exactly the segments listed then. */
  lemma {:induction false} SnapshotHoldsTaken(ws: seq<World>, steps: seq<Step>, window: nat, i: nat, n: nat)
    requires Window(window) && Run(ws, steps, window) && i < n <= |steps| && steps[i].Take?
    requires forall j :: i < j < n ==> steps[j] != Release(ws[i].nextSnapshot)
    ensures var sid := ws[i].nextSnapshot;
            sid in ws[n].pinned && FilesOf(ws[n].pinned[sid], ws[n].files) == Contents(ws[i].ms, ws[i].files)
  {
    var sid := ws[i].nextSnapshot;
    assert StepsTo(ws, steps, i, window);
    TakeReads(ws[i], ws[i + 1], window, []);
    RunFrom(ws, steps, window, i + 1);
    var later, rest := ws[i + 1..], steps[i + 1..];
    assert forall j :: 0 <= j < n - i - 1 ==> rest[j] == steps[i + 1 + j];
    OnlyReleaseUnpins(later, rest, window, sid, n - i - 1);
    SnapshotStable(later, rest, window, sid, n - i - 1);
    assert later[n - i - 1] == ws[n] && later[0] == ws[i + 1];
  }

  /** So its point reads and its ranges answer as the listed segments did when it was taken. */
  lemma {:induction false} SnapshotReadsTaken(ws: seq<World>, steps: seq<Step>, window: nat, i: nat, n: nat, ns: Bytes, start: Bytes, end: Bytes, k: Bytes, p: Pages.Pair)
    requires Window(window) && Run(ws, steps, window) && i < n <= |steps| && steps[i].Take?
    requires forall j :: i < j < n ==> steps[j] != Release(ws[i].nextSnapshot)
    requires |ns| <= MaxNamespace
    ensures var sid := ws[i].nextSnapshot;
            && sid in ws[n].pinned
            && ValueOf(Newest(Tables(FilesOf(ws[n].pinned[sid], ws[n].files))), k) == ValueOf(Newest(Tables(Contents(ws[i].ms, ws[i].files))), k)
            && (Immutable.Reads(FilesOf(ws[n].pinned[sid], ws[n].files), ns, start, end, p) <==> Immutable.Reads(Contents(ws[i].ms, ws[i].files), ns, start, end, p))
  {
    SnapshotHoldsTaken(ws, steps, window, i, n);
  }

  // ---- Stores fed by flushes ----

  lemma {:induction false} StepKeepsBounded(w: World, step: Step, w': World, window: nat)
    requires Window(window) && Inv(w, window) && Next(w, step, w', window) && Bounded(w.ms, w.files, window)
    ensures Bounded(w'.ms, w'.files, window)
  {
    match step
    case Flush(es) =>
      assert !Lists(w.ms, w.nextSegment);
      AddKeepsBounded(w.ms, w.files, window, w.nextSegment, es);
    case Compact(now) =>
      var done :| CycleOutcome(w.ms, w.files, w'.ms, w'.files, PinSet(w.pinned), done, now, window);
      CycleKeepsBounded(w.ms, w.files, w'.ms, w'.files, PinSet(w.pinned), done, now, window);
    case Take =>
    case Release(sid) =>
  }

  /** A store that starts empty and is fed by flushes lists every segment with a death time that bounds its
      records, whatever cycles run in between. */
  lemma {:induction false} FlushedIsBounded(ws: seq<World>, steps: seq<Step>, window: nat, n: nat)
    requires Window(window) && Run(ws, steps, window) && n <= |steps| && ws[0].ms == []
    ensures Bounded(ws[n].ms, ws[n].files, window)
  {
    if n > 0 {
      FlushedIsBounded(ws, steps, window, n - 1);
      RunKeeps(ws, steps, window, n - 1);
      assert StepsTo(ws, steps, n - 1, window);
      StepKeepsBounded(ws[n - 1], steps[n - 1], ws[n], window);
    }
  }

  /** Every flush takes its records from one history. */
  predicate FlushesFrom(steps: seq<Step>, history: seq<Entry>) {
    forall i :: 0 <= i < |steps| && steps[i].Flush? ==> FromHistory(steps[i].entries, history)
  }

  predicate FromHistory(es: seq<Entry>, history: seq<Entry>) {
    forall e :: e in es ==> e in history
  }

  lemma {:induction false} ListedInHistory(ws: seq<World>, steps: seq<Step>, window: nat, history: seq<Entry>, n: nat)
    requires Window(window) && Run(ws, steps, window) && n <= |steps| && ws[0].ms == [] && FlushesFrom(steps, history)
    ensures FromHistory(All(ws[n].ms, ws[n].files), history)
  {
    if n == 0 {
      assert Contents(ws[0].ms, ws[0].files) == [];
    } else {
      ListedInHistory(ws, steps, window, history, n - 1);
      RunKeeps(ws, steps, window, n - 1);
      assert StepsTo(ws, steps, n - 1, window);
      forall e | e in All(ws[n].ms, ws[n].files)
        ensures e in history
      {
        ListedBefore(ws[n - 1], steps[n - 1], ws[n], window, e);
      }
    }
  }

  /** A listed record was listed before the step or came with its flush. */
  lemma {:induction false} ListedBefore(w: World, step: Step, w': World, window: nat, e: Entry)
    requires Window(window) && Inv(w, window) && Next(w, step, w', window) && e in All(w'.ms, w'.files)
    ensures e in All(w.ms, w.files) || (step.Flush? && e in step.entries)
  {
    AllMembers(w.ms, w.files, e);
    AllMembers(w'.ms, w'.files, e);
    if step.Compact? {
      var done :| CycleOutcome(w.ms, w.files, w'.ms, w'.files, PinSet(w.pinned), done, step.now, window);
      CycleWithin(w.ms, w.files, w'.ms, w'.files, PinSet(w.pinned), done, step.now, window, e);
    }
  }

  /** In a store that starts empty and is fed by flushes of one history, no cycle takes an unexpired record
      out of a range scan. */
  lemma {:induction false} FlushedKeepsScans(ws: seq<World>, steps: seq<Step>, window: nat, history: seq<Entry>, n: nat, lo: Bytes, hi: Bytes, e: Entry)
    requires Window(window) && Run(ws, steps, window) && n < |steps| && ws[0].ms == [] && steps[n].Compact?
    requires FlushesFrom(steps, history) && OneRecordPerLsn(history)
    requires e in Puts(Scan.SegmentList(Contents(ws[n].ms, ws[n].files), lo, hi)) && DeathTime(e, window) > steps[n].now
    ensures e in Puts(Scan.SegmentList(Contents(ws[n + 1].ms, ws[n + 1].files), lo, hi))
  {
    RunKeeps(ws, steps, window, n);
    FlushedIsBounded(ws, steps, window, n);
    ListedInHistory(ws, steps, window, history, n);
    assert StepsTo(ws, steps, n, window);
    var done :| CycleOutcome(ws[n].ms, ws[n].files, ws[n + 1].ms, ws[n + 1].files, PinSet(ws[n].pinned), done, steps[n].now, window);
    CycleKeepsScans(ws[n].ms, ws[n].files, ws[n + 1].ms, ws[n + 1].files, PinSet(ws[n].pinned), done, steps[n].now, window, lo, hi, e);
  }
}
