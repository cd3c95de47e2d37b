/** The engine object: its fields, the operations that change them, and the reads. Every mutating
    method is one or more steps of `Lsm`; every read returns the last write per key of its history. */
module EngineObject {
  import opened ByteStrings
  import opened Collections
  import opened Keys
  import opened Entries
  import opened Merge
  import opened Scan
  import opened Paging
  import opened Pages
  import opened Lsm

  datatype Result<+T> = Ok(value: T) | ReadOnly | NamespaceTooLong | MemtableEmpty | WalFileExists
  datatype FlushWork = FlushWork(entries: seq<Entry>, maxLsn: nat)

  // ---- Reads over plain values ----

  lemma {:induction false} StackSplit(readers: seq<seq<Entry>>, i: nat)
    requires i < |readers|
    ensures Stack(Tables(readers[..i + 1])) == Stack(Tables(readers[..i])) + AsTable(readers[i])
  {
    assert readers[..i + 1] == readers[..i] + [readers[i]];
    TablesSnoc(readers[..i], readers[i]);
    var ts := Tables(readers[..i + 1]);
    assert ts[..|ts| - 1] == Tables(readers[..i]);
  }

  /** The reader list is asked newest first; each reader answers an exact lookup. */
  method FindInReaders(readers: seq<seq<Entry>>, k: Bytes) returns (found: Option<Entry>)
    ensures found == if k in Stack(Tables(readers)) then Some(Stack(Tables(readers))[k]) else None
  {
    var i := |readers|;
    assert readers[..i] == readers;
    while i > 0
      invariant 0 <= i <= |readers|
      invariant k in Stack(Tables(readers)) <==> k in Stack(Tables(readers[..i]))
      invariant k in Stack(Tables(readers)) ==> Stack(Tables(readers))[k] == Stack(Tables(readers[..i]))[k]
    {
      i := i - 1;
      StackSplit(readers, i);
      var t := AsTable(readers[i]);
      if k in t {
        return Some(t[k]);
      }
    }
    assert readers[..0] == [];
    return None;
  }

  /** `mem` and `maxLsn` are what replaying `done` gives. */
  ghost predicate Replayed(mem: Table, maxLsn: nat, done: seq<Entry>) {
    mem == AsTable(done) && maxLsn == MaxLsn(done)
  }

  lemma {:induction false} ReplayOne(mem: Table, maxLsn: nat, done: seq<Entry>, e: Entry)
    requires Replayed(mem, maxLsn, done)
    ensures Replayed(mem[e.key := e], if e.lsn > maxLsn then e.lsn else maxLsn, done + [e])
  {
    assert (done + [e])[..|done|] == done;
  }

  method ReplayFile(records: seq<Entry>, mem0: Table, max0: nat, ghost done: seq<Entry>) returns (mem: Table, maxLsn: nat)
    requires Replayed(mem0, max0, done)
    ensures Replayed(mem, maxLsn, done + records)
  {
    mem, maxLsn := mem0, max0;
    assert done + records[..0] == done;
    for i := 0 to |records|
      invariant Replayed(mem, maxLsn, done + records[..i])
    {
      var e := records[i];
      ReplayOne(mem, maxLsn, done + records[..i], e);
      assert done + records[..i + 1] == done + records[..i] + [e];
      mem := mem[e.key := e];
      if e.lsn > maxLsn {
        maxLsn := e.lsn;
      }
    }
    assert records[..|records|] == records;
  }

  /** Replays every WAL file in name order, later records replacing earlier ones. */
  method RecoverFromWal(wal: seq<WalFile>) returns (mem: Table, maxLsn: nat)
    ensures mem == AsTable(Records(wal)) && maxLsn == MaxLsn(Records(wal))
  {
    mem, maxLsn := map[], 0;
    for f := 0 to |wal|
      invariant Replayed(mem, maxLsn, Records(wal[..f]))
    {
      assert wal[..f + 1] == wal[..f] + [wal[f]];
      RecordsSnoc(wal[..f], wal[f]);
      mem, maxLsn := ReplayFile(wal[f].records, mem, maxLsn, Records(wal[..f]));
    }
    assert wal[..|wal|] == wal;
  }

  // ---- Prefix reads ----

  function Prefixed(m: Table, p: Bytes): Table {
    map k | k in m && p <= k :: m[k]
  }

  lemma {:induction false} PrefixWindow(m: Table, p: Bytes)
    requires UpperBound(p).Some?
    ensures Within(m, p, UpperBound(p).value) == Prefixed(m, p)
  {
    forall k | k in m
      ensures AtMost(p, k) && Less(k, UpperBound(p).value) <==> p <= k
    {
      PrefixRange(p, k);
    }
  }

  function StartingWith(s: seq<Entry>, p: Bytes): seq<Entry> {
    if s == [] then []
    else StartingWith(s[..|s| - 1], p) + (if p <= s[|s| - 1].key then [s[|s| - 1]] else [])
  }

  lemma {:induction false} AllStart(s: seq<Entry>, p: Bytes)
    requires forall i :: 0 <= i < |s| ==> p <= s[i].key
    ensures StartingWith(s, p) == s
  {
    if s != [] {
      AllStart(s[..|s| - 1], p);
      assert s == s[..|s| - 1] + [s[|s| - 1]];
    }
  }

  lemma {:induction false} SegmentsStart(segs: seq<seq<Entry>>, p: Bytes)
    requires UpperBound(p).Some?
    ensures StartingWith(Puts(SegmentList(segs, p, UpperBound(p).value)), p) == Puts(SegmentList(segs, p, UpperBound(p).value))
  {
    var s := SegmentList(segs, p, UpperBound(p).value);
    PutsMembers(s);
    AsTableMembers(s);
    forall i | 0 <= i < |Puts(s)|
      ensures p <= Puts(s)[i].key
    {
      assert Puts(s)[i] in s;
      assert Puts(s)[i].key in AsTable(s);
      PrefixRange(p, Puts(s)[i].key);
    }
    AllStart(Puts(s), p);
  }

  /** The segment part of a prefix read: the scan up to the bound, filtered by prefix. */
  method PrefixSegments(segs: seq<seq<Entry>>, p: Bytes, bound: Bytes) returns (results: seq<Entry>)
    requires Readers(segs) && UpperBound(p) == Some(bound)
    ensures results == Puts(SegmentList(segs, p, bound))
  {
    var raw, truncated := RangeScanBudgeted(segs, p, bound, None);
    SegmentsStart(segs, p);
    results := StartingWith(raw, p);
  }

  lemma {:induction false} PrefixMerged(segs: seq<seq<Entry>>, mem: Table, p: Bytes, d: seq<Entry>)
    requires Keyed(mem) && UpperBound(p).Some? && Sorted(d)
    requires AsTable(d) == Overlay(AsTable(Puts(SegmentList(segs, p, UpperBound(p).value))), Prefixed(mem, p))
    ensures d == Combined(segs, mem, p, UpperBound(p).value, None)
  {
    PutsOfSorted(SegmentList(segs, p, UpperBound(p).value));
    PrefixWindow(mem, p);
    SortedUnique(d, Combined(segs, mem, p, UpperBound(p).value, None));
  }

  lemma {:induction false} PrefixUnmerged(mem: Table, p: Bytes, d: seq<Entry>)
    requires Keyed(mem) && Sorted(d) && AsTable(d) == Overlay(AsTable([]), Prefixed(mem, p))
    ensures d == Listing(Prefixed(mem, p))
  {
    assert Overlay(map[], Prefixed(mem, p)) == Prefixed(mem, p);
    SortedUnique(d, Listing(Prefixed(mem, p)));
  }

  /** Segments are scanned up to the prefix's upper bound, the memtable by prefix. When the prefix
      has no upper bound the segments are not scanned at all. */
  method PrefixCore(segs: seq<seq<Entry>>, mem: Table, p: Bytes) returns (items: seq<Entry>)
    requires Readers(segs) && Keyed(mem)
    ensures UpperBound(p).Some? ==> items == ViewList(segs, mem, p, UpperBound(p).value)
    ensures UpperBound(p).None? ==> items == Puts(Listing(Prefixed(mem, p)))
  {
    var bound := PrefixUpperBound(p);
    var memResults := SortedEntries(Prefixed(mem, p));
    var segResults: seq<Entry> := [];
    if bound.Some? {
      segResults := PrefixSegments(segs, p, bound.value);
      PutsOfSorted(SegmentList(segs, p, bound.value));
      UnbudgetedIsView(segs, mem, p, bound.value);
    }
    var merged := MergeSortedScans(segResults, memResults);
    if bound.Some? {
      PrefixMerged(segs, mem, p, Dedup(merged));
    } else {
      PrefixUnmerged(mem, p, Dedup(merged));
    }
    var truncated;
    items, truncated := DedupFilterScan(merged, None, false);
  }

  lemma {:induction false} RunsOne(r: Run, a: Step)
    requires Inv(r) && Legal(r, a)
    ensures Runs(r, [a] + [], Next(r, a))
  {
    assert ([a] + [])[1..] == [];
  }

  lemma {:induction false} RunsTwo(r: Run, a: Step, b: Step)
    requires Inv(r) && Legal(r, a) && Inv(Next(r, a)) && Legal(Next(r, a), b)
    ensures Runs(r, [a] + [b], Next(Next(r, a), b))
  {
    assert ([a] + [b])[1..] == [b] && [b][1..] == [];
  }

  lemma {:induction false} NextPending(log: seq<Entry>, pending: seq<Step>, i: nat)
    requires i < |pending| && pending[i].Write?
    ensures var w := pending[i];
            log + Written(pending[i..], |log|)
            == log + [Entry(w.key, w.op, |log| + 1, w.timestamp, w.ttl)] + Written(pending[i + 1..], |log| + 1)
  {
    assert pending[i..][1..] == pending[i + 1..];
  }

  /** What a prefix read selects. */
  function PrefixView(s: State, p: Bytes): Table {
    if UpperBound(p).Some? then Prefixed(ScanView(s), p) else Live(Prefixed(s.mem, p))
  }

  /** Every live segment key with the prefix has a record in the memtable too. */
  predicate SegmentKeysBuffered(s: State, p: Bytes) {
    forall k :: k in Live(Newest(s.readers)) && p <= k ==> k in s.mem
  }

  lemma {:induction false} LaterWins(a: seq<Entry>, b: seq<Entry>, k: Bytes)
    requires k in AsTable(b)
    ensures k in AsTable(a + b) && AsTable(a + b)[k] == AsTable(b)[k]
  {
    AsTableConcat(a, b);
  }

  lemma {:induction false} MemtableIsLast(r: Run, k: Bytes)
    requires Inv(r) && k in r.s.mem
    ensures k in AsTable(r.log) && AsTable(r.log)[k] == r.s.mem[k]
  {
    var a, b := r.log[..r.memLow], r.log[r.memLow..|r.log|];
    assert r.log == a + b;
    LaterWins(a, b, k);
  }

  lemma {:induction false} BufferedPart(t: Table, mem: Table, p: Bytes)
    requires forall k :: k in mem ==> k in t && t[k] == mem[k]
    ensures var part, full := Live(Prefixed(mem, p)), Prefixed(Live(t), p);
            if forall k :: k in full ==> k in mem then part == full else |part| < |full|
  {
    var part, full := Live(Prefixed(mem, p)), Prefixed(Live(t), p);
    if k :| k in full && k !in mem {
      assert |part| == |part.Keys| && |full| == |full.Keys|;
      assert k in full.Keys && k !in part.Keys;
      SubsetSize(part.Keys, full.Keys);
    }
  }

  /** A prefix read is exact if and only if the prefix has an upper bound or the memtable has all of its
      live segment keys; otherwise it misses records. */
  lemma {:induction false} PrefixExactIff(r: Run, p: Bytes)
    requires Inv(r)
    ensures var exact := UpperBound(p).Some? || SegmentKeysBuffered(r.s, p);
            var full := Prefixed(Live(AsTable(r.log)), p);
            (PrefixView(r.s, p) == full <==> exact) && (!exact ==> |PrefixView(r.s, p)| < |full|)
  {
    ReadsAreLastWrites(r);
    if UpperBound(p).None? {
      forall k | k in r.s.mem
        ensures k in AsTable(r.log) && AsTable(r.log)[k] == r.s.mem[k]
      {
        MemtableIsLast(r, k);
      }
      BufferedPart(AsTable(r.log), r.s.mem, p);
      NotBuffered(r.s, p, Prefixed(Live(AsTable(r.log)), p));
    }
  }

  lemma NotBuffered(s: State, p: Bytes, full: Table)
    requires full == Prefixed(ScanView(s), p)
    ensures (forall k :: k in full ==> k in s.mem) <==> SegmentKeysBuffered(s, p)
  {
  }

  /** The same said of the listed records. */
  lemma {:induction false} PrefixListedIff(r: Run, ns: Bytes, p: Bytes, entries: seq<Entry>)
    requires Inv(r) && Sorted(entries) && AsTable(entries) == PrefixView(r.s, p) && Returnable(entries, ns)
    requires Returnable(Listing(Prefixed(Live(AsTable(r.log)), p)), ns)
    ensures Raw(entries, ns) == Raw(Listing(Prefixed(Live(AsTable(r.log)), p)), ns) <==> UpperBound(p).Some? || SegmentKeysBuffered(r.s, p)
  {
    var full := Listing(Prefixed(Live(AsTable(r.log)), p));
    PrefixExactIff(r, p);
    SortedCardinality(entries);
    SortedCardinality(full);
    if AsTable(entries) == AsTable(full) {
      SortedUnique(entries, full);
    }
  }

  // ---- The object ----

  /** The WAL files after opening: the latest goes on, or a new one is started. */
  function OpenedWal(files: seq<WalFile>, lsn: nat, rotationDue: bool): seq<WalFile> {
    if files == [] then [WalFile(lsn, [])] else if rotationDue then files + [WalFile(lsn + 1, [])] else files
  }

  /** The files are those of a run that may crash here. */
  ghost predicate Continues(crashed: Run, files: seq<WalFile>, segments: seq<seq<Entry>>, rotationDue: bool) {
    && Inv(crashed) && Legal(crashed, Crash(rotationDue)) && Readers(segments)
    && crashed.s.wal == files && crashed.s.readers == Tables(segments)
  }

  /** Opens the database: replays the WAL files that are there, keeps the registered segments and goes on
      appending to the latest file or starts a new one, whose name must be free. */
  method OpenDatabase(readonly: bool, files: seq<WalFile>, segments: seq<seq<Entry>>, rotationDue: bool, ghost crashed: Run) returns (r: Result<Engine>)
    ensures r.WalFileExists? <==> rotationDue && exists f :: f in files && f.name == MaxLsn(Records(files)) + 1
    ensures r.Ok? || r.WalFileExists?
    ensures r.Ok? ==> fresh(r.value) && r.value.memtable == AsTable(Records(files)) && r.value.readers == segments
    ensures files == [] && segments == [] ==> r.Ok? && r.value.Valid() && r.value.run == Start()
    ensures r.Ok? && Continues(crashed, files, segments, rotationDue) ==> r.value.Valid() && r.value.run == Next(crashed, Crash(rotationDue))
  {
    var mem, maxLsn := RecoverFromWal(files);
    if rotationDue && exists f | f in files :: f.name == maxLsn + 1 {
      return WalFileExists;
    }
    var engine := new Engine.Open(readonly, files, segments, rotationDue, crashed);
    return Ok(engine);
  }

  lemma {:induction false} NameTakenIff(r: Run)
    requires Inv(r) && r.s.wal[|r.s.wal| - 1].name <= r.s.lsn
    ensures (exists f :: f in r.s.wal && f.name == r.s.lsn) <==> r.s.wal[|r.s.wal| - 1].name == r.s.lsn
    ensures r.s.wal[|r.s.wal| - 1].name != r.s.lsn ==> Legal(r, Rotate)
  {
    var n := |r.s.wal| - 1;
    if r.s.wal[n].name == r.s.lsn {
      assert r.s.wal[n] in r.s.wal;
    }
    if f :| f in r.s.wal && f.name == r.s.lsn {
      var i :| 0 <= i <= n && r.s.wal[i] == f;
    }
  }

  lemma {:induction false} NothingInFlight(r: Run)
    requires Inv(r) && r.s.mem == map[]
    ensures r.s.flight.NoFlight?
  {
    var w := r.log[r.memLow..|r.log|];
    assert w != [] ==> w[|w| - 1].key in AsTable(w);
  }

  /** The run an engine goes on with. */
  ghost function OpenedRun(crashed: Run, files: seq<WalFile>, segments: seq<seq<Entry>>, rotationDue: bool): Run {
    if files == [] then Start() else if Continues(crashed, files, segments, rotationDue) then Next(crashed, Crash(rotationDue)) else crashed
  }

  lemma {:induction false} FreshState(files: seq<WalFile>, rotationDue: bool)
    requires files == []
    ensures Inv(Start()) && Start().s == State(AsTable(Records(files)), [], 0, OpenedWal(files, 0, rotationDue), NoFlight)
    ensures MaxLsn(Records(files)) == 0
  {
  }

  lemma {:induction false} CrashedState(crashed: Run, files: seq<WalFile>, segments: seq<seq<Entry>>, rotationDue: bool, n: nat)
    requires Continues(crashed, files, segments, rotationDue) && n == MaxLsn(Records(files))
    ensures var r := Next(crashed, Crash(rotationDue));
            Inv(r) && r.s == State(AsTable(Records(files)), Tables(segments), n, OpenedWal(files, n, rotationDue), NoFlight)
  {
    StepKeeps(crashed, Crash(rotationDue));
  }

  lemma {:induction false} OpenedState(crashed: Run, files: seq<WalFile>, segments: seq<seq<Entry>>, rotationDue: bool, n: nat)
    requires n == MaxLsn(Records(files))
    requires (files == [] && segments == []) || Continues(crashed, files, segments, rotationDue)
    ensures var r := OpenedRun(crashed, files, segments, rotationDue);
            Inv(r) && r.s == State(AsTable(Records(files)), Tables(segments), n, OpenedWal(files, n, rotationDue), NoFlight)
  {
    if files == [] {
      FreshState(files, rotationDue);
    } else {
      CrashedState(crashed, files, segments, rotationDue, n);
    }
  }

  class Engine {
    const readonly: bool
    var memtable: Table
    var readers: seq<seq<Entry>>
    var lsn: nat
    var wal: seq<WalFile>
    /** The run of `Lsm` that led to this state. */
    ghost var run: Run

    ghost predicate Valid()
      reads this
    {
      && Inv(run) && Readers(readers)
      && run.s == State(memtable, Tables(readers), lsn, wal, run.s.flight)
    }

    /** A write reached the WAL but not the memtable, because the rotation behind it failed. The run has
        the write; reads do not show it before the next replay. */
    ghost predicate Stalled()
      reads this
    {
      && Inv(run) && Readers(readers) && run.log != []
      && var e := run.log[|run.log| - 1];
         run.s == State(memtable[e.key := e], Tables(readers), lsn, wal, run.s.flight)
    }

    /** Takes over what `OpenDatabase` found. `crashed` is the run whose files are on disk, if any. */
    constructor Open(readonly: bool, files: seq<WalFile>, segments: seq<seq<Entry>>, rotationDue: bool, ghost crashed: Run)
      ensures this.readonly == readonly && readers == segments
      ensures memtable == AsTable(Records(files)) && lsn == MaxLsn(Records(files)) && wal == OpenedWal(files, lsn, rotationDue)
      ensures files == [] && segments == [] ==> Valid() && run == Start()
      ensures Continues(crashed, files, segments, rotationDue) ==> Valid() && run == Next(crashed, Crash(rotationDue))
    {
      this.readonly := readonly;
      var mem, maxLsn := RecoverFromWal(files);
      memtable, readers, lsn := mem, segments, maxLsn;
      wal := OpenedWal(files, maxLsn, rotationDue);
      run := OpenedRun(crashed, files, segments, rotationDue);
      new;
      if (files == [] && segments == []) || Continues(crashed, files, segments, rotationDue) {
        OpenedState(crashed, files, segments, rotationDue, lsn);
      }
    }

    /** Takes the next LSN and appends the record to the WAL. */
    method AppendRecord(key: Bytes, op: Op, timestamp: int, ttl: nat) returns (e: Entry)
      requires Valid()
      modifies this`lsn, this`wal, this`run
      ensures Stalled() && lsn == old(lsn) + 1 && e == Entry(key, op, lsn, timestamp, ttl)
      ensures run == Next(old(run), Write(key, op, timestamp, ttl)) && wal[|wal| - 1].name == old(wal[|wal| - 1].name)
    {
      ghost var step := Write(key, op, timestamp, ttl);
      StepKeeps(run, step);
      lsn := lsn + 1;
      e := Entry(key, op, lsn, timestamp, ttl);
      wal := Append(wal, e);
      run := Next(run, step);
    }

    /** Starts a new WAL file named after the current LSN, unless there is one. */
    method RotateWal() returns (ok: bool)
      requires Inv(run) && run.s.wal == wal && run.s.lsn == lsn && wal[|wal| - 1].name <= lsn
      modifies this`wal, this`run
      ensures ok <==> old(wal[|wal| - 1].name) != lsn
      ensures ok ==> Legal(old(run), Rotate) && run == Next(old(run), Rotate) && Inv(run) && wal == run.s.wal
      ensures !ok ==> run == old(run) && wal == old(wal)
    {
      NameTakenIff(run);
      if exists f | f in wal :: f.name == lsn {
        return false;
      }
      StepKeeps(run, Rotate);
      wal := wal + [WalFile(lsn, [])];
      run := Next(run, Rotate);
      return true;
    }

    /** Appends to the WAL and rotates it when due. The rotation creates a file that must not exist; if it
        does, the record is in the WAL all the same. */
    method LogRecord(key: Bytes, op: Op, timestamp: int, ttl: nat, rotationDue: bool) returns (ok: bool, e: Entry)
      requires Valid()
      modifies this`lsn, this`wal, this`run
      ensures ok <==> !(rotationDue && old(wal[|wal| - 1].name) == lsn)
      ensures Stalled() && lsn == old(lsn) + 1 && e == Entry(key, op, lsn, timestamp, ttl) && run.log == old(run).log + [e]
      ensures Runs(old(run), [Write(key, op, timestamp, ttl)] + (if rotationDue && ok then [Rotate] else []), run)
      ensures run.s.flight == old(run).s.flight && (!rotationDue ==> wal[|wal| - 1].name == old(wal[|wal| - 1].name))
    {
      ghost var step := Write(key, op, timestamp, ttl);
      RunsOne(run, step);
      e := AppendRecord(key, op, timestamp, ttl);
      ok := true;
      if rotationDue {
        ok := RotateWal();
        if ok {
          RunsTwo(old(run), step, Rotate);
        }
      }
    }

    /** Logs the record, then inserts it into the memtable, unless the rotation failed. */
    method WriteEntry(key: Bytes, op: Op, timestamp: int, ttl: nat, rotationDue: bool) returns (r: Result<nat>)
      requires Valid()
      modifies this`memtable, this`lsn, this`wal, this`run
      ensures r == if rotationDue && old(wal[|wal| - 1].name) == lsn then WalFileExists else Ok(lsn)
      ensures lsn == old(lsn) + 1 && run.log == old(run).log + [Entry(key, op, lsn, timestamp, ttl)]
      ensures r.Ok? ==> Valid()
      ensures r.WalFileExists? ==> Stalled() && memtable == old(memtable)
      ensures Runs(old(run), [Write(key, op, timestamp, ttl)] + (if rotationDue && r.Ok? then [Rotate] else []), run)
      ensures run.s.flight == old(run).s.flight && (!rotationDue ==> wal[|wal| - 1].name == old(wal[|wal| - 1].name))
    {
      var ok, e := LogRecord(key, op, timestamp, ttl, rotationDue);
      if !ok {
        return WalFileExists;
      }
      memtable := memtable[key := e];
      return Ok(lsn);
    }

    method PutWithTtl(ns: Bytes, key: Bytes, value: Bytes, timestamp: int, ttl: nat, rotationDue: bool) returns (r: Result<nat>)
      requires Valid()
      modifies this`memtable, this`lsn, this`wal, this`run
      ensures if r.WalFileExists? then Stalled() && memtable == old(memtable) else Valid()
      ensures readonly ==> r == ReadOnly && run == old(run)
      ensures !readonly && |ns| > MaxNamespace ==> r == NamespaceTooLong && run == old(run)
      ensures !readonly && |ns| <= MaxNamespace ==>
                && r == (if rotationDue && old(wal[|wal| - 1].name) == lsn then WalFileExists else Ok(lsn))
                && run.log == old(run).log + [Entry(EncodeKey(ns, key), Put(value), lsn, timestamp, ttl)]
      ensures run.s.flight == old(run).s.flight
    {
      if readonly {
        return ReadOnly;
      }
      if |ns| > MaxNamespace {
        return NamespaceTooLong;
      }
      r := WriteEntry(EncodeKey(ns, key), Put(value), timestamp, ttl, rotationDue);
    }

    /** `put`: as `PutWithTtl` with no TTL, then a flush when the memtable is full. */
    method PutValue(ns: Bytes, key: Bytes, value: Bytes, timestamp: int, rotationDue: bool, memtableFull: bool) returns (r: Result<nat>)
      requires Valid()
      modifies this
      ensures if r.WalFileExists? then Stalled() && memtable == old(memtable) else Valid()
      ensures readonly ==> r == ReadOnly && run == old(run)
      ensures !readonly && |ns| > MaxNamespace ==> r == NamespaceTooLong && run == old(run)
      ensures !readonly && |ns| <= MaxNamespace ==>
                && r == (if rotationDue && old(wal[|wal| - 1].name) == lsn then WalFileExists else Ok(lsn))
                && run.log == old(run).log + [Entry(EncodeKey(ns, key), Put(value), lsn, timestamp, 0)]
      ensures !memtableFull ==> run.s.flight == old(run).s.flight
    {
      r := PutWithTtl(ns, key, value, timestamp, 0, rotationDue);
      if r.Ok? && memtableFull {
        var flushed := FlushToSegments();
      }
    }

    /** The namespace length is not checked here; encoding the key asserts it. */
    method DeleteKey(ns: Bytes, key: Bytes, timestamp: int, rotationDue: bool) returns (r: Result<nat>)
      requires Valid() && |ns| <= MaxNamespace
      modifies this`memtable, this`lsn, this`wal, this`run
      ensures if r.WalFileExists? then Stalled() && memtable == old(memtable) else Valid()
      ensures readonly ==> r == ReadOnly && run == old(run)
      ensures !readonly ==>
                && r == (if rotationDue && old(wal[|wal| - 1].name) == lsn then WalFileExists else Ok(lsn))
                && run.log == old(run).log + [Entry(EncodeKey(ns, key), Delete, lsn, timestamp, 0)]
    {
      if readonly {
        return ReadOnly;
      }
      r := WriteEntry(EncodeKey(ns, key), Delete, timestamp, 0, rotationDue);
    }

    /** Appends the pending records in order under fresh LSNs, then rotates the WAL when due. The records
        are in the memtable by then, so a failed rotation leaves nothing behind. */
    method CommitTransaction(pending: seq<Step>, rotationDue: bool) returns (r: Result<nat>)
      requires Valid() && forall i :: 0 <= i < |pending| ==> pending[i].Write?
      requires rotationDue && pending == [] ==> wal[|wal| - 1].name <= lsn
      modifies this`memtable, this`lsn, this`wal, this`run
      ensures Valid() && lsn == old(lsn) + |pending|
      ensures r == if rotationDue && old(wal[|wal| - 1].name) == lsn then WalFileExists else Ok(lsn)
      ensures run.log == old(run).log + Written(pending, old(lsn))
    {
      ghost var log0 := run.log;
      for i := 0 to |pending|
        invariant Valid() && lsn == old(lsn) + i && wal[|wal| - 1].name == old(wal[|wal| - 1].name)
        invariant run.log + Written(pending[i..], lsn) == log0 + Written(pending, old(lsn))
      {
        var w := pending[i];
        NextPending(run.log, pending, i);
        var written := WriteEntry(w.key, w.op, w.timestamp, w.ttl, false);
      }
      if rotationDue {
        var ok := RotateWal();
        if !ok {
          return WalFileExists;
        }
      }
      r := Ok(lsn);
    }

    /** Phase 1: snapshot the memtable. Nothing is cleared, so reads are not affected. The snapshot takes
        the place of one in flight, if there is one. */
    method BeginFlush() returns (work: Option<FlushWork>)
      requires Valid()
      modifies this`run
      ensures Valid() && run == Next(old(run), Step.BeginFlush)
      ensures work.None? <==> memtable == map[]
      ensures work.Some? ==> InFlight(work.value)
    {
      StepKeeps(run, Step.BeginFlush);
      run := Next(run, Step.BeginFlush);
      if memtable == map[] {
        return None;
      }
      var entries := SortedEntries(memtable);
      var maxLsn := HighestLsn(entries);
      work := Some(FlushWork(entries, maxLsn));
    }

    /** `work` is the flush in flight. */
    ghost predicate InFlight(work: FlushWork)
      reads this
    {
      Sorted(work.entries) && work.entries != [] && run.s.flight == Flight(AsTable(work.entries), work.maxLsn)
    }

    /** Phase 3: register the segment, keep only the memtable records written meanwhile, and delete
        every WAL file but the active one. */
    method FinalizeFlush(work: FlushWork)
      requires Valid() && InFlight(work)
      modifies this
      ensures Valid() && run == Next(old(run), Step.FinalizeFlush) && run.log == old(run.log)
    {
      StepKeeps(run, Step.FinalizeFlush);
      ghost var r := Next(run, Step.FinalizeFlush);
      TablesSnoc(readers, work.entries);
      readers := readers + [work.entries];
      memtable := Newer(memtable, work.maxLsn);
      wal := [wal[|wal| - 1]];
      run := r;
      ReadersConsistent(run.log, run.s.readers, run.lows, run.cuts);
    }

    method FlushToSegments() returns (r: Result<nat>)
      requires Valid()
      modifies this
      ensures Valid() && run.s.flight.NoFlight? && run.log == old(run.log)
      ensures old(memtable) == map[] ==> r == MemtableEmpty && run == old(run)
      ensures old(memtable) != map[] ==> r.Ok? && memtable == map[] && |readers| == old(|readers|) + 1 && Durable(run)
    {
      var work := BeginFlush();
      if work.None? {
        NothingInFlight(run);
        return MemtableEmpty;
      }
      WindowMax(run.log, run.memLow, memtable);
      FinalizeFlush(work.value);
      assert run.log[run.memLow..|run.log|] == [];
      r := Ok(|readers|);
    }

    method GetValue(ns: Bytes, key: Bytes) returns (value: Option<Bytes>)
      requires Valid() && |ns| <= MaxNamespace
      ensures value == ValueOf(AsTable(run.log), EncodeKey(ns, key))
    {
      var k := EncodeKey(ns, key);
      ReadsAreLastWrites(run);
      assert Get(run.s, k) == ValueOf(AsTable(run.log), k);
      if k in memtable {
        return if memtable[k].op.Delete? then None else Some(memtable[k].op.value);
      }
      var found := FindInReaders(readers, k);
      if found.Some? && found.value.op.Put? {
        return Some(found.value.op.value);
      }
      return None;
    }

    /** The live records of the history with keys in the range, decoded, in key order. */
    method Range(ns: Bytes, start: Bytes, end: Bytes) returns (items: seq<Pair>)
      requires Valid() && |ns| <= MaxNamespace && AtMost(start, end)
      ensures var listed := Listing(Within(Live(AsTable(run.log)), EncodeKey(ns, start), EncodeKey(ns, end)));
              Returnable(listed, ns) && items == Raw(listed, ns)
    {
      var lo, hi := EncodeKey(ns, start), EncodeKey(ns, end);
      var entries, truncated := RangeCore(readers, memtable, lo, hi, None);
      UnbudgetedIsView(readers, memtable, lo, hi);
      ViewReturnable(readers, memtable, ns, start, end);
      ReadsAreLastWrites(run);
      SortedUnique(entries, Listing(Within(Live(AsTable(run.log)), lo, hi)));
      items := Raw(entries, ns);
    }

    /** The live records of the history whose keys start with `prefix`, decoded, for every prefix that
        has an upper bound. */
    method Prefix(ns: Bytes, prefix: Bytes) returns (items: seq<Pair>)
      requires Valid() && |ns| <= MaxNamespace
      ensures UpperBound(EncodeKey(ns, prefix)).Some? ==>
                var listed := Listing(Prefixed(Live(AsTable(run.log)), EncodeKey(ns, prefix)));
                Returnable(listed, ns) && items == Raw(listed, ns)
      ensures UpperBound(EncodeKey(ns, prefix)).None? ==>
                var listed := Puts(Listing(Prefixed(memtable, EncodeKey(ns, prefix))));
                Returnable(listed, ns) && items == Raw(listed, ns)
      ensures var p := EncodeKey(ns, prefix);
              var full := Listing(Prefixed(Live(AsTable(run.log)), p));
              Returnable(full, ns) && (items == Raw(full, ns) <==> UpperBound(p).Some? || SegmentKeysBuffered(run.s, p))
    {
      var p := EncodeKey(ns, prefix);
      var entries := PrefixCore(readers, memtable, p);
      PrefixEntries(run, readers, ns, prefix, entries);
      items := Raw(entries, ns);
    }
  }

  lemma {:induction false} HistoryReturnable(log: seq<Entry>, ns: Bytes, prefix: Bytes)
    requires |ns| <= MaxNamespace
    ensures Returnable(Listing(Prefixed(Live(AsTable(log)), EncodeKey(ns, prefix))), ns)
  {
    PrefixReturnable(Live(AsTable(log)), ns, prefix);
    AllLive(Prefixed(Live(AsTable(log)), EncodeKey(ns, prefix)));
  }

  /** What `PrefixCore` returns on the engine's readers and memtable. */
  lemma {:induction false} PrefixEntries(r: Run, segs: seq<seq<Entry>>, ns: Bytes, prefix: Bytes, entries: seq<Entry>)
    requires Inv(r) && |ns| <= MaxNamespace && r.s.readers == Tables(segs) && Keyed(r.s.mem)
    requires var p := EncodeKey(ns, prefix);
             entries == if UpperBound(p).Some? then ViewList(segs, r.s.mem, p, UpperBound(p).value) else Puts(Listing(Prefixed(r.s.mem, p)))
    ensures var p := EncodeKey(ns, prefix);
            var full := Listing(Prefixed(Live(AsTable(r.log)), p));
            && Returnable(entries, ns) && Returnable(full, ns) && (UpperBound(p).Some? ==> entries == full)
            && (Raw(entries, ns) == Raw(full, ns) <==> UpperBound(p).Some? || SegmentKeysBuffered(r.s, p))
  {
    var p := EncodeKey(ns, prefix);
    HistoryReturnable(r.log, ns, prefix);
    if UpperBound(p).Some? {
      ReadsAreLastWrites(r);
      PrefixWindow(Live(AsTable(r.log)), p);
      SortedUnique(entries, Listing(Prefixed(Live(AsTable(r.log)), p)));
    } else {
      PrefixReturnable(r.s.mem, ns, prefix);
      PutsOfSorted(Listing(Prefixed(r.s.mem, p)));
    }
    PrefixListedIff(r, ns, p, entries);
  }

  /** The live part of what a prefix selects can be returned for its namespace. */
  lemma {:induction false} PrefixReturnable(m: Table, ns: Bytes, prefix: Bytes)
    requires |ns| <= MaxNamespace && Keyed(m)
    ensures Returnable(Puts(Listing(Prefixed(m, EncodeKey(ns, prefix)))), ns)
  {
    var p := EncodeKey(ns, prefix);
    var s := Listing(Prefixed(m, p));
    PutsMembers(s);
    AsTableMembers(s);
    forall i | 0 <= i < |Puts(s)|
      ensures Puts(s)[i].op.Put? && DecodeKey(Puts(s)[i].key).Decoded? && DecodeKey(Puts(s)[i].key).ns == ns
    {
      assert Puts(s)[i] in s;
      assert Puts(s)[i].key in AsTable(s);
      PrefixDecodes(ns, prefix, Puts(s)[i].key);
    }
  }

  lemma PrefixDecodes(ns: Bytes, prefix: Bytes, k: Bytes)
    requires |ns| <= MaxNamespace && EncodeKey(ns, prefix) <= k
    ensures DecodeKey(k).Decoded? && DecodeKey(k).ns == ns
  {
    var key := k[2 + |ns|..];
    assert k[..2 + |ns|] == EncodeKey(ns, prefix)[..2 + |ns|] == NamespacePrefix(ns);
    assert k == EncodeKey(ns, key);
    DecodeEncode(ns, key);
  }

  lemma {:induction false} AllLive(m: Table)
    requires Keyed(m) && forall k :: k in m ==> m[k].op.Put?
    ensures Puts(Listing(m)) == Listing(m)
  {
    PutsOfSorted(Listing(m));
    assert Live(m) == m;
    SortedUnique(Puts(Listing(m)), Listing(m));
  }

  /** The namespace of the greatest length, all ones: no prefix of ones in it has an upper bound. */
  function LongestNamespace(): (ns: Bytes)
    ensures |ns| == MaxNamespace && AllOnes(ns)
  {
    seq(MaxNamespace, _ => 0xFF)
  }

  lemma {:induction false} LongestUnbounded(p: Bytes)
    requires p == EncodeKey(LongestNamespace(), [])
    ensures UpperBound(p).None? && Puts(Listing(Prefixed(map[], p))) == []
  {
    NoBoundIffAllOnes(p);
    var none: Table := map[];
    assert Prefixed(none, p) == none;
    SortedUnique(Listing(none), []);
  }

  lemma {:induction false} LastWriteRead(log: seq<Entry>, e: Entry)
    requires e.op.Put?
    ensures ValueOf(AsTable(log + [e]), e.key) == Some(e.op.value)
  {
    assert (log + [e])[..|log|] == log;
  }

  /** Prefix reads of that namespace miss a record once it is flushed; point reads find it. */
  method PrefixMissesFlushed(key: Bytes, value: Bytes, timestamp: int) returns (got: Option<Bytes>, listed: seq<Pair>)
    ensures got == Some(value) && listed == []
  {
    var ns := LongestNamespace();
    LongestUnbounded(EncodeKey(ns, []));
    var db := new Engine.Open(false, [], [], false, Start());
    var written := db.PutValue(ns, key, value, timestamp, false, false);
    LastWriteRead([], Entry(EncodeKey(ns, key), Put(value), db.lsn, timestamp, 0));
    var flushed := db.FlushToSegments();
    got := db.GetValue(ns, key);
    listed := db.Prefix(ns, []);
  }

  /** `flushed_max_lsn`. */
  method HighestLsn(entries: seq<Entry>) returns (m: nat)
    ensures m == MaxLsn(entries)
  {
    m := 0;
    for i := 0 to |entries|
      invariant m == MaxLsn(entries[..i])
    {
      assert entries[..i + 1][..i] == entries[..i];
      if entries[i].lsn > m {
        m := entries[i].lsn;
      }
    }
    assert entries[..|entries|] == entries;
  }
}
