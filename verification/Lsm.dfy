/** The engine as a state machine: writes, WAL rotation, three-phase flush, crash and recovery.
    The claim is that every legal run reads as one map, the last write per key. */
module Lsm {
  import opened ByteStrings
  import opened Entries
  import opened Scan

  datatype WalFile = WalFile(name: nat, records: seq<Entry>)
  datatype Flight = NoFlight | Flight(entries: Table, maxLsn: nat)

  /** `readers` in reader-list order, `wal` in name order with the active file last. */
  datatype State = State(mem: Table, readers: seq<Table>, lsn: nat, wal: seq<WalFile>, flight: Flight)

  datatype Step =
    | Write(key: Bytes, op: Op, timestamp: int, ttl: nat)
    | Rotate
    | BeginFlush
    | FinalizeFlush
    | Crash(rotate: bool)

  // ---- State transitions ----

  function Initial(): State {
    State(map[], [], 0, [WalFile(0, [])], NoFlight)
  }

  function Append(wal: seq<WalFile>, e: Entry): seq<WalFile>
    requires wal != []
  {
    var active := wal[|wal| - 1];
    wal[..|wal| - 1] + [WalFile(active.name, active.records + [e])]
  }

  function Records(wal: seq<WalFile>): seq<Entry> {
    if wal == [] then [] else Records(wal[..|wal| - 1]) + wal[|wal| - 1].records
  }

  function MaxLsn(s: seq<Entry>): (r: nat) {
    if s == [] then 0
    else if s[|s| - 1].lsn > MaxLsn(s[..|s| - 1]) then s[|s| - 1].lsn else MaxLsn(s[..|s| - 1])
  }

  lemma {:induction false} MaxLsnBounds(s: seq<Entry>)
    ensures forall i :: 0 <= i < |s| ==> s[i].lsn <= MaxLsn(s)
    ensures s != [] ==> exists i :: 0 <= i < |s| && s[i].lsn == MaxLsn(s)
  {
    if s != [] {
      var s' := s[..|s| - 1];
      MaxLsnBounds(s');
      if MaxLsn(s) == MaxLsn(s') && s' != [] {
        var i :| 0 <= i < |s'| && s'[i].lsn == MaxLsn(s');
        assert s[i].lsn == MaxLsn(s);
      } else {
        assert s[|s| - 1].lsn == MaxLsn(s);
      }
    }
  }

  function Newer(m: Table, lsn: nat): Table {
    map k | k in m && m[k].lsn > lsn :: m[k]
  }

  ghost function Apply(s: State, step: Step): State
    requires s.wal != [] && Keyed(s.mem) && (step.FinalizeFlush? ==> s.flight.Flight?)
  {
    match step
    case Write(key, op, timestamp, ttl) =>
      var e := Entry(key, op, s.lsn + 1, timestamp, ttl);
      s.(mem := s.mem[key := e], lsn := s.lsn + 1, wal := Append(s.wal, e))
    case Rotate => s.(wal := s.wal + [WalFile(s.lsn, [])])
    case BeginFlush => if s.mem == map[] then s else s.(flight := Flight(s.mem, MaxLsn(Listing(s.mem))))
    case FinalizeFlush =>
      s.(readers := s.readers + [s.flight.entries], mem := Newer(s.mem, s.flight.maxLsn),
         wal := [s.wal[|s.wal| - 1]], flight := NoFlight)
    case Crash(rotate) =>
      var lsn := MaxLsn(Records(s.wal));
      State(AsTable(Records(s.wal)), s.readers, lsn,
            if rotate then s.wal + [WalFile(lsn + 1, [])] else s.wal, NoFlight)
  }

  // ---- Reads ----

  /** Point read: memtable first, then the readers, newest first. */
  function Get(s: State, k: Bytes): Option<Bytes> {
    if k in s.mem then ValueOf(s.mem, k) else ValueOf(Stack(s.readers), k)
  }

  /** What scans list: highest LSN per key over segments and memtable, tombstones gone. */
  function ScanView(s: State): Table {
    View(s.readers, s.mem)
  }

  // ---- Runs, with the history that proofs refer to ----

  /** `log` holds every write ever made, the record with LSN `n` at index `n - 1`. Reader `j` is the
      table of `log[lows[j]..cuts[j]]`, the memtable that of `log[memLow..]`, and the retained WAL
      files hold `log[walLow..]`. */
  datatype Run = Run(s: State, log: seq<Entry>, lows: seq<nat>, cuts: seq<nat>, memLow: nat, walLow: nat)

  function Start(): Run {
    Run(Initial(), [], [], [], 0, 0)
  }

  function LastCut(cuts: seq<nat>): nat {
    if cuts == [] then 0 else cuts[|cuts| - 1]
  }

  predicate Numbered(log: seq<Entry>) {
    forall i :: 0 <= i < |log| ==> log[i].lsn == i + 1
  }

  predicate Tile(log: seq<Entry>, t: Table, low: nat, prev: nat, cut: nat) {
    low <= prev <= cut <= |log| && t == AsTable(log[low..cut])
  }

  predicate Tiles(log: seq<Entry>, readers: seq<Table>, lows: seq<nat>, cuts: seq<nat>) {
    && |lows| == |cuts| == |readers|
    && (forall j :: 0 <= j < |cuts| ==> TileAt(log, readers, lows, cuts, j))
  }

  predicate TileAt(log: seq<Entry>, readers: seq<Table>, lows: seq<nat>, cuts: seq<nat>, j: nat)
    requires |lows| == |cuts| == |readers| && j < |cuts|
  {
    Tile(log, readers[j], lows[j], LastCut(cuts[..j]), cuts[j])
  }

  /** Readers, memtable and the flush in flight are windows of the log. */
  predicate ReadInv(r: Run) {
    && Numbered(r.log) && r.s.lsn == |r.log|
    && Tiles(r.log, r.s.readers, r.lows, r.cuts)
    && Tile(r.log, r.s.mem, r.memLow, LastCut(r.cuts), |r.log|)
    && (r.s.flight.Flight? ==>
          r.memLow < r.s.flight.maxLsn && Tile(r.log, r.s.flight.entries, r.memLow, LastCut(r.cuts), r.s.flight.maxLsn))
  }

  /** The retained WAL files are a suffix of the log. */
  predicate WalInv(r: Run) {
    && r.s.wal != [] && r.walLow <= |r.log| && Records(r.s.wal) == r.log[r.walLow..]
    && NamesAscend(r.s.wal) && r.s.wal[|r.s.wal| - 1].name <= |r.log| + 1
  }

  /** Every legal run keeps this. */
  predicate Inv(r: Run) {
    ReadInv(r) && WalInv(r)
  }

  /** File names ascend, so sorting them by name is replay order. */
  predicate NamesAscend(wal: seq<WalFile>) {
    forall i, j :: 0 <= i < j < |wal| ==> wal[i].name < wal[j].name
  }

  /** The retained WAL files hold every record above the last flushed LSN. */
  predicate Durable(r: Run) {
    r.walLow <= LastCut(r.cuts)
  }

  /** A new WAL file is created with a name that must not exist yet. */
  predicate FreshName(s: State) {
    s.wal != [] && s.wal[|s.wal| - 1].name < s.lsn
  }

  /** A new snapshot supersedes the one in flight, which is then not finalized; a crash finds a WAL that covers the unflushed writes and that
      still names the last LSN. */
  predicate Legal(r: Run, step: Step) {
    match step
    case Write(_, _, _, _) => true
    case Rotate => FreshName(r.s)
    case BeginFlush => true
    case FinalizeFlush => r.s.flight.Flight?
    case Crash(rotate) =>
      && Durable(r) && (Records(r.s.wal) != [] || r.log == [])
      && (rotate ==> r.s.wal != [] && r.s.wal[|r.s.wal| - 1].name <= r.s.lsn)
  }

  ghost function Next(r: Run, step: Step): Run
    requires Inv(r) && Legal(r, step)
  {
    var s := Apply(r.s, step);
    match step
    case Write(key, op, timestamp, ttl) => r.(s := s, log := r.log + [Entry(key, op, r.s.lsn + 1, timestamp, ttl)])
    case Rotate => r.(s := s)
    case BeginFlush => r.(s := s)
    case FinalizeFlush =>
      var c := r.s.flight.maxLsn;
      Run(s, r.log, r.lows + [r.memLow], r.cuts + [c], c, |r.log| - |s.wal[0].records|)
    case Crash(_) => r.(s := s, memLow := r.walLow)
  }

  // ---- The invariant is kept ----

  lemma {:induction false} RecordsSnoc(wal: seq<WalFile>, f: WalFile)
    ensures Records(wal + [f]) == Records(wal) + f.records
  {
    assert (wal + [f])[..|wal|] == wal;
  }

  lemma {:induction false} AppendRecords(wal: seq<WalFile>, e: Entry)
    requires wal != []
    ensures Records(Append(wal, e)) == Records(wal) + [e]
  {
    var active := wal[|wal| - 1];
    RecordsSnoc(wal[..|wal| - 1], WalFile(active.name, active.records + [e]));
  }

  lemma {:induction false} TileGrows(log: seq<Entry>, e: Entry, t: Table, low: nat, prev: nat, cut: nat)
    requires Tile(log, t, low, prev, cut)
    ensures Tile(log + [e], t, low, prev, cut)
    ensures cut == |log| ==> Tile(log + [e], t[e.key := e], low, prev, cut + 1)
  {
    assert (log + [e])[low..cut] == log[low..cut];
    var w := (log + [e])[low..|log| + 1];
    assert w[..|w| - 1] == log[low..];
  }

  lemma {:induction false} TilesGrow(log: seq<Entry>, e: Entry, readers: seq<Table>, lows: seq<nat>, cuts: seq<nat>)
    requires Tiles(log, readers, lows, cuts)
    ensures Tiles(log + [e], readers, lows, cuts)
  {
    forall j | 0 <= j < |cuts|
      ensures TileAt(log + [e], readers, lows, cuts, j)
    {
      assert TileAt(log, readers, lows, cuts, j);
      TileGrows(log, e, readers[j], lows[j], LastCut(cuts[..j]), cuts[j]);
    }
  }

  lemma {:induction false} WriteKeepsReads(r: Run, step: Step)
    requires Inv(r) && step.Write?
    ensures ReadInv(Next(r, step))
  {
    var e := Entry(step.key, step.op, r.s.lsn + 1, step.timestamp, step.ttl);
    TilesGrow(r.log, e, r.s.readers, r.lows, r.cuts);
    TileGrows(r.log, e, r.s.mem, r.memLow, LastCut(r.cuts), |r.log|);
    if r.s.flight.Flight? {
      TileGrows(r.log, e, r.s.flight.entries, r.memLow, LastCut(r.cuts), r.s.flight.maxLsn);
    }
  }

  lemma {:induction false} WriteKeepsWal(r: Run, step: Step)
    requires Inv(r) && step.Write?
    ensures WalInv(Next(r, step))
  {
    var e := Entry(step.key, step.op, r.s.lsn + 1, step.timestamp, step.ttl);
    AppendRecords(r.s.wal, e);
    assert (r.log + [e])[r.walLow..] == r.log[r.walLow..] + [e];
  }

  lemma {:induction false} RotateKeeps(r: Run)
    requires Inv(r) && Legal(r, Rotate)
    ensures Inv(Next(r, Rotate))
  {
    RecordsSnoc(r.s.wal, WalFile(r.s.lsn, []));
  }

  /** Rotating creates a file named after the current LSN. It succeeds, and the names still ascend, exactly
      when the active file's name is smaller. */
  lemma {:induction false} RotationSucceedsIff(r: Run)
    requires Inv(r)
    ensures (forall i :: 0 <= i < |r.s.wal| ==> r.s.wal[i].name != r.s.lsn) && NamesAscend(r.s.wal + [WalFile(r.s.lsn, [])]) <==> FreshName(r.s)
  {
    var wal, n := r.s.wal + [WalFile(r.s.lsn, [])], |r.s.wal|;
    if NamesAscend(wal) {
      assert wal[n - 1].name < wal[n].name;
    }
  }

  /** The records of a table are records of `log[low..hi]`. */
  predicate FromWindow(log: seq<Entry>, m: Table, low: nat, hi: nat) {
    hi <= |log| && forall k :: k in m ==> low < m[k].lsn <= hi && log[m[k].lsn - 1] == m[k]
  }

  lemma {:induction false} WindowEntries(log: seq<Entry>, low: nat, hi: nat)
    requires Numbered(log) && low <= hi <= |log|
    ensures FromWindow(log, AsTable(log[low..hi]), low, hi)
  {
    if low < hi {
      var w := log[low..hi];
      assert w[..|w| - 1] == log[low..hi - 1];
      WindowEntries(log, low, hi - 1);
    }
  }

  /** The highest LSN of a window is its last write. */
  lemma {:induction false} WindowMax(log: seq<Entry>, low: nat, m: Table)
    requires Numbered(log) && low <= |log| && m == AsTable(log[low..|log|]) && m != map[]
    ensures low < |log| && MaxLsn(Listing(m)) == |log|
  {
    WindowEntries(log, low, |log|);
    var last := log[|log| - 1];
    var s := Listing(m);
    ListedLsns(s, |log|, last.key);
  }

  lemma {:induction false} ListedLsns(s: seq<Entry>, n: nat, k: Bytes)
    requires Sorted(s) && (forall j :: j in AsTable(s) ==> AsTable(s)[j].lsn <= n)
    requires k in AsTable(s) && AsTable(s)[k].lsn == n
    ensures MaxLsn(s) == n
  {
    MaxLsnBounds(s);
    AsTableOfSorted(s);
    AsTableMembers(s);
    assert AsTable(s)[k] in s;
    var i :| 0 <= i < |s| && s[i].lsn == MaxLsn(s);
    assert s[i].key in AsTable(s);
  }

  lemma {:induction false} BeginKeeps(r: Run)
    requires Inv(r) && Legal(r, BeginFlush)
    ensures Inv(Next(r, BeginFlush))
  {
    if r.s.mem != map[] {
      WindowMax(r.log, r.memLow, r.s.mem);
    }
  }

  /** Dropping the flushed LSNs leaves the table of the writes made during the flush. */
  lemma {:induction false} NewerIsSuffix(log: seq<Entry>, low: nat, c: nat)
    requires Numbered(log) && low <= c <= |log|
    ensures Newer(AsTable(log[low..|log|]), c) == AsTable(log[c..|log|])
  {
    var a, b := log[low..c], log[c..|log|];
    assert log[low..|log|] == a + b;
    AsTableConcat(a, b);
    WindowEntries(log, low, c);
    WindowEntries(log, c, |log|);
  }

  lemma {:induction false} TilesSnoc(log: seq<Entry>, readers: seq<Table>, lows: seq<nat>, cuts: seq<nat>, t: Table, low: nat, cut: nat)
    requires Tiles(log, readers, lows, cuts) && Tile(log, t, low, LastCut(cuts), cut)
    ensures Tiles(log, readers + [t], lows + [low], cuts + [cut])
  {
    var readers', lows', cuts' := readers + [t], lows + [low], cuts + [cut];
    forall j | 0 <= j < |cuts'|
      ensures TileAt(log, readers', lows', cuts', j)
    {
      if j < |cuts| {
        assert TileAt(log, readers, lows, cuts, j);
        assert cuts'[..j] == cuts[..j];
      } else {
        assert cuts'[..j] == cuts;
      }
    }
  }

  lemma {:induction false} FinalizeKeepsReads(r: Run)
    requires Inv(r) && Legal(r, FinalizeFlush)
    ensures ReadInv(Next(r, FinalizeFlush))
  {
    NewerIsSuffix(r.log, r.memLow, r.s.flight.maxLsn);
    TilesSnoc(r.log, r.s.readers, r.lows, r.cuts, r.s.flight.entries, r.memLow, r.s.flight.maxLsn);
  }

  lemma {:induction false} FinalizeKeepsWal(r: Run)
    requires Inv(r) && Legal(r, FinalizeFlush)
    ensures WalInv(Next(r, FinalizeFlush))
  {
    ActiveSuffix(r);
    RecordsSnoc([], r.s.wal[|r.s.wal| - 1]);
    assert [] + [r.s.wal[|r.s.wal| - 1]] == [r.s.wal[|r.s.wal| - 1]];
  }

  /** The active file alone still is a suffix of the log. */
  lemma {:induction false} ActiveSuffix(r: Run)
    requires Inv(r)
    ensures var active := r.s.wal[|r.s.wal| - 1];
            |active.records| <= |r.log| && active.records == r.log[|r.log| - |active.records|..]
  {
  }

  lemma {:induction false} SuffixMaxLsn(log: seq<Entry>, low: nat)
    requires Numbered(log) && low <= |log|
    ensures MaxLsn(log[low..]) == if low < |log| then |log| else 0
  {
    var s := log[low..];
    MaxLsnBounds(s);
    if low < |log| {
      assert s[|s| - 1].lsn == |log|;
    }
  }

  lemma {:induction false} CrashKeepsReads(r: Run, rotate: bool)
    requires Inv(r) && Legal(r, Crash(rotate))
    ensures ReadInv(Next(r, Crash(rotate)))
  {
    SuffixMaxLsn(r.log, r.walLow);
    assert r.log[r.walLow..|r.log|] == r.log[r.walLow..];
  }

  lemma {:induction false} CrashKeepsWal(r: Run, rotate: bool)
    requires Inv(r) && Legal(r, Crash(rotate))
    ensures WalInv(Next(r, Crash(rotate)))
  {
    SuffixMaxLsn(r.log, r.walLow);
    RecordsSnoc(r.s.wal, WalFile(|r.log| + 1, []));
  }

  lemma StepKeeps(r: Run, step: Step)
    requires Inv(r) && Legal(r, step)
    ensures Inv(Next(r, step))
  {
    match step
    case Write(_, _, _, _) => WriteKeepsReads(r, step); WriteKeepsWal(r, step);
    case Rotate => RotateKeeps(r);
    case BeginFlush => BeginKeeps(r);
    case FinalizeFlush => FinalizeKeepsReads(r); FinalizeKeepsWal(r);
    case Crash(rotate) => CrashKeepsReads(r, rotate); CrashKeepsWal(r, rotate);
  }

  // ---- Reads agree with the log ----

  lemma {:induction false} OverlapStack(log: seq<Entry>, low: nat, mid: nat, hi: nat)
    requires low <= mid <= hi <= |log|
    ensures AsTable(log[..mid]) + AsTable(log[low..hi]) == AsTable(log[..hi])
  {
    var a, b, c := log[..low], log[low..mid], log[mid..hi];
    assert log[..mid] == a + b && log[low..hi] == b + c && log[..hi] == a + (b + c);
    AsTableConcat(a, b);
    AsTableConcat(b, c);
    AsTableConcat(a, b + c);
  }

  /** A table that is newer wherever it overlaps wins under both stackings. */
  lemma OverlayIsPlus(a: Table, b: Table)
    requires forall k :: k in a && k in b ==> b[k].lsn > a[k].lsn || a[k] == b[k]
    ensures Overlay(a, b) == a + b
  {
  }

  lemma {:induction false} OverlapNewer(log: seq<Entry>, low: nat, mid: nat, hi: nat)
    requires Numbered(log) && low <= mid <= hi <= |log|
    ensures Overlay(AsTable(log[..mid]), AsTable(log[low..hi])) == AsTable(log[..hi])
  {
    var a, b, c := log[..low], log[low..mid], log[mid..hi];
    assert log[..mid] == a + b && log[low..hi] == b + c;
    assert log[0..low] == a;
    AsTableConcat(a, b);
    AsTableConcat(b, c);
    WindowEntries(log, 0, low);
    WindowEntries(log, low, mid);
    WindowEntries(log, mid, hi);
    OverlayIsPlus(AsTable(log[..mid]), AsTable(log[low..hi]));
    OverlapStack(log, low, mid, hi);
  }

  lemma {:induction false} ReadersAreLog(log: seq<Entry>, readers: seq<Table>, lows: seq<nat>, cuts: seq<nat>)
    requires Numbered(log) && Tiles(log, readers, lows, cuts)
    ensures LastCut(cuts) <= |log|
    ensures Stack(readers) == AsTable(log[..LastCut(cuts)])
    ensures Newest(readers) == AsTable(log[..LastCut(cuts)])
  {
    if cuts != [] {
      var n := |cuts| - 1;
      forall j | 0 <= j < n
        ensures TileAt(log, readers[..n], lows[..n], cuts[..n], j)
      {
        assert TileAt(log, readers, lows, cuts, j);
        assert cuts[..n][..j] == cuts[..j];
      }
      ReadersAreLog(log, readers[..n], lows[..n], cuts[..n]);
      assert TileAt(log, readers, lows, cuts, n);
      OverlapStack(log, lows[n], LastCut(cuts[..n]), cuts[n]);
      OverlapNewer(log, lows[n], LastCut(cuts[..n]), cuts[n]);
    }
  }

  /** Copies of a record in different segments are equal. */
  lemma {:induction false} ReadersConsistent(log: seq<Entry>, readers: seq<Table>, lows: seq<nat>, cuts: seq<nat>)
    requires Numbered(log) && Tiles(log, readers, lows, cuts)
    ensures Consistent(readers)
  {
    forall j | 0 <= j < |readers|
      ensures FromWindow(log, readers[j], lows[j], cuts[j])
    {
      assert TileAt(log, readers, lows, cuts, j);
      WindowEntries(log, lows[j], cuts[j]);
    }
    forall i, j | 0 <= i < |readers| && 0 <= j < |readers|
      ensures Agree(readers[i], readers[j])
    {
      assert FromWindow(log, readers[i], lows[i], cuts[i]) && FromWindow(log, readers[j], lows[j], cuts[j]);
    }
  }

  lemma LiveOverlay(n: Table, mem: Table)
    requires forall k :: k in n && k in mem ==> mem[k].lsn > n[k].lsn || n[k] == mem[k]
    ensures Live(Overlay(Live(n), mem)) == Live(n + mem)
  {
    OverlayIsPlus(Live(n), mem);
  }

  /** Point reads and scans both read the last write per key. */
  lemma {:induction false} ReadsAreLastWrites(r: Run)
    requires Inv(r)
    ensures forall k :: Get(r.s, k) == ValueOf(AsTable(r.log), k)
    ensures ScanView(r.s) == Live(AsTable(r.log))
  {
    var cut := LastCut(r.cuts);
    ReadersAreLog(r.log, r.s.readers, r.lows, r.cuts);
    OverlapStack(r.log, r.memLow, cut, |r.log|);
    assert r.log[..|r.log|] == r.log;
    MemtableNewer(r.log, r.memLow, cut);
    LiveOverlay(Newest(r.s.readers), r.s.mem);
  }

  lemma {:induction false} MemtableNewer(log: seq<Entry>, low: nat, cut: nat)
    requires Numbered(log) && low <= cut <= |log|
    ensures var n, mem := AsTable(log[..cut]), AsTable(log[low..|log|]);
            forall k :: k in n && k in mem ==> mem[k].lsn > n[k].lsn || n[k] == mem[k]
  {
    var a, b, c := log[..low], log[low..cut], log[cut..|log|];
    assert log[..cut] == a + b && log[low..|log|] == b + c && log[0..low] == a;
    AsTableConcat(a, b);
    AsTableConcat(b, c);
    WindowEntries(log, 0, low);
    WindowEntries(log, low, cut);
    WindowEntries(log, cut, |log|);
  }

  // ---- Whole runs ----

  ghost predicate Runs(r: Run, steps: seq<Step>, r': Run)
    decreases steps
  {
    if steps == [] then r == r'
    else Inv(r) && Legal(r, steps[0]) && Runs(Next(r, steps[0]), steps[1..], r')
  }

  /** The writes of a run, numbered from `lsn + 1`. */
  function Written(steps: seq<Step>, lsn: nat): seq<Entry> {
    if steps == [] then []
    else if steps[0].Write? then
      [Entry(steps[0].key, steps[0].op, lsn + 1, steps[0].timestamp, steps[0].ttl)] + Written(steps[1..], lsn + 1)
    else Written(steps[1..], lsn)
  }

  lemma {:induction false} RunKeeps(r: Run, steps: seq<Step>, r': Run)
    requires Inv(r) && Runs(r, steps, r')
    ensures Inv(r') && r'.log == r.log + Written(steps, |r.log|)
    decreases steps
  {
    if steps != [] {
      NextLog(r, steps[0]);
      StepKeeps(r, steps[0]);
      RunKeeps(Next(r, steps[0]), steps[1..], r');
      StepLog(r.log, steps);
    }
  }

  lemma NextLog(r: Run, step: Step)
    requires Inv(r) && Legal(r, step)
    ensures Next(r, step).log == LogAfter(r.log, step)
  {
  }

  function LogAfter(log: seq<Entry>, step: Step): seq<Entry> {
    if step.Write? then log + [Entry(step.key, step.op, |log| + 1, step.timestamp, step.ttl)] else log
  }

  lemma StepLog(log: seq<Entry>, steps: seq<Step>)
    requires steps != []
    ensures log + Written(steps, |log|) == LogAfter(log, steps[0]) + Written(steps[1..], |LogAfter(log, steps[0])|)
  {
  }

  /** In every reachable state, whatever flushes, rotations and crashes happened, point reads and
      scans return the last write per key of the run. */
  lemma {:induction false} EveryRunReadsLastWrites(steps: seq<Step>, r: Run)
    requires Runs(Start(), steps, r)
    ensures r.log == Written(steps, 0)
    ensures forall k :: Get(r.s, k) == ValueOf(AsTable(Written(steps, 0)), k)
    ensures ScanView(r.s) == Live(AsTable(Written(steps, 0)))
  {
    StartInv();
    RunKeeps(Start(), steps, r);
    ReadsAreLastWrites(r);
  }

  lemma StartInv()
    ensures Inv(Start()) && Durable(Start())
  {
    RecordsSnoc([], WalFile(0, []));
    assert [] + [WalFile(0, [])] == [WalFile(0, [])];
  }

  // ---- Durability ----

  /** Every flush is finalized before anything else happens. */
  predicate Synchronous(steps: seq<Step>) {
    forall i :: 0 <= i < |steps| && steps[i].BeginFlush? ==> i + 1 < |steps| && steps[i + 1].FinalizeFlush?
  }

  ghost predicate SyncState(r: Run, rest: seq<Step>) {
    && Durable(r) && Synchronous(rest)
    && (r.s.flight.Flight? ==> r.s.flight.maxLsn == |r.log| && rest != [] && rest[0].FinalizeFlush?)
  }

  lemma {:induction false} SyncStep(r: Run, steps: seq<Step>)
    requires Inv(r) && steps != [] && Legal(r, steps[0]) && SyncState(r, steps)
    ensures SyncState(Next(r, steps[0]), steps[1..])
  {
    assert forall i :: 0 <= i < |steps| - 1 ==> steps[1..][i] == steps[i + 1];
    if steps[0].BeginFlush? && r.s.mem != map[] {
      WindowMax(r.log, r.memLow, r.s.mem);
    }
  }

  lemma {:induction false} SyncRun(r: Run, steps: seq<Step>, r': Run)
    requires Inv(r) && SyncState(r, steps) && Runs(r, steps, r')
    ensures Durable(r')
    decreases steps
  {
    if steps != [] {
      SyncStep(r, steps);
      StepKeeps(r, steps[0]);
      SyncRun(Next(r, steps[0]), steps[1..], r');
    }
  }

  /** With synchronous flushes the retained WAL always covers the unflushed writes. */
  lemma SynchronousRunsAreDurable(steps: seq<Step>, r: Run)
    requires Runs(Start(), steps, r) && Synchronous(steps)
    ensures Durable(r)
  {
    StartInv();
    SyncRun(Start(), steps, r);
  }

  /** The closed files hold the log from `walLow` to where the active file starts. */
  lemma {:induction false} ClosedRecords(r: Run, low: nat)
    requires Inv(r) && low == |r.log| - |r.s.wal[|r.s.wal| - 1].records|
    ensures r.walLow <= low && Records(r.s.wal[..|r.s.wal| - 1]) == r.log[..low][r.walLow..]
  {
    ActiveSuffix(r);
    var active := r.s.wal[|r.s.wal| - 1].records;
    assert Records(r.s.wal[..|r.s.wal| - 1]) + active == r.log[r.walLow..];
  }

  lemma {:induction false} ClosedMaxLsn(r: Run, low: nat)
    requires Inv(r) && low == |r.log| - |r.s.wal[|r.s.wal| - 1].records|
    ensures MaxLsn(Records(r.s.wal[..|r.s.wal| - 1])) == if r.walLow < low then low else 0
  {
    ClosedRecords(r, low);
    SuffixMaxLsn(r.log[..low], r.walLow);
  }

  /** A flush with writes in between stays durable exactly when the WAL files it deletes hold
      nothing newer than the flushed snapshot. */
  lemma {:induction false} FinalizeDurableIff(r: Run)
    requires Inv(r) && Durable(r) && r.s.flight.Flight?
    ensures Durable(Next(r, FinalizeFlush)) <==>
            MaxLsn(Records(r.s.wal[..|r.s.wal| - 1])) <= r.s.flight.maxLsn
  {
    ActiveSuffix(r);
    var low := |r.log| - |r.s.wal[|r.s.wal| - 1].records|;
    ClosedMaxLsn(r, low);
  }

  /** Replaying the WAL restores the LSN counter exactly when it still holds a record, or nothing
      was ever written. */
  lemma {:induction false} CounterRestoredIff(r: Run)
    requires Inv(r)
    ensures MaxLsn(Records(r.s.wal)) == r.s.lsn <==> Records(r.s.wal) != [] || r.log == []
  {
    SuffixMaxLsn(r.log, r.walLow);
  }

  /** A crash loses no write exactly when every record that is neither flushed nor retained has
      been overwritten by a retained one. */
  lemma {:induction false} CrashLosesNothingIff(r: Run)
    requires Inv(r)
    ensures Stack(r.s.readers) + AsTable(Records(r.s.wal)) == AsTable(r.log) <==>
            forall i :: LastCut(r.cuts) <= i < r.walLow ==> r.log[i].key in AsTable(Records(r.s.wal))
  {
    ReadersAreLog(r.log, r.s.readers, r.lows, r.cuts);
    var cut, low, log := LastCut(r.cuts), r.walLow, r.log;
    if low <= cut {
      OverlapStack(log, low, cut, |log|);
      assert log[low..|log|] == log[low..] && log[..|log|] == log;
    } else {
      GapIff(log, cut, low);
    }
  }

  lemma {:induction false} GapIff(log: seq<Entry>, cut: nat, low: nat)
    requires Numbered(log) && cut <= low <= |log|
    ensures AsTable(log[..cut]) + AsTable(log[low..]) == AsTable(log) <==>
            forall i :: cut <= i < low ==> log[i].key in AsTable(log[low..])
  {
    var a, gap, b := log[..cut], log[cut..low], log[low..];
    assert log == (a + gap) + b && log[0..cut] == a;
    AsTableConcat(a, gap);
    AsTableConcat(a + gap, b);
    WindowEntries(log, 0, cut);
    WindowEntries(log, cut, low);
    GapTables(AsTable(a), AsTable(gap), AsTable(b), cut);
    GapKeys(log, cut, low, AsTable(b));
  }

  lemma GapTables(a: Table, gap: Table, b: Table, cut: nat)
    requires (forall k :: k in a ==> a[k].lsn <= cut) && (forall k :: k in gap ==> gap[k].lsn > cut)
    ensures a + b == a + gap + b <==> forall k :: k in gap ==> k in b
  {
    if k :| k in gap && k !in b {
      assert k in a + gap + b && (a + gap + b)[k] == gap[k];
      if k in a {
        assert (a + b)[k] == a[k];
      } else {
        assert k !in a + b;
      }
    } else {
      assert a + b == a + gap + b;
    }
  }

  lemma {:induction false} GapKeys(log: seq<Entry>, cut: nat, low: nat, b: Table)
    requires cut <= low <= |log|
    ensures (forall k :: k in AsTable(log[cut..low]) ==> k in b) <==> forall i :: cut <= i < low ==> log[i].key in b
  {
    var gap := log[cut..low];
    AsTableMembers(gap);
    assert forall i :: cut <= i < low ==> gap[i - cut] == log[i];
    forall k | k in AsTable(gap)
      ensures exists i :: cut <= i < low && log[i].key == k
    {
      var j :| 0 <= j < |gap| && gap[j] == AsTable(gap)[k];
      assert log[cut + j].key == k;
    }
  }

  /** After a run with synchronous flushes a crash, with or without a rotation on reopening, changes no
      point read: not even when the WAL is empty. */
  lemma {:induction false} SynchronousCrashKeepsReads(steps: seq<Step>, r: Run, rotate: bool, k: Bytes)
    requires Runs(Start(), steps, r) && Synchronous(steps)
    ensures Inv(r) && Get(Apply(r.s, Crash(rotate)), k) == Get(r.s, k) == ValueOf(AsTable(Written(steps, 0)), k)
  {
    StartInv();
    RunKeeps(Start(), steps, r);
    EveryRunReadsLastWrites(steps, r);
    SynchronousRunsAreDurable(steps, r);
    DurableCrashReads(r, rotate, k);
  }

  lemma {:induction false} DurableCrashReads(r: Run, rotate: bool, k: Bytes)
    requires Inv(r) && Durable(r)
    ensures Get(Apply(r.s, Crash(rotate)), k) == ValueOf(AsTable(r.log), k)
  {
    CrashLosesNothingIff(r);
    StackedGet(Apply(r.s, Crash(rotate)), k);
  }

  lemma StackedGet(s: State, k: Bytes)
    ensures Get(s, k) == ValueOf(Stack(s.readers) + s.mem, k)
  {
  }

  // ---- Crashes inside a finalize ----

  lemma {:induction false} RecordsSplit(wal: seq<WalFile>, j: nat)
    requires j <= |wal|
    ensures Records(wal) == Records(wal[..j]) + Records(wal[j..])
  {
    if j == |wal| {
      assert wal[..j] == wal && wal[j..] == [];
    } else {
      var front := wal[..|wal| - 1];
      RecordsSplit(front, j);
      assert front[..j] == wal[..j] && wal[j..][..|wal| - 1 - j] == front[j..];
    }
  }

  lemma {:induction false} SplitSuffix(log: seq<Entry>, low: nat, a: seq<Entry>, b: seq<Entry>)
    requires Numbered(log) && low <= |log| && a + b == log[low..]
    ensures low + |a| <= |log| && b == log[low + |a|..|log|]
    ensures a != [] ==> low + |a| <= MaxLsn(a)
  {
    assert |a + b| == |log| - low;
    assert b == (a + b)[|a|..];
    if a != [] {
      MaxLsnBounds(a);
      assert a[|a| - 1] == (a + b)[|a| - 1] == log[low + |a| - 1];
    }
  }

  /** Where the log continues in the files behind the first `j`. */
  lemma {:induction false} FilesBehind(r: Run, j: nat, c: nat) returns (low: nat)
    requires Inv(r) && j < |r.s.wal| && MaxLsn(Records(r.s.wal[..j])) <= c && r.walLow <= c
    ensures low <= c && low <= |r.log| && Records(r.s.wal[j..]) == r.log[low..|r.log|]
  {
    var gone := Records(r.s.wal[..j]);
    RecordsSplit(r.s.wal, j);
    SplitSuffix(r.log, r.walLow, gone, Records(r.s.wal[j..]));
    low := r.walLow + |gone|;
  }

  /** Finalizing lists the segment, then deletes closed WAL files, oldest first. A crash after the first
      `j` of them loses nothing, as long as those held nothing newer than the segment. */
  lemma {:induction false} FinalizeCrashPointsLoseNothing(r: Run, j: nat)
    requires Inv(r) && Durable(r) && r.s.flight.Flight? && j < |r.s.wal|
    requires MaxLsn(Records(r.s.wal[..j])) <= r.s.flight.maxLsn
    ensures Stack(r.s.readers + [r.s.flight.entries]) + AsTable(Records(r.s.wal[j..])) == AsTable(r.log)
  {
    var log, c := r.log, r.s.flight.maxLsn;
    var low := FilesBehind(r, j, c);
    TilesSnoc(log, r.s.readers, r.lows, r.cuts, r.s.flight.entries, r.memLow, c);
    ReadersAreLog(log, r.s.readers + [r.s.flight.entries], r.lows + [r.memLow], r.cuts + [c]);
    OverlapStack(log, low, c, |log|);
    assert log[..|log|] == log;
  }
}
