/** Why the legality conditions of `Lsm` are there: runs that break one of them, and what is read
    afterwards. */
module LsmLimits {
  import opened ByteStrings
  import opened Entries
  import opened Scan
  import opened Lsm

  function PutStep(k: Bytes, v: Bytes): Step {
    Write(k, Put(v), 0, 0)
  }

  lemma SingletonListing(e: Entry)
    ensures Listing(map[e.key := e]) == [e] && MaxLsn(Listing(map[e.key := e])) == e.lsn
  {
    assert [e][..0] == [];
    assert AsTable([e]) == map[e.key := e];
    ListingOfSorted([e]);
  }

  /** The state after `steps`, if every step is enabled. */
  ghost function Exec(s: State, steps: seq<Step>): Option<State>
    decreases steps
  {
    if steps == [] then Some(s)
    else if s.wal == [] || !Keyed(s.mem) || (steps[0].FinalizeFlush? && s.flight.NoFlight?) then None
    else Exec(Apply(s, steps[0]), steps[1..])
  }

  lemma ExecStep(s: State, step: Step, rest: seq<Step>)
    requires s.wal != [] && Keyed(s.mem) && (step.FinalizeFlush? ==> s.flight.Flight?)
    ensures Exec(s, [step] + rest) == Exec(Apply(s, step), rest)
  {
    assert ([step] + rest)[1..] == rest;
  }

  lemma FirstPut(k: Bytes, v: Bytes)
    ensures var e := Entry(k, Put(v), 1, 0, 0);
            Apply(Initial(), PutStep(k, v)) == State(map[k := e], [], 1, [WalFile(0, [e])], NoFlight)
  {
    var wal := [WalFile(0, [])];
    var e := Entry(k, Put(v), 1, 0, 0);
    assert Append(wal, e) == [WalFile(0, [e])] by { assert wal[..0] == [] && [] + [e] == [e]; }
  }

  lemma TakeOff(s: State, e: Entry)
    requires s.wal != [] && s.mem == map[e.key := e]
    ensures Apply(s, BeginFlush) == s.(flight := Flight(s.mem, e.lsn))
  {
    SingletonListing(e);
    assert e.key in s.mem;
  }

  lemma EmptyRecords(name: nat)
    ensures Records([WalFile(name, [])]) == []
  {
    assert [WalFile(name, [])][..0] == [];
  }

  lemma FlushAndRotate(k: Bytes, v: Bytes) returns (s: State)
    ensures Exec(Initial(), [PutStep(k, v), Rotate, BeginFlush, FinalizeFlush]) == Some(s)
    ensures s == State(map[], [map[k := Entry(k, Put(v), 1, 0, 0)]], 1, [WalFile(1, [])], NoFlight)
  {
    var e := Entry(k, Put(v), 1, 0, 0);
    FirstPut(k, v);
    var s1 := Apply(Initial(), PutStep(k, v));
    var s2 := Apply(s1, Rotate);
    assert s2.wal == [WalFile(0, [e]), WalFile(1, [])];
    TakeOff(s2, e);
    var s3 := Apply(s2, BeginFlush);
    s := Apply(s3, FinalizeFlush);
    assert Newer(s3.mem, 1) == map[];
    ExecStep(Initial(), PutStep(k, v), [Rotate, BeginFlush, FinalizeFlush]);
    ExecStep(s1, Rotate, [BeginFlush, FinalizeFlush]);
    ExecStep(s2, BeginFlush, [FinalizeFlush]);
    ExecStep(s3, FinalizeFlush, []);
  }

  /** A crash that finds only an empty WAL file restarts the LSN counter at zero. The next write of a
      flushed key then reuses an old LSN: point reads return it, scans still list the old value. */
  lemma EmptyWalCrashSplitsReads(k: Bytes, before: Bytes, after: Bytes) returns (s: State, s': State)
    requires before != after
    ensures Exec(Initial(), [PutStep(k, before), Rotate, BeginFlush, FinalizeFlush]) == Some(s)
    ensures Exec(s, [Crash(false), PutStep(k, after)]) == Some(s')
    ensures s.lsn == s'.lsn == 1 && Get(s', k) == Some(after) && ValueOf(ScanView(s'), k) == Some(before)
  {
    s := FlushAndRotate(k, before);
    EmptyRecords(1);
    var s5 := Apply(s, Crash(false));
    s' := Apply(s5, PutStep(k, after));
    ExecStep(s, Crash(false), [PutStep(k, after)]);
    ExecStep(s5, PutStep(k, after), []);
    OneReader(Entry(k, Put(before), 1, 0, 0), s'.mem);
  }

  lemma OneReader(e: Entry, mem: Table)
    requires e.op.Put?
    ensures Stack([map[e.key := e]]) == map[e.key := e]
    ensures View([map[e.key := e]], mem) == Live(Overlay(map[e.key := e], mem))
  {
    var ts := [map[e.key := e]];
    assert ts[..0] == [];
    assert Newest(ts) == map[e.key := e];
    assert Live(map[e.key := e]) == map[e.key := e];
  }

  lemma {:induction false} PutAgain(s: State, e: Entry, k: Bytes, v: Bytes)
    requires s.wal == [WalFile(0, [e])] && Keyed(s.mem) && s.lsn == 1
    ensures var f := Entry(k, Put(v), 2, 0, 0);
            Apply(s, PutStep(k, v)) == s.(mem := s.mem[k := f], lsn := 2, wal := [WalFile(0, [e, f])])
  {
    assert [WalFile(0, [e])][..0] == [] && [e] + [Entry(k, Put(v), 2, 0, 0)] == [e, Entry(k, Put(v), 2, 0, 0)];
  }

  lemma {:induction false} FourSteps(s: State, a: Step, b: Step, c: Step, d: Step, s1: State, s2: State, s3: State)
    requires s.wal != [] && Keyed(s.mem) && !a.FinalizeFlush? && s1 == Apply(s, a)
    requires s1.wal != [] && Keyed(s1.mem) && !b.FinalizeFlush? && s2 == Apply(s1, b)
    requires s2.wal != [] && Keyed(s2.mem) && !c.FinalizeFlush? && s3 == Apply(s2, c)
    requires s3.wal != [] && Keyed(s3.mem) && !d.FinalizeFlush?
    ensures Exec(s, [a, b, c, d]) == Some(Apply(s3, d))
  {
    assert [a, b, c, d] == [a] + [b, c, d] && [b, c, d] == [b] + [c, d] && [c, d] == [c] + [d] && [d] == [d] + [];
    ExecStep(s, a, [b, c, d]);
    ExecStep(s1, b, [c, d]);
    ExecStep(s2, c, [d]);
    ExecStep(s3, d, []);
  }

  lemma {:induction false} WriteInFlight(a: Bytes, b: Bytes, v: Bytes) returns (s: State)
    ensures Exec(Initial(), [PutStep(a, v), BeginFlush, PutStep(b, v), Rotate]) == Some(s)
    ensures var e, f := Entry(a, Put(v), 1, 0, 0), Entry(b, Put(v), 2, 0, 0);
            s == State(map[a := e][b := f], [], 2, [WalFile(0, [e, f]), WalFile(2, [])], Flight(map[a := e], 1))
  {
    var e, f := Entry(a, Put(v), 1, 0, 0), Entry(b, Put(v), 2, 0, 0);
    FirstPut(a, v);
    var s1 := State(map[a := e], [], 1, [WalFile(0, [e])], NoFlight);
    TakeOff(s1, e);
    var s2 := s1.(flight := Flight(map[a := e], 1));
    PutAgain(s2, e, b, v);
    var s3 := State(map[a := e][b := f], [], 2, [WalFile(0, [e, f])], Flight(map[a := e], 1));
    FourSteps(Initial(), PutStep(a, v), BeginFlush, PutStep(b, v), Rotate, s1, s2, s3);
    s := Apply(s3, Rotate);
  }

  /** A WAL rotation while a flush is in flight: finalizing deletes the file that holds the writes
      made meanwhile, so an acknowledged write is gone after a crash. */
  lemma RotationInFlightLosesWrite(a: Bytes, b: Bytes, v: Bytes) returns (s: State, s': State)
    requires a != b
    ensures Exec(Initial(), [PutStep(a, v), BeginFlush, PutStep(b, v), Rotate]) == Some(s)
    ensures Exec(s, [FinalizeFlush, Crash(false)]) == Some(s')
    ensures Get(s, b) == Some(v) && Get(s', b) == None
  {
    var e := Entry(a, Put(v), 1, 0, 0);
    s := WriteInFlight(a, b, v);
    var s4 := Apply(s, FinalizeFlush);
    EmptyRecords(2);
    s' := Apply(s4, Crash(false));
    ExecStep(s, FinalizeFlush, [Crash(false)]);
    ExecStep(s4, Crash(false), []);
    assert s'.readers == [map[a := e]];
    OneReader(e, s'.mem);
  }

  // ---- A taken file name ----

  lemma {:induction false} OneRecordReplay(e: Entry)
    ensures Records([WalFile(0, [e])]) == [e] && AsTable([e]) == map[e.key := e] && MaxLsn([e]) == e.lsn
  {
    RecordsSnoc([], WalFile(0, [e]));
    assert [] + [WalFile(0, [e])] == [WalFile(0, [e])] && [] + [e] == [e];
    SingletonTable(e);
  }

  lemma {:induction false} SingletonTable(e: Entry)
    ensures AsTable([e]) == map[e.key := e] && MaxLsn([e]) == e.lsn
  {
    assert [e][..0] == [];
  }

  /** Opening with a rotation names the new file one past the last LSN, so the next write takes that name,
      and a rotation due right behind it finds the file there. */
  lemma {:induction false} ReopenRotationTakesName(k: Bytes, v: Bytes, w: Bytes) returns (s: State, s': State)
    ensures Exec(Initial(), [PutStep(k, v), Crash(true)]) == Some(s) && Exec(s, [PutStep(k, w)]) == Some(s')
    ensures s'.wal == [WalFile(0, [Entry(k, Put(v), 1, 0, 0)]), WalFile(2, [Entry(k, Put(w), 2, 0, 0)])]
    ensures s'.lsn == 2 && !FreshName(s')
    ensures s.mem == map[k := Entry(k, Put(v), 1, 0, 0)] && s.readers == s'.readers == []
  {
    var e, f := Entry(k, Put(v), 1, 0, 0), Entry(k, Put(w), 2, 0, 0);
    FirstPut(k, v);
    var s1 := State(map[k := e], [], 1, [WalFile(0, [e])], NoFlight);
    OneRecordReplay(e);
    s := State(map[k := e], [], 1, [WalFile(0, [e]), WalFile(2, [])], NoFlight);
    assert Apply(s1, Crash(true)) == s by {
      assert [WalFile(0, [e])] + [WalFile(2, [])] == [WalFile(0, [e]), WalFile(2, [])];
    }
    assert [PutStep(k, v), Crash(true)] == [PutStep(k, v)] + [Crash(true)] && [Crash(true)] == [Crash(true)] + [] && [PutStep(k, w)] == [PutStep(k, w)] + [];
    ExecStep(Initial(), PutStep(k, v), [Crash(true)]);
    ExecStep(s1, Crash(true), []);
    ExecStep(s, PutStep(k, w), []);
    s' := Apply(s, PutStep(k, w));
    assert s.wal[..1] == [WalFile(0, [e])] && [] + [f] == [f];
    assert s'.wal == [WalFile(0, [e])] + [WalFile(2, [f])];
  }

  /** The failed write has reached the WAL but not the memtable: it reads as not made, until the next
      replay brings it back. */
  lemma {:induction false} FailedWriteResurfaces(k: Bytes, v: Bytes, w: Bytes) returns (stalled: State, reopened: State)
    ensures stalled.wal == [WalFile(0, [Entry(k, Put(v), 1, 0, 0)]), WalFile(2, [Entry(k, Put(w), 2, 0, 0)])]
    ensures Exec(stalled, [Crash(false)]) == Some(reopened)
    ensures Get(stalled, k) == Some(v) && Get(reopened, k) == Some(w)
  {
    var s, s' := ReopenRotationTakesName(k, v, w);
    stalled := s'.(mem := s.mem);
    var e, f := Entry(k, Put(v), 1, 0, 0), Entry(k, Put(w), 2, 0, 0);
    TwoFileReplay(e, f);
    assert [Crash(false)] == [Crash(false)] + [];
    ExecStep(stalled, Crash(false), []);
    reopened := Apply(stalled, Crash(false));
  }

  lemma {:induction false} TwoFileReplay(e: Entry, f: Entry)
    requires e.key == f.key
    ensures Records([WalFile(0, [e]), WalFile(2, [f])]) == [e, f] && AsTable([e, f]) == map[f.key := f]
  {
    OneRecordReplay(e);
    assert [WalFile(0, [e]), WalFile(2, [f])][..1] == [WalFile(0, [e])] && [e] + [f] == [e, f];
    assert [e, f][..1] == [e];
  }

  // ---- Overlapping flushes ----

  /** Registers the segment of any snapshot, whether or not later ones were registered before. */
  function FinalizeOf(s: State, f: Flight): State
    requires f.Flight? && s.wal != []
  {
    s.(readers := s.readers + [f.entries], mem := Newer(s.mem, f.maxLsn), wal := [s.wal[|s.wal| - 1]])
  }

  /** An older snapshot registered late, behind readers that already cover the log up to `cut`: point reads
      stay right exactly when every key of the snapshot that was rewritten before `cut` is in the memtable. */
  lemma {:induction false} LateFlushKeepsReadsIff(r: Run, low: nat, c: nat, t: Table)
    requires Inv(r) && low <= c <= LastCut(r.cuts) && t == AsTable(r.log[low..c])
    ensures Stack(r.s.readers + [t]) + r.s.mem == AsTable(r.log) <==>
            forall k :: k in t && k !in r.s.mem ==> k !in AsTable(r.log[c..LastCut(r.cuts)])
  {
    var cut, log := LastCut(r.cuts), r.log;
    ReadersAreLog(log, r.s.readers, r.lows, r.cuts);
    assert (r.s.readers + [t])[..|r.s.readers|] == r.s.readers;
    OverlapStack(log, r.memLow, cut, |log|);
    assert log[..|log|] == log;
    LateWindows(log, low, c, cut);
    LateTables(AsTable(log[..low]), t, AsTable(log[c..cut]), r.s.mem, c);
  }

  lemma {:induction false} LateWindows(log: seq<Entry>, low: nat, c: nat, cut: nat)
    requires Numbered(log) && low <= c <= cut <= |log|
    ensures AsTable(log[..cut]) == AsTable(log[..low]) + (AsTable(log[low..c]) + AsTable(log[c..cut]))
    ensures FromWindow(log, AsTable(log[low..c]), low, c) && FromWindow(log, AsTable(log[c..cut]), c, cut)
  {
    var x, y, z := log[..low], log[low..c], log[c..cut];
    assert log[..cut] == x + (y + z);
    AsTableConcat(y, z);
    AsTableConcat(x, y + z);
    WindowEntries(log, low, c);
    WindowEntries(log, c, cut);
  }

  lemma LateTables(a: Table, t: Table, b: Table, mem: Table, c: nat)
    requires (forall k :: k in t ==> t[k].lsn <= c) && (forall k :: k in b ==> b[k].lsn > c)
    ensures a + (t + b) + t + mem == a + (t + b) + mem <==> forall k :: k in t && k !in mem ==> k !in b
  {
    var x, y := a + (t + b) + t + mem, a + (t + b) + mem;
    if x == y {
      forall k | k in t && k !in mem
        ensures k !in b
      {
        assert x[k] == y[k];
      }
    }
    if forall k :: k in t && k !in mem ==> k !in b {
      forall k | k in x
        ensures k in y && x[k] == y[k]
      {
      }
      assert x.Keys == y.Keys;
    }
  }

  /** A put that fills the memtable flushes at once, while an older flush is in flight. Registering the
      older snapshot afterwards makes point reads return the older value. */
  lemma {:induction false} LateFlushReadsOldValue(k: Bytes, v: Bytes, w: Bytes) returns (begun: State, s: State)
    ensures Exec(Initial(), [PutStep(k, v), BeginFlush]) == Some(begun) && begun.flight.Flight?
    ensures Exec(begun, [PutStep(k, w), BeginFlush, FinalizeFlush]) == Some(s) && s.wal != []
    ensures Get(s, k) == Some(w) && Get(FinalizeOf(s, begun.flight), k) == Some(v)
  {
    var e, f := Entry(k, Put(v), 1, 0, 0), Entry(k, Put(w), 2, 0, 0);
    FirstPut(k, v);
    var s1 := State(map[k := e], [], 1, [WalFile(0, [e])], NoFlight);
    TakeOff(s1, e);
    begun := s1.(flight := Flight(map[k := e], 1));
    TwoSteps(Initial(), PutStep(k, v), BeginFlush, s1);
    s := FlushTwo(begun, e, k, w);
    TwoStacked(map[k := f], map[k := e]);
    OneStacked(map[k := f]);
    assert FinalizeOf(s, begun.flight).readers == [map[k := f], map[k := e]];
  }

  lemma {:induction false} FlushTwo(begun: State, e: Entry, k: Bytes, w: Bytes) returns (s: State)
    requires begun.wal == [WalFile(0, [e])] && begun.mem == map[k := e] && e.key == k && begun.lsn == 1 && begun.readers == []
    ensures Exec(begun, [PutStep(k, w), BeginFlush, FinalizeFlush]) == Some(s)
    ensures var f := Entry(k, Put(w), 2, 0, 0); s == State(map[], [map[k := f]], 2, [WalFile(0, [e, f])], NoFlight)
  {
    var f := Entry(k, Put(w), 2, 0, 0);
    PutAgain(begun, e, k, w);
    assert map[k := e][k := f] == map[k := f];
    var s1 := begun.(mem := map[k := f], lsn := 2, wal := [WalFile(0, [e, f])]);
    TakeOff(s1, f);
    var s2 := s1.(flight := Flight(map[k := f], 2));
    s := State(map[], [map[k := f]], 2, [WalFile(0, [e, f])], NoFlight);
    assert Newer(map[k := f], 2) == map[];
    assert [] + [map[k := f]] == [map[k := f]];
    assert [PutStep(k, w), BeginFlush, FinalizeFlush] == [PutStep(k, w)] + [BeginFlush, FinalizeFlush];
    assert [BeginFlush, FinalizeFlush] == [BeginFlush] + [FinalizeFlush] && [FinalizeFlush] == [FinalizeFlush] + [];
    ExecStep(begun, PutStep(k, w), [BeginFlush, FinalizeFlush]);
    ExecStep(s1, BeginFlush, [FinalizeFlush]);
    ExecStep(s2, FinalizeFlush, []);
  }

  lemma {:induction false} TwoSteps(s: State, a: Step, b: Step, s1: State)
    requires s.wal != [] && Keyed(s.mem) && !a.FinalizeFlush? && s1 == Apply(s, a)
    requires s1.wal != [] && Keyed(s1.mem) && !b.FinalizeFlush?
    ensures Exec(s, [a, b]) == Some(Apply(s1, b))
  {
    assert [a, b] == [a] + [b] && [b] == [b] + [];
    ExecStep(s, a, [b]);
    ExecStep(s1, b, []);
  }

  lemma OneStacked(a: Table)
    ensures Stack([a]) == a
  {
    assert [a][..0] == [];
    assert Stack([]) == map[];
  }

  lemma TwoStacked(a: Table, b: Table)
    ensures Stack([a, b]) == a + b
  {
    OneStacked(a);
    assert [a, b][..1] == [a];
  }
}
