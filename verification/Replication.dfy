/** Importing a peer's segments with last-write-wins by timestamp, and what a replica fed only by
    imports reads. */
module Replication {
  import opened ByteStrings
  import opened Keys
  import opened Entries
  import opened Merge
  import opened Scan
  import EngineObject

  type Hash = Bytes

  datatype Parsed = Parsed(entries: seq<Entry>) | Corrupt
  /** The content hash and the segment parser. */
  datatype Wire = Wire(digest: Bytes -> Hash, parse: Bytes -> Parsed)

  datatype Replica = Replica(mem: Table, readers: seq<seq<Entry>>, hashes: seq<Hash>, lsn: nat)
  datatype ImportResult = Applied(written: nat, skipped: nat) | Skipped | HashMismatch | Rejected

  const EmptyReplica := Replica(map[], [], [], 0)

  predicate Decodable(k: Bytes) {
    DecodeKey(k).Decoded?
  }

  // ---- One record ----

  datatype Progress = Progress(mem: Table, lsn: nat, written: nat, skipped: nat)

  /** The record a merge compares with: the memtable's, else the newest reader's. */
  function LocalEntry(mem: Table, readers: seq<seq<Entry>>, k: Bytes): Option<Entry> {
    if k in mem then Some(mem[k])
    else if k in Stack(Tables(readers)) then Some(Stack(Tables(readers))[k])
    else None
  }

  /** A newer timestamp is written again under a fresh local LSN; ties favour the local record. */
  function ApplyRecord(p: Progress, readers: seq<seq<Entry>>, e: Entry): Progress {
    var local := LocalEntry(p.mem, readers, e.key);
    if local.Some? && e.timestamp <= local.value.timestamp then p.(skipped := p.skipped + 1)
    else if !Decodable(e.key) then p
    else Progress(p.mem[e.key := Entry(e.key, e.op, p.lsn + 1, e.timestamp, 0)], p.lsn + 1, p.written + 1, p.skipped)
  }

  function ApplyAll(p: Progress, readers: seq<seq<Entry>>, es: seq<Entry>): Progress {
    if es == [] then p else ApplyRecord(ApplyAll(p, readers, es[..|es| - 1]), readers, es[|es| - 1])
  }

  lemma {:induction false} ApplySnoc(p: Progress, readers: seq<seq<Entry>>, es: seq<Entry>, i: nat)
    requires i < |es|
    ensures ApplyAll(p, readers, es[..i + 1]) == ApplyRecord(ApplyAll(p, readers, es[..i]), readers, es[i])
  {
    assert es[..i + 1][..i] == es[..i];
  }

  // ---- One segment ----

  function ImportOutcome(w: Wire, s: Replica, data: Bytes, hash: Hash): ImportResult {
    if hash in s.hashes then Skipped
    else if w.digest(data) != hash then HashMismatch
    else if w.parse(data).Corrupt? then Rejected
    else
      var p := ApplyAll(Progress(s.mem, s.lsn, 0, 0), s.readers, w.parse(data).entries);
      Applied(p.written, p.skipped)
  }

  /** Only an applied segment changes the replica; it joins the end of the reader list. */
  function Import(w: Wire, s: Replica, data: Bytes, hash: Hash): Replica {
    if ImportOutcome(w, s, data, hash).Applied? then
      var es := w.parse(data).entries;
      var p := ApplyAll(Progress(s.mem, s.lsn, 0, 0), s.readers, es);
      Replica(p.mem, s.readers + [es], s.hashes + [hash], p.lsn)
    else s
  }

  // ---- What the memtable mirrors ----

  lemma {:induction false} StackedAreFlattened(readers: seq<seq<Entry>>, k: Bytes)
    requires k in Stack(Tables(readers))
    ensures exists e :: e in Flatten(readers) && e.key == k
  {
    var r, es := readers[..|readers| - 1], readers[|readers| - 1];
    assert Tables(readers)[..|readers| - 1] == Tables(r);
    if k in AsTable(es) {
      AsTableMembers(es);
      assert AsTable(es)[k] in Flatten(readers);
    } else {
      StackedAreFlattened(r, k);
      var e :| e in Flatten(r) && e.key == k;
      assert e in Flatten(readers);
    }
  }

  predicate SameWrite(m: Entry, e: Entry) {
    m.key == e.key && m.op == e.op && m.timestamp == e.timestamp
  }

  /** `m` carries the write with the greatest timestamp of its key. */
  ghost predicate Latest(m: Entry, all: seq<Entry>) {
    && (exists e :: e in all && SameWrite(m, e))
    && (forall e :: e in all && e.key == m.key ==> e.timestamp <= m.timestamp)
  }

  /** The memtable holds, for every decodable key of `all`, its latest write, and nothing else. */
  ghost predicate Mirrors(mem: Table, all: seq<Entry>) {
    && (forall k :: k in mem ==> Decodable(k) && mem[k].key == k && Latest(mem[k], all))
    && (forall e :: e in all && Decodable(e.key) ==> e.key in mem)
  }

  lemma {:induction false} LatestStays(m: Entry, all: seq<Entry>, e: Entry)
    requires Latest(m, all) && (e.key == m.key ==> e.timestamp <= m.timestamp)
    ensures Latest(m, all + [e])
  {
    var w :| w in all && SameWrite(m, w);
    assert w in all + [e];
  }

  lemma {:induction false} LatestReplaced(m: Option<Entry>, all: seq<Entry>, e: Entry, n: Entry)
    requires m.Some? ==> m.value.key == e.key && Latest(m.value, all) && m.value.timestamp < e.timestamp
    requires m.None? ==> forall x :: x in all ==> x.key != e.key
    requires SameWrite(n, e)
    ensures Latest(n, all + [e])
  {
    assert e in all + [e];
  }

  lemma {:induction false} MirrorStep(p: Progress, readers: seq<seq<Entry>>, seen: seq<Entry>, e: Entry)
    requires Mirrors(p.mem, seen) && (forall x :: x in Flatten(readers) ==> x in seen)
    ensures Mirrors(ApplyRecord(p, readers, e).mem, seen + [e])
  {
    var mem' := ApplyRecord(p, readers, e).mem;
    if e.key in p.mem || Decodable(e.key) {
      assert e.key !in p.mem ==> LocalEntry(p.mem, readers, e.key).None? by {
        if e.key !in p.mem && e.key in Stack(Tables(readers)) {
          StackedAreFlattened(readers, e.key);
        }
      }
    }
    forall k | k in mem'
      ensures Decodable(k) && mem'[k].key == k && Latest(mem'[k], seen + [e])
    {
      if k in p.mem && mem'[k] == p.mem[k] {
        LatestStays(p.mem[k], seen, e);
      } else {
        LatestReplaced(if k in p.mem then Some(p.mem[k]) else None, seen, e, mem'[k]);
      }
    }
  }

  lemma SnocOf(a: seq<Entry>, es: seq<Entry>)
    requires es != []
    ensures a + es[..|es| - 1] + [es[|es| - 1]] == a + es
  {
  }

  lemma {:induction false} MirrorAll(p: Progress, readers: seq<seq<Entry>>, es: seq<Entry>)
    requires Mirrors(p.mem, Flatten(readers))
    ensures Mirrors(ApplyAll(p, readers, es).mem, Flatten(readers) + es)
  {
    if es == [] {
      assert Flatten(readers) + es == Flatten(readers);
    } else {
      var es', e := es[..|es| - 1], es[|es| - 1];
      MirrorAll(p, readers, es');
      MirrorStep(ApplyAll(p, readers, es'), readers, Flatten(readers) + es', e);
      SnocOf(Flatten(readers), es);
    }
  }

  /** Importing keeps the invariant of a replica fed only by imports. */
  lemma {:induction false} ImportKeeps(w: Wire, s: Replica, data: Bytes, hash: Hash)
    requires Mirrors(s.mem, Flatten(s.readers))
    ensures var s' := Import(w, s, data, hash); Mirrors(s'.mem, Flatten(s'.readers))
  {
    if ImportOutcome(w, s, data, hash).Applied? {
      var es := w.parse(data).entries;
      MirrorAll(Progress(s.mem, s.lsn, 0, 0), s.readers, es);
      FlattenSnoc(s.readers, es);
    }
  }

  /** Every decodable record is either written or skipped. */
  lemma {:induction false} EveryRecordCounted(p: Progress, readers: seq<seq<Entry>>, es: seq<Entry>)
    requires forall i :: 0 <= i < |es| ==> Decodable(es[i].key)
    ensures var q := ApplyAll(p, readers, es);
            q.written + q.skipped == p.written + p.skipped + |es| && q.lsn == p.lsn + (q.written - p.written)
  {
    if es != [] {
      EveryRecordCounted(p, readers, es[..|es| - 1]);
    }
  }

  // ---- Reads ----

  /** Point read: the memtable, else the newest reader. */
  function Get(s: Replica, k: Bytes): Option<Bytes> {
    ValueOf(Stack(Tables(s.readers)) + s.mem, k)
  }

  /** What a range scan shows under `k`. */
  function Scanned(s: Replica, k: Bytes): Option<Bytes> {
    ValueOf(View(Tables(s.readers), s.mem), k)
  }

  /** `e` is a latest record of `k`. */
  ghost predicate LatestRecord(e: Entry, all: seq<Entry>, k: Bytes) {
    e in all && e.key == k && forall x :: x in all && x.key == k ==> x.timestamp <= e.timestamp
  }

  /** A key and a timestamp determine what was written. */
  ghost predicate DistinctTimestamps(all: seq<Entry>) {
    forall a, b :: a in all && b in all && a.key == b.key && a.timestamp == b.timestamp ==> a.op == b.op
  }

  /** A point read returns the value of the key's latest record. */
  lemma {:induction false} GetIsLatest(s: Replica, k: Bytes)
    requires Mirrors(s.mem, Flatten(s.readers)) && DistinctTimestamps(Flatten(s.readers)) && Decodable(k)
    ensures forall e :: LatestRecord(e, Flatten(s.readers), k) ==> Get(s, k) == if e.op.Put? then Some(e.op.value) else None
    ensures (forall e :: e in Flatten(s.readers) ==> e.key != k) ==> Get(s, k) == None
  {
    if k !in s.mem && k in Stack(Tables(s.readers)) {
      StackedAreFlattened(s.readers, k);
    }
  }

  ghost predicate SameRecords(a: seq<Entry>, b: seq<Entry>) {
    forall e :: e in a <==> e in b
  }

  /** Two replicas that hold the same records read the same value everywhere. */
  lemma {:induction false} SameRecordsSameReads(s: Replica, t: Replica, k: Bytes)
    requires Mirrors(s.mem, Flatten(s.readers)) && Mirrors(t.mem, Flatten(t.readers))
    requires SameRecords(Flatten(s.readers), Flatten(t.readers)) && DistinctTimestamps(Flatten(s.readers)) && Decodable(k)
    ensures Get(s, k) == Get(t, k)
  {
    GetIsLatest(s, k);
    GetIsLatest(t, k);
    if k in s.mem {
      var e :| e in Flatten(s.readers) && SameWrite(s.mem[k], e);
      assert LatestRecord(e, Flatten(s.readers), k);
      assert LatestRecord(e, Flatten(t.readers), k);
    }
  }

  // ---- Runs of imports ----

  /** Imports every payload in turn, under its own hash. */
  function ImportRun(w: Wire, s: Replica, ds: seq<Bytes>): Replica {
    if ds == [] then s
    else
      var d := ds[|ds| - 1];
      Import(w, ImportRun(w, s, ds[..|ds| - 1]), d, w.digest(d))
  }

  ghost predicate Injective(w: Wire) {
    forall a, b :: w.digest(a) == w.digest(b) ==> a == b
  }

  /** `e` comes from one of the payloads. */
  predicate Delivers(w: Wire, d: Bytes, e: Entry) {
    w.parse(d).Parsed? && e in w.parse(d).entries
  }

  /** The replica lists exactly the parsable payloads, and holds exactly their records. */
  ghost predicate Holding(w: Wire, s: Replica, ds: seq<Bytes>) {
    && (forall h :: h in s.hashes <==> exists d :: d in ds && w.parse(d).Parsed? && w.digest(d) == h)
    && (forall e :: e in Flatten(s.readers) <==> exists d :: d in ds && Delivers(w, d, e))
  }

  lemma {:induction false} HoldingStep(w: Wire, s: Replica, ds: seq<Bytes>, d: Bytes)
    requires Injective(w) && Holding(w, s, ds)
    ensures Holding(w, Import(w, s, d, w.digest(d)), ds + [d])
  {
    var s', ds' := Import(w, s, d, w.digest(d)), ds + [d];
    assert forall x :: x in ds' <==> x in ds || x == d;
    if w.digest(d) in s.hashes {
      assert d in ds;
      assert forall x :: x in ds' <==> x in ds;
    } else if w.parse(d).Parsed? {
      FlattenSnoc(s.readers, w.parse(d).entries);
      assert forall e :: e in Flatten(s'.readers) <==> e in Flatten(s.readers) || Delivers(w, d, e);
    }
  }

  /** No two payload records of a key share a timestamp unless they write the same. */
  ghost predicate ClockedApart(w: Wire, ds: seq<Bytes>) {
    forall x, y, a, b ::
      (x in ds && y in ds && Delivers(w, x, a) && Delivers(w, y, b) && a.key == b.key && a.timestamp == b.timestamp) ==> a.op == b.op
  }

  lemma {:induction false} HeldApart(w: Wire, s: Replica, ds: seq<Bytes>)
    requires Holding(w, s, ds) && ClockedApart(w, ds)
    ensures DistinctTimestamps(Flatten(s.readers))
  {
    forall a, b | a in Flatten(s.readers) && b in Flatten(s.readers) && a.key == b.key && a.timestamp == b.timestamp
      ensures a.op == b.op
    {
      var x :| x in ds && Delivers(w, x, a);
      var y :| y in ds && Delivers(w, y, b);
    }
  }

  lemma {:induction false} RunHolds(w: Wire, ds: seq<Bytes>)
    requires Injective(w)
    ensures var s := ImportRun(w, EmptyReplica, ds); Holding(w, s, ds) && Mirrors(s.mem, Flatten(s.readers))
  {
    if ds != [] {
      var ds', d := ds[..|ds| - 1], ds[|ds| - 1];
      RunHolds(w, ds');
      HoldingStep(w, ImportRun(w, EmptyReplica, ds'), ds', d);
      ImportKeeps(w, ImportRun(w, EmptyReplica, ds'), d, w.digest(d));
      assert ds == ds' + [d];
    }
  }

  /** Neither the order in which segments arrive nor how often they arrive matters: replicas fed the
      same payloads read the same value for every key. */
  lemma {:induction false} ImportOrderIrrelevant(w: Wire, ds: seq<Bytes>, es: seq<Bytes>, k: Bytes)
    requires Injective(w) && (forall d :: d in ds <==> d in es) && ClockedApart(w, ds) && Decodable(k)
    ensures Get(ImportRun(w, EmptyReplica, ds), k) == Get(ImportRun(w, EmptyReplica, es), k)
  {
    RunHolds(w, ds);
    RunHolds(w, es);
    HeldApart(w, ImportRun(w, EmptyReplica, ds), ds);
    SameRecordsSameReads(ImportRun(w, EmptyReplica, ds), ImportRun(w, EmptyReplica, es), k);
  }

  /** The value read after a run of imports is that of the payload record with the greatest timestamp. */
  lemma {:induction false} ReplicaReadsLatest(w: Wire, ds: seq<Bytes>, k: Bytes, d: Bytes, e: Entry)
    requires Injective(w) && ClockedApart(w, ds) && Decodable(k)
    requires d in ds && Delivers(w, d, e) && e.key == k
    requires forall x, y :: x in ds && Delivers(w, x, y) && y.key == k ==> y.timestamp <= e.timestamp
    ensures Get(ImportRun(w, EmptyReplica, ds), k) == if e.op.Put? then Some(e.op.value) else None
  {
    RunHolds(w, ds);
    var s := ImportRun(w, EmptyReplica, ds);
    HeldApart(w, s, ds);
    GetIsLatest(s, k);
    forall y | y in Flatten(s.readers) && y.key == k
      ensures y.timestamp <= e.timestamp
    {
      var x :| x in ds && Delivers(w, x, y);
    }
    assert LatestRecord(e, Flatten(s.readers), k);
  }

  // ---- The order of imports, key by key ----

  /** Of the records of `k` with the greatest timestamp, the first. */
  function Winner(all: seq<Entry>, k: Bytes): Option<Entry> {
    if all == [] then None
    else
      var w, e := Winner(all[..|all| - 1], k), all[|all| - 1];
      if e.key == k && (w.None? || w.value.timestamp < e.timestamp) then Some(e) else w
  }

  lemma {:induction false} WinnerLeads(all: seq<Entry>, k: Bytes)
    ensures Winner(all, k).Some? ==> LatestRecord(Winner(all, k).value, all, k)
    ensures Winner(all, k).None? ==> forall e :: e in all ==> e.key != k
  {
    if all != [] {
      var all', e := all[..|all| - 1], all[|all| - 1];
      WinnerLeads(all', k);
      assert all == all' + [e];
    }
  }

  lemma {:induction false} WinnerOfTwo(a: seq<Entry>, b: seq<Entry>, k: Bytes)
    ensures Winner(a + b, k) == Winner(a, k) || Winner(a + b, k) == Winner(b, k)
    ensures Winner(a, k).Some? && Winner(b, k).Some? && Winner(b, k).value.timestamp <= Winner(a, k).value.timestamp ==> Winner(a + b, k) == Winner(a, k)
    ensures Winner(a, k).Some? && Winner(b, k).None? ==> Winner(a + b, k) == Winner(a, k)
    ensures Winner(a, k).None? ==> Winner(a + b, k) == Winner(b, k)
    ensures Winner(a, k).Some? && Winner(b, k).Some? && Winner(b, k).value.timestamp > Winner(a, k).value.timestamp ==> Winner(a + b, k) == Winner(b, k)
  {
    if b == [] {
      assert a + b == a;
    } else {
      assert (a + b)[..|a + b| - 1] == a + b[..|b| - 1];
      WinnerOfTwo(a, b[..|b| - 1], k);
    }
  }

  /** The memtable carries the winning write of `k`, if there is one. */
  predicate Follows(mem: Table, all: seq<Entry>, k: Bytes) {
    var w := Winner(all, k);
    (k in mem <==> w.Some?) && (k in mem ==> SameWrite(mem[k], w.value))
  }

  lemma {:induction false} FollowsStep(p: Progress, readers: seq<seq<Entry>>, seen: seq<Entry>, e: Entry, k: Bytes)
    requires Decodable(k) && Follows(p.mem, seen, k) && (forall x :: x in Flatten(readers) ==> x in seen)
    ensures Follows(ApplyRecord(p, readers, e).mem, seen + [e], k)
  {
    assert (seen + [e])[..|seen|] == seen;
    WinnerLeads(seen, k);
    if k !in p.mem && k in Stack(Tables(readers)) {
      StackedAreFlattened(readers, k);
      assert false;
    }
  }

  lemma {:induction false} FollowsAll(p: Progress, readers: seq<seq<Entry>>, es: seq<Entry>, k: Bytes)
    requires Decodable(k) && Follows(p.mem, Flatten(readers), k)
    ensures Follows(ApplyAll(p, readers, es).mem, Flatten(readers) + es, k)
  {
    if es == [] {
      assert Flatten(readers) + es == Flatten(readers);
    } else {
      var es', e := es[..|es| - 1], es[|es| - 1];
      FollowsAll(p, readers, es', k);
      FollowsStep(ApplyAll(p, readers, es'), readers, Flatten(readers) + es', e, k);
      SnocOf(Flatten(readers), es);
    }
  }

  lemma {:induction false} RunFollows(w: Wire, ds: seq<Bytes>, k: Bytes)
    requires Decodable(k)
    ensures var s := ImportRun(w, EmptyReplica, ds); Follows(s.mem, Flatten(s.readers), k)
  {
    if ds != [] {
      var s, d := ImportRun(w, EmptyReplica, ds[..|ds| - 1]), ds[|ds| - 1];
      RunFollows(w, ds[..|ds| - 1], k);
      if ImportOutcome(w, s, d, w.digest(d)).Applied? {
        var es := w.parse(d).entries;
        FollowsAll(Progress(s.mem, s.lsn, 0, 0), s.readers, es, k);
        FlattenSnoc(s.readers, es);
      }
    }
  }

  function Written(e: Option<Entry>): Option<Bytes> {
    if e.Some? && e.value.op.Put? then Some(e.value.op.value) else None
  }

  /** A point read returns what the winner over all held records wrote. */
  lemma {:induction false} RunReadsWinner(w: Wire, ds: seq<Bytes>, k: Bytes)
    requires Decodable(k)
    ensures var s := ImportRun(w, EmptyReplica, ds); Get(s, k) == Written(Winner(Flatten(s.readers), k))
  {
    var s := ImportRun(w, EmptyReplica, ds);
    RunFollows(w, ds, k);
    WinnerLeads(Flatten(s.readers), k);
    if k !in s.mem && k in Stack(Tables(s.readers)) {
      StackedAreFlattened(s.readers, k);
      assert false;
    }
  }

  /** The payload's own winner. */
  function Best(w: Wire, d: Bytes, k: Bytes): Option<Entry> {
    if w.parse(d).Parsed? then Winner(w.parse(d).entries, k) else None
  }

  /** No payload has a record of `k` later than the best one of `d`. */
  ghost predicate Leads(w: Wire, ds: seq<Bytes>, d: Bytes, k: Bytes) {
    && d in ds && Best(w, d, k).Some?
    && forall x :: x in ds && Best(w, x, k).Some? ==> Best(w, x, k).value.timestamp <= Best(w, d, k).value.timestamp
  }

  /** Every winner over the held records is that of a leading payload. */
  lemma {:induction false} WinnerIsBest(w: Wire, ds: seq<Bytes>, k: Bytes)
    requires Injective(w)
    ensures var win := Winner(Flatten(ImportRun(w, EmptyReplica, ds).readers), k);
            if win.Some? then exists d :: Leads(w, ds, d, k) && Best(w, d, k) == win else forall d :: d in ds ==> Best(w, d, k).None?
  {
    var all := Flatten(ImportRun(w, EmptyReplica, ds).readers);
    RunHolds(w, ds);
    WinnerLeads(all, k);
    forall d | d in ds && Best(w, d, k).Some?
      ensures Winner(all, k).Some? && Best(w, d, k).value.timestamp <= Winner(all, k).value.timestamp
    {
      WinnerLeads(w.parse(d).entries, k);
      assert Delivers(w, d, Best(w, d, k).value);
      assert Best(w, d, k).value in all;
    }
    if Winner(all, k).Some? {
      var d := WinnerFrom(w, ds, k);
      assert Leads(w, ds, d, k);
    }
  }

  lemma {:induction false} WinnerFrom(w: Wire, ds: seq<Bytes>, k: Bytes) returns (d: Bytes)
    requires Winner(Flatten(ImportRun(w, EmptyReplica, ds).readers), k).Some?
    ensures d in ds && Best(w, d, k) == Winner(Flatten(ImportRun(w, EmptyReplica, ds).readers), k)
  {
    if ds != [] {
      var ds', last := ds[..|ds| - 1], ds[|ds| - 1];
      var s := ImportRun(w, EmptyReplica, ds');
      if ImportOutcome(w, s, last, w.digest(last)).Applied? {
        FlattenSnoc(s.readers, w.parse(last).entries);
        WinnerOfTwo(Flatten(s.readers), w.parse(last).entries, k);
        if Best(w, last, k) == Winner(Flatten(s.readers + [w.parse(last).entries]), k) {
          return last;
        }
      }
      d := WinnerFrom(w, ds', k);
    }
  }

  lemma {:induction false} ReadersGrow(w: Wire, s: Replica, d: Bytes)
    ensures Flatten(s.readers) <= Flatten(Import(w, s, d, w.digest(d)).readers)
  {
    if ImportOutcome(w, s, d, w.digest(d)).Applied? {
      FlattenSnoc(s.readers, w.parse(d).entries);
    }
  }

  lemma {:induction false} OnePayload(w: Wire, d: Bytes)
    requires w.parse(d).Parsed?
    ensures Flatten(ImportRun(w, EmptyReplica, [d]).readers) == w.parse(d).entries
  {
    assert [d][..0] == [];
    FlattenSnoc([], w.parse(d).entries);
  }

  /** Readers are only appended, so the first payload's records come first. */
  lemma {:induction false} FirstPayloadFirst(w: Wire, d: Bytes, ds: seq<Bytes>)
    requires w.parse(d).Parsed?
    ensures w.parse(d).entries <= Flatten(ImportRun(w, EmptyReplica, [d] + ds).readers)
  {
    if ds == [] {
      OnePayload(w, d);
      assert [d] + ds == [d];
    } else {
      var ds', last := ds[..|ds| - 1], ds[|ds| - 1];
      FirstPayloadFirst(w, d, ds');
      assert ([d] + ds)[..|[d] + ds| - 1] == [d] + ds' && ([d] + ds)[|[d] + ds| - 1] == last;
      ReadersGrow(w, ImportRun(w, EmptyReplica, [d] + ds'), last);
    }
  }

  /** A leading payload that comes first decides the read. */
  lemma {:induction false} LeaderFirst(w: Wire, d: Bytes, ds: seq<Bytes>, k: Bytes)
    requires Injective(w) && Decodable(k) && Leads(w, [d] + ds, d, k)
    ensures Get(ImportRun(w, EmptyReplica, [d] + ds), k) == Written(Best(w, d, k))
  {
    var all, es := Flatten(ImportRun(w, EmptyReplica, [d] + ds).readers), w.parse(d).entries;
    RunReadsWinner(w, [d] + ds, k);
    FirstPayloadFirst(w, d, ds);
    var rest := all[|es|..];
    assert all == es + rest;
    WinnerOfTwo(es, rest, k);
    WinnerIsBest(w, [d] + ds, k);
  }

  /** The same payloads in another order. */
  ghost predicate Reordered(es: seq<Bytes>, ds: seq<Bytes>) {
    multiset(es) == multiset(ds)
  }

  lemma {:induction false} BringFirst(ds: seq<Bytes>, d: Bytes) returns (rest: seq<Bytes>)
    requires d in ds
    ensures Reordered([d] + rest, ds)
  {
    var i :| 0 <= i < |ds| && ds[i] == d;
    rest := ds[..i] + ds[i + 1..];
    assert ds == ds[..i] + [d] + ds[i + 1..];
  }

  lemma ReorderedMembers(es: seq<Bytes>, ds: seq<Bytes>)
    requires Reordered(es, ds)
    ensures forall d :: d in es <==> d in ds
  {
    forall d
      ensures d in es <==> d in ds
    {
      assert d in es <==> d in multiset(es);
      assert d in ds <==> d in multiset(ds);
    }
  }

  lemma {:induction false} ReorderedLeads(w: Wire, es: seq<Bytes>, ds: seq<Bytes>, d: Bytes, k: Bytes)
    requires Reordered(es, ds) && Leads(w, es, d, k)
    ensures Leads(w, ds, d, k)
  {
    ReorderedMembers(es, ds);
  }

  ghost predicate OrderIrrelevantAt(w: Wire, ds: seq<Bytes>, k: Bytes) {
    forall es :: Reordered(es, ds) ==> Get(ImportRun(w, EmptyReplica, es), k) == Get(ImportRun(w, EmptyReplica, ds), k)
  }

  /** All payloads that reach the greatest timestamp of `k` write the same operation with it. */
  ghost predicate LeadersAgree(w: Wire, ds: seq<Bytes>, k: Bytes) {
    forall x, y :: Leads(w, ds, x, k) && Leads(w, ds, y, k) ==> Best(w, x, k).value.op == Best(w, y, k).value.op
  }

  /** Every order of the payloads reads the same value at `k` if and only if the leading payloads agree. */
  lemma {:induction false} OrderIrrelevantIff(w: Wire, ds: seq<Bytes>, k: Bytes)
    requires Injective(w) && Decodable(k)
    ensures OrderIrrelevantAt(w, ds, k) <==> LeadersAgree(w, ds, k)
  {
    if LeadersAgree(w, ds, k) {
      forall es | Reordered(es, ds)
        ensures Get(ImportRun(w, EmptyReplica, es), k) == Get(ImportRun(w, EmptyReplica, ds), k)
      {
        AgreeingOrders(w, ds, es, k);
      }
    }
    if OrderIrrelevantAt(w, ds, k) {
      forall x, y | Leads(w, ds, x, k) && Leads(w, ds, y, k)
        ensures Best(w, x, k).value.op == Best(w, y, k).value.op
      {
        LeaderRead(w, ds, x, k);
        LeaderRead(w, ds, y, k);
      }
    }
  }

  lemma {:induction false} AgreeingOrders(w: Wire, ds: seq<Bytes>, es: seq<Bytes>, k: Bytes)
    requires Injective(w) && Decodable(k) && LeadersAgree(w, ds, k) && Reordered(es, ds)
    ensures Get(ImportRun(w, EmptyReplica, es), k) == Get(ImportRun(w, EmptyReplica, ds), k)
  {
    RunReadsWinner(w, es, k);
    RunReadsWinner(w, ds, k);
    WinnerIsBest(w, es, k);
    WinnerIsBest(w, ds, k);
    ReorderedMembers(es, ds);
    if Winner(Flatten(ImportRun(w, EmptyReplica, es).readers), k).Some? {
      var d :| Leads(w, es, d, k) && Best(w, d, k) == Winner(Flatten(ImportRun(w, EmptyReplica, es).readers), k);
      ReorderedLeads(w, es, ds, d, k);
    }
  }

  lemma {:induction false} LeaderRead(w: Wire, ds: seq<Bytes>, d: Bytes, k: Bytes)
    requires Injective(w) && Decodable(k) && OrderIrrelevantAt(w, ds, k) && Leads(w, ds, d, k)
    ensures Get(ImportRun(w, EmptyReplica, ds), k) == Written(Best(w, d, k))
  {
    var rest := BringFirst(ds, d);
    ReorderedLeads(w, ds, [d] + rest, d, k);
    LeaderFirst(w, d, rest, k);
  }

  /** Payloads hold at most one record per key, as every written segment does. */
  ghost predicate OnePerKey(w: Wire, ds: seq<Bytes>) {
    forall d :: d in ds && w.parse(d).Parsed? ==> Sorted(w.parse(d).entries)
  }

  /** `e` is a delivered record of `k` with the greatest timestamp. */
  ghost predicate Greatest(w: Wire, ds: seq<Bytes>, d: Bytes, e: Entry, k: Bytes) {
    && d in ds && Delivers(w, d, e) && e.key == k
    && forall x, y :: x in ds && Delivers(w, x, y) && y.key == k ==> y.timestamp <= e.timestamp
  }

  ghost predicate GreatestAgree(w: Wire, ds: seq<Bytes>, k: Bytes) {
    forall x, y, a, b :: Greatest(w, ds, x, a, k) && Greatest(w, ds, y, b, k) ==> a.op == b.op
  }

  lemma {:induction false} BestDelivered(w: Wire, d: Bytes, k: Bytes)
    ensures Best(w, d, k).Some? ==> Delivers(w, d, Best(w, d, k).value) && Best(w, d, k).value.key == k
    ensures forall e :: Delivers(w, d, e) && e.key == k ==> Best(w, d, k).Some? && e.timestamp <= Best(w, d, k).value.timestamp
  {
    if w.parse(d).Parsed? {
      WinnerLeads(w.parse(d).entries, k);
    }
  }

  lemma {:induction false} LeaderIsGreatest(w: Wire, ds: seq<Bytes>, d: Bytes, k: Bytes)
    requires Leads(w, ds, d, k)
    ensures Greatest(w, ds, d, Best(w, d, k).value, k)
  {
    BestDelivered(w, d, k);
    forall x, y | x in ds && Delivers(w, x, y) && y.key == k
      ensures y.timestamp <= Best(w, d, k).value.timestamp
    {
      BestDelivered(w, x, k);
    }
  }

  lemma {:induction false} GreatestIsLeader(w: Wire, ds: seq<Bytes>, d: Bytes, e: Entry, k: Bytes)
    requires Greatest(w, ds, d, e, k) && OnePerKey(w, ds)
    ensures Leads(w, ds, d, k) && Best(w, d, k) == Some(e)
  {
    BestDelivered(w, d, k);
    AsTableOfSorted(w.parse(d).entries);
    forall x | x in ds && Best(w, x, k).Some?
      ensures Best(w, x, k).value.timestamp <= e.timestamp
    {
      BestDelivered(w, x, k);
    }
  }

  /** Said of the delivered records: the order of the payloads does not show at `k` if and only if all
      records of `k` with the greatest timestamp write the same operation. */
  lemma {:induction false} OrderIrrelevantIffGreatestAgree(w: Wire, ds: seq<Bytes>, k: Bytes)
    requires Injective(w) && Decodable(k) && OnePerKey(w, ds)
    ensures OrderIrrelevantAt(w, ds, k) <==> GreatestAgree(w, ds, k)
  {
    OrderIrrelevantIff(w, ds, k);
    if GreatestAgree(w, ds, k) {
      forall x, y | Leads(w, ds, x, k) && Leads(w, ds, y, k)
        ensures Best(w, x, k).value.op == Best(w, y, k).value.op
      {
        LeaderIsGreatest(w, ds, x, k);
        LeaderIsGreatest(w, ds, y, k);
      }
    }
    if LeadersAgree(w, ds, k) {
      forall x, y, a, b | Greatest(w, ds, x, a, k) && Greatest(w, ds, y, b, k)
        ensures a.op == b.op
      {
        GreatestIsLeader(w, ds, x, a, k);
        GreatestIsLeader(w, ds, y, b, k);
      }
    }
  }

  // ---- Scans ----

  lemma {:induction false} NewestKeysAreStacked(ts: seq<Table>)
    ensures Newest(ts).Keys == Stack(ts).Keys
  {
    if ts != [] {
      NewestKeysAreStacked(ts[..|ts| - 1]);
    }
  }

  /** An imported record with a foreign LSN outranks the memtable's record of the key and writes
      something else. */
  predicate Overtaken(s: Replica, k: Bytes) {
    var n := Newest(Tables(s.readers));
    k in n && k in s.mem && n[k].op.Put? && s.mem[k].lsn <= n[k].lsn && n[k].op != s.mem[k].op
  }

  /** Imported segments keep the LSNs of the node that wrote them, so a scan, which compares LSNs, and
      a point read, which asks the memtable first, agree on a key exactly when no foreign LSN overtakes. */
  lemma {:induction false} ScanAgreesIff(s: Replica, k: Bytes)
    requires Mirrors(s.mem, Flatten(s.readers)) && Decodable(k)
    ensures Scanned(s, k) == Get(s, k) <==> !Overtaken(s, k)
  {
    NewestKeysAreStacked(Tables(s.readers));
    if k !in s.mem && k in Stack(Tables(s.readers)) {
      StackedAreFlattened(s.readers, k);
    }
  }

  /** Per key, LSNs and timestamps grow together, and an LSN names one record. */
  ghost predicate ClocksFollowLsns(all: seq<Entry>) {
    forall a, b :: a in all && b in all && a.key == b.key ==>
      (a.lsn < b.lsn ==> a.timestamp < b.timestamp) && (a.lsn == b.lsn ==> a == b)
  }

  lemma {:induction false} NewestRecord(segs: seq<seq<Entry>>, k: Bytes)
    requires AllSorted(segs) && k in Newest(Tables(segs))
    ensures Newest(Tables(segs))[k] in Flatten(segs) && Newest(Tables(segs))[k].key == k
    ensures forall e :: e in Flatten(segs) && e.key == k ==> e.lsn <= Newest(Tables(segs))[k].lsn
  {
    var ts := Tables(segs);
    NewestIsNewest(ts);
    var i :| Holds(ts, i, k) && ts[i][k] == Newest(ts)[k];
    AsTableMembers(segs[i]);
    FlattenMembers(segs, Newest(ts)[k]);
    forall e | e in Flatten(segs) && e.key == k
      ensures e.lsn <= Newest(ts)[k].lsn
    {
      FlattenMembers(segs, e);
      var j :| 0 <= j < |segs| && e in segs[j];
      AsTableOfSorted(segs[j]);
      assert Holds(ts, j, k);
    }
  }

  lemma {:induction false} RecordedKeys(segs: seq<seq<Entry>>, e: Entry)
    requires e in Flatten(segs)
    ensures e.key in Newest(Tables(segs))
  {
    var ts := Tables(segs);
    FlattenMembers(segs, e);
    var i :| 0 <= i < |segs| && e in segs[i];
    AsTableMembers(segs[i]);
    NewestIsNewest(ts);
    assert Holds(ts, i, e.key);
  }

  /** A replica holding the records of a primary's segments reads the primary's flushed view: under
      every key the record with the highest LSN. */
  lemma {:induction false} ReadsPrimaryView(s: Replica, segs: seq<seq<Entry>>, k: Bytes)
    requires Mirrors(s.mem, Flatten(s.readers)) && SameRecords(Flatten(s.readers), Flatten(segs))
    requires AllSorted(segs) && ClocksFollowLsns(Flatten(segs)) && Decodable(k)
    ensures Get(s, k) == ValueOf(Newest(Tables(segs)), k)
    ensures k in s.mem ==> k in Newest(Tables(segs)) && s.mem[k].op == Newest(Tables(segs))[k].op
  {
    if k in s.mem {
      var e :| e in Flatten(s.readers) && SameWrite(s.mem[k], e);
      RecordedKeys(segs, e);
      NewestRecord(segs, k);
    } else {
      if k in Stack(Tables(s.readers)) {
        StackedAreFlattened(s.readers, k);
      }
      if k in Newest(Tables(segs)) {
        NewestRecord(segs, k);
      }
    }
  }

  /** With such clocks scans agree with point reads as well. */
  lemma {:induction false} ScanReadsPrimaryView(s: Replica, k: Bytes)
    requires Mirrors(s.mem, Flatten(s.readers)) && AllSorted(s.readers) && ClocksFollowLsns(Flatten(s.readers)) && Decodable(k)
    ensures Scanned(s, k) == Get(s, k) == ValueOf(Newest(Tables(s.readers)), k)
  {
    ReadsPrimaryView(s, s.readers, k);
    ScanAgreesIff(s, k);
  }

  // ---- Counterexamples ----

  function OneRecordWire(a: Entry, b: Entry): Wire {
    Wire((d: Bytes) => d, (d: Bytes) => if d == [1] then Parsed([a]) else Parsed([b]))
  }

  lemma {:induction false} TwoImports(a: Entry, b: Entry)
    requires a.key == b.key && Decodable(a.key)
    ensures var s := ImportRun(OneRecordWire(a, b), EmptyReplica, [[1], [2]]);
            && s.readers == [[a], [b]]
            && s.mem == map[a.key := if b.timestamp > a.timestamp then Entry(b.key, b.op, 2, b.timestamp, 0) else Entry(a.key, a.op, 1, a.timestamp, 0)]
    ensures var s := ImportRun(OneRecordWire(a, b), EmptyReplica, [[2], [1]]);
            && s.readers == [[b], [a]]
            && s.mem == map[a.key := if a.timestamp > b.timestamp then Entry(a.key, a.op, 2, a.timestamp, 0) else Entry(b.key, b.op, 1, b.timestamp, 0)]
  {
    var w := OneRecordWire(a, b);
    SingleRun(w, [1], a);
    SingleRun(w, [2], b);
    assert [[1], [2]][..1] == [[1]] && [[2], [1]][..1] == [[2]];
    var s, t := ImportRun(w, EmptyReplica, [[1]]), ImportRun(w, EmptyReplica, [[2]]);
    assert [1] != [2];
    assert Tables([[a]])[..0] == [] && Tables([[b]])[..0] == [];
    assert ImportRun(w, EmptyReplica, [[1], [2]]) == Import(w, s, [2], [2]);
    assert ImportRun(w, EmptyReplica, [[2], [1]]) == Import(w, t, [1], [1]);
    ApplyOne(Progress(s.mem, s.lsn, 0, 0), s.readers, b);
    ApplyOne(Progress(t.mem, t.lsn, 0, 0), t.readers, a);
  }

  lemma ApplyOne(p: Progress, readers: seq<seq<Entry>>, e: Entry)
    ensures ApplyAll(p, readers, [e]) == ApplyRecord(p, readers, e)
  {
    assert [e][..0] == [];
    assert ApplyAll(p, readers, []) == p;
  }

  lemma {:induction false} SingleRun(w: Wire, d: Bytes, e: Entry)
    requires w.parse(d) == Parsed([e]) && Decodable(e.key)
    ensures ImportRun(w, EmptyReplica, [d]) == Replica(map[e.key := Entry(e.key, e.op, 1, e.timestamp, 0)], [[e]], [w.digest(d)], 1)
  {
    assert [d][..0] == [];
    assert ImportRun(w, EmptyReplica, []) == EmptyReplica;
    ApplyOne(Progress(map[], 0, 0, 0), [], e);
  }

  const SomeKey: Bytes := [0, 0]

  /** Equal timestamps: the segment that came first wins, so the order shows. */
  lemma {:induction false} TiesDependOnOrder()
    ensures var w := OneRecordWire(Entry(SomeKey, Put([1]), 1, 7, 0), Entry(SomeKey, Put([2]), 1, 7, 0));
            && Get(ImportRun(w, EmptyReplica, [[1], [2]]), SomeKey) == Some([1])
            && Get(ImportRun(w, EmptyReplica, [[2], [1]]), SomeKey) == Some([2])
  {
    TwoImports(Entry(SomeKey, Put([1]), 1, 7, 0), Entry(SomeKey, Put([2]), 1, 7, 0));
  }

  /** An older write with a greater LSN arrives second: point reads keep the newer write, scans show the
      older one. */
  lemma {:induction false} ScanShowsOldWrite()
    ensures var w := OneRecordWire(Entry(SomeKey, Put([1]), 3, 8, 0), Entry(SomeKey, Put([2]), 9, 7, 0));
            var s := ImportRun(w, EmptyReplica, [[1], [2]]);
            Get(s, SomeKey) == Some([1]) && Scanned(s, SomeKey) == Some([2])
  {
    var a, b := Entry(SomeKey, Put([1]), 3, 8, 0), Entry(SomeKey, Put([2]), 9, 7, 0);
    TwoImports(a, b);
    TwoReaders(a, b);
  }

  lemma {:induction false} TwoReaders(a: Entry, b: Entry)
    requires a.key == b.key && a.lsn < b.lsn
    ensures Newest(Tables([[a], [b]])) == map[a.key := b]
  {
    OneReader(a);
    assert [[a], [b]] == [[a]] + [[b]];
    TablesSnoc([[a]], [b]);
    NewestSnoc(Tables([[a]]), AsTable([b]));
    assert [b][..0] == [];
  }

  lemma {:induction false} OneReader(a: Entry)
    ensures Newest(Tables([[a]])) == map[a.key := a]
  {
    var none: seq<seq<Entry>> := [];
    assert [[a]] == none + [[a]];
    TablesSnoc(none, [a]);
    NewestSnoc(Tables(none), AsTable([a]));
    assert [a][..0] == [];
  }

  // ---- The operation itself ----

  /** The part of the engine an import touches. */
  class ReplicaEngine {
    var memtable: Table
    var readers: seq<seq<Entry>>
    var hashes: seq<Hash>
    var lsn: nat
    /** The records of each log file, the active one last. */
    var wal: seq<seq<Entry>>
    /** When the active file has reached its size limit. */
    const walFull: seq<Entry> -> bool

    constructor (walFull: seq<Entry> -> bool)
      ensures State() == EmptyReplica && Logged() && wal == [[]] && this.walFull == walFull
    {
      memtable, readers, hashes, lsn, wal := map[], [], [], 0, [[]];
      this.walFull := walFull;
      new;
      FlattenSnoc([], []);
    }

    /** Replaying the log files in order restores the memtable. */
    predicate Logged()
      reads this
    {
      wal != [] && memtable == AsTable(Flatten(wal))
    }

    /** Appends to the active file; a file that is full then is closed and a new one started. */
    method AppendRecord(e: Entry)
      requires wal != []
      modifies this`wal
      ensures wal != [] && Flatten(wal) == Flatten(old(wal)) + [e]
      ensures var active := old(wal)[|old(wal)| - 1] + [e];
              wal == old(wal)[..|old(wal)| - 1] + [active] + if walFull(active) then [[]] else []
    {
      var done, active := wal[..|wal| - 1], wal[|wal| - 1] + [e];
      FlattenSnoc(done, active);
      wal := done + [active];
      if walFull(active) {
        FlattenSnoc(wal, []);
        wal := wal + [[]];
      }
    }

    function State(): Replica
      reads this
    {
      Replica(memtable, readers, hashes, lsn)
    }

    /** `put_with_timestamp` and `delete_with_timestamp`: a fresh LSN, the record's own timestamp, no
        time to live; logged before it reaches the memtable. */
    method WriteWithTimestamp(ns: Bytes, key: Bytes, op: Op, timestamp: int) returns (r: EngineObject.Result<nat>)
      requires wal != []
      modifies this`memtable, this`lsn, this`wal
      ensures |ns| > MaxNamespace ==> r == EngineObject.NamespaceTooLong && State() == old(State()) && wal == old(wal)
      ensures |ns| <= MaxNamespace ==>
                var k := EncodeKey(ns, key);
                var e := Entry(k, op, lsn, timestamp, 0);
                && r == EngineObject.Ok(lsn) && lsn == old(lsn) + 1 && memtable == old(memtable)[k := e]
                && Flatten(wal) == Flatten(old(wal)) + [e]
      ensures old(Logged()) ==> Logged()
      ensures wal != []
    {
      if |ns| > MaxNamespace {
        return EngineObject.NamespaceTooLong;
      }
      lsn := lsn + 1;
      var k := EncodeKey(ns, key);
      var e := Entry(k, op, lsn, timestamp, 0);
      AsTableConcat(Flatten(wal), [e]);
      assert [e][..0] == [];
      AppendRecord(e);
      memtable := memtable[k := e];
      return EngineObject.Ok(lsn);
    }

    method LookUp(k: Bytes) returns (local: Option<Entry>)
      ensures local == LocalEntry(memtable, readers, k)
    {
      if k in memtable {
        return Some(memtable[k]);
      }
      local := EngineObject.FindInReaders(readers, k);
    }

    /** Takes one record into account, and into the counters. */
    method ApplyIncoming(e: Entry, w: nat, s: nat) returns (written: nat, skipped: nat)
      requires wal != []
      modifies this`memtable, this`lsn, this`wal
      ensures wal != [] && (old(Logged()) ==> Logged())
      ensures Progress(memtable, lsn, written, skipped) == ApplyRecord(Progress(old(memtable), old(lsn), w, s), readers, e)
    {
      var local := LookUp(e.key);
      if local.Some? && e.timestamp <= local.value.timestamp {
        return w, s + 1;
      }
      var d := DecodeKey(e.key);
      if d.CorruptKey? {
        return w, s;
      }
      EncodeDecode(e.key);
      var _ := WriteWithTimestamp(d.ns, d.key, e.op, e.timestamp);
      return w + 1, s;
    }

    method ApplyEntries(es: seq<Entry>) returns (written: nat, skipped: nat)
      requires wal != []
      modifies this`memtable, this`lsn, this`wal
      ensures wal != [] && (old(Logged()) ==> Logged())
      ensures Progress(memtable, lsn, written, skipped) == ApplyAll(Progress(old(memtable), old(lsn), 0, 0), readers, es)
    {
      written, skipped := 0, 0;
      for i := 0 to |es|
        invariant wal != [] && (old(Logged()) ==> Logged())
        invariant Progress(memtable, lsn, written, skipped) == ApplyAll(Progress(old(memtable), old(lsn), 0, 0), readers, es[..i])
      {
        ApplySnoc(Progress(old(memtable), old(lsn), 0, 0), readers, es, i);
        written, skipped := ApplyIncoming(es[i], written, skipped);
      }
      assert es[..|es|] == es;
    }

    method ImportSegment(w: Wire, data: Bytes, hash: Hash) returns (result: ImportResult)
      requires wal != []
      modifies this
      ensures wal != [] && (old(Logged()) ==> Logged())
      ensures result == ImportOutcome(w, old(State()), data, hash)
      ensures State() == Import(w, old(State()), data, hash)
      ensures Mirrors(old(memtable), Flatten(old(readers))) ==> Mirrors(memtable, Flatten(readers))
    {
      if Mirrors(memtable, Flatten(readers)) {
        ImportKeeps(w, State(), data, hash);
      }
      if hash in hashes {
        return Skipped;
      }
      if w.digest(data) != hash {
        return HashMismatch;
      }
      var parsed := w.parse(data);
      if parsed.Corrupt? {
        return Rejected;
      }
      var written, skipped := ApplyEntries(parsed.entries);
      readers := readers + [parsed.entries];
      hashes := hashes + [hash];
      return Applied(written, skipped);
    }
  }
}
