/** One anti-entropy cycle against a peer: compare roots, list what is missing, fetch and import it. */
module AntiEntropy {
  import opened ByteStrings
  import opened Entries
  import opened Merge
  import opened Replication

  // ---- Roots ----

  function ZeroRoot(): Hash {
    seq(32, _ => 0)
  }

  predicate InOrder(hs: seq<Hash>) {
    forall i, j :: 0 <= i < j < |hs| ==> AtMost(hs[i], hs[j])
  }

  function InsertHash(hs: seq<Hash>, h: Hash): seq<Hash> {
    if hs == [] || AtMost(hs[|hs| - 1], h) then hs + [h] else InsertHash(hs[..|hs| - 1], h) + [hs[|hs| - 1]]
  }

  function SortHashes(hs: seq<Hash>): seq<Hash> {
    if hs == [] then [] else InsertHash(SortHashes(hs[..|hs| - 1]), hs[|hs| - 1])
  }

  lemma {:induction false} InsertHashCounts(hs: seq<Hash>, h: Hash)
    ensures multiset(InsertHash(hs, h)) == multiset(hs) + multiset{h}
  {
    if hs != [] && !AtMost(hs[|hs| - 1], h) {
      InsertHashCounts(hs[..|hs| - 1], h);
      assert hs == hs[..|hs| - 1] + [hs[|hs| - 1]];
    }
  }

  lemma {:induction false} InsertHashOrders(hs: seq<Hash>, h: Hash)
    requires InOrder(hs)
    ensures InOrder(InsertHash(hs, h))
  {
    if hs != [] && !AtMost(hs[|hs| - 1], h) {
      var front, last := hs[..|hs| - 1], hs[|hs| - 1];
      InsertHashOrders(front, h);
      InsertHashCounts(front, h);
      var r := InsertHash(front, h);
      forall i | 0 <= i < |r|
        ensures AtMost(r[i], last)
      {
        assert r[i] in multiset(r);
      }
    }
  }

  lemma {:induction false} SortHashesSorts(hs: seq<Hash>)
    ensures InOrder(SortHashes(hs)) && multiset(SortHashes(hs)) == multiset(hs)
  {
    if hs != [] {
      var front, last := hs[..|hs| - 1], hs[|hs| - 1];
      SortHashesSorts(front);
      InsertHashOrders(SortHashes(front), last);
      InsertHashCounts(SortHashes(front), last);
      assert hs == front + [last];
    }
  }

  /** The digest of the sorted hashes; all zero without segments. */
  function Root(digest: seq<Hash> -> Hash, hs: seq<Hash>): Hash {
    if hs == [] then ZeroRoot() else digest(SortHashes(hs))
  }

  lemma {:induction false} LastIsGreatest(hs: seq<Hash>, h: Hash)
    requires InOrder(hs) && h in multiset(hs)
    ensures hs != [] && AtMost(h, hs[|hs| - 1])
  {
    assert h in hs;
  }

  lemma {:induction false} DropGreatest(hs: seq<Hash>)
    requires hs != [] && InOrder(hs)
    ensures InOrder(hs[..|hs| - 1]) && multiset(hs[..|hs| - 1]) == multiset(hs) - multiset{hs[|hs| - 1]}
    ensures hs[|hs| - 1] in multiset(hs)
  {
    assert hs == hs[..|hs| - 1] + [hs[|hs| - 1]];
  }

  lemma {:induction false} SameGreatest(a: seq<Hash>, b: seq<Hash>)
    requires InOrder(a) && InOrder(b) && multiset(a) == multiset(b) && a != []
    ensures b != [] && a[|a| - 1] == b[|b| - 1]
  {
    DropGreatest(a);
    LastIsGreatest(b, a[|a| - 1]);
    DropGreatest(b);
    LastIsGreatest(a, b[|b| - 1]);
    RankInjective(a[|a| - 1], b[|b| - 1]);
  }

  lemma {:induction false} SortedHashesUnique(a: seq<Hash>, b: seq<Hash>)
    requires InOrder(a) && InOrder(b) && multiset(a) == multiset(b)
    ensures a == b
  {
    if a != [] {
      SameGreatest(a, b);
      DropGreatest(a);
      DropGreatest(b);
      SortedHashesUnique(a[..|a| - 1], b[..|b| - 1]);
      Rejoin(a);
      Rejoin(b);
    } else {
      assert |multiset(b)| == |b|;
    }
  }

  lemma Rejoin(hs: seq<Hash>)
    requires hs != []
    ensures hs == hs[..|hs| - 1] + [hs[|hs| - 1]]
  {
  }

  lemma {:induction false} SameHashesSameRoot(digest: seq<Hash> -> Hash, a: seq<Hash>, b: seq<Hash>)
    requires multiset(a) == multiset(b)
    ensures Root(digest, a) == Root(digest, b)
  {
    assert |a| == |multiset(a)| && |b| == |multiset(b)|;
    SortHashesSorts(a);
    SortHashesSorts(b);
    SortedHashesUnique(SortHashes(a), SortHashes(b));
  }

  ghost predicate Collisionless(digest: seq<Hash> -> Hash) {
    (forall a, b :: digest(a) == digest(b) ==> a == b) && forall a :: digest(a) != ZeroRoot()
  }

  lemma {:induction false} SameRootSameHashes(digest: seq<Hash> -> Hash, a: seq<Hash>, b: seq<Hash>)
    requires Collisionless(digest) && Root(digest, a) == Root(digest, b)
    ensures multiset(a) == multiset(b)
  {
    SortHashesSorts(a);
    SortHashesSorts(b);
  }

  predicate Distinct(hs: seq<Hash>) {
    forall i, j :: 0 <= i < j < |hs| ==> hs[i] != hs[j]
  }

  lemma {:induction false} CountDistinct(hs: seq<Hash>, h: Hash)
    requires Distinct(hs)
    ensures multiset(hs)[h] == if h in hs then 1 else 0
  {
    if hs != [] {
      var hs', x := hs[..|hs| - 1], hs[|hs| - 1];
      assert hs == hs' + [x];
      CountDistinct(hs', h);
      if h == x {
        assert h !in hs';
      }
    }
  }

  lemma {:induction false} DistinctMultisets(a: seq<Hash>, b: seq<Hash>)
    requires Distinct(a) && Distinct(b) && (forall h :: h in a <==> h in b)
    ensures multiset(a) == multiset(b)
  {
    forall h
      ensures multiset(a)[h] == multiset(b)[h]
    {
      CountDistinct(a, h);
      CountDistinct(b, h);
    }
  }

  // ---- Filtering hash lists ----

  function Without(hs: seq<Hash>, gone: set<Hash>): seq<Hash> {
    if hs == [] then [] else Without(hs[..|hs| - 1], gone) + KeepOne(hs[|hs| - 1], gone)
  }

  function KeepOne(h: Hash, gone: set<Hash>): seq<Hash> {
    if h in gone then [] else [h]
  }

  lemma {:induction false} WithoutMembers(hs: seq<Hash>, gone: set<Hash>)
    ensures forall h :: h in Without(hs, gone) <==> h in hs && h !in gone
  {
    if hs != [] {
      assert hs == hs[..|hs| - 1] + [hs[|hs| - 1]];
      WithoutMembers(hs[..|hs| - 1], gone);
    }
  }

  lemma {:induction false} WithoutSnoc(hs: seq<Hash>, h: Hash, gone: set<Hash>)
    ensures Without(hs + [h], gone) == Without(hs, gone) + KeepOne(h, gone)
  {
    assert (hs + [h])[..|hs|] == hs;
  }

  lemma {:induction false} WithoutTwice(hs: seq<Hash>, a: set<Hash>, b: set<Hash>)
    ensures Without(Without(hs, a), b) == Without(hs, a + b)
  {
    if hs != [] {
      var hs', x := hs[..|hs| - 1], hs[|hs| - 1];
      WithoutTwice(hs', a, b);
      if x !in a {
        WithoutSnoc(Without(hs', a), x, b);
      } else {
        assert Without(hs, a) == Without(hs', a);
      }
    }
  }

  lemma {:induction false} WithoutNone(hs: seq<Hash>)
    ensures Without(hs, {}) == hs
  {
    if hs != [] {
      WithoutNone(hs[..|hs| - 1]);
    }
  }

  function SetOf(hs: seq<Hash>): set<Hash> {
    set h | h in hs
  }

  // ---- The pull loop ----

  type Fetch = Hash -> Option<Bytes>

  /** The peer delivered bytes that hash to what was asked for. */
  predicate Resolved(w: Wire, fetch: Fetch, h: Hash) {
    fetch(h).Some? && w.digest(fetch(h).value) == h
  }

  /** ... and that parse. */
  predicate Accepted(w: Wire, fetch: Fetch, h: Hash) {
    Resolved(w, fetch, h) && w.parse(fetch(h).value).Parsed?
  }

  function Pull(w: Wire, fetch: Fetch, s: Replica, h: Hash): Replica {
    if fetch(h).None? then s else Import(w, s, fetch(h).value, h)
  }

  function PullAll(w: Wire, fetch: Fetch, s: Replica, hs: seq<Hash>): Replica {
    if hs == [] then s else Pull(w, fetch, PullAll(w, fetch, s, hs[..|hs| - 1]), hs[|hs| - 1])
  }

  /** Exactly the accepted hashes join the list, each once. */
  lemma {:induction false} PulledHashes(w: Wire, fetch: Fetch, s: Replica, hs: seq<Hash>)
    ensures forall h :: h in PullAll(w, fetch, s, hs).hashes <==> h in s.hashes || (h in hs && Accepted(w, fetch, h))
    ensures Distinct(s.hashes) ==> Distinct(PullAll(w, fetch, s, hs).hashes)
    ensures Mirrors(s.mem, Flatten(s.readers)) ==>
              var s' := PullAll(w, fetch, s, hs); Mirrors(s'.mem, Flatten(s'.readers))
  {
    if hs != [] {
      var hs', h := hs[..|hs| - 1], hs[|hs| - 1];
      PulledHashes(w, fetch, s, hs');
      assert hs == hs' + [h];
      var t := PullAll(w, fetch, s, hs');
      if fetch(h).Some? && Mirrors(t.mem, Flatten(t.readers)) {
        ImportKeeps(w, t, fetch(h).value, h);
      }
    }
  }

  function CountAccepted(w: Wire, fetch: Fetch, hs: seq<Hash>): nat {
    if hs == [] then 0
    else CountAccepted(w, fetch, hs[..|hs| - 1]) + if Accepted(w, fetch, hs[|hs| - 1]) then 1 else 0
  }

  function ResolvedAmong(w: Wire, fetch: Fetch, hs: seq<Hash>): set<Hash> {
    set h | h in hs && Resolved(w, fetch, h)
  }

  lemma ResolvedSnoc(w: Wire, fetch: Fetch, hs: seq<Hash>, h: Hash)
    ensures ResolvedAmong(w, fetch, hs + [h]) == if Resolved(w, fetch, h) then ResolvedAmong(w, fetch, hs) + {h} else ResolvedAmong(w, fetch, hs)
  {
  }

  // ---- The cycle ----

  /** What the peer answers during one cycle; `None` is a failed request. */
  datatype Transport = Transport(root: Option<Hash>, list: Option<seq<Hash>>, fetch: Fetch)

  class PeerCursor {
    var pending: seq<Hash>
    var appliedTotal: nat
    var lastKnownRoot: Hash

    constructor ()
      ensures pending == [] && appliedTotal == 0 && lastKnownRoot == []
    {
      pending, appliedTotal, lastKnownRoot := [], 0, [];
    }
  }

  /** Where a hash of the pending list ends up. */
  lemma {:induction false} OneResult(w: Wire, fetch: Fetch, s: Replica, missing: seq<Hash>, i: nat)
    requires i < |missing| && (forall h :: h in missing ==> h !in s.hashes) && fetch(missing[i]).Some?
    ensures var h, t := missing[i], PullAll(w, fetch, s, missing[..i]);
            var r := ImportOutcome(w, t, fetch(h).value, h);
            && (r.HashMismatch? <==> !Resolved(w, fetch, h))
            && (r.Applied? || r.Skipped? <==> Accepted(w, fetch, h))
  {
    PulledHashes(w, fetch, s, missing[..i]);
  }

  lemma {:induction false} PullNext(w: Wire, fetch: Fetch, s: Replica, missing: seq<Hash>, i: nat)
    requires i < |missing|
    ensures PullAll(w, fetch, s, missing[..i + 1]) == Pull(w, fetch, PullAll(w, fetch, s, missing[..i]), missing[i])
    ensures CountAccepted(w, fetch, missing[..i + 1]) == CountAccepted(w, fetch, missing[..i]) + if Accepted(w, fetch, missing[i]) then 1 else 0
    ensures ResolvedAmong(w, fetch, missing[..i + 1]) ==
            if Resolved(w, fetch, missing[i]) then ResolvedAmong(w, fetch, missing[..i]) + {missing[i]} else ResolvedAmong(w, fetch, missing[..i])
  {
    assert missing[..i + 1][..i] == missing[..i];
    assert missing[..i + 1] == missing[..i] + [missing[i]];
    ResolvedSnoc(w, fetch, missing[..i], missing[i]);
  }

  /** After the first `i` of the listed hashes. */
  ghost predicate Pulled(e: ReplicaEngine, c: PeerCursor, w: Wire, fetch: Fetch, s0: Replica, total0: nat, hashes: seq<Hash>, i: nat)
    requires i <= |hashes|
    reads e, c
  {
    && e.wal != [] && e.State() == PullAll(w, fetch, s0, hashes[..i])
    && c.pending == Without(hashes, ResolvedAmong(w, fetch, hashes[..i]))
    && c.appliedTotal == total0 + CountAccepted(w, fetch, hashes[..i])
  }

  /** Fetches and imports one segment. */
  method PullOne(e: ReplicaEngine, c: PeerCursor, w: Wire, fetch: Fetch, hash: Hash, ghost s0: Replica, ghost total0: nat, ghost hashes: seq<Hash>, ghost i: nat)
    requires i < |hashes| && hash == hashes[i] && (forall h :: h in hashes ==> h !in s0.hashes)
    requires Pulled(e, c, w, fetch, s0, total0, hashes, i)
    modifies e, c`pending, c`appliedTotal
    ensures Pulled(e, c, w, fetch, s0, total0, hashes, i + 1)
    ensures old(e.Logged()) ==> e.Logged()
  {
    PullNext(w, fetch, s0, hashes, i);
    var data := fetch(hash);
    if data.None? {
      return;
    }
    OneResult(w, fetch, s0, hashes, i);
    WithoutTwice(hashes, ResolvedAmong(w, fetch, hashes[..i]), {hash});
    var result := e.ImportSegment(w, data.value, hash);
    if result.Applied? || result.Skipped? {
      c.pending := Without(c.pending, {hash});
      c.appliedTotal := c.appliedTotal + 1;
    } else if result.Rejected? {
      c.pending := Without(c.pending, {hash});
    }
  }

  /** Fetches and imports every missing segment. A hash stays pending exactly when its fetch failed or
      its bytes do not match it. */
  method PullPending(e: ReplicaEngine, c: PeerCursor, w: Wire, fetch: Fetch)
    requires e.wal != [] && forall h :: h in c.pending ==> h !in e.hashes
    modifies e, c`pending, c`appliedTotal
    ensures e.wal != [] && (old(e.Logged()) ==> e.Logged())
    ensures e.State() == PullAll(w, fetch, old(e.State()), old(c.pending))
    ensures c.pending == Without(old(c.pending), ResolvedAmong(w, fetch, old(c.pending)))
    ensures c.appliedTotal == old(c.appliedTotal) + CountAccepted(w, fetch, old(c.pending))
  {
    var hashes := c.pending;
    ghost var s0, total0 := e.State(), c.appliedTotal;
    WithoutNone(hashes);
    assert hashes[..0] == [] && ResolvedAmong(w, fetch, []) == {};
    for i := 0 to |hashes|
      invariant Pulled(e, c, w, fetch, s0, total0, hashes, i)
      invariant old(e.Logged()) ==> e.Logged()
    {
      PullOne(e, c, w, fetch, hashes[i], s0, total0, hashes, i);
    }
    assert hashes[..|hashes|] == hashes;
  }

  /** A cycle stops early when a request fails or the roots already match. */
  method RunOnce(e: ReplicaEngine, c: PeerCursor, w: Wire, digest: seq<Hash> -> Hash, t: Transport)
    requires e.wal != []
    modifies e, c
    ensures e.wal != [] && (old(e.Logged()) ==> e.Logged())
    ensures t.root.None? || (Root(digest, old(e.hashes)) != t.root.value && t.list.None?) ==>
              e.State() == old(e.State()) && c.pending == old(c.pending) && c.lastKnownRoot == old(c.lastKnownRoot)
    ensures t.root.Some? && Root(digest, old(e.hashes)) == t.root.value ==>
              e.State() == old(e.State()) && c.pending == old(c.pending) && c.lastKnownRoot == t.root.value
    ensures t.root.Some? && Root(digest, old(e.hashes)) != t.root.value && t.list.Some? ==>
              var missing := Without(t.list.value, SetOf(old(e.hashes)));
              && e.State() == PullAll(w, t.fetch, old(e.State()), missing)
              && c.pending == Without(missing, ResolvedAmong(w, t.fetch, missing))
              && c.appliedTotal == old(c.appliedTotal) + CountAccepted(w, t.fetch, missing)
              && c.lastKnownRoot == t.root.value
  {
    if t.root.None? {
      return;
    }
    if Root(digest, e.hashes) == t.root.value {
      c.lastKnownRoot := t.root.value;
      return;
    }
    if t.list.None? {
      return;
    }
    WithoutMembers(t.list.value, SetOf(e.hashes));
    c.pending := Without(t.list.value, SetOf(e.hashes));
    PullPending(e, c, w, t.fetch);
    c.lastKnownRoot := t.root.value;
  }

  // ---- Convergence ----

  /** A peer with segments `hs` that answers every request truthfully. */
  ghost predicate Serves(w: Wire, digest: seq<Hash> -> Hash, t: Transport, hs: seq<Hash>) {
    && t.root == Some(Root(digest, hs)) && t.list == Some(hs)
    && forall h :: h in hs ==> Accepted(w, t.fetch, h)
  }

  /** State after a cycle that meets no failed request. */
  function AfterCycle(w: Wire, digest: seq<Hash> -> Hash, t: Transport, s: Replica, hs: seq<Hash>): Replica {
    if Root(digest, s.hashes) == Root(digest, hs) then s
    else PullAll(w, t.fetch, s, Without(hs, SetOf(s.hashes)))
  }

  /** Against a peer that serves everything, the hash set becomes the union and nothing stays pending. */
  lemma {:induction false} CycleUnites(w: Wire, digest: seq<Hash> -> Hash, t: Transport, s: Replica, hs: seq<Hash>)
    requires Serves(w, digest, t, hs) && Collisionless(digest) && Distinct(s.hashes)
    ensures var s' := AfterCycle(w, digest, t, s, hs);
            Distinct(s'.hashes) && forall h :: h in s'.hashes <==> h in s.hashes || h in hs
    ensures var missing := Without(hs, SetOf(s.hashes)); Without(missing, ResolvedAmong(w, t.fetch, missing)) == []
  {
    var missing := Without(hs, SetOf(s.hashes));
    var left := Without(missing, ResolvedAmong(w, t.fetch, missing));
    WithoutMembers(hs, SetOf(s.hashes));
    WithoutMembers(missing, ResolvedAmong(w, t.fetch, missing));
    assert left != [] ==> left[0] in left;
    PulledHashes(w, t.fetch, s, missing);
    if Root(digest, s.hashes) == Root(digest, hs) {
      SameRootSameHashes(digest, s.hashes, hs);
      forall h
        ensures h in s.hashes <==> h in hs
      {
        assert h in s.hashes <==> h in multiset(s.hashes);
        assert h in hs <==> h in multiset(hs);
      }
    }
  }

  /** A replica that held nothing the peer lacks ends with the peer's root. */
  lemma {:induction false} CycleConverges(w: Wire, digest: seq<Hash> -> Hash, t: Transport, s: Replica, hs: seq<Hash>)
    requires Serves(w, digest, t, hs) && Collisionless(digest) && Distinct(s.hashes)
    requires Distinct(hs) && forall h :: h in s.hashes ==> h in hs
    ensures Root(digest, AfterCycle(w, digest, t, s, hs).hashes) == Root(digest, hs)
  {
    CycleUnites(w, digest, t, s, hs);
    var s' := AfterCycle(w, digest, t, s, hs);
    DistinctMultisets(s'.hashes, hs);
    SameHashesSameRoot(digest, s'.hashes, hs);
  }

  // ---- What the replica reads afterwards ----

  predicate FromPeerAt(w: Wire, fetch: Fetch, s: Replica, i: nat)
    requires i < |s.hashes| == |s.readers|
  {
    Accepted(w, fetch, s.hashes[i]) && w.parse(fetch(s.hashes[i]).value).entries == s.readers[i]
  }

  /** Every reader is the segment the peer keeps under its hash. */
  ghost predicate FromPeer(w: Wire, fetch: Fetch, s: Replica) {
    |s.hashes| == |s.readers| && forall i :: 0 <= i < |s.hashes| ==> FromPeerAt(w, fetch, s, i)
  }

  lemma {:induction false} PullStaysFromPeer(w: Wire, fetch: Fetch, s: Replica, h: Hash)
    requires FromPeer(w, fetch, s)
    ensures FromPeer(w, fetch, Pull(w, fetch, s, h))
  {
    var s' := Pull(w, fetch, s, h);
    forall i | 0 <= i < |s'.hashes|
      ensures |s'.hashes| == |s'.readers| && FromPeerAt(w, fetch, s', i)
    {
      if i < |s.hashes| {
        assert FromPeerAt(w, fetch, s, i);
      }
    }
  }

  lemma {:induction false} AllFromPeer(w: Wire, fetch: Fetch, s: Replica, hs: seq<Hash>)
    requires FromPeer(w, fetch, s)
    ensures FromPeer(w, fetch, PullAll(w, fetch, s, hs))
  {
    if hs != [] {
      AllFromPeer(w, fetch, s, hs[..|hs| - 1]);
      PullStaysFromPeer(w, fetch, PullAll(w, fetch, s, hs[..|hs| - 1]), hs[|hs| - 1]);
    }
  }

  function PeerSegment(w: Wire, fetch: Fetch, h: Hash): seq<Entry> {
    if Accepted(w, fetch, h) then w.parse(fetch(h).value).entries else []
  }

  /** The peer's segments, in its order. */
  function PeerSegments(w: Wire, fetch: Fetch, hs: seq<Hash>): (r: seq<seq<Entry>>)
    ensures |r| == |hs| && forall i :: 0 <= i < |hs| ==> r[i] == PeerSegment(w, fetch, hs[i])
  {
    seq(|hs|, i requires 0 <= i < |hs| => PeerSegment(w, fetch, hs[i]))
  }

  lemma {:induction false} SameHashesSameRecords(w: Wire, fetch: Fetch, s: Replica, hs: seq<Hash>, e: Entry)
    requires FromPeer(w, fetch, s) && (forall h :: h in hs ==> Accepted(w, fetch, h)) && (forall h :: h in s.hashes <==> h in hs)
    ensures e in Flatten(s.readers) <==> e in Flatten(PeerSegments(w, fetch, hs))
  {
    var segs := PeerSegments(w, fetch, hs);
    FlattenMembers(s.readers, e);
    FlattenMembers(segs, e);
    if i :| 0 <= i < |s.readers| && e in s.readers[i] {
      assert FromPeerAt(w, fetch, s, i);
      assert s.hashes[i] in hs;
      var j :| 0 <= j < |hs| && hs[j] == s.hashes[i];
      assert e in segs[j];
    }
    if j :| 0 <= j < |segs| && e in segs[j] {
      assert hs[j] in s.hashes;
      var i :| 0 <= i < |s.hashes| && s.hashes[i] == hs[j];
      assert FromPeerAt(w, fetch, s, i);
      assert e in s.readers[i];
    }
  }

  /** After the cycle the replica reads, for every key, the peer's flushed record with the highest LSN. */
  lemma {:induction false} CycleReadsPrimary(w: Wire, digest: seq<Hash> -> Hash, t: Transport, s: Replica, hs: seq<Hash>, k: Bytes)
    requires Serves(w, digest, t, hs) && Collisionless(digest) && Distinct(s.hashes) && (forall h :: h in s.hashes ==> h in hs)
    requires FromPeer(w, t.fetch, s) && Mirrors(s.mem, Flatten(s.readers))
    requires var segs := PeerSegments(w, t.fetch, hs); AllSorted(segs) && ClocksFollowLsns(Flatten(segs))
    requires Decodable(k)
    ensures Get(AfterCycle(w, digest, t, s, hs), k) == ValueOf(Newest(Tables(PeerSegments(w, t.fetch, hs))), k)
  {
    var s' := AfterCycle(w, digest, t, s, hs);
    CycleUnites(w, digest, t, s, hs);
    AllFromPeer(w, t.fetch, s, Without(hs, SetOf(s.hashes)));
    PulledHashes(w, t.fetch, s, Without(hs, SetOf(s.hashes)));
    forall e
      ensures e in Flatten(s'.readers) <==> e in Flatten(PeerSegments(w, t.fetch, hs))
    {
      SameHashesSameRecords(w, t.fetch, s', hs, e);
    }
    ReadsPrimaryView(s', PeerSegments(w, t.fetch, hs), k);
  }
}
