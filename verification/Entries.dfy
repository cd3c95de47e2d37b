/** Records, tables (key to newest record) and the two ways of stacking tables: by position
    (`Stack`, what point reads do) and by sequence number (`Newest`, what scans do). */
module Entries {
  import opened ByteStrings

  datatype Op = Put(value: Bytes) | Delete
  datatype Entry = Entry(key: Bytes, op: Op, lsn: nat, timestamp: int, ttl: nat)

  type Table = map<Bytes, Entry>

  predicate Keyed(m: Table) {
    forall k :: k in m ==> m[k].key == k
  }

  predicate Sorted(s: seq<Entry>) {
    forall i, j :: 0 <= i < j < |s| ==> Less(s[i].key, s[j].key)
  }

  /** Table after inserting the records of `s` in order: the last record of a key wins. */
  function AsTable(s: seq<Entry>): (m: Table)
    ensures Keyed(m)
  {
    if s == [] then map[] else AsTable(s[..|s| - 1])[s[|s| - 1].key := s[|s| - 1]]
  }

  lemma {:induction false} AsTableConcat(a: seq<Entry>, b: seq<Entry>)
    ensures AsTable(a + b) == AsTable(a) + AsTable(b)
  {
    if b == [] {
      assert a + b == a;
    } else {
      assert (a + b)[..|a + b| - 1] == a + b[..|b| - 1];
      AsTableConcat(a, b[..|b| - 1]);
    }
  }

  lemma {:induction false} AsTableMembers(s: seq<Entry>)
    ensures forall k :: k in AsTable(s) ==> AsTable(s)[k] in s
    ensures forall i :: 0 <= i < |s| ==> s[i].key in AsTable(s)
  {
    if s != [] {
      AsTableMembers(s[..|s| - 1]);
      assert s == s[..|s| - 1] + [s[|s| - 1]];
    }
  }

  lemma {:induction false} AsTableOfSorted(s: seq<Entry>)
    requires Sorted(s)
    ensures forall i :: 0 <= i < |s| ==> s[i].key in AsTable(s) && AsTable(s)[s[i].key] == s[i]
  {
    if s != [] {
      AsTableOfSorted(s[..|s| - 1]);
    }
  }

  predicate AllBelow(m: Table, x: Bytes) {
    forall k :: k in m ==> Less(k, x)
  }

  lemma {:induction false} PrefixBelow(s: seq<Entry>, x: Bytes)
    requires forall i :: 0 <= i < |s| ==> Less(s[i].key, x)
    ensures AllBelow(AsTable(s), x)
  {
    if s != [] {
      PrefixBelow(s[..|s| - 1], x);
    }
  }

  /** Taking off the last record of a sorted list takes its greatest key off the table. */
  lemma {:induction false} DropLast(s: seq<Entry>)
    requires s != [] && Sorted(s)
    ensures AllBelow(AsTable(s[..|s| - 1]), s[|s| - 1].key)
    ensures AsTable(s[..|s| - 1]) == AsTable(s) - {s[|s| - 1].key}
  {
    PrefixBelow(s[..|s| - 1], s[|s| - 1].key);
  }

  /** A sorted list is determined by its table. */
  lemma {:induction false} SortedUnique(a: seq<Entry>, b: seq<Entry>)
    requires Sorted(a) && Sorted(b) && AsTable(a) == AsTable(b)
    ensures a == b
  {
    if a == [] || b == [] {
      AsTableMembers(a);
      AsTableMembers(b);
    } else {
      var x, y := a[|a| - 1], b[|b| - 1];
      DropLast(a);
      DropLast(b);
      assert x.key == y.key by {
        assert x.key in AsTable(b) && y.key in AsTable(a);
      }
      SortedUnique(a[..|a| - 1], b[..|b| - 1]);
      assert a == a[..|a| - 1] + [x] && b == b[..|b| - 1] + [y];
    }
  }

  // ---- Views of tables ----

  function Within(m: Table, lo: Bytes, hi: Bytes): Table {
    map k | k in m && AtMost(lo, k) && Less(k, hi) :: m[k]
  }

  function Below(m: Table, hi: Bytes): Table {
    map k | k in m && Less(k, hi) :: m[k]
  }

  /** Tombstones removed. */
  function Live(m: Table): Table {
    map k | k in m && m[k].op.Put? :: m[k]
  }

  function Puts(s: seq<Entry>): (r: seq<Entry>) {
    if s == [] then [] else Puts(s[..|s| - 1]) + (if s[|s| - 1].op.Put? then [s[|s| - 1]] else [])
  }

  lemma {:induction false} PutsMembers(s: seq<Entry>)
    ensures |Puts(s)| <= |s|
    ensures forall e :: e in Puts(s) <==> e in s && e.op.Put?
  {
    if s != [] {
      PutsMembers(s[..|s| - 1]);
      assert s == s[..|s| - 1] + [s[|s| - 1]];
    }
  }

  lemma LiveSnoc(m: Table, e: Entry)
    requires AllBelow(m, e.key)
    ensures Live(m[e.key := e]) == if e.op.Put? then Live(m)[e.key := e] else Live(m)
    ensures AllBelow(Live(m), e.key)
  {
  }

  lemma {:induction false} PutsOfSorted(s: seq<Entry>)
    requires Sorted(s)
    ensures Sorted(Puts(s)) && AsTable(Puts(s)) == Live(AsTable(s))
  {
    if s != [] {
      var s', e := s[..|s| - 1], s[|s| - 1];
      PutsOfSorted(s');
      DropLast(s);
      LiveSnoc(AsTable(s'), e);
      if e.op.Put? {
        AppendGreater(Puts(s'), e);
      } else {
        assert Puts(s) == Puts(s');
      }
    }
  }

  lemma {:induction false} AppendGreater(s: seq<Entry>, e: Entry)
    requires Sorted(s) && AllBelow(AsTable(s), e.key)
    ensures Sorted(s + [e]) && AsTable(s + [e]) == AsTable(s)[e.key := e]
  {
    AsTableMembers(s);
    assert (s + [e])[..|s|] == s;
  }

  lemma {:induction false} PutsConcat(a: seq<Entry>, b: seq<Entry>)
    ensures Puts(a + b) == Puts(a) + Puts(b)
  {
    if b == [] {
      assert a + b == a;
    } else {
      assert (a + b)[..|a + b| - 1] == a + b[..|b| - 1];
      PutsConcat(a, b[..|b| - 1]);
    }
  }

  /** The sorted list of a table's records: what an ordered map iterates over. */
  ghost function Listing(m: Table): (s: seq<Entry>)
    requires Keyed(m)
    ensures Sorted(s) && AsTable(s) == m
  {
    ListingExists(m);
    var s :| Sorted(s) && AsTable(s) == m;
    s
  }

  lemma {:induction false} ListingExists(m: Table)
    requires Keyed(m)
    ensures exists s :: Sorted(s) && AsTable(s) == m
    decreases m.Keys
  {
    if m == map[] {
      assert Sorted([]) && AsTable([]) == m;
    } else {
      var k := GreatestKey(m.Keys);
      assert (m - {k}).Keys == m.Keys - {k};
      ListingExists(m - {k});
      var s :| Sorted(s) && AsTable(s) == m - {k};
      ListingOrder(m, k, s);
    }
  }

  lemma {:induction false} ListingOrder(m: Table, k: Bytes, s: seq<Entry>)
    requires Keyed(m) && k in m && (forall j :: j in m.Keys ==> AtMost(j, k))
    requires Sorted(s) && AsTable(s) == m - {k}
    ensures Sorted(s + [m[k]]) && AsTable(s + [m[k]]) == m
  {
    forall j | j in AsTable(s)
      ensures Less(j, k)
    {
      LessIsLexicographic(j, k);
    }
    AppendGreater(s, m[k]);
  }

  lemma {:induction false} ListingOfSorted(s: seq<Entry>)
    requires Sorted(s)
    ensures Listing(AsTable(s)) == s
  {
    SortedUnique(s, Listing(AsTable(s)));
  }

  ghost function GreatestKey(ks: set<Bytes>): (k: Bytes)
    requires ks != {}
    ensures k in ks && forall j :: j in ks ==> AtMost(j, k)
  {
    var x :| x in ks;
    if ks == {x} then x
    else
      var y := GreatestKey(ks - {x});
      assert forall j :: j in ks ==> j == x || j in ks - {x};
      if Less(y, x) then x else y
  }

  /** A sorted list whose table is another's part below `x` is a prefix of it. */
  lemma {:induction false} BelowIsPrefix(m: seq<Entry>, full: seq<Entry>, x: Bytes)
    requires Sorted(m) && Sorted(full) && AsTable(m) == Below(AsTable(full), x)
    ensures m <= full
  {
    if full == [] {
      AsTableMembers(m);
    } else {
      var e := full[|full| - 1];
      AsTableOfSorted(full);
      if Less(e.key, x) {
        AsTableMembers(full);
        assert Below(AsTable(full), x) == AsTable(full);
        SortedUnique(m, full);
      } else {
        DropLast(full);
        BelowIsPrefix(m, full[..|full| - 1], x);
      }
    }
  }

  /** What a table says under `k`. */
  function ValueOf(m: Table, k: Bytes): Option<Bytes> {
    if k in m && m[k].op.Put? then Some(m[k].op.value) else None
  }

  // ---- Concatenated segments ----

  function Flatten(segs: seq<seq<Entry>>): seq<Entry> {
    if segs == [] then [] else Flatten(segs[..|segs| - 1]) + segs[|segs| - 1]
  }

  lemma {:induction false} FlattenSnoc(segs: seq<seq<Entry>>, es: seq<Entry>)
    ensures Flatten(segs + [es]) == Flatten(segs) + es
  {
    assert (segs + [es])[..|segs|] == segs;
  }

  lemma {:induction false} FlattenMembers(segs: seq<seq<Entry>>, e: Entry)
    ensures e in Flatten(segs) <==> exists i :: 0 <= i < |segs| && e in segs[i]
  {
    if segs != [] {
      var r := segs[..|segs| - 1];
      FlattenMembers(r, e);
      if e in Flatten(r) {
        var i :| 0 <= i < |r| && e in r[i];
        assert e in segs[i];
      }
      if i :| 0 <= i < |segs| && e in segs[i] {
        if i < |r| {
          assert e in r[i];
        }
      }
    }
  }

  // ---- Stacking tables ----

  /** Later tables hide earlier ones. */
  function Stack(ts: seq<Table>): Table {
    if ts == [] then map[] else Stack(ts[..|ts| - 1]) + ts[|ts| - 1]
  }

  /** Higher sequence number wins; the first argument on a tie. */
  function Overlay(a: Table, b: Table): Table {
    map k | k in a.Keys + b.Keys ::
      if k !in b then a[k] else if k !in a then b[k] else if b[k].lsn > a[k].lsn then b[k] else a[k]
  }

  function Newest(ts: seq<Table>): Table {
    if ts == [] then map[] else Overlay(Newest(ts[..|ts| - 1]), ts[|ts| - 1])
  }

  predicate Holds(ts: seq<Table>, i: int, k: Bytes) {
    0 <= i < |ts| && k in ts[i]
  }

  /** `e` is one of the records of `k` with the highest LSN. */
  ghost predicate NewestAt(e: Entry, ts: seq<Table>, k: Bytes) {
    && (exists i :: Holds(ts, i, k) && ts[i][k] == e)
    && (forall i :: Holds(ts, i, k) ==> ts[i][k].lsn <= e.lsn)
  }

  ghost predicate IsNewest(m: Table, ts: seq<Table>) {
    && (forall k :: k in m ==> NewestAt(m[k], ts, k))
    && (forall i, k :: Holds(ts, i, k) ==> k in m)
  }

  predicate Agree(a: Table, b: Table) {
    forall k :: k in a && k in b && a[k].lsn == b[k].lsn ==> a[k] == b[k]
  }

  /** Copies of one record are equal: a key and an LSN determine the record. */
  predicate Consistent(ts: seq<Table>) {
    forall i, j :: 0 <= i < |ts| && 0 <= j < |ts| ==> Agree(ts[i], ts[j])
  }

  lemma {:induction false} OverlayIsNewest(m: Table, ts: seq<Table>)
    requires ts != [] && IsNewest(m, ts[..|ts| - 1])
    ensures IsNewest(Overlay(m, ts[|ts| - 1]), ts)
  {
    var ts', t := ts[..|ts| - 1], ts[|ts| - 1];
    var r := Overlay(m, t);
    forall i, k | Holds(ts, i, k)
      ensures k in r && ts[i][k].lsn <= r[k].lsn
    {
      if i < |ts'| {
        assert Holds(ts', i, k);
      }
    }
    forall k | k in r
      ensures NewestAt(r[k], ts, k)
    {
      if k in t && r[k] == t[k] {
        assert Holds(ts, |ts| - 1, k);
      } else {
        var i :| Holds(ts', i, k) && ts'[i][k] == m[k];
        assert Holds(ts, i, k);
      }
    }
  }

  lemma {:induction false} NewestIsNewest(ts: seq<Table>)
    ensures IsNewest(Newest(ts), ts)
  {
    if ts != [] {
      NewestIsNewest(ts[..|ts| - 1]);
      OverlayIsNewest(Newest(ts[..|ts| - 1]), ts);
    }
  }

  lemma {:induction false} NewestAgree(m: Table, n: Table, ts: seq<Table>, k: Bytes)
    requires IsNewest(m, ts) && IsNewest(n, ts) && Consistent(ts) && k in m
    ensures k in n && m[k] == n[k]
  {
    var i :| Holds(ts, i, k) && ts[i][k] == m[k];
    var j :| Holds(ts, j, k) && ts[j][k] == n[k];
    assert Agree(ts[i], ts[j]);
  }

  lemma {:induction false} NewestUnique(m: Table, ts: seq<Table>)
    requires IsNewest(m, ts) && Consistent(ts)
    ensures m == Newest(ts)
  {
    var n := Newest(ts);
    NewestIsNewest(ts);
    forall k | k in m
      ensures k in n && m[k] == n[k]
    {
      NewestAgree(m, n, ts, k);
    }
    forall k | k in n
      ensures k in m
    {
      NewestAgree(n, m, ts, k);
    }
  }
}
