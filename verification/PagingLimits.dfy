/** The scan budget is spent on segment records before memtable tombstones are applied: exactly which
    visible records a page then returns, forward and reverse, and when a chain of pages stops early. */
module PagingLimits {
  import opened ByteStrings
  import opened Entries
  import opened Merge
  import opened MergeReverse
  import opened Scan
  import opened Paging
  import opened PagesReverse

  /** A memtable record is newer than the segments' record of the key, or a recovered copy of it. */
  predicate MemoryCurrent(segs: seq<seq<Entry>>, mem: Table) {
    var n := Newest(Tables(segs));
    forall k :: k in n && k in mem ==> n[k].lsn < mem[k].lsn || n[k] == mem[k]
  }

  // ---- Filtering by key ----

  function Keep(v: seq<Entry>, ks: set<Bytes>): seq<Entry> {
    if v == [] then [] else Keep(v[..|v| - 1], ks) + if v[|v| - 1].key in ks then [v[|v| - 1]] else []
  }

  function Restrict(m: Table, ks: set<Bytes>): Table {
    map k | k in m && k in ks :: m[k]
  }

  lemma {:induction false} KeepTable(v: seq<Entry>, ks: set<Bytes>)
    requires Sorted(v)
    ensures Sorted(Keep(v, ks)) && AsTable(Keep(v, ks)) == Restrict(AsTable(v), ks)
  {
    if v != [] {
      var v', e := v[..|v| - 1], v[|v| - 1];
      KeepTable(v', ks);
      DropLast(v);
      RestrictSnoc(AsTable(v'), e, ks);
      if e.key in ks {
        AppendGreater(Keep(v', ks), e);
      } else {
        assert Keep(v, ks) == Keep(v', ks);
      }
    }
  }

  lemma RestrictSnoc(m: Table, e: Entry, ks: set<Bytes>)
    requires AllBelow(m, e.key)
    ensures Restrict(m[e.key := e], ks) == if e.key in ks then Restrict(m, ks)[e.key := e] else Restrict(m, ks)
    ensures AllBelow(Restrict(m, ks), e.key)
  {
  }

  lemma {:induction false} KeepConcat(a: seq<Entry>, b: seq<Entry>, ks: set<Bytes>)
    ensures Keep(a + b, ks) == Keep(a, ks) + Keep(b, ks)
  {
    if b == [] {
      assert a + b == a;
    } else {
      assert (a + b)[..|a + b| - 1] == a + b[..|b| - 1];
      KeepConcat(a, b[..|b| - 1], ks);
    }
  }

  lemma {:induction false} KeepMembers(v: seq<Entry>, ks: set<Bytes>)
    ensures |Keep(v, ks)| <= |v| && (forall e :: e in Keep(v, ks) <==> e in v && e.key in ks)
    ensures |Keep(v, ks)| == |v| ==> Keep(v, ks) == v
  {
    if v != [] {
      KeepMembers(v[..|v| - 1], ks);
      assert v == v[..|v| - 1] + [v[|v| - 1]];
    }
  }

  lemma {:induction false} KeepAll(v: seq<Entry>, ks: set<Bytes>)
    requires forall i :: 0 <= i < |v| ==> v[i].key in ks
    ensures Keep(v, ks) == v
  {
    if v != [] {
      KeepAll(v[..|v| - 1], ks);
      assert v == v[..|v| - 1] + [v[|v| - 1]];
    }
  }

  function First(s: seq<Entry>, n: nat): seq<Entry> {
    if |s| > n then s[..n] else s
  }

  // ---- The overlay of a budgeted scan ----

  /** Overlaying part of the live segment records with the memtable shows exactly the visible records
      whose keys are in that part or in the memtable. */
  lemma {:induction false} OverlayShows(segs: seq<seq<Entry>>, mem: Table, lo: Bytes, hi: Bytes, part: Table)
    requires Keyed(mem) && MemoryCurrent(segs, mem)
    requires forall k :: k in part ==> k in Live(Within(Newest(Tables(segs)), lo, hi)) && part[k] == Newest(Tables(segs))[k]
    ensures Live(Overlay(part, Within(mem, lo, hi))) == Restrict(Within(View(Tables(segs), mem), lo, hi), mem.Keys + part.Keys)
  {
    var n := Newest(Tables(segs));
    ViewWithin(Tables(segs), mem, lo, hi);
    PartShows(Live(Within(n, lo, hi)), Within(mem, lo, hi), part, mem.Keys + part.Keys);
  }

  lemma PartShows(live: Table, w: Table, part: Table, ks: set<Bytes>)
    requires forall k :: k in part ==> k in live && part[k] == live[k]
    requires forall k :: k in live || k in w ==> (k in ks <==> k in w || k in part)
    requires forall k :: k in live && k in w ==> live[k].lsn < w[k].lsn || live[k] == w[k]
    ensures Live(Overlay(part, w)) == Restrict(Live(Overlay(live, w)), ks)
  {
    var x, y := Overlay(part, w), Overlay(live, w);
    forall k | k in x
      ensures k in y && k in ks && x[k] == y[k]
    {
    }
    forall k | k in y && k in ks
      ensures k in x
    {
    }
  }

  /** Records of the live list are the segments' own. */
  lemma {:induction false} PartOfLive(segs: seq<seq<Entry>>, lo: Bytes, hi: Bytes, part: seq<Entry>, k: Bytes)
    requires (forall e :: e in part ==> e in Puts(SegmentList(segs, lo, hi))) && k in AsTable(part)
    ensures k in Live(Within(Newest(Tables(segs)), lo, hi)) && AsTable(part)[k] == Newest(Tables(segs))[k]
  {
    var s := SegmentList(segs, lo, hi);
    PutsMembers(s);
    AsTableOfSorted(s);
    AsTableMembers(part);
    assert AsTable(part)[k] in s;
  }

  lemma {:induction false} KeptList(v: seq<Entry>, ks: set<Bytes>, d: seq<Entry>)
    requires Sorted(v) && Sorted(d) && Live(AsTable(d)) == Restrict(AsTable(v), ks)
    ensures Puts(d) == Keep(v, ks)
  {
    PutsOfSorted(d);
    KeepTable(v, ks);
    SortedUnique(Puts(d), Keep(v, ks));
  }

  /** Lists whose live part is that overlay. */
  lemma {:induction false} ListShows(segs: seq<seq<Entry>>, mem: Table, lo: Bytes, hi: Bytes, part: seq<Entry>, d: seq<Entry>)
    requires Keyed(mem) && MemoryCurrent(segs, mem) && Sorted(d) && AsTable(d) == Overlay(AsTable(part), Within(mem, lo, hi))
    requires forall e :: e in part ==> e in Puts(SegmentList(segs, lo, hi))
    ensures Puts(d) == Keep(ViewList(segs, mem, lo, hi), mem.Keys + AsTable(part).Keys)
  {
    forall k | k in AsTable(part)
      ensures k in Live(Within(Newest(Tables(segs)), lo, hi)) && AsTable(part)[k] == Newest(Tables(segs))[k]
    {
      PartOfLive(segs, lo, hi, part, k);
    }
    OverlayShows(segs, mem, lo, hi, AsTable(part));
    KeptList(ViewList(segs, mem, lo, hi), mem.Keys + AsTable(part).Keys, d);
  }

  // ---- Forward pages ----

  /** The records of a page of size `n` over `[lo, hi)`. */
  ghost function PageOf(segs: seq<seq<Entry>>, mem: Table, lo: Bytes, hi: Bytes, n: nat): seq<Entry>
    requires Keyed(mem)
  {
    Limited(Combined(segs, mem, lo, hi, Some(n)), Some(n))
  }

  ghost predicate Truncated(segs: seq<seq<Entry>>, mem: Table, lo: Bytes, hi: Bytes, n: nat)
    requires Keyed(mem)
  {
    CutsShort(SegmentList(segs, lo, hi), Some(n)) || CutsShort(Combined(segs, mem, lo, hi, Some(n)), Some(n))
  }

  /** Keys a page can offer: the memtable's, and those of the segments' first `n` live records. */
  ghost function Offered(segs: seq<seq<Entry>>, mem: Table, lo: Bytes, hi: Bytes, n: nat): set<Bytes> {
    mem.Keys + AsTable(Limited(SegmentList(segs, lo, hi), Some(n))).Keys
  }

  /** A page is the first `n` visible records with offered keys. */
  lemma {:induction false} PageExact(segs: seq<seq<Entry>>, mem: Table, lo: Bytes, hi: Bytes, n: nat)
    requires Keyed(mem) && n > 0 && MemoryCurrent(segs, mem)
    ensures Puts(Combined(segs, mem, lo, hi, Some(n))) == Keep(ViewList(segs, mem, lo, hi), Offered(segs, mem, lo, hi, n))
    ensures PageOf(segs, mem, lo, hi, n) == First(Keep(ViewList(segs, mem, lo, hi), Offered(segs, mem, lo, hi, n)), n)
  {
    ListShows(segs, mem, lo, hi, Limited(SegmentList(segs, lo, hi), Some(n)), Combined(segs, mem, lo, hi, Some(n)));
  }

  lemma {:induction false} FirstOfKeep(v: seq<Entry>, ks: set<Bytes>, n: nat, i: nat)
    requires Sorted(v) && i < |v|
    ensures v[i] in First(Keep(v, ks), n) <==> v[i].key in ks && |Keep(v[..i], ks)| < n
  {
    KeepTable(v, ks);
    KeepMembers(v, ks);
    if v[i].key in ks {
      KeepAt(v, ks, i);
      FirstHas(Keep(v, ks), n, |Keep(v[..i], ks)|);
    }
  }

  lemma {:induction false} KeepAt(v: seq<Entry>, ks: set<Bytes>, i: nat)
    requires i < |v| && v[i].key in ks
    ensures |Keep(v[..i], ks)| < |Keep(v, ks)| && Keep(v, ks)[|Keep(v[..i], ks)|] == v[i]
  {
    var a, x, b := v[..i], [v[i]], v[i + 1..];
    assert v == (a + x) + b && x[..0] == [];
    KeepConcat(a + x, b, ks);
    KeepConcat(a, x, ks);
    assert Keep(x, ks) == x;
  }

  lemma {:induction false} FirstHas(s: seq<Entry>, n: nat, j: nat)
    requires Sorted(s) && j < |s|
    ensures s[j] in First(s, n) <==> j < n
  {
    if j < n {
      assert First(s, n)[j] == s[j];
    }
    assert forall x :: 0 <= x < |s| && s[x].key == s[j].key ==> x == j;
  }

  /** Visible record `i` is on the page if and only if its key is offered and fewer than `n` offered
      records come before it. */
  lemma {:induction false} PageReturnsIff(segs: seq<seq<Entry>>, mem: Table, lo: Bytes, hi: Bytes, n: nat, i: nat)
    requires Keyed(mem) && n > 0 && MemoryCurrent(segs, mem) && i < |ViewList(segs, mem, lo, hi)|
    ensures var v, ks := ViewList(segs, mem, lo, hi), Offered(segs, mem, lo, hi, n);
            v[i] in PageOf(segs, mem, lo, hi, n) <==> v[i].key in ks && |Keep(v[..i], ks)| < n
  {
    PageExact(segs, mem, lo, hi, n);
    FirstOfKeep(ViewList(segs, mem, lo, hi), Offered(segs, mem, lo, hi, n), n, i);
  }

  lemma {:induction false} KeptFirst(v: seq<Entry>, ks: set<Bytes>, n: nat)
    requires First(Keep(v, ks), n) == First(v, n)
    ensures forall i :: 0 <= i < |v| && i < n ==> v[i].key in ks
  {
    KeepMembers(v, ks);
    forall i | 0 <= i < |v| && i < n
      ensures v[i].key in ks
    {
      assert First(v, n)[i] == v[i];
      assert v[i] in Keep(v, ks);
    }
  }

  lemma {:induction false} FirstKept(v: seq<Entry>, ks: set<Bytes>, n: nat)
    requires forall i :: 0 <= i < |v| && i < n ==> v[i].key in ks
    ensures First(Keep(v, ks), n) == First(v, n)
  {
    var a := First(v, n);
    var b := v[|a|..];
    assert v == a + b;
    KeepConcat(a, b, ks);
    KeepAll(a, ks);
    if |v| <= n {
      assert b == [];
    }
  }

  lemma {:induction false} FirstAgreeIff(v: seq<Entry>, ks: set<Bytes>, n: nat)
    ensures First(Keep(v, ks), n) == First(v, n) <==> forall i :: 0 <= i < |v| && i < n ==> v[i].key in ks
  {
    if First(Keep(v, ks), n) == First(v, n) {
      KeptFirst(v, ks, n);
    } else if forall i :: 0 <= i < |v| && i < n ==> v[i].key in ks {
      FirstKept(v, ks, n);
    }
  }

  /** A page is the next `n` visible records if and only if all of those have offered keys. */
  lemma {:induction false} PageCompleteIff(segs: seq<seq<Entry>>, mem: Table, lo: Bytes, hi: Bytes, n: nat)
    requires Keyed(mem) && n > 0 && MemoryCurrent(segs, mem)
    ensures var v := ViewList(segs, mem, lo, hi);
            PageOf(segs, mem, lo, hi, n) == First(v, n) <==>
            forall i :: 0 <= i < |v| && i < n ==> v[i].key in Offered(segs, mem, lo, hi, n)
  {
    PageExact(segs, mem, lo, hi, n);
    FirstAgreeIff(ViewList(segs, mem, lo, hi), Offered(segs, mem, lo, hi, n), n);
  }

  lemma {:induction false} NotCutIsAll(s: seq<Entry>, n: nat)
    requires n > 0 && !CutsShort(s, Some(n))
    ensures Limited(s, Some(n)) == Puts(s)
  {
    if s != [] {
      assert s == s[..|s| - 1] + [s[|s| - 1]];
    }
  }

  /** Everything visible is offered unless the segment scan was cut. */
  lemma {:induction false} UncutOffersAll(segs: seq<seq<Entry>>, mem: Table, lo: Bytes, hi: Bytes, n: nat)
    requires Keyed(mem) && n > 0 && MemoryCurrent(segs, mem) && !CutsShort(SegmentList(segs, lo, hi), Some(n))
    ensures Keep(ViewList(segs, mem, lo, hi), Offered(segs, mem, lo, hi, n)) == ViewList(segs, mem, lo, hi)
  {
    var s, v := SegmentList(segs, lo, hi), ViewList(segs, mem, lo, hi);
    NotCutIsAll(s, n);
    PutsOfSorted(s);
    AsTableOfSorted(v);
    ViewWithin(Tables(segs), mem, lo, hi);
    forall i | 0 <= i < |v|
      ensures v[i].key in Offered(segs, mem, lo, hi, n)
    {
      assert v[i].key in AsTable(v);
    }
    KeepAll(v, Offered(segs, mem, lo, hi, n));
  }

  /** A chain ends at a page without a cursor: one that was not truncated, or is empty. It ends with visible
      records left over if and only if there are some and none of them has an offered key. */
  lemma {:induction false} ChainStopsEarlyIff(segs: seq<seq<Entry>>, mem: Table, lo: Bytes, hi: Bytes, n: nat)
    requires Keyed(mem) && n > 0 && MemoryCurrent(segs, mem)
    ensures var v, page := ViewList(segs, mem, lo, hi), PageOf(segs, mem, lo, hi, n);
            (!Truncated(segs, mem, lo, hi, n) || page == []) && page != v <==>
            v != [] && Keep(v, Offered(segs, mem, lo, hi, n)) == []
  {
    var v := ViewList(segs, mem, lo, hi);
    PageExact(segs, mem, lo, hi, n);
    if !Truncated(segs, mem, lo, hi, n) {
      UncutOffersAll(segs, mem, lo, hi, n);
      NotCutIsAll(Combined(segs, mem, lo, hi, Some(n)), n);
    }
  }

  // ---- Reverse pages ----

  /** Keys a reverse page can offer: the memtable's, and those of the segments' last `n` live records. */
  ghost function OfferedBack(segs: seq<seq<Entry>>, mem: Table, lo: Bytes, hi: Bytes, n: nat): set<Bytes> {
    mem.Keys + AsTable(Tail(segs, lo, hi, n)).Keys
  }

  /** A reverse page is the last `n` visible records with offered keys, downwards. */
  lemma {:induction false} RevPageExact(segs: seq<seq<Entry>>, mem: Table, lo: Bytes, hi: Bytes, n: nat)
    requires Keyed(mem) && n > 0 && MemoryCurrent(segs, mem)
    ensures var k := Keep(ViewList(segs, mem, lo, hi), OfferedBack(segs, mem, lo, hi, n));
            Descending(CombinedBack(segs, mem, lo, hi, n), n) == Rev(k)[..Smaller(n, |k|)]
  {
    RevMirrors(Puts(CombinedBack(segs, mem, lo, hi, n)));
    ListShows(segs, mem, lo, hi, Tail(segs, lo, hi, n), CombinedBack(segs, mem, lo, hi, n));
  }

  /** A reverse chain ends at a page that is not full. It ends with visible records left over if and only
      if fewer than `n` of them have offered keys and some do not. */
  lemma {:induction false} RevChainStopsEarlyIff(segs: seq<seq<Entry>>, mem: Table, lo: Bytes, hi: Bytes, n: nat)
    requires Keyed(mem) && n > 0 && MemoryCurrent(segs, mem)
    ensures var v, page := ViewList(segs, mem, lo, hi), Descending(CombinedBack(segs, mem, lo, hi, n), n);
            var k := Keep(v, OfferedBack(segs, mem, lo, hi, n));
            |page| < n && page != Rev(v) <==> |k| < n && k != v
  {
    var v := ViewList(segs, mem, lo, hi);
    var k := Keep(v, OfferedBack(segs, mem, lo, hi, n));
    RevPageExact(segs, mem, lo, hi, n);
    RevMirrors(k);
    RevMirrors(v);
    KeepMembers(v, OfferedBack(segs, mem, lo, hi, n));
    if |k| < n {
      assert Rev(k)[..|k|] == Rev(k);
      if Rev(k) == Rev(v) {
        RevRev(k);
        RevRev(v);
      }
    }
  }

  // ---- Pages that lose records ----

  lemma {:induction false} TwoRecords(x: Entry, y: Entry)
    requires Less(x.key, y.key)
    ensures Sorted([x, y]) && AsTable([x, y]) == map[x.key := x, y.key := y]
    ensures Puts([x, y]) == (if x.op.Put? then [x] else []) + (if y.op.Put? then [y] else [])
  {
    assert [x, y][..1] == [x] && [x][..0] == [];
    assert AsTable([x]) == map[x.key := x];
    assert Puts([x]) == if x.op.Put? then [x] else [];
  }

  lemma {:induction false} OneSegment(s: seq<Entry>)
    requires Sorted(s)
    ensures Newest(Tables([s])) == AsTable(s)
  {
    var none: seq<seq<Entry>> := [];
    assert [s] == none + [s];
    TablesSnoc(none, s);
    NewestSnoc(Tables(none), AsTable(s));
    assert Tables(none) == [];
    assert Overlay(map[], AsTable(s)) == AsTable(s);
  }

  /** Segments hold puts `a < c`, the memtable deletes `a` and puts `z` behind them. The first page of
      size one is `z`, and `c` is never returned. */
  lemma {:induction false} DeletedKeyHidesNext(a: Entry, c: Entry, gone: Entry, z: Entry, lo: Bytes, hi: Bytes)
    requires a.op.Put? && c.op.Put? && gone.op.Delete? && z.op.Put? && gone.key == a.key
    requires Less(a.key, c.key) && Less(c.key, z.key) && a.lsn < gone.lsn && AtMost(lo, a.key) && Less(z.key, hi)
    ensures var segs, mem := [[a, c]], map[a.key := gone, z.key := z];
            Keyed(mem) && c in ViewList(segs, mem, lo, hi) && PageOf(segs, mem, lo, hi, 1) == [z]
  {
    var segs, mem := [[a, c]], map[a.key := gone, z.key := z];
    StillVisible(a, c, mem, lo, hi);
    BudgetSpent(a, c, lo, hi);
    MemoryWins(a, gone, z, lo, hi);
    OnlyLast(segs, mem, lo, hi, gone, z);
  }

  /** Without `z` the first page is empty and carries no cursor, although the scan was cut: the chain ends
      before it returns anything, and `c` is visible. */
  lemma {:induction false} DeletedKeyEndsChain(a: Entry, c: Entry, gone: Entry, lo: Bytes, hi: Bytes)
    requires a.op.Put? && c.op.Put? && gone.op.Delete? && gone.key == a.key
    requires Less(a.key, c.key) && a.lsn < gone.lsn && AtMost(lo, a.key) && Less(c.key, hi)
    ensures var segs, mem := [[a, c]], map[a.key := gone];
            && Keyed(mem) && c in ViewList(segs, mem, lo, hi)
            && PageOf(segs, mem, lo, hi, 1) == [] && Truncated(segs, mem, lo, hi, 1)
  {
    var segs, mem := [[a, c]], map[a.key := gone];
    StillVisible(a, c, mem, lo, hi);
    BudgetSpent(a, c, lo, hi);
    TombstoneWins(a, gone, lo, hi);
    NothingOffered(segs, mem, lo, hi, gone);
  }

  lemma TombstoneWins(a: Entry, gone: Entry, lo: Bytes, hi: Bytes)
    requires gone.key == a.key && a.lsn < gone.lsn && AtMost(lo, a.key) && Less(a.key, hi)
    ensures Within(map[a.key := gone], lo, hi) == map[a.key := gone] && Overlay(map[a.key := a], map[a.key := gone]) == map[a.key := gone]
  {
  }

  lemma {:induction false} NothingOffered(segs: seq<seq<Entry>>, mem: Table, lo: Bytes, hi: Bytes, gone: Entry)
    requires Keyed(mem) && gone.op.Delete? && mem == map[gone.key := gone]
    requires Overlay(AsTable(Limited(SegmentList(segs, lo, hi), Some(1))), Within(mem, lo, hi)) == mem
    ensures PageOf(segs, mem, lo, hi, 1) == []
  {
    OneTombstone(gone);
    SortedUnique(Combined(segs, mem, lo, hi, Some(1)), [gone]);
  }

  lemma {:induction false} OneTombstone(gone: Entry)
    requires gone.op.Delete?
    ensures Sorted([gone]) && AsTable([gone]) == map[gone.key := gone] && Puts([gone]) == []
  {
    assert [gone][..0] == [];
  }

  lemma MemoryWins(a: Entry, gone: Entry, z: Entry, lo: Bytes, hi: Bytes)
    requires gone.key == a.key && a.lsn < gone.lsn && Less(a.key, z.key) && AtMost(lo, a.key) && Less(z.key, hi)
    ensures var mem := map[a.key := gone, z.key := z];
            Within(mem, lo, hi) == mem && Overlay(map[a.key := a], mem) == mem
  {
  }

  lemma {:induction false} OnlyLast(segs: seq<seq<Entry>>, mem: Table, lo: Bytes, hi: Bytes, gone: Entry, z: Entry)
    requires Keyed(mem) && gone.op.Delete? && z.op.Put? && Less(gone.key, z.key) && mem == map[gone.key := gone, z.key := z]
    requires Overlay(AsTable(Limited(SegmentList(segs, lo, hi), Some(1))), Within(mem, lo, hi)) == mem
    ensures PageOf(segs, mem, lo, hi, 1) == [z]
  {
    TwoRecords(gone, z);
    SortedUnique(Combined(segs, mem, lo, hi, Some(1)), [gone, z]);
    assert Puts([gone, z]) == [z];
  }

  /** The segments' budget of one goes to `a`, and the scan is cut. */
  lemma {:induction false} BudgetSpent(a: Entry, c: Entry, lo: Bytes, hi: Bytes)
    requires a.op.Put? && c.op.Put? && Less(a.key, c.key) && AtMost(lo, a.key) && Less(c.key, hi)
    ensures AsTable(Limited(SegmentList([[a, c]], lo, hi), Some(1))) == map[a.key := a]
    ensures CutsShort(SegmentList([[a, c]], lo, hi), Some(1))
  {
    TwoRecords(a, c);
    OneSegment([a, c]);
    assert Within(AsTable([a, c]), lo, hi) == AsTable([a, c]);
    SortedUnique(SegmentList([[a, c]], lo, hi), [a, c]);
    assert Puts([a, c]) == [a, c] && [a, c][..1] == [a] && [a][..0] == [];
  }

  lemma {:induction false} StillVisible(a: Entry, c: Entry, mem: Table, lo: Bytes, hi: Bytes)
    requires Keyed(mem) && c.op.Put? && Less(a.key, c.key) && AtMost(lo, a.key) && Less(c.key, hi) && c.key !in mem
    ensures c in ViewList([[a, c]], mem, lo, hi)
  {
    TwoRecords(a, c);
    OneSegment([a, c]);
    var v := ViewList([[a, c]], mem, lo, hi);
    assert c.key in Newest(Tables([[a, c]]));
    assert c.key in AsTable(v) && AsTable(v)[c.key] == c;
    AsTableMembers(v);
  }
}
