/** Engine scans: deduplication with a budget, range and prefix reads, and cursor-based pages. */
module Paging {
  import opened ByteStrings
  import opened Collections
  import opened Entries
  import opened Merge
  import opened MergeReverse
  import opened Scan

  // ---- dedup_filter_scan ----

  predicate NewGroup(m: seq<Entry>, e: Entry) {
    m == [] || e.key != m[|m| - 1].key
  }

  lemma {:induction false} DedupNext(p: seq<Entry>, i: nat)
    requires i < |p|
    ensures Dedup(p[..i + 1]) == Bump(Dedup(p[..i]), p[i])
  {
    assert p[..i + 1][..i] == p[..i];
  }

  /** Folding in a record changes at most the last one, and a record of a new group none. */
  lemma {:induction false} BumpKeepsFront(a: seq<Entry>, m: seq<Entry>, e: Entry)
    requires a < m || (a == m && NewGroup(m, e))
    ensures a < Bump(m, e)
  {
  }

  /** The successive results of deduplicating `p`. */
  predicate Trace(p: seq<Entry>, ds: seq<seq<Entry>>) {
    |ds| == |p| + 1 && forall k :: 0 <= k < |p| ==> ds[k + 1] == Bump(ds[k], p[k])
  }

  lemma {:induction false} TraceGrows(p: seq<Entry>, ds: seq<seq<Entry>>, i: nat, j: nat)
    requires Trace(p, ds) && i < j <= |p| && NewGroup(ds[i], p[i])
    ensures ds[i] < ds[j]
  {
    if j > i + 1 {
      TraceGrows(p, ds, i, j - 1);
    }
    assert ds[j - 1 + 1] == Bump(ds[j - 1], p[j - 1]);
    BumpKeepsFront(ds[i], ds[j - 1], p[j - 1]);
  }

  ghost function Traced(p: seq<Entry>): (ds: seq<seq<Entry>>)
    ensures Trace(p, ds) && forall k :: 0 <= k <= |p| ==> ds[k] == Dedup(p[..k])
  {
    var ds := seq(|p| + 1, k requires 0 <= k <= |p| => Dedup(p[..k]));
    assert Trace(p, ds) by {
      forall k | 0 <= k < |p|
        ensures ds[k + 1] == Bump(ds[k], p[k])
      {
        DedupNext(p, k);
      }
    }
    ds
  }

  lemma {:induction false} DedupGrows(p: seq<Entry>, i: nat)
    requires i < |p| && NewGroup(Dedup(p[..i]), p[i])
    ensures Dedup(p[..i]) < Dedup(p)
  {
    var ds := Traced(p);
    TraceGrows(p, ds, i, |p|);
    assert p[..|p|] == p;
  }

  /** `m` deduplicates the first `i` records, and the group of its last key is complete. */
  ghost predicate AtBoundary(merged: seq<Entry>, i: nat, m: seq<Entry>) {
    && i <= |merged| && m == Dedup(merged[..i])
    && (i < |merged| && m != [] ==> merged[i].key != m[|m| - 1].key)
  }

  /** `best` stands for the records of its group from `start` to `i`. */
  ghost predicate InGroup(merged: seq<Entry>, m: seq<Entry>, best: Entry, i: nat) {
    i <= |merged| && Dedup(merged[..i]) == m + [best]
  }

  lemma {:induction false} GroupStep(merged: seq<Entry>, m: seq<Entry>, best: Entry, i: nat)
    requires i < |merged| && InGroup(merged, m, best, i) && merged[i].key == best.key
    ensures InGroup(merged, m, if merged[i].lsn > best.lsn then merged[i] else best, i + 1)
  {
    DedupNext(merged, i);
    BumpLast(m, best, merged[i]);
  }

  lemma {:induction false} GroupStart(merged: seq<Entry>, m: seq<Entry>, start: nat)
    requires start < |merged| && AtBoundary(merged, start, m)
    ensures InGroup(merged, m, merged[start], start + 1)
  {
    DedupNext(merged, start);
  }

  /** The inner loop: one group of equal keys, highest LSN kept. */
  method BestOfGroup(merged: seq<Entry>, start: nat, ghost m: seq<Entry>) returns (best: Entry, i: nat)
    requires start < |merged| && AtBoundary(merged, start, m)
    ensures start < i && AtBoundary(merged, i, m + [best])
  {
    i, best := start + 1, merged[start];
    GroupStart(merged, m, start);
    while i < |merged| && merged[i].key == merged[start].key
      invariant start < i <= |merged| && best.key == merged[start].key
      invariant InGroup(merged, m, best, i)
    {
      GroupStep(merged, m, best, i);
      if merged[i].lsn > best.lsn {
        best := merged[i];
      }
      i := i + 1;
    }
  }

  lemma {:induction false} BumpLast(m: seq<Entry>, best: Entry, e: Entry)
    requires e.key == best.key
    ensures Bump(m + [best], e) == m + [if e.lsn > best.lsn then e else best]
  {
    assert (m + [best])[..|m|] == m;
  }

  /** Groups equal keys, keeps the highest LSN of each, drops tombstones, and stops at the budget. */
  method DedupFilterScan(merged: seq<Entry>, maxItems: Option<nat>, segTruncated: bool)
    returns (items: seq<Entry>, truncated: bool)
    ensures items == Limited(Dedup(merged), maxItems)
    ensures truncated <==> segTruncated || CutsShort(Dedup(merged), maxItems)
  {
    items, truncated := [], segTruncated;
    var i := 0;
    ghost var m: seq<Entry> := [];
    while i < |merged|
      invariant i <= |merged| && AtBoundary(merged, i, m) && items == Puts(m)
      invariant maxItems.Some? ==> |items| < Positive(maxItems.value)
      decreases |merged| - i
    {
      var best;
      best, i := BestOfGroup(merged, i, m);
      PutsSnoc(m, best);
      m := m + [best];
      if best.op.Put? {
        items := items + [best];
        if maxItems.Some? && |items| >= maxItems.value {
          DedupStop(merged, i, m, maxItems.value);
          truncated := truncated || i < |merged|;
          return;
        }
      }
    }
    assert merged[..i] == merged;
    LimitedAll(m, maxItems);
  }

  lemma PutsSnoc(m: seq<Entry>, e: Entry)
    ensures Puts(m + [e]) == if e.op.Put? then Puts(m) + [e] else Puts(m)
  {
    assert (m + [e])[..|m|] == m;
  }

  lemma {:induction false} DedupStop(merged: seq<Entry>, i: nat, m: seq<Entry>, n: nat)
    requires AtBoundary(merged, i, m) && m != [] && m[|m| - 1].op.Put? && |Puts(m)| == Positive(n)
    ensures Puts(m) == Limited(Dedup(merged), Some(n))
    ensures i < |merged| <==> CutsShort(Dedup(merged), Some(n))
  {
    assert merged[..|merged|] == merged;
    if i < |merged| {
      DedupGrows(merged, i);
      BudgetedPrefix(m, Dedup(merged), n);
    } else {
      assert merged[..i] == merged;
    }
  }

  lemma LimitedAll(m: seq<Entry>, maxItems: Option<nat>)
    requires maxItems.Some? ==> |Puts(m)| < Positive(maxItems.value)
    ensures Puts(m) == Limited(m, maxItems) && !CutsShort(m, maxItems)
  {
    if m != [] {
      assert |Puts(m[..|m| - 1])| <= |Puts(m)|;
    }
  }

  // ---- range_core and prefix_core ----

  /** The merged list the engine deduplicates: the budgeted segment run and the whole memtable run. */
  ghost function Combined(segs: seq<seq<Entry>>, mem: Table, lo: Bytes, hi: Bytes, maxItems: Option<nat>): (s: seq<Entry>)
    requires Keyed(mem)
    ensures Sorted(s)
    ensures AsTable(s) == Overlay(AsTable(Limited(SegmentList(segs, lo, hi), maxItems)), Within(mem, lo, hi))
  {
    Listing(Overlay(AsTable(Limited(SegmentList(segs, lo, hi), maxItems)), Within(mem, lo, hi)))
  }

  lemma {:induction false} SortedPrefixes(s: seq<Entry>, maxItems: Option<nat>)
    requires Sorted(s)
    ensures Sorted(Limited(s, maxItems))
  {
    PutsOfSorted(s);
  }

  /** Scans segments (with the budget) and the memtable, merges, deduplicates. The memtable run
      is what an ordered map lists for the range. */
  method RangeCore(segs: seq<seq<Entry>>, mem: Table, lo: Bytes, hi: Bytes, maxItems: Option<nat>)
    returns (items: seq<Entry>, truncated: bool)
    requires Readers(segs) && Keyed(mem)
    ensures items == Limited(Combined(segs, mem, lo, hi, maxItems), maxItems)
    ensures truncated == (CutsShort(SegmentList(segs, lo, hi), maxItems)
                          || CutsShort(Combined(segs, mem, lo, hi, maxItems), maxItems))
  {
    var segResults, segTruncated := RangeScanBudgeted(segs, lo, hi, maxItems);
    var memResults := SortedEntries(Within(mem, lo, hi));
    SortedPrefixes(SegmentList(segs, lo, hi), maxItems);
    var merged := MergeSortedScans(segResults, memResults);
    SortedUnique(Dedup(merged), Combined(segs, mem, lo, hi, maxItems));
    items, truncated := DedupFilterScan(merged, maxItems, segTruncated);
  }

  /** In-order iteration over an ordered map. */
  method SortedEntries(m: Table) returns (s: seq<Entry>)
    requires Keyed(m)
    ensures s == Listing(m)
  {
    s := [];
    var rest := m;
    while rest != map[]
      invariant Split(m, rest, s)
      decreases rest.Keys
    {
      ghost var _ := GreatestKey(rest.Keys);
      var k :| k in rest.Keys && forall j :: j in rest.Keys ==> AtMost(j, k);
      MoveGreatest(m, rest, s, k);
      s := [rest[k]] + s;
      assert (rest - {k}).Keys == rest.Keys - {k};
      rest := rest - {k};
    }
    SplitDone(m, rest, s);
  }

  lemma SplitDone(m: Table, rest: Table, s: seq<Entry>)
    requires Keyed(m) && rest == map[] && Split(m, rest, s)
    ensures s == Listing(m)
  {
    assert AsTable(s) == m;
    ListingOfSorted(s);
  }

  /** `s` lists the greatest keys of `m`, `rest` holds the others. */
  ghost predicate Split(m: Table, rest: Table, s: seq<Entry>) {
    && Keyed(rest) && Sorted(s) && rest.Keys !! AsTable(s).Keys && m == rest + AsTable(s)
    && (s != [] ==> AllBelow(rest, s[0].key))
  }

  lemma {:induction false} MoveGreatest(m: Table, rest: Table, s: seq<Entry>, k: Bytes)
    requires Split(m, rest, s) && k in rest.Keys && forall j :: j in rest.Keys ==> AtMost(j, k)
    ensures Split(m, rest - {k}, [rest[k]] + s)
  {
    var e := rest[k];
    forall j | j in rest - {k}
      ensures Less(j, k)
    {
      LessIsLexicographic(j, k);
    }
    SuffixAbove(s, k);
    PrependLess(s, e);
    assert rest + AsTable(s) == (rest - {k}) + AsTable(s)[k := e];
  }

  lemma ViewWithin(ts: seq<Table>, mem: Table, lo: Bytes, hi: Bytes)
    ensures Within(View(ts, mem), lo, hi) == Live(Overlay(Live(Within(Newest(ts), lo, hi)), Within(mem, lo, hi)))
  {
    LiveOverlayWithin(Newest(ts), mem, lo, hi);
  }

  lemma LiveOverlayWithin(n: Table, mem: Table, lo: Bytes, hi: Bytes)
    ensures Within(Live(Overlay(Live(n), mem)), lo, hi) == Live(Overlay(Live(Within(n, lo, hi)), Within(mem, lo, hi)))
  {
    assert Live(Within(n, lo, hi)) == Within(Live(n), lo, hi);
    WithinOverlay(Live(n), mem, lo, hi);
    LiveWithin(Overlay(Live(n), mem), lo, hi);
  }

  lemma LiveWithin(n: Table, lo: Bytes, hi: Bytes)
    ensures Within(Live(n), lo, hi) == Live(Within(n, lo, hi))
  {
  }

  /** Without a budget a range read lists exactly the view. */
  lemma {:induction false} UnbudgetedIsView(segs: seq<seq<Entry>>, mem: Table, lo: Bytes, hi: Bytes)
    requires Keyed(mem)
    ensures Limited(Combined(segs, mem, lo, hi, None), None) == ViewList(segs, mem, lo, hi)
  {
    PutsOfSorted(SegmentList(segs, lo, hi));
    PutsOfSorted(Combined(segs, mem, lo, hi, None));
    ViewWithin(Tables(segs), mem, lo, hi);
    SortedUnique(Puts(Combined(segs, mem, lo, hi, None)), ViewList(segs, mem, lo, hi));
  }

  // ---- Pages ----

  /** No memtable tombstone hides a live segment record. */
  predicate NoShadow(live: Table, mem: Table) {
    forall k :: k in live && k in mem ==> mem[k].op.Put? || mem[k].lsn <= live[k].lsn
  }

  lemma {:induction false} SortedCardinality(s: seq<Entry>)
    requires Sorted(s)
    ensures |AsTable(s).Keys| == |s|
  {
    if s != [] {
      SortedCardinality(s[..|s| - 1]);
      DropLast(s);
      assert AsTable(s).Keys == AsTable(s[..|s| - 1]).Keys + {s[|s| - 1].key};
    }
  }

  /** The first `n` records of a sorted list are its part below the successor of the last of them. */
  lemma {:induction false} PrefixIsBelow(s: seq<Entry>, n: nat)
    requires Sorted(s) && 0 < n <= |s|
    ensures AsTable(s[..n]) == Below(AsTable(s), s[n - 1].key + [0])
  {
    var x := s[n - 1].key + [0];
    forall i | 0 <= i < |s|
      ensures Less(s[i].key, x) <==> i < n
    {
      SuccessorOrder(s[n - 1].key, s[i].key);
    }
    PrefixBelow(s[..n], x);
    CutTable(s, n, x);
  }

  lemma {:induction false} PutsOfPrefix(c: seq<Entry>, d: seq<Entry>)
    requires c <= d
    ensures Puts(c) <= Puts(d)
  {
    assert d == c + d[|c|..];
    PutsConcat(c, d[|c|..]);
  }

  lemma BelowCut(l: Table, mem: Table, x: Bytes)
    ensures Below(Overlay(Below(l, x), mem), x) == Below(Overlay(l, mem), x)
  {
  }

  lemma AboveCut(l: Table, mem: Table, x: Bytes)
    ensures Above(Overlay(Above(l, x), mem), x) == Above(Overlay(l, mem), x)
  {
  }

  lemma KeyedOverlay(a: Table, b: Table)
    requires Keyed(a) && Keyed(b)
    ensures Keyed(Overlay(a, b))
  {
  }

  lemma {:induction false} ListingPrefix(whole: Table, part: Table, x: Bytes)
    requires Keyed(whole) && Keyed(part) && part == Below(whole, x)
    ensures Listing(part) <= Listing(whole)
  {
    BelowIsPrefix(Listing(part), Listing(whole), x);
  }

  lemma {:induction false} ListingSuffix(whole: Table, part: Table, x: Bytes)
    requires Keyed(whole) && Keyed(part) && part == Above(whole, x)
    ensures SuffixOf(Listing(part), Listing(whole))
  {
    AboveIsSuffix(Listing(part), Listing(whole), x);
  }

  /** Below the horizon `x`, merging the cut run or the whole run gives the same list. */
  lemma {:induction false} CommonPrefix(l: Table, cut: Table, mem: Table, x: Bytes) returns (c: seq<Entry>)
    requires Keyed(l) && Keyed(cut) && Keyed(mem) && cut == Below(l, x)
    ensures Keyed(Overlay(cut, mem)) && Keyed(Overlay(l, mem))
    ensures c <= Listing(Overlay(cut, mem)) && c <= Listing(Overlay(l, mem))
    ensures Sorted(c) && AsTable(c) == Overlay(cut, Below(mem, x))
  {
    KeyedOverlay(cut, mem);
    KeyedOverlay(l, mem);
    KeyedOverlay(cut, Below(mem, x));
    var part := Overlay(cut, Below(mem, x));
    assert part == Below(Overlay(l, mem), x) by { BelowOverlay(l, mem, x); }
    assert part == Below(Overlay(cut, mem), x) by { BelowCut(l, mem, x); }
    ListingPrefix(Overlay(cut, mem), part, x);
    ListingPrefix(Overlay(l, mem), part, x);
    c := Listing(part);
  }

  /** The same above `x`. */
  lemma {:induction false} CommonSuffix(l: Table, cut: Table, mem: Table, x: Bytes) returns (c: seq<Entry>)
    requires Keyed(l) && Keyed(cut) && Keyed(mem) && cut == Above(l, x)
    ensures Keyed(Overlay(cut, mem)) && Keyed(Overlay(l, mem))
    ensures SuffixOf(c, Listing(Overlay(cut, mem))) && SuffixOf(c, Listing(Overlay(l, mem)))
    ensures Sorted(c) && AsTable(c) == Overlay(cut, Above(mem, x))
  {
    KeyedOverlay(cut, mem);
    KeyedOverlay(l, mem);
    KeyedOverlay(cut, Above(mem, x));
    var part := Overlay(cut, Above(mem, x));
    assert part == Above(Overlay(l, mem), x) by { AboveOverlay(l, mem, x); }
    assert part == Above(Overlay(cut, mem), x) by { AboveCut(l, mem, x); }
    ListingSuffix(Overlay(cut, mem), part, x);
    ListingSuffix(Overlay(l, mem), part, x);
    c := Listing(part);
  }

  predicate SuffixOf(c: seq<Entry>, d: seq<Entry>) {
    |c| <= |d| && c == d[|d| - |c|..]
  }

  predicate OnlyPuts(s: seq<Entry>) {
    forall i :: 0 <= i < |s| ==> s[i].op.Put?
  }

  lemma ShadowBelow(l: Table, mem: Table, x: Bytes)
    requires NoShadow(l, mem)
    ensures NoShadow(Below(l, x), Below(mem, x)) && NoShadow(Above(l, x), Above(mem, x))
  {
  }

  /** Overlaying a memtable that shadows nothing keeps every record of a live run visible. */
  lemma {:induction false} AllVisible(t: seq<Entry>, mem: Table, c: seq<Entry>)
    requires Sorted(t) && NoShadow(AsTable(t), mem) && OnlyPuts(t)
    requires Sorted(c) && AsTable(c) == Overlay(AsTable(t), mem)
    ensures |Puts(c)| >= |t|
  {
    PutsOfSorted(c);
    AsTableMembers(t);
    forall k | k in AsTable(t)
      ensures k in Live(AsTable(c))
    {
      assert AsTable(t)[k] in t;
    }
    SubsetSize(AsTable(t).Keys, AsTable(Puts(c)).Keys);
    SortedCardinality(Puts(c));
    SortedCardinality(t);
  }

  ghost function Visible(l: Table, mem: Table): seq<Entry>
    requires Keyed(l) && Keyed(mem)
  {
    Puts(Listing(Overlay(l, mem)))
  }

  lemma {:induction false} VisiblePrefix(l: seq<Entry>, mem: Table, n: nat) returns (c: seq<Entry>)
    requires Sorted(l) && Keyed(mem) && 0 < n <= |l| && NoShadow(AsTable(l), mem)
    requires OnlyPuts(l)
    ensures c <= Listing(Overlay(AsTable(l[..n]), mem)) && c <= Listing(Overlay(AsTable(l), mem)) && |Puts(c)| >= n
  {
    var t, x := AsTable(l), l[n - 1].key + [0];
    PrefixIsBelow(l, n);
    c := CommonPrefix(t, AsTable(l[..n]), mem, x);
    ShadowBelow(t, mem, x);
    AllVisible(l[..n], Below(mem, x), c);
  }

  lemma {:induction false} FullPage(l: seq<Entry>, mem: Table, n: nat)
    requires Sorted(l) && Keyed(mem) && 0 < n <= |l| && NoShadow(AsTable(l), mem)
    requires OnlyPuts(l)
    ensures var cut, whole := Visible(AsTable(l[..n]), mem), Visible(AsTable(l), mem);
            |cut| >= n && |whole| >= n && cut[..n] == whole[..n]
  {
    var c := VisiblePrefix(l, mem, n);
    PutsOfPrefix(c, Listing(Overlay(AsTable(l[..n]), mem)));
    PutsOfPrefix(c, Listing(Overlay(AsTable(l), mem)));
  }

  lemma {:induction false} PutsOfSuffix(c: seq<Entry>, d: seq<Entry>, n: nat)
    requires SuffixOf(c, d) && n <= |Puts(c)|
    ensures n <= |Puts(d)| && Rev(Puts(d))[..n] == Rev(Puts(c))[..n]
  {
    var front := d[..|d| - |c|];
    assert d == front + c;
    PutsConcat(front, c);
    RevConcat(Puts(front), Puts(c));
  }

  lemma {:induction false} VisibleSuffix(l: seq<Entry>, mem: Table, n: nat) returns (c: seq<Entry>)
    requires Sorted(l) && Keyed(mem) && n < |l| && NoShadow(AsTable(l), mem)
    requires OnlyPuts(l)
    ensures SuffixOf(c, Listing(Overlay(AsTable(l[|l| - n..]), mem)))
    ensures SuffixOf(c, Listing(Overlay(AsTable(l), mem))) && |Puts(c)| >= n
  {
    var t, x, tail := AsTable(l), l[|l| - n - 1].key, l[|l| - n..];
    SuffixAbove(tail, x);
    CutAbove(l, |l| - n, x);
    c := CommonSuffix(t, AsTable(tail), mem, x);
    ShadowBelow(t, mem, x);
    AllVisible(tail, Above(mem, x), c);
  }

  lemma {:induction false} FullPageBack(l: seq<Entry>, mem: Table, n: nat)
    requires Sorted(l) && Keyed(mem) && n < |l| && NoShadow(AsTable(l), mem)
    requires OnlyPuts(l)
    ensures var cut, whole := Visible(AsTable(l[|l| - n..]), mem), Visible(AsTable(l), mem);
            |cut| >= n && |whole| >= n && Rev(cut)[..n] == Rev(whole)[..n]
  {
    var c := VisibleSuffix(l, mem, n);
    PutsOfSuffix(c, Listing(Overlay(AsTable(l[|l| - n..]), mem)), n);
    PutsOfSuffix(c, Listing(Overlay(AsTable(l), mem)), n);
  }

  lemma {:induction false} NotCut(s: seq<Entry>, n: nat)
    requires !CutsShort(s, Some(n))
    ensures Limited(s, Some(n)) == Puts(s)
  {
  }

  lemma {:induction false} CutIsPrefix(s: seq<Entry>, n: nat)
    requires CutsShort(s, Some(n))
    ensures |Puts(s)| >= Positive(n) && Limited(s, Some(n)) == Puts(s)[..Positive(n)]
  {
    PutsOfPrefix(s[..|s| - 1], s);
  }

  lemma AllPuts(s: seq<Entry>)
    ensures OnlyPuts(Puts(s))
  {
    PutsMembers(s);
  }

  lemma {:induction false} CutPage(s: seq<Entry>, mem: Table, n: nat)
    requires Sorted(s) && Keyed(mem) && NoShadow(Live(AsTable(s)), mem) && CutsShort(s, Some(n))
    ensures var d := Listing(Overlay(AsTable(Limited(s, Some(n))), mem));
            var view := Visible(Live(AsTable(s)), mem);
            |view| >= Positive(n) && Limited(d, Some(n)) == view[..Positive(n)]
  {
    PutsOfSorted(s);
    AllPuts(s);
    CutIsPrefix(s, n);
    FullPage(Puts(s), mem, Positive(n));
  }

  /** With no shadowing tombstone, a budgeted page is the budgeted prefix of the view. */
  lemma {:induction false} PageIsPrefix(s: seq<Entry>, mem: Table, n: nat)
    requires Sorted(s) && Keyed(mem) && NoShadow(Live(AsTable(s)), mem)
    ensures var d := Listing(Overlay(AsTable(Limited(s, Some(n))), mem));
            var view := Visible(Live(AsTable(s)), mem);
            if CutsShort(s, Some(n)) || CutsShort(d, Some(n))
            then |view| >= Positive(n) && Limited(d, Some(n)) == view[..Positive(n)]
            else Limited(d, Some(n)) == view
  {
    if CutsShort(s, Some(n)) {
      CutPage(s, mem, n);
    } else {
      PutsOfSorted(s);
      NotCut(s, n);
      var d := Listing(Overlay(AsTable(Puts(s)), mem));
      if CutsShort(d, Some(n)) {
        CutIsPrefix(d, n);
      } else {
        NotCut(d, n);
      }
    }
  }
}
