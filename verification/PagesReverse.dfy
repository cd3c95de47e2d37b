/** Reverse pages: descending merge of the segment tail with the memtable, and chaining them. */
module PagesReverse {
  import opened ByteStrings
  import opened Keys
  import opened Entries
  import opened Merge
  import opened MergeReverse
  import opened Scan
  import opened Paging
  import opened Pages

  // ---- Reversal ----

  lemma {:induction false} RevAt(s: seq<Entry>, i: nat)
    requires i < |s|
    ensures Rev(s)[i] == s[|s| - 1 - i]
  {
    if i < |s| - 1 {
      RevAt(s[1..], i);
    }
  }

  predicate Mirrors(r: seq<Entry>, s: seq<Entry>) {
    |r| == |s| && forall i :: 0 <= i < |s| ==> r[i] == s[|s| - 1 - i]
  }

  lemma {:induction false} RevMirrors(s: seq<Entry>)
    ensures Mirrors(Rev(s), s)
  {
    forall i | 0 <= i < |s|
      ensures Rev(s)[i] == s[|s| - 1 - i]
    {
      RevAt(s, i);
    }
  }

  lemma {:induction false} RevSnoc(s: seq<Entry>, e: Entry)
    ensures Rev(s + [e]) == [e] + Rev(s)
  {
    RevConcat(s, [e]);
    assert [e][1..] == [];
  }

  lemma {:induction false} RevRev(s: seq<Entry>)
    ensures Rev(Rev(s)) == s
  {
    if s != [] {
      RevSnoc(Rev(s[1..]), s[0]);
      RevRev(s[1..]);
    }
  }

  lemma {:induction false} RevBump(d: seq<Entry>, e: Entry)
    ensures Rev(Bump(d, e)) == BumpFront(Rev(d), e)
  {
    RevSnoc(d, e);
    if d != [] {
      var d' := d[..|d| - 1];
      assert d == d' + [d[|d| - 1]];
      RevSnoc(d', d[|d| - 1]);
      RevSnoc(d', e);
    }
  }

  ghost function DedupBack(p: seq<Entry>): seq<Entry> {
    if p == [] then [] else BumpFront(DedupBack(p[..|p| - 1]), p[|p| - 1])
  }

  lemma DedupBackSnoc(p: seq<Entry>, e: Entry)
    ensures DedupBack(p + [e]) == BumpFront(DedupBack(p), e)
  {
    assert (p + [e])[..|p|] == p;
  }

  lemma {:induction false} DedupBackIsRev(p: seq<Entry>)
    ensures DedupBack(p) == Rev(Dedup(p))
  {
    if p != [] {
      DedupBackIsRev(p[..|p| - 1]);
      RevBump(Dedup(p[..|p| - 1]), p[|p| - 1]);
    }
  }

  lemma {:induction false} PutsOfRev(s: seq<Entry>)
    ensures Puts(Rev(s)) == Rev(Puts(s))
  {
    if s != [] {
      PutsOfRev(s[1..]);
      PutsSnoc(Rev(s[1..]), s[0]);
      PutsFront(s);
    }
  }

  // ---- The descending two-pointer merge ----

  ghost predicate MergedBack(a: seq<Entry>, mem: seq<Entry>, left: nat, mi: nat, m: seq<Entry>)
    requires left <= |a| && mi <= |mem|
  {
    && Sorted(m) && AsTable(m) == Overlay(AsTable(a[left..]), AsTable(mem[mi..]))
    && (left > 0 ==> AllAbove(AsTable(m), a[left - 1].key))
    && (mi > 0 && m != [] ==> AtMost(mem[mi - 1].key, m[0].key))
  }

  lemma {:induction false} SortedTail(s: seq<Entry>, n: nat)
    requires Sorted(s) && n < |s|
    ensures s[n].key !in AsTable(s[n + 1..])
    ensures AsTable(s[n..]) == AsTable(s[n + 1..])[s[n].key := s[n]]
  {
    assert s[n..][1..] == s[n + 1..];
    DropFirst(s[n..]);
  }

  lemma {:induction false} BumpFrontAbove(m: seq<Entry>, e: Entry, x: Bytes)
    requires Sorted(m) && (m != [] ==> AtMost(e.key, m[0].key)) && Less(x, e.key)
    ensures AllAbove(AsTable(BumpFront(m, e)), x)
  {
    BumpFrontIsOverlay(m, e);
    SuffixAbove(m, x);
  }

  lemma {:induction false} FirstAbove(m: seq<Entry>, x: Bytes)
    requires m != [] && Sorted(m) && AllAbove(AsTable(m), x)
    ensures Less(x, m[0].key)
  {
    AsTableMembers(m);
  }

  lemma BeforeOverlay(m: Table, a: Table, b: Table, x: Bytes)
    requires m == Overlay(a, b) && AllAbove(m, x)
    ensures x !in a && x !in b
  {
    assert x in a || x in b ==> x in m;
  }

  lemma {:induction false} TakeSegmentBack(a: seq<Entry>, mem: seq<Entry>, left: nat, mi: nat, m: seq<Entry>)
    requires Sorted(a) && 0 < left <= |a| && mi <= |mem| && MergedBack(a, mem, left, mi, m)
    requires mi > 0 ==> AtMost(mem[mi - 1].key, a[left - 1].key)
    ensures MergedBack(a, mem, left - 1, mi, BumpFront(m, a[left - 1]))
  {
    var e := a[left - 1];
    if m != [] {
      FirstAbove(m, e.key);
    }
    BumpFrontIsOverlay(m, e);
    SortedTail(a, left - 1);
    BeforeOverlay(AsTable(m), AsTable(a[left..]), AsTable(mem[mi..]), e.key);
    OverlayFirst(AsTable(a[left..]), AsTable(mem[mi..]), e);
    if left > 1 {
      BumpFrontAbove(m, e, a[left - 2].key);
    }
  }

  lemma {:induction false} TakeMemtableBack(a: seq<Entry>, mem: seq<Entry>, left: nat, mi: nat, m: seq<Entry>)
    requires Sorted(mem) && left <= |a| && 0 < mi <= |mem| && MergedBack(a, mem, left, mi, m)
    requires left > 0 ==> Less(a[left - 1].key, mem[mi - 1].key)
    ensures MergedBack(a, mem, left, mi - 1, BumpFront(m, mem[mi - 1]))
  {
    var e := mem[mi - 1];
    BumpFrontIsOverlay(m, e);
    SortedTail(mem, mi - 1);
    OverlaySecond(AsTable(a[left..]), AsTable(mem[mi..]), e);
    if left > 0 {
      BumpFrontAbove(m, e, a[left - 1].key);
    }
  }

  lemma MergedBackAll(a: seq<Entry>, mem: seq<Entry>, m: seq<Entry>)
    requires MergedBack(a, mem, 0, 0, m)
    ensures Sorted(m) && AsTable(m) == Overlay(AsTable(a), AsTable(mem))
  {
    assert a[0..] == a && mem[0..] == mem;
  }

  /** `seg` descends, `mem` ascends and is walked from its end; the segment record of a shared key
      goes first. */
  method MergeDescending(seg: seq<Entry>, mem: seq<Entry>, ghost a: seq<Entry>) returns (merged: seq<Entry>)
    requires Mirrors(seg, a) && Sorted(a) && Sorted(mem)
    ensures Sorted(Rev(Dedup(merged))) && AsTable(Rev(Dedup(merged))) == Overlay(AsTable(a), AsTable(mem))
  {
    var si, mi := 0, |mem|;
    merged := [];
    ghost var m: seq<Entry>, left := [], |a|;
    while true
      invariant 0 <= si <= |seg| && 0 <= mi <= |mem| && left == |a| - si
      invariant m == DedupBack(merged) && MergedBack(a, mem, left, mi, m)
      decreases left + mi
    {
      if si >= |seg| && mi == 0 {
        break;
      }
      if si < |seg| && (mi == 0 || AtMost(mem[mi - 1].key, seg[si].key)) {
        var e := seg[si];
        assert e == a[left - 1];
        TakeSegmentBack(a, mem, left, mi, m);
        DedupBackSnoc(merged, e);
        merged := merged + [e];
        si := si + 1;
        m, left := BumpFront(m, e), left - 1;
      } else {
        mi := mi - 1;
        var e := mem[mi];
        assert left > 0 ==> seg[si] == a[left - 1];
        TakeMemtableBack(a, mem, left, mi + 1, m);
        DedupBackSnoc(merged, e);
        merged := merged + [e];
        m := BumpFront(m, e);
      }
    }
    MergedBackAll(a, mem, m);
    DedupBackIsRev(merged);
  }

  // ---- One reverse page ----

  /** The live tail the reverse segment scan returns, in ascending order. */
  ghost function Tail(segs: seq<seq<Entry>>, lo: Bytes, hi: Bytes, n: nat): seq<Entry> {
    var l := Puts(SegmentList(segs, lo, hi));
    l[|l| - Smaller(Positive(n), |l|)..]
  }

  lemma {:induction false} DescendingIsTail(full: seq<Entry>, n: nat)
    ensures var l := Puts(full);
            Descending(full, n) == Rev(l[|l| - Smaller(Positive(n), |l|)..])
  {
    var l := Puts(full);
    var k := Smaller(Positive(n), |l|);
    assert l == l[..|l| - k] + l[|l| - k..];
    RevConcat(l[..|l| - k], l[|l| - k..]);
  }

  lemma {:induction false} TailMirrors(segs: seq<seq<Entry>>, lo: Bytes, hi: Bytes, n: nat)
    ensures Sorted(Tail(segs, lo, hi, n)) && Mirrors(Descending(SegmentList(segs, lo, hi), n), Tail(segs, lo, hi, n))
  {
    PutsOfSorted(SegmentList(segs, lo, hi));
    DescendingIsTail(SegmentList(segs, lo, hi), n);
    RevMirrors(Tail(segs, lo, hi, n));
  }

  ghost function CombinedBack(segs: seq<seq<Entry>>, mem: Table, lo: Bytes, hi: Bytes, n: nat): (s: seq<Entry>)
    requires Keyed(mem)
    ensures Sorted(s) && AsTable(s) == Overlay(AsTable(Tail(segs, lo, hi, n)), Within(mem, lo, hi))
  {
    Listing(Overlay(AsTable(Tail(segs, lo, hi, n)), Within(mem, lo, hi)))
  }

  /** Segment tail and memtable merged downwards, deduplicated, cut at the page size. */
  method RevCore(segs: seq<seq<Entry>>, mem: Table, lo: Bytes, hi: Bytes, n: nat) returns (items: seq<Entry>)
    requires Readers(segs) && Keyed(mem) && n > 0
    ensures items == Descending(CombinedBack(segs, mem, lo, hi, n), n)
  {
    var segResults := RangeScanRevBudgeted(segs, lo, hi, n);
    var memAsc := SortedEntries(Within(mem, lo, hi));
    TailMirrors(segs, lo, hi, n);
    var merged := MergeDescending(segResults, memAsc, Tail(segs, lo, hi, n));
    var truncated;
    items, truncated := DedupFilterScan(merged, Some(n), false);
    DescendingPage(Dedup(merged), CombinedBack(segs, mem, lo, hi, n), n);
  }

  lemma {:induction false} DescendingPage(d: seq<Entry>, c: seq<Entry>, n: nat)
    requires Sorted(Rev(d)) && Sorted(c) && AsTable(Rev(d)) == AsTable(c) && n > 0
    ensures Limited(d, Some(n)) == Descending(c, n)
  {
    SortedUnique(Rev(d), c);
    RevRev(d);
    PutsOfRev(c);
  }

  lemma {:induction false} RevPageOfLists(l: seq<Entry>, mem: Table, n: nat, c: seq<Entry>)
    requires Sorted(l) && OnlyPuts(l) && Keyed(mem) && n > 0 && NoShadow(AsTable(l), mem)
    requires Sorted(c) && AsTable(c) == Overlay(AsTable(l[|l| - Smaller(n, |l|)..]), mem)
    ensures var v := Visible(AsTable(l), mem);
            Descending(c, n) == Rev(v)[..Smaller(n, |v|)]
  {
    if n < |l| {
      RevPageCut(l, mem, n, c);
    } else {
      assert l[0..] == l;
      RevPageWhole(l, mem, n, c);
    }
  }

  lemma {:induction false} RevPageWhole(l: seq<Entry>, mem: Table, n: nat, c: seq<Entry>)
    requires Keyed(mem) && n > 0 && Sorted(c) && AsTable(c) == Overlay(AsTable(l), mem)
    ensures var v := Visible(AsTable(l), mem); Descending(c, n) == Rev(v)[..Smaller(n, |v|)]
  {
    SortedUnique(c, Listing(AsTable(c)));
    RevMirrors(Puts(c));
  }

  lemma {:induction false} RevPageCut(l: seq<Entry>, mem: Table, n: nat, c: seq<Entry>)
    requires Sorted(l) && OnlyPuts(l) && Keyed(mem) && 0 < n < |l| && NoShadow(AsTable(l), mem)
    requires Sorted(c) && AsTable(c) == Overlay(AsTable(l[|l| - n..]), mem)
    ensures var v := Visible(AsTable(l), mem); Descending(c, n) == Rev(v)[..Smaller(n, |v|)]
  {
    FullPageBack(l, mem, n);
    SortedUnique(c, Listing(AsTable(c)));
    RevMirrors(Puts(c));
    RevMirrors(Visible(AsTable(l), mem));
  }

  /** With no shadowing tombstone, a reverse page is the last `n` visible records, downwards. */
  lemma {:induction false} RevPageShowsView(segs: seq<seq<Entry>>, mem: Table, lo: Bytes, hi: Bytes, n: nat)
    requires Keyed(mem) && n > 0 && NoShadowIn(segs, mem, lo, hi)
    ensures var v := ViewList(segs, mem, lo, hi);
            Descending(CombinedBack(segs, mem, lo, hi, n), n) == Rev(v)[..Smaller(n, |v|)]
  {
    var s := SegmentList(segs, lo, hi);
    PutsOfSorted(s);
    AllPuts(s);
    VisibleIsView(segs, mem, lo, hi);
    RevPageOfLists(Puts(s), Within(mem, lo, hi), n, CombinedBack(segs, mem, lo, hi, n));
  }

  // ---- Reverse pages over a namespace ----

  function Upto(end: Bytes, cursor: Option<Bytes>): Bytes {
    if cursor.Some? then cursor.value else end
  }

  /** What one call returns for the window `[start, upto)` and a page size above zero. */
  ghost predicate IsRevPage(segs: seq<seq<Entry>>, mem: Table, ns: Bytes, start: Bytes, upto: Bytes, n: nat, items: seq<Pair>, next: Option<Bytes>)
    requires |ns| <= MaxNamespace && Keyed(mem)
  {
    var out := Descending(CombinedBack(segs, mem, EncodeKey(ns, start), EncodeKey(ns, upto), n), n);
    && Returnable(out, ns) && items == Raw(out, ns)
    && next == if |items| >= n > 0 then Some(items[|items| - 1].key) else None
  }

  method RangeRevPage(segs: seq<seq<Entry>>, mem: Table, ns: Bytes, start: Bytes, end: Bytes, cursor: Option<Bytes>, pageSize: nat)
    returns (items: seq<Pair>, next: Option<Bytes>)
    requires |ns| <= MaxNamespace && Readers(segs) && Keyed(mem)
    ensures pageSize == 0 ==> items == [] && next == None
    ensures pageSize > 0 ==> IsRevPage(segs, mem, ns, start, Upto(end, cursor), pageSize, items, next)
  {
    if pageSize == 0 {
      return [], None;
    }
    var upto := Upto(end, cursor);
    var lo, hi := EncodeKey(ns, start), EncodeKey(ns, upto);
    if AtMost(hi, lo) {
      EmptyWindow(segs, mem, lo, hi, pageSize);
      return [], None;
    }
    var out := RevCore(segs, mem, lo, hi, pageSize);
    RevReturnable(segs, mem, ns, start, upto, pageSize);
    items := Raw(out, ns);
    next := if |items| >= pageSize then Some(items[|items| - 1].key) else None;
  }

  /** With no shadowing tombstone in the window, a reverse page is the last `n` visible records, and it is
      the last one exactly when no cursor comes back. */
  lemma {:induction false} RevPageShows(segs: seq<seq<Entry>>, mem: Table, ns: Bytes, start: Bytes, upto: Bytes, n: nat, items: seq<Pair>, next: Option<Bytes>)
    requires |ns| <= MaxNamespace && Keyed(mem) && n > 0 && IsRevPage(segs, mem, ns, start, upto, n, items, next)
    requires NoShadowIn(segs, mem, EncodeKey(ns, start), EncodeKey(ns, upto))
    ensures ShowsBack(ViewList(segs, mem, EncodeKey(ns, start), EncodeKey(ns, upto)), ns, n, items, next)
  {
    var lo, hi := EncodeKey(ns, start), EncodeKey(ns, upto);
    var out := Descending(CombinedBack(segs, mem, lo, hi, n), n);
    RevPageShowsView(segs, mem, lo, hi, n);
    ViewReturnable(segs, mem, ns, start, upto);
    PageBack(ViewList(segs, mem, lo, hi), ns, n, out, items, next);
  }

  lemma {:induction false} PageBack(v: seq<Entry>, ns: Bytes, n: nat, out: seq<Entry>, items: seq<Pair>, next: Option<Bytes>)
    requires n > 0 && Returnable(v, ns) && out == Rev(v)[..Smaller(n, |v|)] && Returnable(out, ns) && items == Raw(out, ns)
    requires next == if |items| >= n then Some(items[|items| - 1].key) else None
    ensures ShowsBack(v, ns, n, items, next)
  {
    RevMirrors(v);
  }

  lemma {:induction false} EmptyList(s: seq<Entry>)
    requires AsTable(s) == map[]
    ensures s == []
  {
    AsTableMembers(s);
  }

  lemma EmptyWithin(m: Table, lo: Bytes, hi: Bytes)
    requires AtMost(hi, lo)
    ensures Within(m, lo, hi) == map[]
  {
  }

  lemma {:induction false} EmptyWindow(segs: seq<seq<Entry>>, mem: Table, lo: Bytes, hi: Bytes, n: nat)
    requires Keyed(mem) && AtMost(hi, lo)
    ensures Descending(CombinedBack(segs, mem, lo, hi, n), n) == []
  {
    EmptyWithin(Newest(Tables(segs)), lo, hi);
    EmptyWithin(mem, lo, hi);
    EmptyList(SegmentList(segs, lo, hi));
    assert Tail(segs, lo, hi, n) == [];
    EmptyList(CombinedBack(segs, mem, lo, hi, n));
  }

  lemma {:induction false} RevMembers(s: seq<Entry>)
    ensures forall e :: e in Rev(s) <==> e in s
  {
    if s != [] {
      RevMembers(s[1..]);
      assert s == [s[0]] + s[1..];
    }
  }

  lemma {:induction false} DescendingMembers(s: seq<Entry>, n: nat)
    ensures forall e :: e in Descending(s, n) ==> e in s && e.op.Put?
  {
    PutsMembers(s);
    RevMembers(Puts(s));
  }

  lemma {:induction false} RevReturnable(segs: seq<seq<Entry>>, mem: Table, ns: Bytes, start: Bytes, end: Bytes, n: nat)
    requires |ns| <= MaxNamespace && Keyed(mem)
    ensures Returnable(Descending(CombinedBack(segs, mem, EncodeKey(ns, start), EncodeKey(ns, end), n), n), ns)
  {
    var lo, hi := EncodeKey(ns, start), EncodeKey(ns, end);
    var c, t := CombinedBack(segs, mem, lo, hi, n), Tail(segs, lo, hi, n);
    DescendingMembers(c, n);
    AsTableMembers(c);
    PutsMembers(SegmentList(segs, lo, hi));
    AsTableMembers(SegmentList(segs, lo, hi));
    AsTableMembers(t);
    forall e | e in Descending(c, n)
      ensures e.op.Put? && DecodeKey(e.key).Decoded? && DecodeKey(e.key).ns == ns
    {
      assert e.key in AsTable(c);
      if e.key !in Within(mem, lo, hi) {
        assert AsTable(t)[e.key] in t;
        assert AsTable(t)[e.key] in Puts(SegmentList(segs, lo, hi));
        assert e.key in AsTable(SegmentList(segs, lo, hi));
      }
      RangeStaysInNamespace(ns, start, end, e.key);
    }
  }

  /** The page holds the last `n` records of the view downwards, or all of it when it is not full. */
  ghost predicate ShowsBack(v: seq<Entry>, ns: Bytes, n: nat, items: seq<Pair>, next: Option<Bytes>)
    requires n > 0
  {
    && Returnable(v, ns) && Returnable(Rev(v), ns)
    && (next.Some? ==> |v| >= n && items == Raw(Rev(v)[..n], ns) && next.value == DecodeKey(v[|v| - n].key).key)
    && (next.None? ==> items == Raw(Rev(v), ns))
  }

  // ---- Chaining reverse pages ----

  /** The window in front of visible record `j` shows exactly the records before it. */
  lemma {:induction false} FrontOfWindow(segs: seq<seq<Entry>>, mem: Table, lo: Bytes, hi: Bytes, v: seq<Entry>, j: nat)
    requires Keyed(mem) && j < |v| && v == ViewList(segs, mem, lo, hi)
    ensures AtMost(v[j].key, hi) && ViewList(segs, mem, lo, v[j].key) == v[..j]
  {
    var m, x := View(Tables(segs), mem), v[j].key;
    KeyInWindow(v, j, m, lo, hi);
    FrontIsBelow(v, j);
    LowerWindow(m, lo, x, hi);
    SortedUnique(ViewList(segs, mem, lo, x), v[..j]);
  }

  lemma {:induction false} KeyInWindow(v: seq<Entry>, j: nat, m: Table, lo: Bytes, hi: Bytes)
    requires Sorted(v) && j < |v| && AsTable(v) == Within(m, lo, hi)
    ensures InRange(v[j].key, lo, hi)
  {
    AsTableMembers(v);
    assert v[j].key in AsTable(v);
  }

  lemma {:induction false} FrontIsBelow(v: seq<Entry>, i: nat)
    requires Sorted(v) && i < |v|
    ensures AsTable(v[..i]) == Below(AsTable(v), v[i].key)
  {
    PrefixBelow(v[..i], v[i].key);
    CutTable(v, i, v[i].key);
  }

  lemma LowerWindow(m: Table, lo: Bytes, x: Bytes, hi: Bytes)
    requires AtMost(x, hi)
    ensures Within(m, lo, x) == Below(Within(m, lo, hi), x)
  {
  }

  lemma ShadowLowers(l: Table, mem: Table, lo: Bytes, x: Bytes, hi: Bytes)
    requires NoShadow(Live(Within(l, lo, hi)), Within(mem, lo, hi)) && AtMost(x, hi)
    ensures NoShadow(Live(Within(l, lo, x)), Within(mem, lo, x))
  {
  }

  /** The window `[lo, hi)` shows the first `j` visible records. */
  ghost predicate ChainedBack(segs: seq<seq<Entry>>, mem: Table, ns: Bytes, lo: Bytes, hi: Bytes, v: seq<Entry>, j: nat)
    requires Keyed(mem)
  {
    j <= |v| && Returnable(v, ns) && ViewList(segs, mem, lo, hi) == v[..j] && NoShadowIn(segs, mem, lo, hi)
  }

  /** Where the window in front of the last `|v| - j` visible records ends. */
  predicate EndsBefore(v: seq<Entry>, j: nat, hi0: Bytes, hi: Bytes) {
    j <= |v| && hi == if j == |v| then hi0 else v[j].key
  }

  lemma {:induction false} WindowBefore(segs: seq<seq<Entry>>, mem: Table, ns: Bytes, lo: Bytes, hi0: Bytes, v: seq<Entry>, j: nat, hi: Bytes)
    requires Keyed(mem) && ChainedBack(segs, mem, ns, lo, hi0, v, |v|) && EndsBefore(v, j, hi0, hi)
    ensures ChainedBack(segs, mem, ns, lo, hi, v, j)
  {
    assert v[..|v|] == v;
    if j < |v| {
      FrontOfWindow(segs, mem, lo, hi0, v, j);
      ShadowLowers(Newest(Tables(segs)), mem, lo, hi, hi0);
    }
  }

  lemma {:induction false} ReturnableRev(v: seq<Entry>, ns: Bytes)
    requires Returnable(v, ns)
    ensures Returnable(Rev(v), ns)
  {
    RevMirrors(v);
  }

  lemma {:induction false} AppendBack(v: seq<Entry>, r: seq<Entry>, ns: Bytes, k: nat, n: nat, items: seq<Pair>, next: Option<Bytes>)
    requires n > 0 && k <= |v| && Returnable(v, ns) && r == Rev(v) && Returnable(r, ns)
    requires ShowsBack(v[..|v| - k], ns, n, items, next)
    ensures next.None? ==> FirstPairs(r, k, ns) + items == FirstPairs(r, |r|, ns)
    ensures next.Some? ==> k + n <= |v| && FirstPairs(r, k, ns) + items == FirstPairs(r, k + n, ns)
    ensures next.Some? ==> next.value == DecodeKey(v[|v| - k - n].key).key
  {
    RevMirrors(v);
    RevMirrors(v[..|v| - k]);
    assert r[k..] == Rev(v[..|v| - k]);
    if next.None? {
      RawConcat(r, k, |v|, ns);
      assert r[..|v|] == r && r[k..|v|] == r[k..];
    } else {
      RawConcat(r, k, k + n, ns);
      assert r[k..k + n] == r[k..][..n];
    }
  }

  /** Everything a reverse chain over `[start, end)` relies on; `pairs` are those of `v` backwards. */
  ghost predicate PageableBack(segs: seq<seq<Entry>>, mem: Table, ns: Bytes, start: Bytes, end: Bytes, pageSize: nat,
                               v: seq<Entry>, r: seq<Entry>, pairs: seq<Pair>) {
    && |ns| <= MaxNamespace && Readers(segs) && Keyed(mem) && pageSize > 0
    && ChainedBack(segs, mem, ns, EncodeKey(ns, start), EncodeKey(ns, end), v, |v|)
    && r == Rev(v) && Returnable(r, ns) && |pairs| == |r| && pairs == FirstPairs(r, |r|, ns)
  }

  /** `all` are the first `k` of the pairs, and the cursor is the key of the last of them. */
  predicate ReachedBack(r: seq<Entry>, pairs: seq<Pair>, ns: Bytes, end: Bytes, cursor: Option<Bytes>, k: nat, all: seq<Pair>) {
    && |ns| <= MaxNamespace && k <= |r| == |pairs| && all == pairs[..k]
    && EncodeKey(ns, Upto(end, cursor)) == if k == 0 then EncodeKey(ns, end) else r[k - 1].key
  }

  lemma {:induction false} RevStep(v: seq<Entry>, r: seq<Entry>, ns: Bytes, end: Bytes, k: nat, n: nat, items: seq<Pair>, next: Option<Bytes>)
    requires |ns| <= MaxNamespace && n > 0 && k <= |v| && Returnable(v, ns) && r == Rev(v) && Returnable(r, ns)
    requires ShowsBack(v[..|v| - k], ns, n, items, next)
    ensures var pairs := FirstPairs(r, |r|, ns);
            && |pairs| == |r| && k <= |r| && (next.None? ==> pairs[..k] + items == pairs)
            && (next.Some? ==> ReachedBack(r, pairs, ns, end, next, k + n, pairs[..k] + items))
  {
    RevMirrors(v);
    AppendBack(v, r, ns, k, n, items, next);
    PairsPrefix(r, k, ns);
    if next.Some? {
      PairsPrefix(r, k + n, ns);
      CursorKey(ns, v[|v| - k - n].key);
    }
  }

  /** A page in front of the first `k` pairs shows the records there. */
  lemma {:induction false} PageInFront(segs: seq<seq<Entry>>, mem: Table, ns: Bytes, start: Bytes, end: Bytes, upto: Bytes, pageSize: nat,
                                       v: seq<Entry>, j: nat, items: seq<Pair>, next: Option<Bytes>)
    requires |ns| <= MaxNamespace && Keyed(mem) && pageSize > 0
    requires ChainedBack(segs, mem, ns, EncodeKey(ns, start), EncodeKey(ns, end), v, |v|) && EndsBefore(v, j, EncodeKey(ns, end), EncodeKey(ns, upto))
    requires IsRevPage(segs, mem, ns, start, upto, pageSize, items, next)
    ensures ShowsBack(v[..j], ns, pageSize, items, next)
  {
    WindowBefore(segs, mem, ns, EncodeKey(ns, start), EncodeKey(ns, end), v, j, EncodeKey(ns, upto));
    RevPageShows(segs, mem, ns, start, upto, pageSize, items, next);
  }

  /** What `all` and the cursor are after one more page. */
  ghost predicate Linked(r: seq<Entry>, pairs: seq<Pair>, ns: Bytes, end: Bytes, next: Option<Bytes>, k: nat, all: seq<Pair>) {
    if next.None? then all == pairs else ReachedBack(r, pairs, ns, end, next, k, all)
  }

  lemma {:induction false} LinkStep(segs: seq<seq<Entry>>, mem: Table, ns: Bytes, start: Bytes, end: Bytes, cursor: Option<Bytes>, pageSize: nat,
                                    v: seq<Entry>, r: seq<Entry>, pairs: seq<Pair>, k: nat, all: seq<Pair>, items: seq<Pair>, next: Option<Bytes>)
    requires PageableBack(segs, mem, ns, start, end, pageSize, v, r, pairs) && ReachedBack(r, pairs, ns, end, cursor, k, all)
    requires IsRevPage(segs, mem, ns, start, Upto(end, cursor), pageSize, items, next)
    ensures Linked(r, pairs, ns, end, next, k + pageSize, all + items) && pageSize > 0
  {
    RevMirrors(v);
    PageInFront(segs, mem, ns, start, end, Upto(end, cursor), pageSize, v, |v| - k, items, next);
    RevStep(v, r, ns, end, k, pageSize, items, next);
  }

  /** One link of the reverse chain: the pairs so far with the page added, and the cursor in front. */
  method RevLink(segs: seq<seq<Entry>>, mem: Table, ns: Bytes, start: Bytes, end: Bytes, cursor: Option<Bytes>, pageSize: nat, all: seq<Pair>,
                 ghost v: seq<Entry>, ghost r: seq<Entry>, ghost pairs: seq<Pair>, ghost k: nat)
    returns (more: seq<Pair>, next: Option<Bytes>)
    requires PageableBack(segs, mem, ns, start, end, pageSize, v, r, pairs) && ReachedBack(r, pairs, ns, end, cursor, k, all)
    ensures pageSize > 0 && Linked(r, pairs, ns, end, next, k + pageSize, more) && (next.Some? ==> k + pageSize <= |r|)
  {
    var items;
    items, next := RangeRevPage(segs, mem, ns, start, end, cursor, pageSize);
    LinkStep(segs, mem, ns, start, end, cursor, pageSize, v, r, pairs, k, all, items, next);
    more := all + items;
  }

  lemma {:induction false} ChainStart(segs: seq<seq<Entry>>, mem: Table, ns: Bytes, start: Bytes, end: Bytes, pageSize: nat, v: seq<Entry>, r: seq<Entry>, pairs: seq<Pair>)
    requires PageableBack(segs, mem, ns, start, end, pageSize, v, r, pairs)
    ensures ReachedBack(r, pairs, ns, end, None, 0, [])
  {
    assert pairs[..0] == [];
  }

  /** The loop over reverse pages, for a range that shows `v`. */
  method ChainBackFrom(segs: seq<seq<Entry>>, mem: Table, ns: Bytes, start: Bytes, end: Bytes, pageSize: nat,
                       ghost v: seq<Entry>, ghost r: seq<Entry>, ghost pairs: seq<Pair>)
    returns (all: seq<Pair>)
    requires PageableBack(segs, mem, ns, start, end, pageSize, v, r, pairs)
    ensures all == pairs
  {
    ghost var k: nat := 0;
    all := [];
    var cursor: Option<Bytes> := None;
    ChainStart(segs, mem, ns, start, end, pageSize, v, r, pairs);
    while true
      invariant k <= |r| && ReachedBack(r, pairs, ns, end, cursor, k, all)
      decreases |r| - k
    {
      all, cursor := RevLink(segs, mem, ns, start, end, cursor, pageSize, all, v, r, pairs, k);
      if cursor.None? {
        return;
      }
      k := k + pageSize;
    }
  }

  /** Chaining reverse pages ends and lists the range from its greatest key down. */
  method ChainRevPages(segs: seq<seq<Entry>>, mem: Table, ns: Bytes, start: Bytes, end: Bytes, pageSize: nat)
    returns (all: seq<Pair>)
    requires |ns| <= MaxNamespace && Readers(segs) && Keyed(mem) && pageSize > 0
    requires NoShadowIn(segs, mem, EncodeKey(ns, start), EncodeKey(ns, end))
    ensures var v := ViewList(segs, mem, EncodeKey(ns, start), EncodeKey(ns, end));
            Returnable(Rev(v), ns) && all == Raw(Rev(v), ns)
  {
    ghost var v := ViewList(segs, mem, EncodeKey(ns, start), EncodeKey(ns, end));
    ViewReturnable(segs, mem, ns, start, end);
    ReturnableRev(v, ns);
    ghost var r := Rev(v);
    RevMirrors(v);
    assert v[..|v|] == v && r[..|r|] == r;
    all := ChainBackFrom(segs, mem, ns, start, end, pageSize, v, r, Raw(r, ns));
  }
}
