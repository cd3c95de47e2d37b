/** Cursor-based pages over a namespace, forward and reverse, and what chaining them returns. */
module Pages {
  import opened ByteStrings
  import opened Keys
  import opened Entries
  import opened Merge
  import opened MergeReverse
  import opened Scan
  import opened Paging

  datatype Pair = Pair(key: Bytes, value: Bytes)

  /** Records a namespace scan can return: live, with keys of `ns`. */
  predicate Returnable(s: seq<Entry>, ns: Bytes) {
    forall i :: 0 <= i < |s| ==> s[i].op.Put? && DecodeKey(s[i].key).Decoded? && DecodeKey(s[i].key).ns == ns
  }

  /** Decoded keys and values. */
  function Raw(s: seq<Entry>, ns: Bytes): (r: seq<Pair>)
    requires Returnable(s, ns)
    ensures |r| == |s|
  {
    seq(|s|, i requires 0 <= i < |s| => Pair(DecodeKey(s[i].key).key, s[i].op.value))
  }

  lemma {:induction false} InNamespace(s: seq<Entry>, m: Table, ns: Bytes, start: Bytes, end: Bytes)
    requires |ns| <= MaxNamespace && Sorted(s) && OnlyPuts(s)
    requires forall k :: k in AsTable(s) ==> InRange(k, EncodeKey(ns, start), EncodeKey(ns, end))
    ensures Returnable(s, ns)
  {
    AsTableMembers(s);
    forall i | 0 <= i < |s|
      ensures DecodeKey(s[i].key).Decoded? && DecodeKey(s[i].key).ns == ns
    {
      RangeStaysInNamespace(ns, start, end, s[i].key);
    }
  }

  lemma {:induction false} PageReturnable(segs: seq<seq<Entry>>, mem: Table, ns: Bytes, start: Bytes, end: Bytes, maxItems: Option<nat>)
    requires |ns| <= MaxNamespace && Keyed(mem)
    ensures Returnable(Limited(Combined(segs, mem, EncodeKey(ns, start), EncodeKey(ns, end), maxItems), maxItems), ns)
  {
    var lo, hi := EncodeKey(ns, start), EncodeKey(ns, end);
    var seg, d := SegmentList(segs, lo, hi), Combined(segs, mem, lo, hi, maxItems);
    LimitedMembers(seg, maxItems);
    AsTableMembers(Limited(seg, maxItems));
    AsTableMembers(seg);
    AsTableMembers(d);
    LimitedMembers(d, maxItems);
    SortedPrefixes(d, maxItems);
    AsTableMembers(Limited(d, maxItems));
    forall k | k in AsTable(Limited(d, maxItems))
      ensures InRange(k, lo, hi)
    {
      assert AsTable(Limited(d, maxItems))[k] in d;
      assert k in AsTable(d);
      if k !in Within(mem, lo, hi) {
        assert AsTable(Limited(seg, maxItems))[k] in seg;
        assert k in AsTable(seg);
      }
    }
    InNamespace(Limited(d, maxItems), map[], ns, start, end);
  }

  lemma {:induction false} LimitedMembers(s: seq<Entry>, maxItems: Option<nat>)
    ensures OnlyPuts(Limited(s, maxItems)) && forall e :: e in Limited(s, maxItems) ==> e in s
  {
    PutsMembers(s);
    AllPuts(s);
  }

  // ---- Forward pages ----

  function From(start: Bytes, cursor: Option<Bytes>): Bytes {
    if cursor.Some? then cursor.value + [0] else start
  }

  /** What one call returns for the window `[from, end)` and a page size above zero. */
  ghost predicate IsPage(segs: seq<seq<Entry>>, mem: Table, ns: Bytes, from: Bytes, end: Bytes, n: nat,
                         items: seq<Pair>, next: Option<Bytes>)
    requires |ns| <= MaxNamespace && Keyed(mem)
  {
    var lo, hi := EncodeKey(ns, from), EncodeKey(ns, end);
    var d := Combined(segs, mem, lo, hi, Some(n));
    var truncated := CutsShort(SegmentList(segs, lo, hi), Some(n)) || CutsShort(d, Some(n));
    && Returnable(Limited(d, Some(n)), ns) && items == Raw(Limited(d, Some(n)), ns)
    && next == if truncated && items != [] then Some(items[|items| - 1].key) else None
  }

  method RangePage(segs: seq<seq<Entry>>, mem: Table, ns: Bytes, start: Bytes, end: Bytes, cursor: Option<Bytes>, pageSize: nat)
    returns (items: seq<Pair>, next: Option<Bytes>)
    requires |ns| <= MaxNamespace && Readers(segs) && Keyed(mem)
    ensures pageSize == 0 ==> items == [] && next == None
    ensures pageSize > 0 ==> IsPage(segs, mem, ns, From(start, cursor), end, pageSize, items, next)
  {
    if pageSize == 0 {
      return [], None;
    }
    var from := From(start, cursor);
    var entries, truncated := RangeCore(segs, mem, EncodeKey(ns, from), EncodeKey(ns, end), Some(pageSize));
    PageReturnable(segs, mem, ns, from, end, Some(pageSize));
    items := Raw(entries, ns);
    next := if truncated && items != [] then Some(items[|items| - 1].key) else None;
  }

  ghost predicate NoShadowIn(segs: seq<seq<Entry>>, mem: Table, lo: Bytes, hi: Bytes) {
    NoShadow(Live(Within(Newest(Tables(segs)), lo, hi)), Within(mem, lo, hi))
  }

  lemma {:induction false} ViewReturnable(segs: seq<seq<Entry>>, mem: Table, ns: Bytes, start: Bytes, end: Bytes)
    requires |ns| <= MaxNamespace && Keyed(mem)
    ensures Returnable(ViewList(segs, mem, EncodeKey(ns, start), EncodeKey(ns, end)), ns)
  {
    var v := ViewList(segs, mem, EncodeKey(ns, start), EncodeKey(ns, end));
    AsTableOfSorted(v);
    InNamespace(v, map[], ns, start, end);
  }

  lemma {:induction false} WindowPage(segs: seq<seq<Entry>>, mem: Table, lo: Bytes, hi: Bytes, n: nat)
    requires Keyed(mem) && n > 0 && NoShadowIn(segs, mem, lo, hi)
    ensures var v, d := ViewList(segs, mem, lo, hi), Combined(segs, mem, lo, hi, Some(n));
            if CutsShort(SegmentList(segs, lo, hi), Some(n)) || CutsShort(d, Some(n))
            then |v| >= n && Limited(d, Some(n)) == v[..n]
            else Limited(d, Some(n)) == v
  {
    var s, w := SegmentList(segs, lo, hi), Within(mem, lo, hi);
    VisibleIsView(segs, mem, lo, hi);
    PageIsPrefix(s, w, n);
    SortedUnique(Combined(segs, mem, lo, hi, Some(n)), Listing(Overlay(AsTable(Limited(s, Some(n))), w)));
  }

  /** The page holds the next `n` records of the view `v`, or all of it when no cursor comes back. */
  ghost predicate Shows(v: seq<Entry>, ns: Bytes, n: nat, items: seq<Pair>, next: Option<Bytes>)
    requires n > 0
  {
    && Returnable(v, ns)
    && (next.Some? ==> |v| >= n && items == Raw(v[..n], ns) && next.value == DecodeKey(v[n - 1].key).key)
    && (next.None? ==> items == Raw(v, ns))
  }

  /** With no shadowing tombstone in the window, a page is the next `n` visible records, and it
      is the last one exactly when no cursor comes back. */
  lemma {:induction false} PageShowsView(segs: seq<seq<Entry>>, mem: Table, ns: Bytes, from: Bytes, end: Bytes, n: nat,
                                         items: seq<Pair>, next: Option<Bytes>)
    requires |ns| <= MaxNamespace && Keyed(mem) && n > 0 && IsPage(segs, mem, ns, from, end, n, items, next)
    requires NoShadowIn(segs, mem, EncodeKey(ns, from), EncodeKey(ns, end))
    ensures Shows(ViewList(segs, mem, EncodeKey(ns, from), EncodeKey(ns, end)), ns, n, items, next)
  {
    var lo, hi := EncodeKey(ns, from), EncodeKey(ns, end);
    var d := Combined(segs, mem, lo, hi, Some(n));
    ViewReturnable(segs, mem, ns, from, end);
    WindowPage(segs, mem, lo, hi, n);
    PageOf(ViewList(segs, mem, lo, hi), ns, n, Limited(d, Some(n)), CutsShort(SegmentList(segs, lo, hi), Some(n)) || CutsShort(d, Some(n)), items, next);
  }

  lemma {:induction false} PageOf(v: seq<Entry>, ns: Bytes, n: nat, out: seq<Entry>, truncated: bool, items: seq<Pair>, next: Option<Bytes>)
    requires n > 0 && Returnable(v, ns) && Returnable(out, ns) && items == Raw(out, ns)
    requires if truncated then |v| >= n && out == v[..n] else out == v
    requires next == if truncated && items != [] then Some(items[|items| - 1].key) else None
    ensures Shows(v, ns, n, items, next)
  {
  }

  lemma {:induction false} VisibleIsView(segs: seq<seq<Entry>>, mem: Table, lo: Bytes, hi: Bytes)
    requires Keyed(mem)
    ensures Visible(Live(AsTable(SegmentList(segs, lo, hi))), Within(mem, lo, hi)) == ViewList(segs, mem, lo, hi)
  {
    var d := Overlay(Live(AsTable(SegmentList(segs, lo, hi))), Within(mem, lo, hi));
    PutsOfSorted(Listing(d));
    ViewWithin(Tables(segs), mem, lo, hi);
    SortedUnique(Puts(Listing(d)), ViewList(segs, mem, lo, hi));
  }

  /** The window behind the `n`-th visible record shows exactly the rest of the view. */
  lemma {:induction false} RestOfWindow(segs: seq<seq<Entry>>, mem: Table, lo: Bytes, hi: Bytes, n: nat)
    requires Keyed(mem) && 0 < n <= |ViewList(segs, mem, lo, hi)|
    ensures var v := ViewList(segs, mem, lo, hi);
            && AtMost(lo, v[n - 1].key + [0])
            && ViewList(segs, mem, v[n - 1].key + [0], hi) == v[n..]
  {
    var v := ViewList(segs, mem, lo, hi);
    var x := v[n - 1].key;
    AsTableOfSorted(v);
    assert x in AsTable(v);
    SuccessorOrder(x, x + [0]);
    SuccessorWindow(View(Tables(segs), mem), lo, x, hi);
    SuffixAbove(v[n..], x);
    CutAbove(v, n, x);
    SortedUnique(ViewList(segs, mem, x + [0], hi), v[n..]);
  }

  lemma {:induction false} SuccessorWindow(m: Table, lo: Bytes, x: Bytes, hi: Bytes)
    requires AtMost(lo, x)
    ensures Within(m, x + [0], hi) == Above(Within(m, lo, hi), x)
  {
    forall k
      ensures AtMost(x + [0], k) <==> Less(x, k)
    {
      SuccessorOrder(x, k);
    }
    NarrowWindow(m, lo, x + [0], hi, x);
  }

  lemma NarrowWindow(m: Table, lo: Bytes, lo': Bytes, hi: Bytes, x: Bytes)
    requires AtMost(lo, x) && forall k :: AtMost(lo', k) <==> Less(x, k)
    ensures Within(m, lo', hi) == Above(Within(m, lo, hi), x)
  {
  }

  lemma ShadowNarrows(l: Table, mem: Table, lo: Bytes, lo': Bytes, hi: Bytes)
    requires NoShadow(Live(Within(l, lo, hi)), Within(mem, lo, hi)) && AtMost(lo, lo')
    ensures NoShadow(Live(Within(l, lo', hi)), Within(mem, lo', hi))
  {
  }

  lemma RawConcat(v: seq<Entry>, j: nat, n: nat, ns: Bytes)
    requires Returnable(v, ns) && j <= n <= |v|
    ensures Raw(v[..j], ns) + Raw(v[j..n], ns) == Raw(v[..n], ns)
  {
  }

  /** The first `j` pairs of a list that can be returned. */
  function FirstPairs(v: seq<Entry>, j: nat, ns: Bytes): seq<Pair> {
    if j <= |v| && Returnable(v, ns) then Raw(v[..j], ns) else []
  }

  /** The first `j` visible records are behind us, the window `[lo, hi)` shows the others. */
  ghost predicate Chained(segs: seq<seq<Entry>>, mem: Table, ns: Bytes, lo: Bytes, hi: Bytes, v: seq<Entry>, j: nat)
    requires Keyed(mem)
  {
    j <= |v| && Returnable(v, ns) && ViewList(segs, mem, lo, hi) == v[j..] && NoShadowIn(segs, mem, lo, hi)
  }

  /** `RangePage` on a window without shadowing tombstones. */
  method ViewPage(segs: seq<seq<Entry>>, mem: Table, ns: Bytes, start: Bytes, end: Bytes, cursor: Option<Bytes>, pageSize: nat,
                  ghost lo: Bytes, ghost hi: Bytes, ghost v: seq<Entry>, ghost j: nat)
    returns (items: seq<Pair>, next: Option<Bytes>)
    requires |ns| <= MaxNamespace && Readers(segs) && Keyed(mem) && pageSize > 0
    requires lo == EncodeKey(ns, From(start, cursor)) && hi == EncodeKey(ns, end) && Chained(segs, mem, ns, lo, hi, v, j)
    ensures Shows(v[j..], ns, pageSize, items, next)
  {
    items, next := RangePage(segs, mem, ns, start, end, cursor, pageSize);
    PageShowsView(segs, mem, ns, From(start, cursor), end, pageSize, items, next);
  }

  lemma {:induction false} AppendPage(v: seq<Entry>, ns: Bytes, j: nat, n: nat, items: seq<Pair>, next: Option<Bytes>)
    requires n > 0 && j <= |v| && Returnable(v, ns) && Shows(v[j..], ns, n, items, next)
    ensures next.None? ==> FirstPairs(v, j, ns) + items == FirstPairs(v, |v|, ns)
    ensures next.Some? ==> j + n <= |v| && FirstPairs(v, j, ns) + items == FirstPairs(v, j + n, ns)
    ensures next.Some? ==> next.value == DecodeKey(v[j + n - 1].key).key
  {
    if next.None? {
      assert v[j..|v|] == v[j..];
      RawConcat(v, j, |v|, ns);
    } else {
      assert v[j..][..n] == v[j..j + n];
      RawConcat(v, j, j + n, ns);
    }
  }

  /** Where the window behind the first `j` visible records starts. */
  predicate StartsBehind(v: seq<Entry>, j: nat, lo0: Bytes, lo: Bytes) {
    j <= |v| && lo == if j == 0 then lo0 else v[j - 1].key + [0]
  }

  lemma {:induction false} WindowBehind(segs: seq<seq<Entry>>, mem: Table, ns: Bytes, lo0: Bytes, hi: Bytes, v: seq<Entry>, j: nat, lo: Bytes)
    requires Keyed(mem) && Chained(segs, mem, ns, lo0, hi, v, 0) && StartsBehind(v, j, lo0, lo)
    ensures Chained(segs, mem, ns, lo, hi, v, j)
  {
    assert v[0..] == v;
    if j > 0 {
      RestOfWindow(segs, mem, lo0, hi, j);
      ShadowNarrows(Newest(Tables(segs)), mem, lo0, lo, hi);
    }
  }

  /** The cursor made from a returned key starts the window right behind it. */
  lemma {:induction false} CursorKey(ns: Bytes, x: Bytes)
    requires |ns| <= MaxNamespace && DecodeKey(x).Decoded? && DecodeKey(x).ns == ns
    ensures EncodeKey(ns, DecodeKey(x).key) == x && EncodeKey(ns, DecodeKey(x).key + [0]) == x + [0]
  {
    EncodeDecode(x);
    assert EncodeKey(ns, DecodeKey(x).key + [0]) == EncodeKey(ns, DecodeKey(x).key) + [0];
  }

  /** Everything a chain of pages over `[start, end)` relies on: the range shows `v`, whose pairs are `pairs`. */
  ghost predicate Pageable(segs: seq<seq<Entry>>, mem: Table, ns: Bytes, start: Bytes, end: Bytes, pageSize: nat, v: seq<Entry>, pairs: seq<Pair>) {
    && |ns| <= MaxNamespace && Readers(segs) && Keyed(mem) && pageSize > 0
    && Chained(segs, mem, ns, EncodeKey(ns, start), EncodeKey(ns, end), v, 0)
    && |pairs| == |v| && pairs == FirstPairs(v, |v|, ns)
  }

  /** `all` are the first `j` pairs, and the cursor stands behind them. */
  predicate Reached(v: seq<Entry>, pairs: seq<Pair>, ns: Bytes, start: Bytes, cursor: Option<Bytes>, j: nat, all: seq<Pair>) {
    && |ns| <= MaxNamespace && j <= |v| == |pairs| && all == pairs[..j]
    && StartsBehind(v, j, EncodeKey(ns, start), EncodeKey(ns, From(start, cursor)))
  }

  /** One link of the chain: the pairs so far with the page added, and the cursor behind it. */
  method PageLink(segs: seq<seq<Entry>>, mem: Table, ns: Bytes, start: Bytes, end: Bytes, cursor: Option<Bytes>, pageSize: nat, all: seq<Pair>,
                  ghost v: seq<Entry>, ghost pairs: seq<Pair>, ghost j: nat)
    returns (more: seq<Pair>, next: Option<Bytes>)
    requires Pageable(segs, mem, ns, start, end, pageSize, v, pairs) && Reached(v, pairs, ns, start, cursor, j, all)
    ensures if next.None? then more == pairs else Reached(v, pairs, ns, start, next, j + pageSize, more)
  {
    ghost var lo, hi := EncodeKey(ns, From(start, cursor)), EncodeKey(ns, end);
    WindowBehind(segs, mem, ns, EncodeKey(ns, start), hi, v, j, lo);
    var items;
    items, next := ViewPage(segs, mem, ns, start, end, cursor, pageSize, lo, hi, v, j);
    more := all + items;
    LinkStep(v, ns, start, j, pageSize, items, next);
  }

  lemma {:induction false} LinkStep(v: seq<Entry>, ns: Bytes, start: Bytes, j: nat, n: nat, items: seq<Pair>, next: Option<Bytes>)
    requires |ns| <= MaxNamespace && n > 0 && j <= |v| && Returnable(v, ns) && Shows(v[j..], ns, n, items, next)
    ensures var pairs := FirstPairs(v, |v|, ns);
            && |pairs| == |v| && (next.None? ==> pairs[..j] + items == pairs)
            && (next.Some? ==> Reached(v, pairs, ns, start, next, j + n, pairs[..j] + items))
  {
    AppendPage(v, ns, j, n, items, next);
    PairsPrefix(v, j, ns);
    if next.Some? {
      PairsPrefix(v, j + n, ns);
      CursorKey(ns, v[j + n - 1].key);
    }
  }

  lemma PairsPrefix(v: seq<Entry>, j: nat, ns: Bytes)
    requires j <= |v| && Returnable(v, ns)
    ensures |FirstPairs(v, |v|, ns)| == |v| && FirstPairs(v, |v|, ns)[..j] == FirstPairs(v, j, ns)
  {
  }

  /** The loop over pages, for a range that shows `v`. */
  method ChainFrom(segs: seq<seq<Entry>>, mem: Table, ns: Bytes, start: Bytes, end: Bytes, pageSize: nat, ghost v: seq<Entry>, ghost pairs: seq<Pair>)
    returns (all: seq<Pair>)
    requires Pageable(segs, mem, ns, start, end, pageSize, v, pairs)
    ensures all == pairs
  {
    ghost var j: nat := 0;
    all := [];
    var cursor: Option<Bytes> := None;
    while true
      invariant Reached(v, pairs, ns, start, cursor, j, all)
      decreases |v| - j
    {
      var next;
      all, next := PageLink(segs, mem, ns, start, end, cursor, pageSize, all, v, pairs, j);
      if next.None? {
        return;
      }
      j := j + pageSize;
      cursor := next;
    }
  }

  /** Chaining pages from no cursor until none comes back: it ends, and the pages concatenate to
      exactly the range, nothing lost and nothing repeated. */
  method ChainPages(segs: seq<seq<Entry>>, mem: Table, ns: Bytes, start: Bytes, end: Bytes, pageSize: nat)
    returns (all: seq<Pair>)
    requires |ns| <= MaxNamespace && Readers(segs) && Keyed(mem) && pageSize > 0
    requires NoShadowIn(segs, mem, EncodeKey(ns, start), EncodeKey(ns, end))
    ensures var v := ViewList(segs, mem, EncodeKey(ns, start), EncodeKey(ns, end));
            Returnable(v, ns) && all == Raw(v, ns)
  {
    ghost var v := ViewList(segs, mem, EncodeKey(ns, start), EncodeKey(ns, end));
    ViewReturnable(segs, mem, ns, start, end);
    assert v[0..] == v && v[..|v|] == v;
    all := ChainFrom(segs, mem, ns, start, end, pageSize, v, Raw(v, ns));
  }
}
