/** Scans over the segment list and the memtable: pruning, merging, deduplication and budgets. */
module Scan {
  import opened ByteStrings
  import opened Entries
  import opened Merge
  import opened MergeReverse

  // ---- One segment ----

  predicate InRange(k: Bytes, lo: Bytes, hi: Bytes) {
    AtMost(lo, k) && Less(k, hi)
  }

  /** The records of a sorted segment with keys in `[lo, hi)`. */
  function Slice(s: seq<Entry>, lo: Bytes, hi: Bytes): seq<Entry> {
    if s == [] then []
    else Slice(s[..|s| - 1], lo, hi) + (if InRange(s[|s| - 1].key, lo, hi) then [s[|s| - 1]] else [])
  }

  lemma {:induction false} SliceWithin(s: seq<Entry>, lo: Bytes, hi: Bytes)
    requires Sorted(s)
    ensures Sorted(Slice(s, lo, hi)) && AsTable(Slice(s, lo, hi)) == Within(AsTable(s), lo, hi)
  {
    if s != [] {
      var s', e := s[..|s| - 1], s[|s| - 1];
      SliceWithin(s', lo, hi);
      DropLast(s);
      if InRange(e.key, lo, hi) {
        assert Within(AsTable(s), lo, hi) == Within(AsTable(s'), lo, hi)[e.key := e];
        AppendGreater(Slice(s', lo, hi), e);
      } else {
        assert Within(AsTable(s), lo, hi) == Within(AsTable(s'), lo, hi);
        assert Slice(s, lo, hi) == Slice(s', lo, hi);
      }
    }
  }

  /** Metadata pruning: `[min_key, max_key]` meets `[lo, hi)`. */
  predicate Overlaps(s: seq<Entry>, lo: Bytes, hi: Bytes)
    requires s != []
  {
    Less(s[0].key, hi) && AtMost(lo, s[|s| - 1].key)
  }

  lemma {:induction false} PrunedIsEmpty(s: seq<Entry>, lo: Bytes, hi: Bytes)
    requires s != [] && Sorted(s) && !Overlaps(s, lo, hi)
    ensures Slice(s, lo, hi) == []
  {
    NoneInRange(s, lo, hi);
  }

  lemma {:induction false} NoneInRange(s: seq<Entry>, lo: Bytes, hi: Bytes)
    requires forall i :: 0 <= i < |s| ==> !InRange(s[i].key, lo, hi)
    ensures Slice(s, lo, hi) == []
  {
    if s != [] {
      NoneInRange(s[..|s| - 1], lo, hi);
    }
  }

  // ---- The segment list ----

  predicate Readers(segs: seq<seq<Entry>>) {
    && (forall i :: 0 <= i < |segs| ==> segs[i] != [] && Sorted(segs[i]))
    && Consistent(Tables(segs))
  }

  lemma WithinOverlay(a: Table, b: Table, lo: Bytes, hi: Bytes)
    ensures Overlay(Within(a, lo, hi), Within(b, lo, hi)) == Within(Overlay(a, b), lo, hi)
  {
  }

  lemma {:induction false} NewestSnoc(ts: seq<Table>, t: Table)
    ensures Newest(ts + [t]) == Overlay(Newest(ts), t)
    ensures t == map[] ==> Newest(ts + [t]) == Newest(ts)
  {
    assert (ts + [t])[..|ts|] == ts;
  }

  /** What the segments alone hold in `[lo, hi)`: the highest LSN per key, tombstones included. */
  ghost function SegmentList(segs: seq<seq<Entry>>, lo: Bytes, hi: Bytes): (s: seq<Entry>)
    ensures Sorted(s) && AsTable(s) == Within(Newest(Tables(segs)), lo, hi)
  {
    NewestKeyed(Tables(segs));
    Listing(Within(Newest(Tables(segs)), lo, hi))
  }

  predicate SliceOf(c: seq<Entry>, segs: seq<seq<Entry>>, i: int, lo: Bytes, hi: Bytes) {
    0 <= i < |segs| && c == Slice(segs[i], lo, hi)
  }

  ghost predicate IsSlice(c: seq<Entry>, segs: seq<seq<Entry>>, lo: Bytes, hi: Bytes) {
    exists i :: SliceOf(c, segs, i, lo, hi)
  }

  ghost predicate AllSlices(cursors: seq<seq<Entry>>, segs: seq<seq<Entry>>, lo: Bytes, hi: Bytes) {
    forall j :: 0 <= j < |cursors| ==> IsSlice(cursors[j], segs, lo, hi)
  }

  /** Cursors opened so far: one slice for every overlapping segment. */
  ghost predicate Opened(cursors: seq<seq<Entry>>, segs: seq<seq<Entry>>, n: nat, lo: Bytes, hi: Bytes)
    requires n <= |segs|
  {
    && AllSlices(cursors, segs, lo, hi)
    && Newest(Tables(cursors)) == Within(Newest(Tables(segs[..n])), lo, hi)
  }

  lemma {:induction false} TablesSnoc(cs: seq<seq<Entry>>, c: seq<Entry>)
    ensures Tables(cs + [c]) == Tables(cs) + [AsTable(c)]
  {
  }

  lemma {:induction false} OpenNext(cursors: seq<seq<Entry>>, segs: seq<seq<Entry>>, n: nat, lo: Bytes, hi: Bytes)
    requires n < |segs| && Readers(segs) && Opened(cursors, segs, n, lo, hi)
    ensures Opened(cursors + [Slice(segs[n], lo, hi)], segs, n + 1, lo, hi)
    ensures Slice(segs[n], lo, hi) == [] ==> Opened(cursors, segs, n + 1, lo, hi)
  {
    var c := Slice(segs[n], lo, hi);
    SliceWithin(segs[n], lo, hi);
    assert SliceOf(c, segs, n, lo, hi);
    assert segs[..n + 1] == segs[..n] + [segs[n]];
    TablesSnoc(segs[..n], segs[n]);
    TablesSnoc(cursors, c);
    NewestSnoc(Tables(segs[..n]), AsTable(segs[n]));
    NewestSnoc(Tables(cursors), AsTable(c));
    WithinOverlay(Newest(Tables(segs[..n])), AsTable(segs[n]), lo, hi);
    assert IsSlice(c, segs, lo, hi);
  }

  lemma {:induction false} OpenedAll(cursors: seq<seq<Entry>>, segs: seq<seq<Entry>>, lo: Bytes, hi: Bytes)
    requires Readers(segs) && Opened(cursors, segs, |segs|, lo, hi)
    ensures AllSorted(cursors) && Consistent(Tables(cursors))
    ensures FullMerge(cursors) == SegmentList(segs, lo, hi)
  {
    assert segs[..|segs|] == segs;
    SortedUnique(FullMerge(cursors), SegmentList(segs, lo, hi));
    forall j | 0 <= j < |cursors|
      ensures Sorted(cursors[j])
    {
      var i :| SliceOf(cursors[j], segs, i, lo, hi);
      SliceWithin(segs[i], lo, hi);
    }
    forall a, b | 0 <= a < |cursors| && 0 <= b < |cursors|
      ensures Agree(Tables(cursors)[a], Tables(cursors)[b])
    {
      SlicesAgree(cursors, segs, a, b, lo, hi);
    }
  }

  lemma {:induction false} SlicesAgree(cursors: seq<seq<Entry>>, segs: seq<seq<Entry>>, a: nat, b: nat, lo: Bytes, hi: Bytes)
    requires Readers(segs) && Opened(cursors, segs, |segs|, lo, hi) && a < |cursors| && b < |cursors|
    ensures Agree(AsTable(cursors[a]), AsTable(cursors[b]))
  {
    var i :| SliceOf(cursors[a], segs, i, lo, hi);
    var j :| SliceOf(cursors[b], segs, j, lo, hi);
    SliceWithin(segs[i], lo, hi);
    SliceWithin(segs[j], lo, hi);
    assert Agree(Tables(segs)[i], Tables(segs)[j]);
  }

  /** Opens a cursor for every overlapping segment, then runs the streaming merge. */
  method RangeScanBudgeted(segs: seq<seq<Entry>>, lo: Bytes, hi: Bytes, maxItems: Option<nat>)
    returns (results: seq<Entry>, truncated: bool)
    requires Readers(segs)
    ensures Budgeted(results, truncated, SegmentList(segs, lo, hi), maxItems)
  {
    var cursors: seq<seq<Entry>> := [];
    for n := 0 to |segs|
      invariant Opened(cursors, segs, n, lo, hi)
    {
      OpenNext(cursors, segs, n, lo, hi);
      if Overlaps(segs[n], lo, hi) {
        cursors := cursors + [Slice(segs[n], lo, hi)];
      } else {
        PrunedIsEmpty(segs[n], lo, hi);
      }
    }
    OpenedAll(cursors, segs, lo, hi);
    results, truncated := MergeForward(cursors, maxItems);
  }

  /** Reads every overlapping segment and merges from the tails. */
  method RangeScanRevBudgeted(segs: seq<seq<Entry>>, lo: Bytes, hi: Bytes, maxItems: nat) returns (results: seq<Entry>)
    requires Readers(segs)
    ensures results == Descending(SegmentList(segs, lo, hi), maxItems)
  {
    var perReader: seq<seq<Entry>> := [];
    for n := 0 to |segs|
      invariant Opened(perReader, segs, n, lo, hi)
    {
      OpenNext(perReader, segs, n, lo, hi);
      if Overlaps(segs[n], lo, hi) {
        var seg := Slice(segs[n], lo, hi);
        if seg != [] {
          perReader := perReader + [seg];
        }
      } else {
        PrunedIsEmpty(segs[n], lo, hi);
      }
    }
    OpenedAll(perReader, segs, lo, hi);
    results := MergeBackward(perReader, maxItems);
  }

  // ---- Segments and memtable together ----

  /** What a reader sees: the live segment records overlaid with the memtable, tombstones gone. */
  function View(segTables: seq<Table>, mem: Table): Table {
    Live(Overlay(Live(Newest(segTables)), mem))
  }

  ghost function ViewList(segs: seq<seq<Entry>>, mem: Table, lo: Bytes, hi: Bytes): (s: seq<Entry>)
    requires Keyed(mem)
    ensures Sorted(s) && AsTable(s) == Within(View(Tables(segs), mem), lo, hi)
  {
    NewestKeyed(Tables(segs));
    Listing(Within(View(Tables(segs), mem), lo, hi))
  }

  function Dedup(p: seq<Entry>): seq<Entry> {
    if p == [] then [] else Bump(Dedup(p[..|p| - 1]), p[|p| - 1])
  }

  lemma DedupSnoc(p: seq<Entry>, e: Entry)
    ensures Dedup(p + [e]) == Bump(Dedup(p), e)
  {
    assert (p + [e])[..|p|] == p;
  }

  /** The two-pointer merge of the segment run and the memtable run; the segment record of a
      shared key goes first. */
  method MergeSortedScans(seg: seq<Entry>, mem: seq<Entry>) returns (out: seq<Entry>)
    requires Sorted(seg) && Sorted(mem)
    ensures |out| == |seg| + |mem|
    ensures Sorted(Dedup(out)) && AsTable(Dedup(out)) == Overlay(AsTable(seg), AsTable(mem))
  {
    out := [];
    var si, mi := 0, 0;
    assert seg[..0] == [] && mem[..0] == [];
    ghost var m := Dedup(out);
    while si < |seg| || mi < |mem|
      invariant 0 <= si <= |seg| && 0 <= mi <= |mem| && |out| == si + mi
      invariant m == Dedup(out) && Merged(seg, mem, si, mi, m)
      decreases |seg| - si + |mem| - mi
    {
      if si < |seg| && (mi >= |mem| || AtMost(seg[si].key, mem[mi].key)) {
        TakeSegment(seg, mem, si, mi, m);
        DedupSnoc(out, seg[si]);
        m := Bump(m, seg[si]);
        out := out + [seg[si]];
        si := si + 1;
      } else {
        TakeMemtable(seg, mem, si, mi, m);
        DedupSnoc(out, mem[mi]);
        m := Bump(m, mem[mi]);
        out := out + [mem[mi]];
        mi := mi + 1;
      }
    }
    MergedAll(seg, mem, si, mi, m);
  }

  lemma MergedAll(seg: seq<Entry>, mem: seq<Entry>, si: nat, mi: nat, m: seq<Entry>)
    requires si == |seg| && mi == |mem| && Merged(seg, mem, si, mi, m)
    ensures Sorted(m) && AsTable(m) == Overlay(AsTable(seg), AsTable(mem))
  {
    assert seg[..si] == seg && mem[..mi] == mem;
  }

  /** `m` is the merge of the consumed parts, and neither input has been overtaken. */
  ghost predicate Merged(seg: seq<Entry>, mem: seq<Entry>, si: nat, mi: nat, m: seq<Entry>)
    requires si <= |seg| && mi <= |mem|
  {
    && Sorted(m) && AsTable(m) == Overlay(AsTable(seg[..si]), AsTable(mem[..mi]))
    && (si < |seg| ==> AllBelow(AsTable(m), seg[si].key))
    && (mi < |mem| && m != [] ==> AtMost(m[|m| - 1].key, mem[mi].key))
  }

  lemma OverlayFirst(a: Table, b: Table, e: Entry)
    requires e.key !in b && e.key !in a
    ensures Overlay(a[e.key := e], b) == Overlay(Overlay(a, b), map[e.key := e])
  {
  }

  lemma OverlaySecond(a: Table, b: Table, e: Entry)
    requires e.key !in b
    ensures Overlay(a, b[e.key := e]) == Overlay(Overlay(a, b), map[e.key := e])
  {
  }

  lemma {:induction false} BumpBelow(m: seq<Entry>, e: Entry, x: Bytes)
    requires Sorted(m) && (m != [] ==> AtMost(m[|m| - 1].key, e.key)) && Less(e.key, x)
    ensures AllBelow(AsTable(Bump(m, e)), x)
  {
    BumpIsOverlay(m, e);
    PrefixBelow(m, x);
  }

  lemma LastBelow(m: seq<Entry>, x: Bytes)
    requires m != [] && AllBelow(AsTable(m), x)
    ensures Less(m[|m| - 1].key, x)
  {
  }

  lemma BeyondOverlay(m: Table, a: Table, b: Table, x: Bytes)
    requires m == Overlay(a, b) && AllBelow(m, x)
    ensures x !in a && x !in b
  {
    assert x in a || x in b ==> x in m;
  }

  lemma {:induction false} TakeSegment(seg: seq<Entry>, mem: seq<Entry>, si: nat, mi: nat, m: seq<Entry>)
    requires Sorted(seg) && si < |seg| && mi <= |mem| && Merged(seg, mem, si, mi, m)
    requires mi < |mem| ==> AtMost(seg[si].key, mem[mi].key)
    ensures Merged(seg, mem, si + 1, mi, Bump(m, seg[si]))
  {
    var e := seg[si];
    if m != [] {
      LastBelow(m, e.key);
    }
    BumpIsOverlay(m, e);
    SortedSplit(seg, si);
    BeyondOverlay(AsTable(m), AsTable(seg[..si]), AsTable(mem[..mi]), e.key);
    OverlayFirst(AsTable(seg[..si]), AsTable(mem[..mi]), e);
    if si + 1 < |seg| {
      BumpBelow(m, e, seg[si + 1].key);
    }
  }

  lemma {:induction false} TakeMemtable(seg: seq<Entry>, mem: seq<Entry>, si: nat, mi: nat, m: seq<Entry>)
    requires Sorted(mem) && si <= |seg| && mi < |mem| && Merged(seg, mem, si, mi, m)
    requires si < |seg| ==> Less(mem[mi].key, seg[si].key)
    ensures Merged(seg, mem, si, mi + 1, Bump(m, mem[mi]))
  {
    var e := mem[mi];
    BumpIsOverlay(m, e);
    SortedSplit(mem, mi);
    OverlaySecond(AsTable(seg[..si]), AsTable(mem[..mi]), e);
    if si < |seg| {
      BumpBelow(m, e, seg[si].key);
    }
  }
}
