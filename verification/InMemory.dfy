/** The in-memory segment reader, with its first-key-per-block index built from the bytes, and the
    read-only engine over a list of such readers. */
module InMemory {
  import opened ByteStrings
  import opened Entries
  import opened Scan
  import opened SegmentCodec
  import opened SegmentFile

  /** Reads the block at `offset`; in a written segment there is one exactly before the end. */
  method FetchInMemory(z: Zstd, file: Bytes, offset: nat, capped: bool, ghost blocks: seq<seq<Entry>>, ghost entries: seq<Entry>, ghost j: nat, ghost pos: nat)
    returns (b: BlockRead)
    ensures b.Block? ==> b.size >= 8 && offset < |file|
    ensures AtBlock(z, file, blocks, entries, offset, j, pos) ==>
              if offset < |file| then ReadsBlock(z, file, blocks, entries, offset, j, pos, b) else b.NoBlock? && pos == |entries|
  {
    if AtBlock(z, file, blocks, entries, offset, j, pos) {
      StepBlock(z, file, blocks, entries, offset, j, pos);
    }
    b := BlockInMemory(z, file, offset, capped);
  }

  // ---- Building the index ----

  /** Entry `t` holds block `t`'s first key and offset. */
  predicate FirstKeyAt(z: Zstd, index: seq<IndexEntry>, blocks: seq<seq<Entry>>, t: nat)
    requires Writable(blocks) && t < |index| <= |blocks|
  {
    WritableBlock(blocks[t]) && index[t].key == blocks[t][0].key && index[t].offset == Offset(z, blocks, t)
  }

  predicate FirstKeys(z: Zstd, index: seq<IndexEntry>, blocks: seq<seq<Entry>>) {
    Writable(blocks) && |index| <= |blocks| && forall t :: 0 <= t < |index| ==> FirstKeyAt(z, index, blocks, t)
  }

  ghost function PlacesOf(blocks: seq<seq<Entry>>): (ps: seq<Place>)
    ensures |ps| == |blocks| && forall t :: 0 <= t < |blocks| ==> ps[t] == Place(t, StartOf(blocks, t))
  {
    seq(|blocks|, t requires 0 <= t < |blocks| => Place(t, StartOf(blocks, t)))
  }

  lemma {:induction false} StartsIncrease(blocks: seq<seq<Entry>>, i: nat, j: nat)
    requires Writable(blocks) && i < j <= |blocks|
    ensures StartOf(blocks, i) < StartOf(blocks, j)
    decreases j
  {
    BlockIsSlice(blocks, j - 1);
    assert WritableBlock(blocks[j - 1]);
    if i < j - 1 {
      StartsIncrease(blocks, i, j - 1);
    }
  }

  lemma {:induction false} OffsetsIncrease(z: Zstd, blocks: seq<seq<Entry>>, i: nat, j: nat)
    requires Lossless(z) && Writable(blocks) && i < j <= |blocks|
    ensures Offset(z, blocks, i) < Offset(z, blocks, j)
    decreases j
  {
    ReadBlockAt(z, blocks, j - 1);
    if i < j - 1 {
      OffsetsIncrease(z, blocks, i, j - 1);
    }
  }

  /** The first-key index also fits the search that the sparse index is made for. */
  lemma {:induction false} FirstKeysOpen(z: Zstd, file: Bytes, index: seq<IndexEntry>, blocks: seq<seq<Entry>>, entries: seq<Entry>)
    requires Segment(z, file, blocks, entries) && FirstKeys(z, index, blocks) && |index| == |blocks| && blocks != []
    ensures OpenSegment(z, file, index, blocks, entries, PlacesOf(blocks))
  {
    var places := PlacesOf(blocks);
    forall t | 0 <= t < |index|
      ensures IndexAt(z, index, places, entries, blocks, t)
    {
      FirstKeyPlaced(z, index, blocks, entries, t);
    }
    forall i, j | 0 <= i < j < |places|
      ensures places[i].record < places[j].record
    {
      StartsIncrease(blocks, i, j);
    }
    StartEnds(blocks);
  }

  lemma {:induction false} FirstKeyPlaced(z: Zstd, index: seq<IndexEntry>, blocks: seq<seq<Entry>>, entries: seq<Entry>, t: nat)
    requires FirstKeys(z, index, blocks) && |index| == |blocks| && t < |index| && entries == Flatten(blocks)
    ensures IndexAt(z, index, PlacesOf(blocks), entries, blocks, t)
  {
    assert FirstKeyAt(z, index, blocks, t);
    BlockIsSlice(blocks, t);
    assert entries[StartOf(blocks, t)] == entries[StartOf(blocks, t)..StartOf(blocks, t + 1)][0];
  }

  /** Scanning state of the index builder. */
  ghost predicate Building(z: Zstd, file: Bytes, blocks: seq<seq<Entry>>, entries: seq<Entry>, offset: nat, pos: nat,
                           index: seq<IndexEntry>, keys: seq<Bytes>) {
    && AtBlock(z, file, blocks, entries, offset, |index|, pos)
    && FirstKeys(z, index, blocks)
    && |keys| == pos && forall i :: 0 <= i < pos ==> keys[i] == entries[i].key
  }

  lemma {:induction false} BuildStep(z: Zstd, file: Bytes, blocks: seq<seq<Entry>>, entries: seq<Entry>, offset: nat, pos: nat,
                                     index: seq<IndexEntry>, keys: seq<Bytes>, b: BlockRead)
    requires Building(z, file, blocks, entries, offset, pos, index, keys) && ReadsBlock(z, file, blocks, entries, offset, |index|, pos, b)
    ensures Building(z, file, blocks, entries, offset + b.size, pos + |b.entries|,
                     index + [IndexEntry(b.entries[0].key, offset)], keys + KeysOf(b.entries))
  {
    BlockHead(blocks, |index|, b.entries);
    IndexFirstKey(z, blocks, index, b.entries[0].key);
    BuildKeys(entries, pos, b.entries, keys);
  }

  lemma {:induction false} IndexFirstKey(z: Zstd, blocks: seq<seq<Entry>>, index: seq<IndexEntry>, key: Bytes)
    requires FirstKeys(z, index, blocks) && |index| < |blocks| && WritableBlock(blocks[|index|]) && key == blocks[|index|][0].key
    ensures FirstKeys(z, index + [IndexEntry(key, Offset(z, blocks, |index|))], blocks)
  {
    var index' := index + [IndexEntry(key, Offset(z, blocks, |index|))];
    forall t | 0 <= t < |index'|
      ensures FirstKeyAt(z, index', blocks, t)
    {
      if t < |index| {
        assert FirstKeyAt(z, index, blocks, t);
      }
    }
  }

  lemma {:induction false} BlockHead(blocks: seq<seq<Entry>>, j: nat, es: seq<Entry>)
    requires Writable(blocks) && j < |blocks| && es != []
    requires StartOf(blocks, j) + |es| <= |Flatten(blocks)| && Flatten(blocks)[StartOf(blocks, j)..StartOf(blocks, j) + |es|] == es
    ensures WritableBlock(blocks[j]) && es[0] == blocks[j][0] == Flatten(blocks)[StartOf(blocks, j)]
  {
    assert WritableBlock(blocks[j]);
    BlockIsSlice(blocks, j);
    var p := StartOf(blocks, j);
    assert Flatten(blocks)[p] == Flatten(blocks)[p..p + |es|][0];
    assert Flatten(blocks)[p] == Flatten(blocks)[p..StartOf(blocks, j + 1)][0];
  }

  function KeysOf(es: seq<Entry>): (ks: seq<Bytes>)
    ensures |ks| == |es| && forall i :: 0 <= i < |es| ==> ks[i] == es[i].key
  {
    seq(|es|, i requires 0 <= i < |es| => es[i].key)
  }

  lemma {:induction false} BuildKeys(entries: seq<Entry>, pos: nat, es: seq<Entry>, keys: seq<Bytes>)
    requires pos + |es| <= |entries| && entries[pos..pos + |es|] == es
    requires |keys| == pos && forall i :: 0 <= i < pos ==> keys[i] == entries[i].key
    ensures forall i :: 0 <= i < pos + |es| ==> (keys + KeysOf(es))[i] == entries[i].key
  {
    forall i | pos <= i < pos + |es|
      ensures (keys + KeysOf(es))[i] == entries[i].key
    {
      assert entries[i] == entries[pos..pos + |es|][i - pos];
    }
  }

  /** Walks the blocks once, indexing the first key of each and collecting all keys for the filter. */
  method FromBytes(z: Zstd, file: Bytes, ghost blocks: seq<seq<Entry>>, ghost entries: seq<Entry>)
    returns (r: Read<(seq<IndexEntry>, seq<Bytes>)>)
    ensures |file| < HeaderLen ==> r == SegmentCorrupt
    ensures Segment(z, file, blocks, entries) ==>
              && r.Ok? && FirstKeys(z, r.value.0, blocks) && |r.value.0| == |blocks|
              && |r.value.1| == |entries| && forall i :: 0 <= i < |entries| ==> r.value.1[i] == entries[i].key
  {
    ghost var ok := Segment(z, file, blocks, entries);
    if ok {
      StartBuilding(z, file, blocks, entries);
    }
    if |file| < HeaderLen {
      return SegmentCorrupt;
    }
    var index: seq<IndexEntry>, keys: seq<Bytes>, offset: nat := [], [], HeaderLen;
    ghost var pos: nat := 0;
    while offset < |file|
      invariant ok ==> Building(z, file, blocks, entries, offset, pos, index, keys)
      decreases |file| - offset
    {
      var b := FetchInMemory(z, file, offset, false, blocks, entries, |index|, pos);
      if ok {
        BuildStep(z, file, blocks, entries, offset, pos, index, keys, b);
      }
      if b.CorruptBlock? {
        return SegmentCorrupt;
      }
      if b.NoBlock? {
        return Ok((index, keys));
      }
      keys := keys + KeysOf(b.entries);
      if b.entries != [] {
        index := index + [IndexEntry(b.entries[0].key, offset)];
      }
      offset := offset + b.size;
      pos := pos + |b.entries|;
    }
    if ok {
      BuildEnds(z, file, blocks, entries, offset, pos, index, keys);
    }
    return Ok((index, keys));
  }

  lemma {:induction false} StartBuilding(z: Zstd, file: Bytes, blocks: seq<seq<Entry>>, entries: seq<Entry>)
    requires Segment(z, file, blocks, entries)
    ensures |file| >= HeaderLen && Building(z, file, blocks, entries, HeaderLen, 0, [], [])
  {
    OffsetEnd(z, blocks);
    FilePrefix(z, blocks, 0);
    StartEnds(blocks);
  }

  lemma {:induction false} BuildEnds(z: Zstd, file: Bytes, blocks: seq<seq<Entry>>, entries: seq<Entry>, offset: nat, pos: nat,
                                     index: seq<IndexEntry>, keys: seq<Bytes>)
    requires Building(z, file, blocks, entries, offset, pos, index, keys) && offset >= |file|
    ensures pos == |entries| && |index| == |blocks|
  {
    StepBlock(z, file, blocks, entries, offset, |index|, pos);
    OffsetEnd(z, blocks);
    if |index| < |blocks| {
      OffsetsIncrease(z, blocks, |index|, |blocks|);
    }
  }

  // ---- Point lookup ----

  /** The better of two candidates: the higher LSN, the first on a tie. */
  function Better(best: Option<Entry>, e: Entry): Option<Entry> {
    if best.None? || e.lsn > best.value.lsn then Some(e) else best
  }

  predicate Absent(es: seq<Entry>, k: Bytes) {
    forall e :: e in es ==> e.key != k
  }

  /** `best` is a record of `k`, or there is none. */
  predicate FoundIn(es: seq<Entry>, k: Bytes, best: Option<Entry>) {
    if best.None? then Absent(es, k) else best.value in es && best.value.key == k
  }

  lemma {:induction false} FoundIsLookup(entries: seq<Entry>, k: Bytes, best: Option<Entry>)
    requires Sorted(entries) && FoundIn(entries, k, best)
    ensures best == Lookup(entries, k)
  {
    AsTableMembers(entries);
    AsTableOfSorted(entries);
  }

  ghost predicate IsBest(es: seq<Entry>, k: Bytes, best: Option<Entry>, r: Option<Entry>, hasKey: bool) {
    if hasKey then exists e :: e in es && e.key == k && r == Better(best, e) else Absent(es, k) && r == best
  }

  /** Scans one block for `k`, keeping the best record, and stops at the first greater key. */
  method BestInBlock(es: seq<Entry>, k: Bytes, best: Option<Entry>) returns (r: Option<Entry>, hasKey: bool)
    ensures Sorted(es) ==> IsBest(es, k, best, r, hasKey)
  {
    r, hasKey := best, false;
    for i := 0 to |es|
      invariant Sorted(es) ==> IsBest(es[..i], k, best, r, hasKey)
    {
      assert es[..i + 1] == es[..i] + [es[i]];
      assert Sorted(es) && hasKey ==> es[i].key != k;
      if es[i].key == k {
        hasKey, r := true, Better(r, es[i]);
      }
      if Less(k, es[i].key) {
        return;
      }
    }
    assert es[..|es|] == es;
  }

  /** The first key recorded for the block at `offset`. */
  function FirstKeyOf(index: seq<IndexEntry>, offset: nat): (r: Option<Bytes>)
    ensures r.Some? ==> exists t :: 0 <= t < |index| && index[t] == IndexEntry(r.value, offset)
  {
    if index == [] then None
    else if index[0].offset == offset then Some(index[0].key)
    else
      var rest := FirstKeyOf(index[1..], offset);
      assert rest.Some? ==> exists t :: 0 <= t < |index| && index[t] == IndexEntry(rest.value, offset) by {
        if rest.Some? {
          var t :| 0 <= t < |index[1..]| && index[1..][t] == IndexEntry(rest.value, offset);
          assert index[t + 1] == IndexEntry(rest.value, offset);
        }
      }
      rest
  }

  /** The best candidate so far is what the records before `pos` hold. */
  ghost predicate Searching(z: Zstd, file: Bytes, blocks: seq<seq<Entry>>, entries: seq<Entry>, offset: nat, j: nat, pos: nat,
                            k: Bytes, best: Option<Entry>) {
    AtBlock(z, file, blocks, entries, offset, j, pos) && FoundIn(entries[..pos], k, best)
  }

  lemma {:induction false} SearchOn(entries: seq<Entry>, pos: nat, es: seq<Entry>, k: Bytes, best: Option<Entry>, best': Option<Entry>, hasKey: bool)
    requires pos + |es| <= |entries| && entries[pos..pos + |es|] == es
    requires FoundIn(entries[..pos], k, best) && IsBest(es, k, best, best', hasKey)
    ensures FoundIn(entries[..pos + |es|], k, best')
  {
    assert entries[..pos + |es|] == entries[..pos] + es;
  }

  lemma {:induction false} BlockSorted(entries: seq<Entry>, pos: nat, es: seq<Entry>)
    requires Sorted(entries) && pos + |es| <= |entries| && entries[pos..pos + |es|] == es
    ensures Sorted(es)
  {
    assert forall i :: 0 <= i < |es| ==> es[i] == entries[pos..pos + |es|][i];
  }

  /** Once a record's key is past `k`, nothing later is `k`'s. */
  lemma {:induction false} SearchDone(entries: seq<Entry>, pos: nat, k: Bytes, best: Option<Entry>)
    requires Sorted(entries) && pos <= |entries| && (pos < |entries| ==> Less(k, entries[pos].key))
    requires FoundIn(entries[..pos], k, best)
    ensures best == Lookup(entries, k)
  {
    assert entries == entries[..pos] + entries[pos..];
    FoundIsLookup(entries, k, best);
  }

  /** A block whose first key is past `k` decides. */
  lemma {:induction false} SameOffset(z: Zstd, blocks: seq<seq<Entry>>, t: nat, j: nat)
    requires Lossless(z) && Writable(blocks) && t <= |blocks| && j <= |blocks|
    ensures Offset(z, blocks, t) == Offset(z, blocks, j) <==> t == j
  {
    if t < j {
      OffsetsIncrease(z, blocks, t, j);
    } else if j < t {
      OffsetsIncrease(z, blocks, j, t);
    }
  }

  lemma {:induction false} FirstKeyDecides(z: Zstd, file: Bytes, index: seq<IndexEntry>, blocks: seq<seq<Entry>>, entries: seq<Entry>,
                                           offset: nat, j: nat, pos: nat)
    requires AtBlock(z, file, blocks, entries, offset, j, pos) && j < |blocks|
    requires FirstKeys(z, index, blocks) && FirstKeyOf(index, offset).Some?
    ensures pos < |entries| && entries[pos].key == FirstKeyOf(index, offset).value
  {
    var t :| 0 <= t < |index| && index[t] == IndexEntry(FirstKeyOf(index, offset).value, offset);
    assert FirstKeyAt(z, index, blocks, t);
    SameOffset(z, blocks, t, j);
    BlockIsSlice(blocks, j);
    BlockHead(blocks, j, blocks[j]);
  }

  ghost predicate ParsedFrom(z: Zstd, file: Bytes, index: seq<IndexEntry>, blocks: seq<seq<Entry>>, entries: seq<Entry>) {
    Segment(z, file, blocks, entries) && FirstKeys(z, index, blocks) && |index| == |blocks| && blocks != []
  }

  /** One block of the lookup, with the decision whether to go on. */
  method SearchBlock(z: Zstd, file: Bytes, index: seq<IndexEntry>, k: Bytes, offset: nat, best: Option<Entry>,
                     ghost blocks: seq<seq<Entry>>, ghost entries: seq<Entry>, ghost j: nat, ghost pos: nat)
    returns (r: Read<Option<Entry>>, next: nat, stop: bool, ghost n: nat)
    ensures stop || r.SegmentCorrupt? || (offset < next && offset < |file|)
    ensures ParsedFrom(z, file, index, blocks, entries) && Searching(z, file, blocks, entries, offset, j, pos, k, best) ==>
              && r.Ok? && (stop ==> r.value == Lookup(entries, k))
              && (!stop ==> Searching(z, file, blocks, entries, next, j + 1, n, k, r.value))
  {
    ghost var ok := ParsedFrom(z, file, index, blocks, entries) && Searching(z, file, blocks, entries, offset, j, pos, k, best);
    n := 0;
    var b := FetchInMemory(z, file, offset, false, blocks, entries, j, pos);
    if b.NoBlock? {
      if ok {
        SearchDone(entries, pos, k, best);
      }
      return Ok(best), offset, true, n;
    }
    if b.CorruptBlock? {
      return SegmentCorrupt, offset, true, n;
    }
    n := pos + |b.entries|;
    var best', hasKey := BestInBlock(b.entries, k, best);
    if ok {
      BlockSorted(entries, pos, b.entries);
      SearchOn(entries, pos, b.entries, k, best, best', hasKey);
    }
    var first := FirstKeyOf(index, offset);
    stop := first.Some? && Less(k, first.value) && !hasKey;
    if ok && stop {
      FirstKeyDecides(z, file, index, blocks, entries, offset, j, pos);
      SearchDone(entries, pos, k, best);
    }
    return Ok(best'), offset + b.size, stop, n;
  }

  /** Lookup by the in-memory reader: it goes on past a hit and keeps the highest LSN. */
  method GetInMemory(z: Zstd, file: Bytes, index: seq<IndexEntry>, mayContain: Bytes -> bool, k: Bytes,
                     ghost blocks: seq<seq<Entry>>, ghost entries: seq<Entry>)
    returns (r: Read<Option<Entry>>)
    ensures ParsedFrom(z, file, index, blocks, entries) && NoFalseNegatives(mayContain, entries) ==> r == Ok(Lookup(entries, k))
  {
    ghost var ok := ParsedFrom(z, file, index, blocks, entries) && NoFalseNegatives(mayContain, entries);
    if !mayContain(k) {
      if ok {
        FilteredOut(mayContain, entries, k);
      }
      return Ok(None);
    }
    if ok {
      FirstKeysOpen(z, file, index, blocks, entries);
    }
    var offset: nat;
    ghost var j: nat, pos: nat;
    offset, j, pos := FindBlockOffset(z, file, index, k, blocks, entries, PlacesOf(blocks));
    var best: Option<Entry> := None;
    while true
      invariant ok ==> Searching(z, file, blocks, entries, offset, j, pos, k, best)
      decreases |file| - offset
    {
      var step, next: nat, stop; ghost var n: nat;
      step, next, stop, n := SearchBlock(z, file, index, k, offset, best, blocks, entries, j, pos);
      if step.SegmentCorrupt? || stop {
        return step;
      }
      best, offset := step.value, next;
      j, pos := j + 1, n;
    }
  }

  // ---- Range scan ----

  /** Scan by the in-memory reader. */
  method RangeInMemory(z: Zstd, file: Bytes, index: seq<IndexEntry>, minKey: Bytes, maxKey: Bytes, lo: Bytes, hi: Bytes,
                       ghost blocks: seq<seq<Entry>>, ghost entries: seq<Entry>)
    returns (r: Read<seq<Entry>>)
    ensures ParsedFrom(z, file, index, blocks, entries) && Bounds(minKey, maxKey, entries) ==> r == Ok(Slice(entries, lo, hi))
  {
    ghost var ok := ParsedFrom(z, file, index, blocks, entries) && Bounds(minKey, maxKey, entries);
    if Less(hi, minKey) || Less(maxKey, lo) {
      if ok {
        OutOfBounds(minKey, maxKey, entries, lo, hi);
      }
      return Ok([]);
    }
    if ok {
      FirstKeysOpen(z, file, index, blocks, entries);
    }
    var results: seq<Entry> := [];
    var offset: nat;
    ghost var j: nat, pos: nat;
    offset, j, pos := FindBlockOffset(z, file, index, lo, blocks, entries, PlacesOf(blocks));
    if ok {
      TakenNone(entries, pos, lo, hi);
    }
    while true
      invariant ok ==> Scanning(z, file, blocks, entries, offset, j, pos, lo, hi, results)
      decreases |file| - offset
    {
      var b; ghost var n: nat;
      b, n := ScanBlockInMemory(z, file, lo, hi, offset, blocks, entries, j, pos, results);
      if b.SegmentCorrupt? {
        return SegmentCorrupt;
      }
      results := results + b.value.kept;
      if b.value.last {
        return Ok(results);
      }
      offset := offset + b.value.size;
      j, pos := j + 1, n;
    }
  }

  method ScanBlockInMemory(z: Zstd, file: Bytes, lo: Bytes, hi: Bytes, offset: nat,
                           ghost blocks: seq<seq<Entry>>, ghost entries: seq<Entry>, ghost j: nat, ghost pos: nat, ghost taken: seq<Entry>)
    returns (r: Read<BlockScan>, ghost n: nat)
    ensures r.Ok? && !r.value.last ==> r.value.size >= 8 && offset < |file|
    ensures Scanning(z, file, blocks, entries, offset, j, pos, lo, hi, taken) ==>
              && r.Ok?
              && (!r.value.last ==> Scanning(z, file, blocks, entries, offset + r.value.size, j + 1, n, lo, hi, taken + r.value.kept))
              && (r.value.last ==> taken + r.value.kept == Slice(entries, lo, hi))
  {
    ghost var ok := Scanning(z, file, blocks, entries, offset, j, pos, lo, hi, taken);
    var b := FetchInMemory(z, file, offset, false, blocks, entries, j, pos);
    if b.NoBlock? {
      if ok {
        ScanEnds(z, file, blocks, entries, offset, j, pos, lo, hi, taken);
      }
      return Ok(BlockScan([], 0, true)), 0;
    }
    if b.CorruptBlock? {
      return SegmentCorrupt, 0;
    }
    var kept, pastEnd := TakeRange(b.entries, lo, hi);
    if ok {
      ScanStep(z, file, blocks, entries, offset, j, pos, b, lo, hi, taken, kept, pastEnd);
    }
    return Ok(BlockScan(kept, b.size, pastEnd)), pos + |b.entries|;
  }

  // ---- Parsing for an import ----

  /** Collects the records of every block: all that the segment's writer put in. */
  method ParseDatEntries(z: Zstd, file: Bytes, ghost blocks: seq<seq<Entry>>, ghost entries: seq<Entry>) returns (r: Read<seq<Entry>>)
    ensures Segment(z, file, blocks, entries) ==> r == Ok(entries)
  {
    ghost var ok := Segment(z, file, blocks, entries);
    if ok {
      StartBuilding(z, file, blocks, entries);
    }
    var parsed: seq<Entry>, offset: nat := [], HeaderLen;
    ghost var j: nat, pos: nat := 0, 0;
    while offset < |file|
      invariant ok ==> AtBlock(z, file, blocks, entries, offset, j, pos) && Copied(entries, pos, parsed)
      decreases |file| - offset
    {
      var b := FetchInMemory(z, file, offset, true, blocks, entries, j, pos);
      if b.NoBlock? {
        return Ok(parsed);
      }
      if b.CorruptBlock? {
        return SegmentCorrupt;
      }
      if ok {
        CopyBlock(entries, pos, parsed, b.entries);
      }
      parsed := parsed + b.entries;
      offset := offset + b.size;
      j, pos := j + 1, pos + |b.entries|;
    }
    if ok {
      StepBlock(z, file, blocks, entries, offset, j, pos);
      assert entries[..pos] == entries;
    }
    return Ok(parsed);
  }

  predicate Copied(entries: seq<Entry>, pos: nat, parsed: seq<Entry>) {
    pos <= |entries| && parsed == entries[..pos]
  }

  lemma {:induction false} CopyBlock(entries: seq<Entry>, pos: nat, parsed: seq<Entry>, es: seq<Entry>)
    requires Copied(entries, pos, parsed) && pos + |es| <= |entries| && entries[pos..pos + |es|] == es
    ensures Copied(entries, pos + |es|, parsed + es)
  {
    assert entries[..pos + |es|] == entries[..pos] + entries[pos..pos + |es|];
  }
}
