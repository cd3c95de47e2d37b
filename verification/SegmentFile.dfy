/** Writing a segment file with its sparse index, and reading it back: point lookup, range scan and
    the streaming cursor. The reads are total: they take any bytes, and are exact on written ones. */
module SegmentFile {
  import opened ByteStrings
  import opened Entries
  import opened Scan
  import opened SegmentCodec

  datatype IndexEntry = IndexEntry(key: Bytes, offset: nat)
  datatype Read<+T> = Ok(value: T) | SegmentCorrupt

  // ---- Blocks as consecutive slices of the records ----

  function StartOf(blocks: seq<seq<Entry>>, j: nat): nat
    requires j <= |blocks|
  {
    |Flatten(blocks[..j])|
  }

  lemma {:induction false} FlattenPrefix(blocks: seq<seq<Entry>>, j: nat)
    requires j <= |blocks|
    ensures Flatten(blocks[..j]) <= Flatten(blocks)
    decreases |blocks| - j
  {
    if j == |blocks| {
      assert blocks[..j] == blocks;
    } else {
      assert blocks[..j + 1][..j] == blocks[..j];
      FlattenPrefix(blocks, j + 1);
    }
  }

  lemma {:induction false} BlockIsSlice(blocks: seq<seq<Entry>>, j: nat)
    requires j < |blocks|
    ensures StartOf(blocks, j + 1) == StartOf(blocks, j) + |blocks[j]| <= |Flatten(blocks)|
    ensures Flatten(blocks)[StartOf(blocks, j)..StartOf(blocks, j + 1)] == blocks[j]
  {
    assert blocks[..j + 1][..j] == blocks[..j];
    assert Flatten(blocks[..j + 1]) == Flatten(blocks[..j]) + blocks[j];
    FlattenPrefix(blocks, j + 1);
  }

  lemma {:induction false} StartEnds(blocks: seq<seq<Entry>>)
    ensures StartOf(blocks, 0) == 0 && StartOf(blocks, |blocks|) == |Flatten(blocks)|
  {
    assert blocks[..0] == [] && blocks[..|blocks|] == blocks;
  }

  // ---- A written segment and its index ----

  /** `file` is the image of `entries` cut into `blocks`. */
  ghost predicate Segment(z: Zstd, file: Bytes, blocks: seq<seq<Entry>>, entries: seq<Entry>) {
    Lossless(z) && Writable(blocks) && file == FileOf(z, blocks) && entries == Flatten(blocks) && Sorted(entries)
  }

  /** What an index entry refers to: a record, and a block that does not start behind it. */
  datatype Place = Place(slot: nat, record: nat)

  predicate IndexAt(z: Zstd, index: seq<IndexEntry>, places: seq<Place>, entries: seq<Entry>, blocks: seq<seq<Entry>>, t: nat)
    requires Writable(blocks) && t < |index| == |places|
  {
    var Place(slot, record) := places[t];
    && record < |entries| && index[t].key == entries[record].key
    && slot <= |blocks| && index[t].offset == Offset(z, blocks, slot) && StartOf(blocks, slot) <= record
  }

  /** Index entries refer to ascending records, from the first on. */
  predicate Ascending(places: seq<Place>) {
    && (places != [] ==> places[0].record == 0)
    && (forall i, j :: 0 <= i < j < |places| ==> places[i].record < places[j].record)
  }

  predicate Strided(places: seq<Place>) {
    forall t :: 0 <= t < |places| ==> places[t].record == SparseIndexStride * t
  }

  predicate Indexed(z: Zstd, index: seq<IndexEntry>, places: seq<Place>, entries: seq<Entry>, blocks: seq<seq<Entry>>) {
    Writable(blocks) && |index| == |places| && forall t :: 0 <= t < |index| ==> IndexAt(z, index, places, entries, blocks, t)
  }

  predicate SmallEnough(entries: seq<Entry>) {
    forall i :: 0 <= i < |entries| ==> Encodable(entries[i]) && |Serialize(entries[i])| <= MaxBlockDecompressed - (BlockTarget - 1)
  }

  // ---- The writer ----

  /** Records up to `i` are written: whole blocks in the file, the rest in the open block. */
  ghost predicate Writing(z: Zstd, entries: seq<Entry>, i: nat, dat: Bytes, block: Bytes, blocks: seq<seq<Entry>>, cur: seq<Entry>) {
    && Writable(blocks) && AllEncodable(cur) && i <= |entries|
    && dat == FileOf(z, blocks) && block == SerializeAll(cur) && |block| < BlockTarget
    && Flatten(blocks) + cur == entries[..i]
  }

  lemma {:induction false} WriteOne(z: Zstd, entries: seq<Entry>, i: nat, dat: Bytes, block: Bytes, blocks: seq<seq<Entry>>, cur: seq<Entry>)
    requires i < |entries| && SmallEnough(entries) && Writing(z, entries, i, dat, block, blocks, cur)
    ensures var block', cur' := block + Serialize(entries[i]), cur + [entries[i]];
            && AllEncodable(cur') && block' == SerializeAll(cur') && Flatten(blocks) + cur' == entries[..i + 1]
            && WritableBlock(cur')
  {
    SerializeSnoc(cur, entries[i]);
    assert entries[..i + 1] == entries[..i] + [entries[i]];
  }

  lemma {:induction false} FlushOne(z: Zstd, blocks: seq<seq<Entry>>, b: seq<Entry>)
    requires Writable(blocks) && WritableBlock(b)
    ensures Writable(blocks + [b])
    ensures FileOf(z, blocks + [b]) == FileOf(z, blocks) + BlockBytes(z, SerializeAll(b))
    ensures Flatten(blocks + [b]) == Flatten(blocks) + b
  {
    assert (blocks + [b])[..|blocks|] == blocks;
  }

  lemma {:induction false} IndexKept(z: Zstd, index: seq<IndexEntry>, places: seq<Place>, entries: seq<Entry>, blocks: seq<seq<Entry>>, b: seq<Entry>)
    requires Indexed(z, index, places, entries, blocks) && WritableBlock(b)
    ensures Indexed(z, index, places, entries, blocks + [b])
  {
    assert Writable(blocks + [b]);
    forall t | 0 <= t < |index|
      ensures IndexAt(z, index, places, entries, blocks + [b], t)
    {
      assert IndexAt(z, index, places, entries, blocks, t);
      assert (blocks + [b])[..places[t].slot] == blocks[..places[t].slot];
    }
  }

  lemma {:induction false} IndexAdded(z: Zstd, index: seq<IndexEntry>, places: seq<Place>, entries: seq<Entry>, blocks: seq<seq<Entry>>, offset: nat)
    requires Indexed(z, index, places, entries, blocks) && SparseIndexStride * |index| < |entries|
    requires offset == |FileOf(z, blocks)| && |Flatten(blocks)| <= SparseIndexStride * |index|
    ensures Indexed(z, index + [IndexEntry(entries[SparseIndexStride * |index|].key, offset)],
                    places + [Place(|blocks|, SparseIndexStride * |index|)], entries, blocks)
  {
    var index' := index + [IndexEntry(entries[SparseIndexStride * |index|].key, offset)];
    var places' := places + [Place(|blocks|, SparseIndexStride * |index|)];
    StartEnds(blocks);
    assert blocks[..|blocks|] == blocks;
    forall t | 0 <= t < |index'|
      ensures IndexAt(z, index', places', entries, blocks, t)
    {
      if t < |index| {
        assert IndexAt(z, index, places, entries, blocks, t);
      }
    }
  }

  lemma StrideStep(i: nat, n: nat)
    requires SparseIndexStride * n - SparseIndexStride < i <= SparseIndexStride * n
    ensures i % SparseIndexStride == 0 <==> i == SparseIndexStride * n
  {
  }

  /** Closes the open block. */
  lemma {:induction false} CloseBlock(z: Zstd, entries: seq<Entry>, i: nat, dat: Bytes, blocks: seq<seq<Entry>>, cur: seq<Entry>,
                                      index: seq<IndexEntry>, places: seq<Place>)
    requires i <= |entries| && Writable(blocks) && dat == FileOf(z, blocks) && WritableBlock(cur)
    requires Flatten(blocks) + cur == entries[..i] && Indexed(z, index, places, entries, blocks)
    ensures Writing(z, entries, i, dat + BlockBytes(z, SerializeAll(cur)), [], blocks + [cur], [])
    ensures Indexed(z, index, places, entries, blocks + [cur])
  {
    FlushOne(z, blocks, cur);
    IndexKept(z, index, places, entries, blocks, cur);
  }

  /** The index with an entry for record `i`, if it is due one. */
  method IndexRecord(z: Zstd, entries: seq<Entry>, i: nat, index: seq<IndexEntry>, blockStart: nat, ghost blocks: seq<seq<Entry>>, ghost places: seq<Place>)
    returns (extended: seq<IndexEntry>, ghost extendedPlaces: seq<Place>)
    requires i < |entries| && Indexed(z, index, places, entries, blocks) && Strided(places)
    requires SparseIndexStride * |index| - SparseIndexStride < i <= SparseIndexStride * |index|
    requires blockStart == |FileOf(z, blocks)| && |Flatten(blocks)| <= i
    ensures Indexed(z, extended, extendedPlaces, entries, blocks) && Strided(extendedPlaces)
    ensures SparseIndexStride * |extended| - SparseIndexStride < i + 1 <= SparseIndexStride * |extended|
    ensures Homed(blocks, places) ==> Homed(blocks, extendedPlaces)
    ensures forall t :: 0 <= t < |extendedPlaces| ==> extendedPlaces[t].record <= i
  {
    StrideStep(i, |index|);
    extended, extendedPlaces := index, places;
    if i % SparseIndexStride == 0 {
      IndexAdded(z, index, places, entries, blocks, blockStart);
      extended := index + [IndexEntry(entries[i].key, blockStart)];
      extendedPlaces := places + [Place(|blocks|, i)];
    }
  }

  /** The block reached the target size with its last record. */
  ghost predicate JustFull(b: seq<Entry>) {
    b != [] && AllEncodable(b) && AllEncodable(b[..|b| - 1]) && |SerializeAll(b[..|b| - 1])| < BlockTarget <= |SerializeAll(b)|
  }

  /** The last block ends with the records. */
  ghost predicate Unfilled(b: seq<Entry>) {
    AllEncodable(b) && |SerializeAll(b)| < BlockTarget
  }

  ghost predicate AllFull(blocks: seq<seq<Entry>>, n: nat) {
    n <= |blocks| && forall j :: 0 <= j < n ==> JustFull(blocks[j])
  }

  /** Every block is flushed as soon as it reaches the target size, the last one in any case. */
  ghost predicate Packed(blocks: seq<seq<Entry>>) {
    blocks == [] || (AllFull(blocks, |blocks| - 1) && (JustFull(blocks[|blocks| - 1]) || Unfilled(blocks[|blocks| - 1])))
  }

  /** Index entries whose block is closed refer to a record in it. */
  predicate Homed(blocks: seq<seq<Entry>>, places: seq<Place>) {
    forall t :: 0 <= t < |places| ==> places[t].slot <= |blocks| && (places[t].slot < |blocks| ==> places[t].record < StartOf(blocks, places[t].slot + 1))
  }

  /** Every index entry refers to the block that holds its record. */
  predicate InOwnBlock(blocks: seq<seq<Entry>>, places: seq<Place>) {
    forall t :: 0 <= t < |places| ==> places[t].slot < |blocks| && StartOf(blocks, places[t].slot) <= places[t].record < StartOf(blocks, places[t].slot + 1)
  }

  lemma {:induction false} HomedMore(blocks: seq<seq<Entry>>, b: seq<Entry>, places: seq<Place>)
    requires Homed(blocks, places) && forall t :: 0 <= t < |places| ==> places[t].record < |Flatten(blocks)| + |b|
    ensures Homed(blocks + [b], places)
  {
    FlattenSnoc(blocks, b);
    StartEnds(blocks + [b]);
    forall t | 0 <= t < |places| && places[t].slot < |blocks + [b]|
      ensures places[t].record < StartOf(blocks + [b], places[t].slot + 1)
    {
      if places[t].slot < |blocks| {
        assert (blocks + [b])[..places[t].slot + 1] == blocks[..places[t].slot + 1];
      }
    }
  }

  lemma {:induction false} AllHome(z: Zstd, index: seq<IndexEntry>, places: seq<Place>, entries: seq<Entry>, blocks: seq<seq<Entry>>)
    requires Indexed(z, index, places, entries, blocks) && Homed(blocks, places) && Flatten(blocks) == entries
    ensures InOwnBlock(blocks, places)
  {
    StartEnds(blocks);
    forall t | 0 <= t < |places|
      ensures places[t].slot < |blocks| && StartOf(blocks, places[t].slot) <= places[t].record < StartOf(blocks, places[t].slot + 1)
    {
      assert IndexAt(z, index, places, entries, blocks, t);
    }
  }

  lemma {:induction false} FullMore(blocks: seq<seq<Entry>>, cur: seq<Entry>, e: Entry)
    requires AllFull(blocks, |blocks|) && Unfilled(cur) && AllEncodable(cur + [e]) && |SerializeAll(cur + [e])| >= BlockTarget
    ensures AllFull(blocks + [cur + [e]], |blocks| + 1)
  {
    assert (cur + [e])[..|cur|] == cur;
  }

  /** The writer in front of record `i`. */
  ghost predicate WriterAt(z: Zstd, entries: seq<Entry>, i: nat, dat: Bytes, block: Bytes, index: seq<IndexEntry>,
                           blocks: seq<seq<Entry>>, cur: seq<Entry>, places: seq<Place>) {
    && Writing(z, entries, i, dat, block, blocks, cur) && AllFull(blocks, |blocks|)
    && Indexed(z, index, places, entries, blocks) && Strided(places) && Homed(blocks, places)
    && SparseIndexStride * |index| - SparseIndexStride < i <= SparseIndexStride * |index|
  }

  lemma {:induction false} FlushFull(z: Zstd, entries: seq<Entry>, i: nat, dat: Bytes, index: seq<IndexEntry>, blocks: seq<seq<Entry>>, cur: seq<Entry>, e: Entry, places: seq<Place>)
    requires i <= |entries| && Writable(blocks) && dat == FileOf(z, blocks) && WritableBlock(cur + [e]) && Flatten(blocks) + (cur + [e]) == entries[..i]
    requires AllFull(blocks, |blocks|) && Unfilled(cur) && |SerializeAll(cur + [e])| >= BlockTarget
    requires Indexed(z, index, places, entries, blocks) && Homed(blocks, places) && forall t :: 0 <= t < |places| ==> places[t].record < i
    ensures Writing(z, entries, i, dat + BlockBytes(z, SerializeAll(cur + [e])), [], blocks + [cur + [e]], [])
    ensures AllFull(blocks + [cur + [e]], |blocks| + 1) && Indexed(z, index, places, entries, blocks + [cur + [e]]) && Homed(blocks + [cur + [e]], places)
  {
    CloseBlock(z, entries, i, dat, blocks, cur + [e], index, places);
    FullMore(blocks, cur, e);
    assert |Flatten(blocks) + (cur + [e])| == i;
    HomedMore(blocks, cur + [e], places);
  }

  /** Writes one record: into the index if due, into the open block, and with a full block to the file. */
  method WriteRecord(z: Zstd, entries: seq<Entry>, i: nat, dat: Bytes, block: Bytes, index: seq<IndexEntry>, blockStart: nat,
                     ghost blocks: seq<seq<Entry>>, ghost cur: seq<Entry>, ghost places: seq<Place>)
    returns (dat': Bytes, block': Bytes, index': seq<IndexEntry>, blockStart': nat,
             ghost blocks': seq<seq<Entry>>, ghost cur': seq<Entry>, ghost places': seq<Place>)
    requires SmallEnough(entries) && i < |entries| && WriterAt(z, entries, i, dat, block, index, blocks, cur, places) && blockStart == |dat|
    ensures WriterAt(z, entries, i + 1, dat', block', index', blocks', cur', places') && blockStart' == |dat'|
  {
    assert |Flatten(blocks) + cur| == i;
    index', places' := IndexRecord(z, entries, i, index, blockStart, blocks, places);
    WriteOne(z, entries, i, dat, block, blocks, cur);
    dat', block', blockStart', blocks', cur' := dat, block + Serialize(entries[i]), blockStart, blocks, cur + [entries[i]];
    if |block'| >= BlockTarget {
      FlushFull(z, entries, i + 1, dat, index', blocks, cur, entries[i], places');
      dat' := dat + BlockBytes(z, block');
      blockStart' := |dat'|;
      blocks' := blocks + [cur'];
      block', cur' := [], [];
    }
  }

  /** Fills blocks to the target size, flushing each when it is reached; every 64th record is put
      into the sparse index with the offset of the block it goes into. */
  method WriteDatAndIndex(z: Zstd, entries: seq<Entry>)
    returns (dat: Bytes, index: seq<IndexEntry>, ghost blocks: seq<seq<Entry>>, ghost places: seq<Place>)
    requires SmallEnough(entries)
    ensures Writable(blocks) && Flatten(blocks) == entries && dat == FileOf(z, blocks)
    ensures Indexed(z, index, places, entries, blocks) && Strided(places) && SparseIndexStride * |index| >= |entries|
    ensures Packed(blocks) && InOwnBlock(blocks, places)
  {
    dat, index, blocks, places := Header(), [], [], [];
    var block: Bytes := [];
    var blockStart := HeaderLen;
    ghost var cur: seq<Entry> := [];
    for i := 0 to |entries|
      invariant WriterAt(z, entries, i, dat, block, index, blocks, cur, places) && blockStart == |dat|
    {
      dat, block, index, blockStart, blocks, cur, places := WriteRecord(z, entries, i, dat, block, index, blockStart, blocks, cur, places);
    }
    FinalBlock(z, entries, dat, block, index, blocks, cur, places);
    if block != [] {
      dat := dat + BlockBytes(z, block);
      blocks := blocks + [cur];
    }
  }

  /** Closing what is left in the open block completes the segment. */
  lemma {:induction false} FinalBlock(z: Zstd, entries: seq<Entry>, dat: Bytes, block: Bytes, index: seq<IndexEntry>, blocks: seq<seq<Entry>>, cur: seq<Entry>, places: seq<Place>)
    requires SmallEnough(entries) && WriterAt(z, entries, |entries|, dat, block, index, blocks, cur, places)
    ensures var all, file := if block == [] then blocks else blocks + [cur], if block == [] then dat else dat + BlockBytes(z, block);
            && Writable(all) && Flatten(all) == entries && file == FileOf(z, all)
            && Indexed(z, index, places, entries, all) && Packed(all) && InOwnBlock(all, places)
  {
    assert entries[..|entries|] == entries;
    if block == [] {
      assert cur == [];
      AllHome(z, index, places, entries, blocks);
    } else {
      CloseBlock(z, entries, |entries|, dat, blocks, cur, index, places);
      assert |Flatten(blocks) + cur| == |entries|;
      HomedMore(blocks, cur, places);
      AllHome(z, index, places, entries, blocks + [cur]);
    }
  }

  // ---- Positions in a written segment ----

  /** `offset` is where block `j` starts, and `pos` the number of records before it. */
  ghost predicate AtBlock(z: Zstd, file: Bytes, blocks: seq<seq<Entry>>, entries: seq<Entry>, offset: nat, j: nat, pos: nat) {
    && Segment(z, file, blocks, entries)
    && j <= |blocks| && offset == Offset(z, blocks, j) && pos == StartOf(blocks, j) && pos <= |entries|
  }

  /** `b` is block `j`, and leads to the next one. */
  ghost predicate ReadsBlock(z: Zstd, file: Bytes, blocks: seq<seq<Entry>>, entries: seq<Entry>, offset: nat, j: nat, pos: nat, b: BlockRead) {
    && b.Block? && b.entries != [] && pos + |b.entries| <= |entries| && entries[pos..pos + |b.entries|] == b.entries
    && AtBlock(z, file, blocks, entries, offset + b.size, j + 1, pos + |b.entries|)
  }

  lemma {:induction false} StepBlock(z: Zstd, file: Bytes, blocks: seq<seq<Entry>>, entries: seq<Entry>, offset: nat, j: nat, pos: nat)
    requires AtBlock(z, file, blocks, entries, offset, j, pos)
    ensures offset >= |file| ==> pos == |entries|
    ensures offset < |file| ==> ReadsBlock(z, file, blocks, entries, offset, j, pos, ReadBlock(z, file, offset))
  {
    if j < |blocks| {
      StepInside(z, file, blocks, entries, offset, j, pos);
    } else {
      OffsetEnd(z, blocks);
      StartEnds(blocks);
    }
  }

  lemma {:induction false} BlockLeadsOn(z: Zstd, file: Bytes, blocks: seq<seq<Entry>>, entries: seq<Entry>, offset: nat, j: nat, pos: nat, b: BlockRead)
    requires AtBlock(z, file, blocks, entries, offset, j, pos) && j < |blocks|
    requires b.Block? && b.entries == blocks[j] && offset + b.size == Offset(z, blocks, j + 1)
    ensures ReadsBlock(z, file, blocks, entries, offset, j, pos, b)
  {
    BlockIsSlice(blocks, j);
    assert WritableBlock(blocks[j]);
  }

  lemma {:induction false} StepInside(z: Zstd, file: Bytes, blocks: seq<seq<Entry>>, entries: seq<Entry>, offset: nat, j: nat, pos: nat)
    requires AtBlock(z, file, blocks, entries, offset, j, pos) && j < |blocks|
    ensures offset < |file| && ReadsBlock(z, file, blocks, entries, offset, j, pos, ReadBlock(z, file, offset))
  {
    ReadBlockAt(z, blocks, j);
    BlockLeadsOn(z, file, blocks, entries, offset, j, pos, ReadBlock(z, file, offset));
  }

  /** Reads the block at `offset`; in a written segment, that is the block that starts there. */
  method FetchBlock(z: Zstd, file: Bytes, offset: nat, ghost blocks: seq<seq<Entry>>, ghost entries: seq<Entry>, ghost j: nat, ghost pos: nat)
    returns (b: BlockRead)
    requires offset < |file|
    ensures b.Block? ==> b.size >= 8
    ensures AtBlock(z, file, blocks, entries, offset, j, pos) ==> ReadsBlock(z, file, blocks, entries, offset, j, pos, b)
  {
    if AtBlock(z, file, blocks, entries, offset, j, pos) {
      StepBlock(z, file, blocks, entries, offset, j, pos);
    }
    b := ReadBlock(z, file, offset);
  }

  predicate KeysBelow(entries: seq<Entry>, n: nat, k: Bytes) {
    n <= |entries| && forall p :: 0 <= p < n ==> Less(entries[p].key, k)
  }

  predicate SortedIndex(index: seq<IndexEntry>) {
    forall i, j :: 0 <= i < j < |index| ==> Less(index[i].key, index[j].key)
  }

  /** The number of index keys at or below `k`, by binary search. */
  method PartitionPoint(index: seq<IndexEntry>, k: Bytes) returns (pos: nat)
    ensures pos <= |index|
    ensures SortedIndex(index) ==> (forall i :: 0 <= i < pos ==> AtMost(index[i].key, k))
    ensures SortedIndex(index) ==> (forall i :: pos <= i < |index| ==> Less(k, index[i].key))
  {
    var lo, hi := 0, |index|;
    while lo < hi
      invariant 0 <= lo <= hi <= |index|
      invariant SortedIndex(index) ==> forall i :: 0 <= i < lo ==> AtMost(index[i].key, k)
      invariant SortedIndex(index) ==> forall i :: hi <= i < |index| ==> Less(k, index[i].key)
    {
      var mid := lo + (hi - lo) / 2;
      if AtMost(index[mid].key, k) {
        lo := mid + 1;
      } else {
        hi := mid;
      }
    }
    pos := lo;
  }

  lemma {:induction false} IndexSorted(z: Zstd, index: seq<IndexEntry>, places: seq<Place>, entries: seq<Entry>, blocks: seq<seq<Entry>>)
    requires Sorted(entries) && Indexed(z, index, places, entries, blocks) && Ascending(places)
    ensures SortedIndex(index)
  {
    forall i, j | 0 <= i < j < |index|
      ensures Less(index[i].key, index[j].key)
    {
      assert IndexAt(z, index, places, entries, blocks, i) && IndexAt(z, index, places, entries, blocks, j);
    }
  }

  /** The index is complete enough to start a search from. */
  ghost predicate OpenSegment(z: Zstd, file: Bytes, index: seq<IndexEntry>, blocks: seq<seq<Entry>>, entries: seq<Entry>, places: seq<Place>) {
    Segment(z, file, blocks, entries) && Indexed(z, index, places, entries, blocks) && Ascending(places) && index != []
  }

  /** The offset of the last index key at or below `k`, or of the first key. */
  predicate StartsAt(index: seq<IndexEntry>, k: Bytes, offset: nat) {
    exists t :: 0 <= t < |index| && index[t].offset == offset && (t > 0 ==> AtMost(index[t].key, k)) && (t + 1 < |index| ==> Less(k, index[t + 1].key))
  }

  lemma StartsAtEntry(index: seq<IndexEntry>, k: Bytes, t: nat)
    requires t < |index| && (t > 0 ==> AtMost(index[t].key, k)) && (t + 1 < |index| ==> Less(k, index[t + 1].key))
    ensures StartsAt(index, k, index[t].offset)
  {
  }

  /** The block to start from: that of the last index key at or below `k`, else the first. Every record
      before it has a smaller key. */
  method FindBlockOffset(z: Zstd, file: Bytes, index: seq<IndexEntry>, k: Bytes,
                         ghost blocks: seq<seq<Entry>>, ghost entries: seq<Entry>, ghost places: seq<Place>)
    returns (offset: nat, ghost j: nat, ghost pos: nat)
    ensures index == [] ==> offset == HeaderLen
    ensures index != [] && SortedIndex(index) ==> StartsAt(index, k, offset)
    ensures OpenSegment(z, file, index, blocks, entries, places) ==>
              AtBlock(z, file, blocks, entries, offset, j, pos) && KeysBelow(entries, pos, k)
  {
    j, pos := 0, 0;
    if index == [] {
      return HeaderLen, 0, 0;
    }
    var p := PartitionPoint(index, k);
    var t := if p == 0 then 0 else p - 1;
    offset := index[t].offset;
    if SortedIndex(index) {
      StartsAtEntry(index, k, t);
    }
    if OpenSegment(z, file, index, blocks, entries, places) {
      IndexSorted(z, index, places, entries, blocks);
      assert IndexAt(z, index, places, entries, blocks, t);
      j, pos := places[t].slot, StartOf(blocks, places[t].slot);
      FlattenPrefix(blocks, j);
    }
  }

  // ---- Point lookup ----

  function Lookup(entries: seq<Entry>, k: Bytes): Option<Entry> {
    if k in AsTable(entries) then Some(AsTable(entries)[k]) else None
  }

  lemma {:induction false} FoundAt(entries: seq<Entry>, p: nat)
    requires Sorted(entries) && p < |entries|
    ensures Lookup(entries, entries[p].key) == Some(entries[p])
  {
    AsTableOfSorted(entries);
  }

  lemma {:induction false} NotFound(entries: seq<Entry>, p: nat, k: Bytes)
    requires Sorted(entries) && KeysBelow(entries, p, k) && (p < |entries| ==> Less(k, entries[p].key))
    ensures Lookup(entries, k) == None
  {
    AsTableMembers(entries);
    assert forall i :: 0 <= i < |entries| ==> entries[i].key != k;
  }

  /** Walks one block until a key is not below `k`. */
  method FirstNotBelow(es: seq<Entry>, k: Bytes) returns (i: nat)
    ensures i <= |es| && (forall x :: 0 <= x < i ==> Less(es[x].key, k)) && (i < |es| ==> !Less(es[i].key, k))
  {
    i := 0;
    while i < |es|
      invariant i <= |es| && forall x :: 0 <= x < i ==> Less(es[x].key, k)
    {
      if !Less(es[i].key, k) {
        return;
      }
      i := i + 1;
    }
  }

  ghost predicate NoFalseNegatives(mayContain: Bytes -> bool, entries: seq<Entry>) {
    forall i :: 0 <= i < |entries| ==> mayContain(entries[i].key)
  }

  lemma {:induction false} FilteredOut(mayContain: Bytes -> bool, entries: seq<Entry>, k: Bytes)
    requires NoFalseNegatives(mayContain, entries) && !mayContain(k)
    ensures Lookup(entries, k) == None
  {
    AsTableMembers(entries);
  }

  /** One round of the lookup: the block holding `k`'s place decides, otherwise the search goes on. */
  lemma {:induction false} LookupStep(z: Zstd, file: Bytes, blocks: seq<seq<Entry>>, entries: seq<Entry>, offset: nat, j: nat, pos: nat,
                                      b: BlockRead, i: nat, k: Bytes)
    requires ReadsBlock(z, file, blocks, entries, offset, j, pos, b) && KeysBelow(entries, pos, k)
    requires i <= |b.entries| && (forall x :: 0 <= x < i ==> Less(b.entries[x].key, k)) && (i < |b.entries| ==> !Less(b.entries[i].key, k))
    ensures i == |b.entries| ==> KeysBelow(entries, pos + |b.entries|, k)
    ensures i < |b.entries| ==> Lookup(entries, k) == if b.entries[i].key == k then Some(b.entries[i]) else None
  {
    LookupInBlock(entries, pos, b.entries, i, k);
  }

  lemma {:induction false} LookupInBlock(entries: seq<Entry>, pos: nat, es: seq<Entry>, i: nat, k: Bytes)
    requires Sorted(entries) && KeysBelow(entries, pos, k) && pos + |es| <= |entries| && entries[pos..pos + |es|] == es
    requires i <= |es| && (forall x :: 0 <= x < i ==> Less(es[x].key, k)) && (i < |es| ==> !Less(es[i].key, k))
    ensures i == |es| ==> KeysBelow(entries, pos + |es|, k)
    ensures i < |es| ==> Lookup(entries, k) == if es[i].key == k then Some(es[i]) else None
  {
    forall p | 0 <= p < pos + i
      ensures Less(entries[p].key, k)
    {
      if p >= pos {
        assert entries[p] == entries[pos..pos + |es|][p - pos];
      }
    }
    if i < |es| {
      assert entries[pos + i] == entries[pos..pos + |es|][i];
      if es[i].key == k {
        FoundAt(entries, pos + i);
      } else {
        LessIsLexicographic(es[i].key, k);
        NotFound(entries, pos + i, k);
      }
    }
  }

  lemma {:induction false} LookupEnds(z: Zstd, file: Bytes, blocks: seq<seq<Entry>>, entries: seq<Entry>, offset: nat, j: nat, pos: nat, k: Bytes)
    requires AtBlock(z, file, blocks, entries, offset, j, pos) && offset >= |file| && KeysBelow(entries, pos, k)
    ensures Lookup(entries, k) == None
  {
    StepBlock(z, file, blocks, entries, offset, j, pos);
    NotFound(entries, pos, k);
  }

  /** The filter first, then blocks from the indexed one on until the key is found or passed. */
  method GetRecord(z: Zstd, file: Bytes, index: seq<IndexEntry>, mayContain: Bytes -> bool, k: Bytes,
                   ghost blocks: seq<seq<Entry>>, ghost entries: seq<Entry>, ghost places: seq<Place>)
    returns (r: Read<Option<Entry>>)
    ensures OpenSegment(z, file, index, blocks, entries, places) && NoFalseNegatives(mayContain, entries) ==> r == Ok(Lookup(entries, k))
  {
    ghost var ok := OpenSegment(z, file, index, blocks, entries, places) && NoFalseNegatives(mayContain, entries);
    if !mayContain(k) {
      if ok {
        FilteredOut(mayContain, entries, k);
      }
      return Ok(None);
    }
    var offset: nat;
    ghost var j: nat, pos: nat;
    offset, j, pos := FindBlockOffset(z, file, index, k, blocks, entries, places);
    while offset < |file|
      invariant ok ==> AtBlock(z, file, blocks, entries, offset, j, pos) && KeysBelow(entries, pos, k)
      decreases |file| - offset
    {
      var b := FetchBlock(z, file, offset, blocks, entries, j, pos);
      if b.CorruptBlock? {
        return SegmentCorrupt;
      }
      if b.NoBlock? || b.entries == [] {
        return Ok(None);
      }
      var i := FirstNotBelow(b.entries, k);
      if ok {
        LookupStep(z, file, blocks, entries, offset, j, pos, b, i, k);
      }
      if i < |b.entries| {
        return Ok(if b.entries[i].key == k then Some(b.entries[i]) else None);
      }
      offset := offset + b.size;
      j, pos := j + 1, pos + |b.entries|;
    }
    if ok {
      LookupEnds(z, file, blocks, entries, offset, j, pos, k);
    }
    return Ok(None);
  }

  // ---- Range scan ----

  lemma {:induction false} SliceConcat(a: seq<Entry>, b: seq<Entry>, lo: Bytes, hi: Bytes)
    ensures Slice(a + b, lo, hi) == Slice(a, lo, hi) + Slice(b, lo, hi)
  {
    if b == [] {
      assert a + b == a;
    } else {
      assert (a + b)[..|a + b| - 1] == a + b[..|b| - 1];
      SliceConcat(a, b[..|b| - 1], lo, hi);
    }
  }

  predicate ReachesEnd(es: seq<Entry>, hi: Bytes) {
    exists i :: 0 <= i < |es| && AtMost(hi, es[i].key)
  }

  predicate IsRange(es: seq<Entry>, lo: Bytes, hi: Bytes, kept: seq<Entry>, pastEnd: bool) {
    (Sorted(es) ==> kept == Slice(es, lo, hi)) && (pastEnd ==> ReachesEnd(es, hi))
  }

  /** Walks one block, keeping keys from `lo` on and stopping at the first key not below `hi`. */
  method TakeRange(es: seq<Entry>, lo: Bytes, hi: Bytes) returns (kept: seq<Entry>, pastEnd: bool)
    ensures IsRange(es, lo, hi, kept, pastEnd)
  {
    kept, pastEnd := [], false;
    for i := 0 to |es|
      invariant kept == Slice(es[..i], lo, hi)
    {
      assert es[..i + 1][..i] == es[..i];
      if AtMost(hi, es[i].key) {
        if Sorted(es) {
          AfterEnd(es, i, lo, hi);
        }
        return kept, true;
      }
      if AtMost(lo, es[i].key) {
        kept := kept + [es[i]];
      }
    }
    assert es[..|es|] == es;
  }

  /** Past the end of the range nothing more is selected. */
  lemma {:induction false} AfterEnd(s: seq<Entry>, n: nat, lo: Bytes, hi: Bytes)
    requires Sorted(s) && n <= |s| && (n < |s| ==> AtMost(hi, s[n].key))
    ensures Slice(s[..n], lo, hi) == Slice(s, lo, hi)
  {
    assert s == s[..n] + s[n..];
    SliceConcat(s[..n], s[n..], lo, hi);
    NoneInRange(s[n..], lo, hi);
  }

  /** What has been taken from the first `pos` records. */
  ghost predicate Taken(entries: seq<Entry>, pos: nat, lo: Bytes, hi: Bytes, taken: seq<Entry>) {
    pos <= |entries| && taken == Slice(entries[..pos], lo, hi)
  }

  lemma {:induction false} TakenNone(entries: seq<Entry>, pos: nat, lo: Bytes, hi: Bytes)
    requires KeysBelow(entries, pos, lo)
    ensures Taken(entries, pos, lo, hi, [])
  {
    NoneInRange(entries[..pos], lo, hi);
  }

  lemma {:induction false} SortedPart(entries: seq<Entry>, pos: nat, es: seq<Entry>)
    requires Sorted(entries) && pos + |es| <= |entries| && entries[pos..pos + |es|] == es
    ensures Sorted(es) && forall i :: 0 <= i < |es| ==> es[i] == entries[pos + i]
  {
    assert forall i :: 0 <= i < |es| ==> es[i] == entries[pos..pos + |es|][i];
  }

  lemma {:induction false} TakenOn(entries: seq<Entry>, pos: nat, es: seq<Entry>, lo: Bytes, hi: Bytes, taken: seq<Entry>)
    requires Taken(entries, pos, lo, hi, taken) && pos + |es| <= |entries| && entries[pos..pos + |es|] == es
    ensures Taken(entries, pos + |es|, lo, hi, taken + Slice(es, lo, hi))
  {
    assert entries[..pos + |es|] == entries[..pos] + es;
    SliceConcat(entries[..pos], es, lo, hi);
  }

  lemma {:induction false} TakenMore(entries: seq<Entry>, pos: nat, es: seq<Entry>, lo: Bytes, hi: Bytes, taken: seq<Entry>)
    requires Sorted(entries) && Taken(entries, pos, lo, hi, taken)
    requires pos + |es| <= |entries| && entries[pos..pos + |es|] == es
    ensures Sorted(es) && Taken(entries, pos + |es|, lo, hi, taken + Slice(es, lo, hi))
    ensures ReachesEnd(es, hi) ==> taken + Slice(es, lo, hi) == Slice(entries, lo, hi)
  {
    SortedPart(entries, pos, es);
    TakenOn(entries, pos, es, lo, hi, taken);
    if ReachesEnd(es, hi) {
      AfterEnd(entries, pos + |es|, lo, hi);
    }
  }

  lemma {:induction false} TakenAll(entries: seq<Entry>, lo: Bytes, hi: Bytes, taken: seq<Entry>)
    requires Taken(entries, |entries|, lo, hi, taken)
    ensures taken == Slice(entries, lo, hi)
  {
    assert entries[..|entries|] == entries;
  }

  /** One block of a scan over `[lo, hi)`. */
  lemma {:induction false} ScanStep(z: Zstd, file: Bytes, blocks: seq<seq<Entry>>, entries: seq<Entry>, offset: nat, j: nat, pos: nat,
                                    b: BlockRead, lo: Bytes, hi: Bytes, taken: seq<Entry>, kept: seq<Entry>, pastEnd: bool)
    requires ReadsBlock(z, file, blocks, entries, offset, j, pos, b) && Taken(entries, pos, lo, hi, taken)
    requires IsRange(b.entries, lo, hi, kept, pastEnd)
    ensures Taken(entries, pos + |b.entries|, lo, hi, taken + kept)
    ensures pastEnd ==> taken + kept == Slice(entries, lo, hi)
  {
    TakenMore(entries, pos, b.entries, lo, hi, taken);
  }

  datatype BlockScan = BlockScan(kept: seq<Entry>, size: nat, last: bool)

  /** Scanning state: positioned at a block, with `taken` collected before it. */
  ghost predicate Scanning(z: Zstd, file: Bytes, blocks: seq<seq<Entry>>, entries: seq<Entry>, offset: nat, j: nat, pos: nat,
                           lo: Bytes, hi: Bytes, taken: seq<Entry>) {
    AtBlock(z, file, blocks, entries, offset, j, pos) && Taken(entries, pos, lo, hi, taken)
  }

  /** Reads a block and keeps its part of `[lo, hi)`; `last` when nothing after it can be in range. */
  method ScanBlock(z: Zstd, file: Bytes, lo: Bytes, hi: Bytes, offset: nat,
                   ghost blocks: seq<seq<Entry>>, ghost entries: seq<Entry>, ghost j: nat, ghost pos: nat, ghost taken: seq<Entry>)
    returns (r: Read<BlockScan>, ghost n: nat)
    requires offset < |file|
    ensures r.Ok? && !r.value.last ==> r.value.size >= 8
    ensures Scanning(z, file, blocks, entries, offset, j, pos, lo, hi, taken) ==>
              && r.Ok? && Scanning(z, file, blocks, entries, offset + r.value.size, j + 1, n, lo, hi, taken + r.value.kept)
              && (r.value.last ==> taken + r.value.kept == Slice(entries, lo, hi))
  {
    var b := FetchBlock(z, file, offset, blocks, entries, j, pos);
    if b.CorruptBlock? {
      return SegmentCorrupt, 0;
    }
    if b.NoBlock? || b.entries == [] {
      return Ok(BlockScan([], 0, true)), 0;
    }
    var kept, pastEnd := TakeRange(b.entries, lo, hi);
    if Scanning(z, file, blocks, entries, offset, j, pos, lo, hi, taken) {
      ScanStep(z, file, blocks, entries, offset, j, pos, b, lo, hi, taken, kept, pastEnd);
    }
    return Ok(BlockScan(kept, b.size, pastEnd)), pos + |b.entries|;
  }

  lemma {:induction false} ScanEnds(z: Zstd, file: Bytes, blocks: seq<seq<Entry>>, entries: seq<Entry>, offset: nat, j: nat, pos: nat,
                                    lo: Bytes, hi: Bytes, taken: seq<Entry>)
    requires AtBlock(z, file, blocks, entries, offset, j, pos) && offset >= |file| && Taken(entries, pos, lo, hi, taken)
    ensures taken == Slice(entries, lo, hi)
  {
    StepBlock(z, file, blocks, entries, offset, j, pos);
    TakenAll(entries, lo, hi, taken);
  }

  /** The first and last key recorded in the segment's metadata. */
  ghost predicate Bounds(minKey: Bytes, maxKey: Bytes, entries: seq<Entry>) {
    entries != [] && minKey == entries[0].key && maxKey == entries[|entries| - 1].key
  }

  lemma {:induction false} OutOfBounds(minKey: Bytes, maxKey: Bytes, entries: seq<Entry>, lo: Bytes, hi: Bytes)
    requires Sorted(entries) && Bounds(minKey, maxKey, entries) && (AtMost(hi, minKey) || Less(maxKey, lo))
    ensures Slice(entries, lo, hi) == []
  {
    PrunedIsEmpty(entries, lo, hi);
  }

  /** Scans `[lo, hi)` from the indexed block to the first key past the end. */
  method RangeScan(z: Zstd, file: Bytes, index: seq<IndexEntry>, minKey: Bytes, maxKey: Bytes, lo: Bytes, hi: Bytes,
                   ghost blocks: seq<seq<Entry>>, ghost entries: seq<Entry>, ghost places: seq<Place>)
    returns (r: Read<seq<Entry>>)
    ensures OpenSegment(z, file, index, blocks, entries, places) && Bounds(minKey, maxKey, entries) ==> r == Ok(Slice(entries, lo, hi))
  {
    ghost var ok := OpenSegment(z, file, index, blocks, entries, places) && Bounds(minKey, maxKey, entries);
    if Less(hi, minKey) || Less(maxKey, lo) {
      if ok {
        OutOfBounds(minKey, maxKey, entries, lo, hi);
      }
      return Ok([]);
    }
    var results: seq<Entry> := [];
    var offset: nat;
    ghost var j: nat, pos: nat;
    offset, j, pos := FindBlockOffset(z, file, index, lo, blocks, entries, places);
    if ok {
      TakenNone(entries, pos, lo, hi);
    }
    while offset < |file|
      invariant ok ==> Scanning(z, file, blocks, entries, offset, j, pos, lo, hi, results)
      decreases |file| - offset
    {
      var b; ghost var n: nat;
      b, n := ScanBlock(z, file, lo, hi, offset, blocks, entries, j, pos, results);
      if b.SegmentCorrupt? {
        return SegmentCorrupt;
      }
      results := results + b.value.kept;
      if b.value.last {
        return Ok(results);
      }
      offset := offset + b.value.size;
      j, pos := j + 1, n;
    }
    if ok {
      ScanEnds(z, file, blocks, entries, offset, j, pos, lo, hi, results);
    }
    return Ok(results);
  }

  // ---- Streaming cursor ----

  /** Reads one block at a time on demand. The ghost fields hold the segment the cursor was opened on
      and the records it has handed out. */
  class SegmentCursor {
    const z: Zstd
    const file: Bytes
    const lo: Bytes
    const hi: Bytes
    var offset: nat
    var buffer: seq<Entry>
    var done: bool
    ghost const written: bool
    ghost const blocks: seq<seq<Entry>>
    ghost const entries: seq<Entry>
    ghost var j: nat
    ghost var pos: nat
    ghost var given: seq<Entry>

    /** Handed-out records and the buffer are what the blocks read so far hold in range. */
    ghost predicate Valid()
      reads this
    {
      written ==>
        && Scanning(z, file, blocks, entries, offset, j, pos, lo, hi, given + buffer)
        && (done ==> given + buffer == Slice(entries, lo, hi))
    }

    /** Positions the cursor at the indexed block of `lo`. */
    constructor (z: Zstd, file: Bytes, index: seq<IndexEntry>, lo: Bytes, hi: Bytes,
                 ghost blocks: seq<seq<Entry>>, ghost entries: seq<Entry>, ghost places: seq<Place>)
      ensures Valid() && given == [] && this.lo == lo && this.hi == hi && this.entries == entries
      ensures written == OpenSegment(z, file, index, blocks, entries, places)
    {
      var offset: nat;
      ghost var j: nat, pos: nat;
      offset, j, pos := FindBlockOffset(z, file, index, lo, blocks, entries, places);
      if OpenSegment(z, file, index, blocks, entries, places) {
        TakenNone(entries, pos, lo, hi);
      }
      this.z, this.file, this.lo, this.hi := z, file, lo, hi;
      this.offset, this.buffer, this.done := offset, [], false;
      this.written, this.blocks, this.entries := OpenSegment(z, file, index, blocks, entries, places), blocks, entries;
      this.j, this.pos, this.given := j, pos, [];
    }

    /** Reads one block into the buffer. */
    method ReadNext() returns (r: Read<bool>)
      requires Valid() && offset < |file|
      modifies this
      ensures Valid() && given == old(given) && (written ==> r.Ok?)
      ensures done || offset > old(offset) || r.SegmentCorrupt?
    {
      var b; ghost var n: nat;
      b, n := ScanBlock(z, file, lo, hi, offset, blocks, entries, j, pos, given + buffer);
      if b.SegmentCorrupt? {
        return SegmentCorrupt;
      }
      assert given + (buffer + b.value.kept) == given + buffer + b.value.kept;
      offset := offset + b.value.size;
      buffer := buffer + b.value.kept;
      j, pos := j + 1, n;
      done := b.value.last;
      return Ok(true);
    }

    /** Reads blocks until one has a record in range or the range is exhausted. */
    method Fill() returns (r: Read<bool>)
      requires Valid()
      modifies this
      ensures Valid() && given == old(given)
      ensures written ==> r.Ok?
      ensures r.Ok? ==> buffer != [] || done
    {
      r := Ok(true);
      while buffer == [] && !done && r.Ok?
        invariant Valid() && given == old(given) && (written ==> r.Ok?)
        decreases if done || r.SegmentCorrupt? then 0 else 1, |file| - offset
      {
        if offset >= |file| {
          if written {
            ScanEnds(z, file, blocks, entries, offset, j, pos, lo, hi, given + buffer);
          }
          done := true;
        } else {
          r := ReadNext();
        }
      }
    }

    /** Hands out the next record. The records handed out are always a prefix of the slice, and all of
        it once the cursor answers that nothing is left. */
    method Pop() returns (r: Read<Option<Entry>>)
      requires Valid()
      modifies this
      ensures Valid()
      ensures r == Ok(None) ==> given == old(given) && (written ==> given == Slice(entries, lo, hi))
      ensures r.Ok? && r.value.Some? ==> given == old(given) + [r.value.value]
      ensures written ==> r.Ok?
    {
      var f := Fill();
      if f.SegmentCorrupt? {
        return SegmentCorrupt;
      }
      if buffer == [] {
        assert given + buffer == given;
        return Ok(None);
      }
      r := Ok(Some(buffer[0]));
      assert given + buffer == given + [buffer[0]] + buffer[1..];
      given, buffer := given + [buffer[0]], buffer[1..];
    }
  }

  /** Pops a cursor until it answers that nothing is left. */
  method Drain(c: SegmentCursor) returns (out: seq<Entry>)
    requires c.Valid() && c.written && c.given == []
    modifies c
    ensures out == Slice(c.entries, c.lo, c.hi)
  {
    out := [];
    while true
      invariant c.Valid() && out == c.given
      decreases |Slice(c.entries, c.lo, c.hi)| - |out|
    {
      var e := c.Pop();
      if e.value.None? {
        return;
      }
      out := out + [e.value.value];
      SliceOfPrefix(c.entries, c.pos, c.lo, c.hi);
    }
  }

  lemma {:induction false} SliceOfPrefix(s: seq<Entry>, n: nat, lo: Bytes, hi: Bytes)
    requires n <= |s|
    ensures |Slice(s[..n], lo, hi)| <= |Slice(s, lo, hi)|
  {
    assert s == s[..n] + s[n..];
    SliceConcat(s[..n], s[n..], lo, hi);
  }

  // ---- Write, then read ----

  lemma {:induction false} WrittenOpens(z: Zstd, entries: seq<Entry>, dat: Bytes, index: seq<IndexEntry>, blocks: seq<seq<Entry>>, places: seq<Place>)
    requires Lossless(z) && Sorted(entries) && entries != []
    requires Writable(blocks) && Flatten(blocks) == entries && dat == FileOf(z, blocks)
    requires Indexed(z, index, places, entries, blocks) && Strided(places) && SparseIndexStride * |index| >= |entries|
    ensures OpenSegment(z, dat, index, blocks, entries, places)
  {
  }

  /** What is written comes back: every lookup is exact, a scan and a drained cursor return exactly
      the records of `[lo, hi)`. */
  method WriteThenRead(z: Zstd, entries: seq<Entry>, mayContain: Bytes -> bool, k: Bytes, lo: Bytes, hi: Bytes)
    returns (found: Read<Option<Entry>>, scanned: Read<seq<Entry>>, streamed: seq<Entry>)
    requires Lossless(z) && Sorted(entries) && entries != [] && SmallEnough(entries) && NoFalseNegatives(mayContain, entries)
    ensures found == Ok(Lookup(entries, k))
    ensures scanned == Ok(Slice(entries, lo, hi)) && streamed == Slice(entries, lo, hi)
  {
    var dat, index; ghost var blocks, places;
    dat, index, blocks, places := WriteDatAndIndex(z, entries);
    WrittenOpens(z, entries, dat, index, blocks, places);
    found := GetRecord(z, dat, index, mayContain, k, blocks, entries, places);
    scanned := RangeScan(z, dat, index, entries[0].key, entries[|entries| - 1].key, lo, hi, blocks, entries, places);
    var cursor := new SegmentCursor(z, dat, index, lo, hi, blocks, entries, places);
    streamed := Drain(cursor);
  }
}
