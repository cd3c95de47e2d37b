/** Two readers over the same bytes, and the read-only engine that merges in-memory segments. */
module Immutable {
  import opened ByteStrings
  import opened Keys
  import opened Entries
  import opened Merge
  import opened Scan
  import opened Pages
  import opened SegmentCodec
  import opened SegmentFile
  import opened InMemory

  /** A filter built from keys contains them. */
  ghost predicate Filter(build: seq<Bytes> -> (Bytes -> bool)) {
    forall ks, i :: 0 <= i < |ks| ==> build(ks)(ks[i])
  }

  /** On the bytes the writer produces, the disk reader (64-stride index) and the in-memory reader
      (first key per block) give the same answer to every lookup and every scan. */
  method ReadBothWays(z: Zstd, build: seq<Bytes> -> (Bytes -> bool), entries: seq<Entry>, k: Bytes, lo: Bytes, hi: Bytes)
    returns (onDisk: Read<Option<Entry>>, inMemory: Read<Option<Entry>>, diskScan: Read<seq<Entry>>, memoryScan: Read<seq<Entry>>)
    requires Lossless(z) && Filter(build) && Sorted(entries) && entries != [] && SmallEnough(entries)
    ensures onDisk == inMemory == Ok(Lookup(entries, k))
    ensures diskScan == memoryScan == Ok(Slice(entries, lo, hi))
  {
    var dat, index; ghost var blocks, places;
    dat, index, blocks, places := WriteDatAndIndex(z, entries);
    WrittenOpens(z, entries, dat, index, blocks, places);
    var filter := build(KeysOf(entries));
    var minKey, maxKey := entries[0].key, entries[|entries| - 1].key;
    assert NoFalseNegatives(filter, entries) by {
      assert forall i :: 0 <= i < |entries| ==> KeysOf(entries)[i] == entries[i].key;
    }
    onDisk := GetRecord(z, dat, index, filter, k, blocks, entries, places);
    diskScan := RangeScan(z, dat, index, minKey, maxKey, lo, hi, blocks, entries, places);

    var parsed := FromBytes(z, dat, blocks, entries);
    var firstKeys, keys := parsed.value.0, parsed.value.1;
    assert keys == KeysOf(entries);
    inMemory := GetInMemory(z, dat, firstKeys, build(keys), k, blocks, entries);
    memoryScan := RangeInMemory(z, dat, firstKeys, minKey, maxKey, lo, hi, blocks, entries);
  }

  // ---- The read-only engine ----

  /** Keeps the record with the highest LSN over all readers. */
  method Get(segs: seq<seq<Entry>>, ns: Bytes, key: Bytes) returns (value: Option<Bytes>)
    requires |ns| <= MaxNamespace
    ensures value == ValueOf(Newest(Tables(segs)), EncodeKey(ns, key))
  {
    var k := EncodeKey(ns, key);
    var best: Option<Entry> := None;
    for i := 0 to |segs|
      invariant best == LookupNewest(segs[..i], k)
    {
      assert segs[..i + 1] == segs[..i] + [segs[i]];
      LookupNewestSnoc(segs[..i], segs[i], k);
      var found := Lookup(segs[i], k);
      if found.Some? {
        best := Better(best, found.value);
      }
    }
    assert segs[..|segs|] == segs;
    value := if best.Some? && best.value.op.Put? then Some(best.value.op.value) else None;
  }

  function LookupNewest(segs: seq<seq<Entry>>, k: Bytes): Option<Entry> {
    var m := Newest(Tables(segs));
    if k in m then Some(m[k]) else None
  }

  lemma {:induction false} LookupNewestSnoc(segs: seq<seq<Entry>>, seg: seq<Entry>, k: Bytes)
    ensures LookupNewest(segs + [seg], k) ==
            var found := Lookup(seg, k);
            if found.Some? then Better(LookupNewest(segs, k), found.value) else LookupNewest(segs, k)
  {
    TablesSnoc(segs, seg);
    NewestSnoc(Tables(segs), AsTable(seg));
  }

  /** `p` is what a point read of its key in `[start, end)` returns. */
  predicate Reads(segs: seq<seq<Entry>>, ns: Bytes, start: Bytes, end: Bytes, p: Pair)
    requires |ns| <= MaxNamespace
  {
    InRange(p.key, start, end) && ValueOf(Newest(Tables(segs)), EncodeKey(ns, p.key)) == Some(p.value)
  }

  lemma {:induction false} ListedIsRead(segs: seq<seq<Entry>>, ns: Bytes, start: Bytes, end: Bytes, e: Entry)
    requires |ns| <= MaxNamespace
    requires e in Puts(SegmentList(segs, EncodeKey(ns, start), EncodeKey(ns, end)))
    ensures DecodeKey(e.key).Decoded? && DecodeKey(e.key).ns == ns && e.op.Put?
    ensures Reads(segs, ns, start, end, Pair(DecodeKey(e.key).key, e.op.value))
  {
    var lo, hi := EncodeKey(ns, start), EncodeKey(ns, end);
    var s := SegmentList(segs, lo, hi);
    PutsMembers(s);
    AsTableOfSorted(s);
    RangeStaysInNamespace(ns, start, end, e.key);
    EncodeDecode(e.key);
  }

  lemma {:induction false} ReadIsListed(segs: seq<seq<Entry>>, ns: Bytes, start: Bytes, end: Bytes, p: Pair) returns (e: Entry)
    requires |ns| <= MaxNamespace && Reads(segs, ns, start, end, p)
    ensures e in Puts(SegmentList(segs, EncodeKey(ns, start), EncodeKey(ns, end)))
    ensures e.op.Put? && DecodeKey(e.key) == Decoded(ns, p.key) && e.op.value == p.value
  {
    var lo, hi, k := EncodeKey(ns, start), EncodeKey(ns, end), EncodeKey(ns, p.key);
    var s := SegmentList(segs, lo, hi);
    EncodeMonotone(ns, p.key, start);
    EncodeMonotone(ns, p.key, end);
    assert k in AsTable(s);
    e := AsTable(s)[k];
    AsTableMembers(s);
    PutsMembers(s);
    DecodeEncode(ns, p.key);
  }

  predicate Ascending(items: seq<Pair>) {
    forall i, j :: 0 <= i < j < |items| ==> Less(items[i].key, items[j].key)
  }

  lemma {:induction false} RawAscends(s: seq<Entry>, ns: Bytes)
    requires |ns| <= MaxNamespace && Sorted(s) && Returnable(s, ns)
    ensures Ascending(Raw(s, ns))
  {
    forall i, j | 0 <= i < j < |s|
      ensures Less(Raw(s, ns)[i].key, Raw(s, ns)[j].key)
    {
      EncodeDecode(s[i].key);
      EncodeDecode(s[j].key);
      EncodeMonotone(ns, DecodeKey(s[i].key).key, DecodeKey(s[j].key).key);
    }
  }

  /** Scans every reader and merges. A pair is returned exactly when a point read of its key gives its
      value, each once and in key order. */
  method Range(segs: seq<seq<Entry>>, ns: Bytes, start: Bytes, end: Bytes) returns (items: seq<Pair>)
    requires |ns| <= MaxNamespace && Readers(segs)
    ensures Ascending(items) && forall p :: p in items <==> Reads(segs, ns, start, end, p)
  {
    var lo, hi := EncodeKey(ns, start), EncodeKey(ns, end);
    var perReader: seq<seq<Entry>> := [];
    for n := 0 to |segs|
      invariant Opened(perReader, segs, n, lo, hi)
    {
      OpenNext(perReader, segs, n, lo, hi);
      perReader := perReader + [Slice(segs[n], lo, hi)];
    }
    OpenedAll(perReader, segs, lo, hi);
    var results, truncated := MergeForward(perReader, None);
    items := Decoding(segs, ns, start, end, results);
  }

  method Decoding(segs: seq<seq<Entry>>, ns: Bytes, start: Bytes, end: Bytes, results: seq<Entry>) returns (items: seq<Pair>)
    requires |ns| <= MaxNamespace && results == Puts(SegmentList(segs, EncodeKey(ns, start), EncodeKey(ns, end)))
    ensures Ascending(items) && forall p :: p in items <==> Reads(segs, ns, start, end, p)
  {
    forall i | 0 <= i < |results|
      ensures results[i].op.Put? && DecodeKey(results[i].key).Decoded? && DecodeKey(results[i].key).ns == ns
      ensures Reads(segs, ns, start, end, Pair(DecodeKey(results[i].key).key, results[i].op.value))
    {
      ListedIsRead(segs, ns, start, end, results[i]);
    }
    PutsOfSorted(SegmentList(segs, EncodeKey(ns, start), EncodeKey(ns, end)));
    RawAscends(results, ns);
    items := Raw(results, ns);
    forall p | Reads(segs, ns, start, end, p)
      ensures p in items
    {
      var e := ReadIsListed(segs, ns, start, end, p);
      var i :| 0 <= i < |results| && results[i] == e;
      assert items[i] == p;
    }
  }
}
