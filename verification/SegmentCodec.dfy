/** Segment bytes: the record codec, 4 KiB-aligned compressed blocks, and the file they form. */
module SegmentCodec {
  import opened ByteStrings
  import opened Entries

  const BlockMagic := 0x45445347
  const FormatVersion: byte := 1
  const HeaderLen := 8
  const BlockTarget := 3900
  const BlockSize := 4096
  const MaxBlockDecompressed := BlockSize * 512
  const SparseIndexStride := 64

  /** The block compressor. */
  datatype Zstd = Zstd(encode: Bytes -> Bytes, decode: Bytes -> Option<Bytes>)

  /** Decoding inverts encoding, and an encoded block's length fits its 32-bit field. */
  ghost predicate Lossless(z: Zstd) {
    forall b :: z.decode(z.encode(b)) == Some(b) && (|b| <= MaxBlockDecompressed ==> |z.encode(b)| < 0x1_0000_0000)
  }

  // ---- Records ----

  predicate Encodable(e: Entry) {
    && |e.key| < 0x1_0000_0000 && (e.op.Put? ==> |e.op.value| < 0x1_0000_0000)
    && e.lsn < 0x1_0000_0000_0000_0000
    && -0x8000_0000_0000_0000 <= e.timestamp < 0x8000_0000_0000_0000
    && e.ttl < 0x1_0000_0000
  }

  function ValueBytes(op: Op): Bytes {
    if op.Put? then op.value else []
  }

  /** `[lsn][timestamp][ttl][op]`. */
  function SerializeFixed(e: Entry): (b: Bytes)
    requires Encodable(e)
    ensures |b| == 21
  {
    LittleEndian(e.lsn, 8) + LittleEndian(Unsigned64(e.timestamp), 8) + LittleEndian(e.ttl, 4)
    + [if e.op.Put? then 1 else 2]
  }

  /** `[key_len][key][val_len][val]` and the fixed fields. */
  function Serialize(e: Entry): (b: Bytes)
    requires Encodable(e)
    ensures |b| == 29 + |e.key| + |ValueBytes(e.op)|
  {
    LittleEndian(|e.key|, 4) + e.key + LittleEndian(|ValueBytes(e.op)|, 4) + ValueBytes(e.op) + SerializeFixed(e)
  }

  lemma {:induction false} FixedLayout(e: Entry, f: Bytes)
    requires Encodable(e) && f == SerializeFixed(e)
    ensures FromLittleEndian(f[..8]) == e.lsn && Signed64(FromLittleEndian(f[8..16])) == e.timestamp && FromLittleEndian(f[16..20]) == e.ttl
    ensures f[20] == if e.op.Put? then 1 else 2
  {
    Pow256Values();
    LittleEndianRoundTrip(e.lsn, 8);
    LittleEndianRoundTrip(Unsigned64(e.timestamp), 8);
    LittleEndianRoundTrip(e.ttl, 4);
    FixedPieces(LittleEndian(e.lsn, 8), LittleEndian(Unsigned64(e.timestamp), 8), LittleEndian(e.ttl, 4), [if e.op.Put? then 1 else 2]);
  }

  lemma FixedPieces(a: Bytes, b: Bytes, c: Bytes, d: Bytes)
    requires |a| == |b| == 8 && |c| == 4 && |d| == 1
    ensures var f := a + b + c + d; f[..8] == a && f[8..16] == b && f[16..20] == c && f[20] == d[0]
  {
  }

  /** Where each field of a record lies. */
  lemma {:induction false} EntryLayout(e: Entry)
    requires Encodable(e)
    ensures var b, n, v := Serialize(e), |e.key|, |ValueBytes(e.op)|;
            && |b| == 29 + n + v
            && FromLittleEndian(b[..4]) == n && b[4..4 + n] == e.key
            && FromLittleEndian(b[4 + n..8 + n]) == v && b[8 + n..8 + n + v] == ValueBytes(e.op)
    ensures var f := Serialize(e)[8 + |e.key| + |ValueBytes(e.op)|..];
            && |f| == 21 && FromLittleEndian(f[..8]) == e.lsn && Signed64(FromLittleEndian(f[8..16])) == e.timestamp
            && FromLittleEndian(f[16..20]) == e.ttl && f[20] == if e.op.Put? then 1 else 2
  {
    var n, v := |e.key|, |ValueBytes(e.op)|;
    Pow256Values();
    LittleEndianRoundTrip(n, 4);
    LittleEndianRoundTrip(v, 4);
    FivePieces(LittleEndian(n, 4), e.key, LittleEndian(v, 4), ValueBytes(e.op), SerializeFixed(e));
    FixedLayout(e, SerializeFixed(e));
  }

  lemma FivePieces(a: Bytes, b: Bytes, c: Bytes, d: Bytes, e: Bytes)
    ensures var all := a + b + c + d + e;
            && all[..|a|] == a && all[|a|..|a| + |b|] == b && all[|a| + |b|..|a| + |b| + |c|] == c
            && all[|a| + |b| + |c|..|a| + |b| + |c| + |d|] == d && all[|a| + |b| + |c| + |d|..] == e
  {
  }

  datatype Cut = TooShort | Cut(field: Bytes, rest: Bytes)

  function Take(b: Bytes, n: nat): Cut {
    if |b| < n then TooShort else Cut(b[..n], b[n..])
  }

  lemma TakeField(x: Bytes, rest: Bytes)
    ensures Take(x + rest, |x|) == Cut(x, rest)
  {
    assert (x + rest)[..|x|] == x && (x + rest)[|x|..] == rest;
  }

  /** A `u32` length and that many bytes. */
  function TakeSized(b: Bytes): Cut {
    var n := Take(b, 4);
    if n.TooShort? then TooShort else Take(n.rest, FromLittleEndian(n.field))
  }

  function TakeInt(b: Bytes, n: nat): (r: (Option<nat>, Bytes))
    ensures |b| >= n <==> r.0.Some?
    ensures r.0.Some? ==> |r.1| == |b| - n
  {
    if |b| < n then (None, []) else (Some(FromLittleEndian(b[..n])), b[n..])
  }

  lemma TakeSizedField(x: Bytes, rest: Bytes)
    requires |x| < 0x1_0000_0000
    ensures TakeSized(LittleEndian(|x|, 4) + (x + rest)) == Cut(x, rest)
  {
    Pow256Values();
    LittleEndianRoundTrip(|x|, 4);
    TakeField(LittleEndian(|x|, 4), x + rest);
    TakeField(x, rest);
  }

  lemma TakeIntField(v: nat, n: nat, rest: Bytes)
    requires v < Pow256(n)
    ensures TakeInt(LittleEndian(v, n) + rest, n) == (Some(v), rest)
  {
    LittleEndianRoundTrip(v, n);
    TakeField(LittleEndian(v, n), rest);
  }

  datatype Parsed = Malformed | Parsed(entry: Entry, rest: Bytes)

  /** Reads one record from the front of `b`. */
  function Parse(b: Bytes): (r: Parsed)
    ensures r.Parsed? ==> |r.rest| < |b|
  {
    var k := TakeSized(b);
    if k.TooShort? then Malformed else
    var v := TakeSized(k.rest);
    if v.TooShort? then Malformed else ParseFixed(v.rest, k.field, v.field)
  }

  function ParseFixed(b: Bytes, key: Bytes, value: Bytes): (r: Parsed)
    ensures r.Parsed? ==> |r.rest| < |b|
  {
    var lsn := TakeInt(b, 8);
    if lsn.0.None? then Malformed else
    var ts := TakeInt(lsn.1, 8);
    if ts.0.None? then Malformed else
    var ttl := TakeInt(ts.1, 4);
    if ttl.0.None? || |ttl.1| < 1 then Malformed else
    if ttl.1[0] == 1 then Parsed(Entry(key, Put(value), lsn.0.value, Signed64(ts.0.value), ttl.0.value), ttl.1[1..])
    else if ttl.1[0] == 2 then Parsed(Entry(key, Delete, lsn.0.value, Signed64(ts.0.value), ttl.0.value), ttl.1[1..])
    else Malformed
  }

  lemma ParseFixedSerialized(e: Entry, rest: Bytes)
    requires Encodable(e)
    ensures ParseFixed(SerializeFixed(e) + rest, e.key, ValueBytes(e.op)) == Parsed(e, rest)
  {
    var opRest := [if e.op.Put? then 1 else 2] + rest;
    var ttlRest := LittleEndian(e.ttl, 4) + opRest;
    var tsRest := LittleEndian(Unsigned64(e.timestamp), 8) + ttlRest;
    assert SerializeFixed(e) + rest == LittleEndian(e.lsn, 8) + tsRest;
    Pow256Values();
    TakeIntField(e.lsn, 8, tsRest);
    TakeIntField(Unsigned64(e.timestamp), 8, ttlRest);
    TakeIntField(e.ttl, 4, opRest);
    assert opRest[1..] == rest;
  }

  lemma Nested(a: Bytes, b: Bytes, c: Bytes, d: Bytes, e: Bytes, rest: Bytes)
    ensures a + b + c + d + e + rest == a + (b + (c + (d + (e + rest))))
  {
  }

  lemma {:induction false} ParseSerialized(e: Entry, rest: Bytes)
    requires Encodable(e)
    ensures Parse(Serialize(e) + rest) == Parsed(e, rest)
  {
    var v, fixed := ValueBytes(e.op), SerializeFixed(e) + rest;
    var valRest := LittleEndian(|v|, 4) + (v + fixed);
    Nested(LittleEndian(|e.key|, 4), e.key, LittleEndian(|v|, 4), v, SerializeFixed(e), rest);
    TakeSizedField(e.key, valRest);
    TakeSizedField(v, fixed);
    ParseFixedSerialized(e, rest);
  }

  // ---- Runs of records ----

  predicate AllEncodable(es: seq<Entry>) {
    forall i :: 0 <= i < |es| ==> Encodable(es[i])
  }

  function SerializeAll(es: seq<Entry>): Bytes
    requires AllEncodable(es)
  {
    if es == [] then [] else Serialize(es[0]) + SerializeAll(es[1..])
  }

  /** Records up to the first that does not parse. */
  function ParseAll(b: Bytes): seq<Entry>
    decreases |b|
  {
    if b == [] then []
    else
      var p := Parse(b);
      if p.Malformed? then [] else [p.entry] + ParseAll(p.rest)
  }

  lemma Associative(a: Bytes, b: Bytes, c: Bytes)
    ensures a + (b + c) == (a + b) + c
  {
  }

  lemma {:induction false} SerializeSnoc(es: seq<Entry>, e: Entry)
    requires AllEncodable(es) && Encodable(e)
    ensures AllEncodable(es + [e]) && SerializeAll(es + [e]) == SerializeAll(es) + Serialize(e)
  {
    if es == [] {
      assert es + [e] == [e] && [e][1..] == [];
    } else {
      SerializeSnoc(es[1..], e);
      assert (es + [e])[1..] == es[1..] + [e];
      Associative(Serialize(es[0]), SerializeAll(es[1..]), Serialize(e));
    }
  }

  lemma ParseOneMore(e: Entry, rest: Bytes)
    requires Encodable(e)
    ensures ParseAll(Serialize(e) + rest) == [e] + ParseAll(rest)
  {
    ParseSerialized(e, rest);
    assert Serialize(e) + rest != [];
  }

  lemma {:induction false} ParseBlock(es: seq<Entry>)
    requires AllEncodable(es)
    ensures ParseAll(SerializeAll(es)) == es
  {
    if es != [] {
      ParseBlock(es[1..]);
      ParseOneMore(es[0], SerializeAll(es[1..]));
    }
  }

  // ---- Blocks ----

  function Aligned(n: nat): (r: nat)
    ensures n <= r < n + BlockSize && r % BlockSize == 0
  {
    if n % BlockSize == 0 then n else (n / BlockSize + 1) * BlockSize
  }

  function Zeros(n: nat): (b: Bytes)
    ensures |b| == n
  {
    seq(n, _ => 0)
  }

  /** Magic, compressed length, compressed records, zero padding to the 4 KiB boundary. */
  function BlockBytes(z: Zstd, raw: Bytes): (b: Bytes)
    ensures |b| == Aligned(8 + |z.encode(raw)|)
  {
    var c := z.encode(raw);
    LittleEndian(BlockMagic, 4) + LittleEndian(|c|, 4) + c + Zeros(Aligned(8 + |c|) - (8 + |c|))
  }

  datatype BlockRead = NoBlock | CorruptBlock | Block(entries: seq<Entry>, size: nat)

  /** Decodes the block at the front of `b`: nothing at the end of the file or without the magic, an
      error when cut short, undecodable or too large. */
  function DecodeBlock(z: Zstd, b: Bytes): (r: BlockRead)
    ensures r.Block? ==> r.size >= 8
  {
    var magic := Take(b, 4);
    if magic.TooShort? || FromLittleEndian(magic.field) != BlockMagic then NoBlock else
    var c := TakeSized(magic.rest);
    if c.TooShort? then CorruptBlock else
    var raw := z.decode(c.field);
    if raw.None? || |raw.value| > MaxBlockDecompressed then CorruptBlock
    else Block(ParseAll(raw.value), Aligned(8 + |c.field|))
  }

  function ReadBlock(z: Zstd, file: Bytes, offset: nat): (r: BlockRead)
    ensures r.Block? ==> r.size >= 8
  {
    if offset > |file| then NoBlock else DecodeBlock(z, file[offset..])
  }

  /** The version for bytes in memory: a block cut short ends the walk. Imports cap the decoded size,
      the in-memory reader does not. */
  function BlockInMemory(z: Zstd, file: Bytes, offset: nat, capped: bool): (r: BlockRead)
    ensures r.Block? ==> r.size >= 8
    ensures ReadBlock(z, file, offset).Block? ==> r == ReadBlock(z, file, offset)
  {
    if offset + 8 > |file| then NoBlock else
    var magic := Take(file[offset..], 4);
    if FromLittleEndian(magic.field) != BlockMagic then NoBlock else
    var c := TakeSized(magic.rest);
    if c.TooShort? then NoBlock else
    var raw := z.decode(c.field);
    if raw.None? || (capped && |raw.value| > MaxBlockDecompressed) then CorruptBlock
    else Block(ParseAll(raw.value), Aligned(8 + |c.field|))
  }

  lemma {:induction false} DecodeFields(z: Zstd, raw: Bytes, tail: Bytes)
    requires Lossless(z) && |raw| <= MaxBlockDecompressed
    ensures var c := z.encode(raw);
            DecodeBlock(z, LittleEndian(BlockMagic, 4) + (LittleEndian(|c|, 4) + (c + tail))) == Block(ParseAll(raw), Aligned(8 + |c|))
  {
    var c := z.encode(raw);
    Pow256Values();
    LittleEndianRoundTrip(BlockMagic, 4);
    TakeField(LittleEndian(BlockMagic, 4), LittleEndian(|c|, 4) + (c + tail));
    TakeSizedField(c, tail);
    assert z.decode(c) == Some(raw);
  }

  lemma {:induction false} DecodeWritten(z: Zstd, raw: Bytes, after: Bytes)
    requires Lossless(z) && |raw| <= MaxBlockDecompressed
    ensures DecodeBlock(z, BlockBytes(z, raw) + after) == Block(ParseAll(raw), |BlockBytes(z, raw)|)
  {
    var c := z.encode(raw);
    var tail := Zeros(Aligned(8 + |c|) - (8 + |c|)) + after;
    assert BlockBytes(z, raw) + after == LittleEndian(BlockMagic, 4) + (LittleEndian(|c|, 4) + (c + tail));
    DecodeFields(z, raw, tail);
  }

  lemma Behind(a: Bytes, b: Bytes, c: Bytes)
    ensures (a + b + c)[|a|..] == b + c
  {
  }

  lemma {:induction false} OversizedFields(z: Zstd, raw: Bytes, tail: Bytes)
    requires Lossless(z) && |raw| > MaxBlockDecompressed && |z.encode(raw)| < 0x1_0000_0000
    ensures var c := z.encode(raw);
            DecodeBlock(z, LittleEndian(BlockMagic, 4) + (LittleEndian(|c|, 4) + (c + tail))) == CorruptBlock
  {
    var c := z.encode(raw);
    Pow256Values();
    LittleEndianRoundTrip(BlockMagic, 4);
    TakeField(LittleEndian(BlockMagic, 4), LittleEndian(|c|, 4) + (c + tail));
    TakeSizedField(c, tail);
    assert z.decode(c) == Some(raw);
  }

  lemma BlockFields(z: Zstd, raw: Bytes, after: Bytes)
    ensures var c := z.encode(raw);
            BlockBytes(z, raw) + after ==
            LittleEndian(BlockMagic, 4) + (LittleEndian(|c|, 4) + (c + (Zeros(Aligned(8 + |c|) - (8 + |c|)) + after)))
  {
  }

  /** The writer does not look at a block's size, the reader does: a written block reads back if and only if
      its records take up no more than the 2 MiB the reader allows. */
  lemma {:induction false} BlockReadsBackIff(z: Zstd, es: seq<Entry>, before: Bytes, after: Bytes)
    requires Lossless(z) && AllEncodable(es) && |z.encode(SerializeAll(es))| < 0x1_0000_0000
    ensures var b := BlockBytes(z, SerializeAll(es));
            && (ReadBlock(z, before + b + after, |before|) == Block(es, |b|) <==> |SerializeAll(es)| <= MaxBlockDecompressed)
            && (|SerializeAll(es)| > MaxBlockDecompressed ==> ReadBlock(z, before + b + after, |before|) == CorruptBlock)
  {
    if |SerializeAll(es)| <= MaxBlockDecompressed {
      ReadBlockWritten(z, es, before, after);
    } else {
      OversizedBlock(z, SerializeAll(es), before, after);
    }
  }

  lemma {:induction false} OversizedBlock(z: Zstd, raw: Bytes, before: Bytes, after: Bytes)
    requires Lossless(z) && |raw| > MaxBlockDecompressed && |z.encode(raw)| < 0x1_0000_0000
    ensures ReadBlock(z, before + BlockBytes(z, raw) + after, |before|) == CorruptBlock
  {
    var c := z.encode(raw);
    Behind(before, BlockBytes(z, raw), after);
    BlockFields(z, raw, after);
    OversizedFields(z, raw, Zeros(Aligned(8 + |c|) - (8 + |c|)) + after);
  }

  lemma {:induction false} ReadBlockWritten(z: Zstd, es: seq<Entry>, before: Bytes, after: Bytes)
    requires Lossless(z) && AllEncodable(es) && |SerializeAll(es)| <= MaxBlockDecompressed
    ensures var b := BlockBytes(z, SerializeAll(es));
            ReadBlock(z, before + b + after, |before|) == Block(es, |b|)
  {
    Behind(before, BlockBytes(z, SerializeAll(es)), after);
    DecodeWritten(z, SerializeAll(es), after);
    ParseBlock(es);
  }

  // ---- Files ----

  function Header(): (h: Bytes)
    ensures |h| == HeaderLen
  {
    LittleEndian(BlockMagic, 4) + [FormatVersion, 0, 0, 0]
  }

  predicate Writable(blocks: seq<seq<Entry>>) {
    forall j :: 0 <= j < |blocks| ==> WritableBlock(blocks[j])
  }

  predicate WritableBlock(b: seq<Entry>) {
    b != [] && AllEncodable(b) && |SerializeAll(b)| <= MaxBlockDecompressed
  }

  function FileOf(z: Zstd, blocks: seq<seq<Entry>>): Bytes
    requires Writable(blocks)
  {
    if blocks == [] then Header()
    else FileOf(z, blocks[..|blocks| - 1]) + BlockBytes(z, SerializeAll(blocks[|blocks| - 1]))
  }

  /** Where block `j` starts; for `j == |blocks|`, the end of the file. */
  function Offset(z: Zstd, blocks: seq<seq<Entry>>, j: nat): (o: nat)
    requires Writable(blocks) && j <= |blocks|
  {
    |FileOf(z, blocks[..j])|
  }

  lemma {:induction false} FilePrefix(z: Zstd, blocks: seq<seq<Entry>>, j: nat)
    requires Writable(blocks) && j <= |blocks|
    ensures FileOf(z, blocks[..j]) <= FileOf(z, blocks)
    decreases |blocks| - j
  {
    if j == |blocks| {
      assert blocks[..j] == blocks;
    } else {
      assert blocks[..j + 1][..j] == blocks[..j];
      FilePrefix(z, blocks, j + 1);
    }
  }

  /** The file around block `j`. */
  lemma {:induction false} FileAround(z: Zstd, blocks: seq<seq<Entry>>, j: nat) returns (after: Bytes)
    requires Writable(blocks) && j < |blocks|
    ensures var b := BlockBytes(z, SerializeAll(blocks[j]));
            && FileOf(z, blocks) == FileOf(z, blocks[..j]) + b + after
            && Offset(z, blocks, j + 1) == Offset(z, blocks, j) + |b| <= |FileOf(z, blocks)|
  {
    var before, file := FileOf(z, blocks[..j]), FileOf(z, blocks);
    var b := BlockBytes(z, SerializeAll(blocks[j]));
    assert blocks[..j + 1][..j] == blocks[..j];
    assert FileOf(z, blocks[..j + 1]) == before + b;
    FilePrefix(z, blocks, j + 1);
    after := file[|before + b|..];
  }

  /** Reading at a block's offset returns that block and leads to the next offset. */
  lemma {:induction false} ReadBlockAt(z: Zstd, blocks: seq<seq<Entry>>, j: nat)
    requires Lossless(z) && Writable(blocks) && j < |blocks|
    ensures Offset(z, blocks, j) < Offset(z, blocks, j + 1) <= |FileOf(z, blocks)|
    ensures ReadBlock(z, FileOf(z, blocks), Offset(z, blocks, j)) == Block(blocks[j], Offset(z, blocks, j + 1) - Offset(z, blocks, j))
  {
    var after := FileAround(z, blocks, j);
    ReadBlockWritten(z, blocks[j], FileOf(z, blocks[..j]), after);
  }

  lemma {:induction false} OffsetEnd(z: Zstd, blocks: seq<seq<Entry>>)
    requires Writable(blocks)
    ensures Offset(z, blocks, 0) == HeaderLen && Offset(z, blocks, |blocks|) == |FileOf(z, blocks)|
  {
    assert blocks[..|blocks|] == blocks && blocks[..0] == [];
  }
}
