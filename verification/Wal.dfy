/** The write-ahead log's record codec, its file, and what a reader finds in a truncated one. */
module Wal {
  import opened ByteStrings
  import opened Keys
  import opened SegmentCodec
  import opened Framing

  datatype WalOp = PutOp | DeleteOp
  datatype WalRecord = WalRecord(txid: nat, lsn: nat, timestamp: int, ttl: nat, op: WalOp, ns: Bytes, key: Bytes, valueHash: Bytes, value: Bytes)

  const MaxCompressed := 64 * 1024 * 1024

  // ---- Records ----

  predicate InBounds(r: WalRecord) {
    && r.txid < 0x1_0000_0000_0000_0000 && r.lsn < 0x1_0000_0000_0000_0000
    && -0x8000_0000_0000_0000 <= r.timestamp < 0x8000_0000_0000_0000 && r.ttl < 0x1_0000_0000
    && |r.ns| <= MaxNamespace && |r.key| < 0x1_0000_0000 && |r.valueHash| == 32 && |r.value| < 0x1_0000_0000
  }

  /** Transaction, LSN, timestamp, time to live and operation. */
  function SerializeHead(r: WalRecord): (b: Bytes)
    requires InBounds(r)
    ensures |b| == 29
  {
    LittleEndian(r.txid, 8) + LittleEndian(r.lsn, 8) + LittleEndian(Unsigned64(r.timestamp), 8) + LittleEndian(r.ttl, 4)
    + [if r.op.PutOp? then 1 else 2]
  }

  /** Namespace, its length big-endian as in encoded keys; key; value hash; value. */
  function SerializeTail(r: WalRecord): Bytes
    requires InBounds(r)
  {
    NamespacePrefix(r.ns) + (LittleEndian(|r.key|, 4) + (r.key + (r.valueHash + (LittleEndian(|r.value|, 4) + r.value))))
  }

  function SerializeRecord(r: WalRecord): Bytes
    requires InBounds(r)
  {
    SerializeHead(r) + SerializeTail(r)
  }

  lemma HeadFields(r: WalRecord)
    requires InBounds(r)
    ensures var h := SerializeHead(r);
            && h[..8] == LittleEndian(r.txid, 8) && h[8..16] == LittleEndian(r.lsn, 8)
            && h[16..24] == LittleEndian(Unsigned64(r.timestamp), 8) && h[24..28] == LittleEndian(r.ttl, 4)
            && h[28] == if r.op.PutOp? then 1 else 2
  {
  }

  /** Where the numbers of a record lie. */
  lemma {:induction false} HeadLayout(r: WalRecord)
    requires InBounds(r)
    ensures var b := SerializeRecord(r);
            && FromLittleEndian(b[..8]) == r.txid && FromLittleEndian(b[8..16]) == r.lsn
            && Signed64(FromLittleEndian(b[16..24])) == r.timestamp && FromLittleEndian(b[24..28]) == r.ttl
            && b[28] == if r.op.PutOp? then 1 else 2
  {
    Pow256Values();
    LittleEndianRoundTrip(r.txid, 8);
    LittleEndianRoundTrip(r.lsn, 8);
    LittleEndianRoundTrip(Unsigned64(r.timestamp), 8);
    LittleEndianRoundTrip(r.ttl, 4);
    HeadFields(r);
    var b, h := SerializeRecord(r), SerializeHead(r);
    assert b[..8] == h[..8] && b[8..16] == h[8..16] && b[16..24] == h[16..24] && b[24..28] == h[24..28];
  }

  /** ... and its strings: the namespace behind a big-endian length, key and value behind little-endian ones. */
  lemma {:induction false} TailLayout(r: WalRecord)
    requires InBounds(r)
    ensures var t, n, k := SerializeRecord(r)[29..], |r.ns|, |r.key|;
            && |t| == 42 + n + k + |r.value|
            && 256 * t[0] as int + t[1] as int == n && t[2..2 + n] == r.ns
            && FromLittleEndian(t[2 + n..6 + n]) == k && t[6 + n..6 + n + k] == r.key && t[6 + n + k..38 + n + k] == r.valueHash
            && FromLittleEndian(t[38 + n + k..42 + n + k]) == |r.value| && t[42 + n + k..] == r.value
  {
    Pow256Values();
    LittleEndianRoundTrip(|r.key|, 4);
    LittleEndianRoundTrip(|r.value|, 4);
    assert SerializeRecord(r)[29..] == SerializeTail(r);
    TailPieces([|r.ns| / 256, |r.ns| % 256], r.ns, LittleEndian(|r.key|, 4), r.key, r.valueHash, LittleEndian(|r.value|, 4), r.value);
  }

  lemma TailPieces(len: Bytes, ns: Bytes, k: Bytes, key: Bytes, hash: Bytes, v: Bytes, value: Bytes)
    requires |len| == 2 && |k| == |v| == 4 && |hash| == 32
    ensures var t, n, m := len + ns + (k + (key + (hash + (v + value)))), |ns|, |key|;
            && |t| == 42 + n + m + |value| && t[0] == len[0] && t[1] == len[1] && t[2..2 + n] == ns
            && t[2 + n..6 + n] == k && t[6 + n..6 + n + m] == key && t[6 + n + m..38 + n + m] == hash
            && t[38 + n + m..42 + n + m] == v && t[42 + n + m..] == value
  {
  }

  datatype Head = BadHead | Head(txid: nat, lsn: nat, timestamp: int, ttl: nat, op: WalOp, rest: Bytes)

  function DeserializeHead(b: Bytes): Head {
    var txid := TakeInt(b, 8);
    if txid.0.None? then BadHead else
    var lsn := TakeInt(txid.1, 8);
    if lsn.0.None? then BadHead else
    var ts := TakeInt(lsn.1, 8);
    if ts.0.None? then BadHead else
    var ttl := TakeInt(ts.1, 4);
    if ttl.0.None? || |ttl.1| < 1 || (ttl.1[0] != 1 && ttl.1[0] != 2) then BadHead
    else Head(txid.0.value, lsn.0.value, Signed64(ts.0.value), ttl.0.value, if ttl.1[0] == 1 then PutOp else DeleteOp, ttl.1[1..])
  }

  /** A big-endian `u16` length and that many bytes. */
  function TakeNamespace(b: Bytes): Cut {
    if |b| < 2 then TooShort else Take(b[2..], b[0] as int * 256 + b[1])
  }

  function DeserializeRecord(b: Bytes): Option<WalRecord> {
    var h := DeserializeHead(b);
    if h.BadHead? then None else
    var ns := TakeNamespace(h.rest);
    if ns.TooShort? then None else
    var key := TakeSized(ns.rest);
    if key.TooShort? then None else
    var hash := Take(key.rest, 32);
    if hash.TooShort? then None else
    var value := TakeSized(hash.rest);
    if value.TooShort? then None
    else Some(WalRecord(h.txid, h.lsn, h.timestamp, h.ttl, h.op, ns.field, key.field, hash.field, value.field))
  }

  lemma {:induction false} HeadRoundTrip(r: WalRecord, rest: Bytes)
    requires InBounds(r)
    ensures DeserializeHead(SerializeHead(r) + rest) == Head(r.txid, r.lsn, r.timestamp, r.ttl, r.op, rest)
  {
    var opRest := [if r.op.PutOp? then 1 else 2] + rest;
    var ttlRest := LittleEndian(r.ttl, 4) + opRest;
    var tsRest := LittleEndian(Unsigned64(r.timestamp), 8) + ttlRest;
    var lsnRest := LittleEndian(r.lsn, 8) + tsRest;
    assert SerializeHead(r) + rest == LittleEndian(r.txid, 8) + lsnRest;
    Pow256Values();
    TakeIntField(r.txid, 8, lsnRest);
    TakeIntField(r.lsn, 8, tsRest);
    TakeIntField(Unsigned64(r.timestamp), 8, ttlRest);
    TakeIntField(r.ttl, 4, opRest);
    assert opRest[1..] == rest;
  }

  lemma {:induction false} NamespaceField(ns: Bytes, rest: Bytes)
    requires |ns| <= MaxNamespace
    ensures TakeNamespace(NamespacePrefix(ns) + rest) == Cut(ns, rest)
  {
    var b := NamespacePrefix(ns) + rest;
    assert b[2..] == ns + rest;
    TakeField(ns, rest);
  }

  /** Deserializing a serialized record gives it back. */
  lemma {:induction false} RecordRoundTrip(r: WalRecord)
    requires InBounds(r)
    ensures DeserializeRecord(SerializeRecord(r)) == Some(r)
  {
    HeadRoundTrip(r, SerializeTail(r));
    var valueRest := LittleEndian(|r.value|, 4) + r.value;
    NamespaceField(r.ns, LittleEndian(|r.key|, 4) + (r.key + (r.valueHash + valueRest)));
    TakeSizedField(r.key, r.valueHash + valueRest);
    TakeField(r.valueHash, valueRest);
    assert r.value + [] == r.value;
    TakeSizedField(r.value, []);
  }

  // ---- Files ----

  /** The block compressor of the log. */
  datatype Lz4 = Lz4(encode: Bytes -> Bytes, decode: Bytes -> Option<Bytes>)

  ghost predicate LosslessLz4(z: Lz4) {
    forall b :: z.decode(z.encode(b)) == Some(b)
  }

  function FileHeader(): (h: Bytes)
    ensures |h| == 8
  {
    [0x45, 0x44, 0x47, 0x57, 1, 0, 0, 0]
  }

  predicate Loggable(z: Lz4, r: WalRecord) {
    InBounds(r) && |z.encode(SerializeRecord(r))| <= MaxCompressed
  }

  predicate AllLoggable(z: Lz4, rs: seq<WalRecord>) {
    forall i :: 0 <= i < |rs| ==> Loggable(z, rs[i])
  }

  function Encoder(z: Lz4): WalRecord -> Bytes {
    (r: WalRecord) => if InBounds(r) then z.encode(SerializeRecord(r)) else []
  }

  function Decoder(z: Lz4): Bytes -> Option<WalRecord> {
    (p: Bytes) =>
      var raw := z.decode(p);
      if raw.None? then None else DeserializeRecord(raw.value)
  }

  function LogFile(crc: Checksum, z: Lz4, rs: seq<WalRecord>): Bytes {
    FileHeader() + FrameAll(crc, EncodeItems(Encoder(z), rs))
  }

  lemma {:induction false} LoggableIsStorable(z: Lz4, r: WalRecord)
    requires LosslessLz4(z) && Loggable(z, r)
    ensures Storable(Encoder(z), Decoder(z), MaxCompressed, r)
  {
    RecordRoundTrip(r);
    assert z.decode(z.encode(SerializeRecord(r))) == Some(SerializeRecord(r));
  }

  lemma {:induction false} LogIsStorable(z: Lz4, rs: seq<WalRecord>)
    requires LosslessLz4(z) && AllLoggable(z, rs)
    ensures AllStorable(Encoder(z), Decoder(z), MaxCompressed, rs)
  {
    forall i | 0 <= i < |rs|
      ensures Storable(Encoder(z), Decoder(z), MaxCompressed, rs[i])
    {
      LoggableIsStorable(z, rs[i]);
    }
  }

  /** The bytes a writer has appended. */
  class WalWriter {
    var file: Bytes
    var bytesWritten: nat

    constructor ()
      ensures file == FileHeader() && bytesWritten == |file|
    {
      file, bytesWritten := FileHeader(), 8;
    }

    /** Appends one compressed, framed record; the file stays the log of its records. */
    method Append(crc: Checksum, z: Lz4, r: WalRecord, ghost rs: seq<WalRecord>)
      requires file == LogFile(crc, z, rs) && bytesWritten == |file|
      modifies this
      ensures file == LogFile(crc, z, rs + [r]) && bytesWritten == |file|
    {
      var frame := Frame(crc, Encoder(z)(r));
      AppendItem(crc, Encoder(z), rs, r);
      assert FileHeader() + (FrameAll(crc, EncodeItems(Encoder(z), rs)) + frame) == LogFile(crc, z, rs) + frame;
      file := file + frame;
      bytesWritten := bytesWritten + |frame|;
    }
  }

  /** Frame by frame; frames that fail their checksum or do not decode are skipped. */
  method ReadRecords(crc: Checksum, z: Lz4, file: Bytes) returns (r: Option<seq<WalRecord>>)
    ensures |file| < 8 || file[..5] != FileHeader()[..5] <==> r == None
    ensures r.Some? ==> r.value == DecodeItems(Decoder(z), ReadFrames(crc, file[8..], MaxCompressed))
  {
    if |file| < 8 || file[..5] != FileHeader()[..5] {
      return None;
    }
    var payloads := ReadAll(crc, file[8..], MaxCompressed);
    var records := DecodePayloads(Decoder(z), payloads);
    return Some(records);
  }

  method DecodePayloads(decode: Bytes -> Option<WalRecord>, payloads: seq<Bytes>) returns (records: seq<WalRecord>)
    ensures records == DecodeItems(decode, payloads)
  {
    records := [];
    for i := 0 to |payloads|
      invariant records == DecodeItems(decode, payloads[..i])
    {
      assert payloads[..i + 1][..i] == payloads[..i];
      var d := decode(payloads[i]);
      if d.Some? {
        records := records + [d.value];
      }
    }
    assert payloads[..|payloads|] == payloads;
  }

  /** A written log cut anywhere past its header yields exactly the records of its complete frames. */
  lemma {:induction false} TruncatedLog(crc: Checksum, z: Lz4, rs: seq<WalRecord>, n: nat)
    requires Fits32(crc) && LosslessLz4(z) && AllLoggable(z, rs) && 8 <= n <= |LogFile(crc, z, rs)|
    ensures var cut := LogFile(crc, z, rs)[..n];
            DecodeItems(Decoder(z), ReadFrames(crc, cut[8..], MaxCompressed)) == rs[..Complete(EncodeItems(Encoder(z), rs), n - 8)]
  {
    LogIsStorable(z, rs);
    TruncatedItems(crc, FileHeader(), Encoder(z), Decoder(z), MaxCompressed, rs, n);
  }

  lemma {:induction false} WholeLog(crc: Checksum, z: Lz4, rs: seq<WalRecord>)
    requires Fits32(crc) && LosslessLz4(z) && AllLoggable(z, rs)
    ensures DecodeItems(Decoder(z), ReadFrames(crc, LogFile(crc, z, rs)[8..], MaxCompressed)) == rs
  {
    LogIsStorable(z, rs);
    WholeItems(crc, FileHeader(), Encoder(z), Decoder(z), MaxCompressed, rs);
  }

  // ---- Records over the reader's limit ----

  /** The writer takes records of any size that fits the length field. */
  predicate Framable(z: Lz4, r: WalRecord) {
    InBounds(r) && |z.encode(SerializeRecord(r))| < 0x1_0000_0000
  }

  predicate AllFramable(z: Lz4, rs: seq<WalRecord>) {
    forall i :: 0 <= i < |rs| ==> Framable(z, rs[i])
  }

  /** How many records come in front of the first one over 64 MiB compressed. */
  function Readable(z: Lz4, rs: seq<WalRecord>): nat {
    Leading(EncodeItems(Encoder(z), rs), MaxCompressed)
  }

  lemma {:induction false} LeadingLoggable(z: Lz4, rs: seq<WalRecord>)
    requires AllFramable(z, rs)
    ensures Readable(z, rs) <= |rs| && AllLoggable(z, rs[..Readable(z, rs)])
    ensures Readable(z, rs) == |rs| <==> AllLoggable(z, rs)
  {
    var ps: seq<Bytes>, n: nat := EncodeItems(Encoder(z), rs), Readable(z, rs);
    assert forall i :: 0 <= i < |rs| ==> ps[i] == z.encode(SerializeRecord(rs[i]));
    assert forall i :: 0 <= i < n ==> ps[..n][i] == ps[i];
    if n < |rs| {
      assert !Loggable(z, rs[n]);
    } else {
      assert rs[..n] == rs;
    }
  }

  /** Appending does not check the size, reading does: an uncut log yields exactly the records in front of the
      first one over the limit, so all of them if and only if none is over it. */
  lemma {:induction false} LogReadsLeading(crc: Checksum, z: Lz4, rs: seq<WalRecord>)
    requires Fits32(crc) && LosslessLz4(z) && AllFramable(z, rs)
    ensures Readable(z, rs) <= |rs|
    ensures DecodeItems(Decoder(z), ReadFrames(crc, LogFile(crc, z, rs)[8..], MaxCompressed)) == rs[..Readable(z, rs)]
    ensures DecodeItems(Decoder(z), ReadFrames(crc, LogFile(crc, z, rs)[8..], MaxCompressed)) == rs <==> AllLoggable(z, rs)
  {
    var ps: seq<Bytes>, n: nat := EncodeItems(Encoder(z), rs), Readable(z, rs);
    LeadingLoggable(z, rs);
    assert LogFile(crc, z, rs)[8..] == FrameAll(crc, ps);
    ReadsLeading(crc, ps, MaxCompressed);
    LogIsStorable(z, rs[..n]);
    DecodePrefix(Encoder(z), Decoder(z), MaxCompressed, rs[..n], n);
    assert rs[..n][..n] == rs[..n] && EncodeItems(Encoder(z), rs[..n])[..n] == ps[..n];
    if n == |rs| {
      assert rs[..n] == rs;
    }
  }
}
