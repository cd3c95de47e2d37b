/** The manifest file's bytes: framed entries behind a header. */
module ManifestBytes {
  import opened ByteStrings
  import opened Manifest
  import opened Framing

  const MaxEntry := 1_000_000

  /** The JSON codec of log entries. */
  datatype Json = Json(encode: LogEntry -> Bytes, decode: Bytes -> Option<LogEntry>)

  ghost predicate LosslessJson(j: Json) {
    forall e :: j.decode(j.encode(e)) == Some(e)
  }

  function FileHeader(): (h: Bytes)
    ensures |h| == 8
  {
    [0x46, 0x4E, 0x41, 0x4D, 1, 0, 0, 0]
  }

  predicate AllSmall(j: Json, log: seq<LogEntry>) {
    forall i :: 0 <= i < |log| ==> |j.encode(log[i])| <= MaxEntry
  }

  function ManifestImage(crc: Checksum, j: Json, log: seq<LogEntry>): Bytes {
    FileHeader() + FrameAll(crc, EncodeItems(j.encode, log))
  }

  /** Opening: a bad header is an error, entries that fail their checksum or do not parse are skipped. */
  method OpenManifest(crc: Checksum, j: Json, file: Bytes) returns (r: Option<seq<Meta>>)
    ensures |file| < 8 || file[..5] != FileHeader()[..5] <==> r == None
    ensures r.Some? ==> r.value == Replay(DecodeItems(j.decode, ReadFrames(crc, file[8..], MaxEntry)))
  {
    if |file| < 8 || file[..5] != FileHeader()[..5] {
      return None;
    }
    var payloads := ReadAll(crc, file[8..], MaxEntry);
    var segments := ReplayPayloads(j.decode, payloads);
    return Some(segments);
  }

  method ReplayPayloads(decode: Bytes -> Option<LogEntry>, payloads: seq<Bytes>) returns (segments: seq<Meta>)
    ensures segments == Replay(DecodeItems(decode, payloads))
  {
    segments := [];
    for i := 0 to |payloads|
      invariant segments == Replay(DecodeItems(decode, payloads[..i]))
    {
      DecodeSnoc(decode, payloads, i);
      var e := decode(payloads[i]);
      if e.Some? {
        ReplaySnoc(DecodeItems(decode, payloads[..i]), e.value);
        segments := ReplayOne(segments, e.value);
      } else {
        assert DecodeItems(decode, payloads[..i + 1]) == DecodeItems(decode, payloads[..i]);
      }
    }
    assert payloads[..|payloads|] == payloads;
  }

  lemma {:induction false} EntriesStorable(j: Json, log: seq<LogEntry>)
    requires LosslessJson(j) && AllSmall(j, log)
    ensures AllStorable(j.encode, j.decode, MaxEntry, log)
  {
    assert forall e :: j.decode(j.encode(e)) == Some(e);
  }

  lemma {:induction false} TruncatedEntries(crc: Checksum, j: Json, log: seq<LogEntry>, header: Bytes, n: nat)
    requires Fits32(crc) && LosslessJson(j) && AllSmall(j, log) && header == FileHeader() && |header| == 8
    requires 8 <= n <= |ManifestImage(crc, j, log)|
    ensures DecodeItems(j.decode, ReadFrames(crc, ManifestImage(crc, j, log)[..n][8..], MaxEntry))
         == log[..Complete(EncodeItems(j.encode, log), n - 8)]
  {
    EntriesStorable(j, log);
    TruncatedItems(crc, header, j.encode, j.decode, MaxEntry, log, n);
    assert ManifestImage(crc, j, log) == header + FrameAll(crc, EncodeItems(j.encode, log));
  }

  /** A manifest cut anywhere past its header opens to the list after a prefix of its entries, those
      whose frames are complete. */
  lemma {:induction false} TruncatedManifest(crc: Checksum, j: Json, log: seq<LogEntry>, n: nat)
    requires Fits32(crc) && LosslessJson(j) && AllSmall(j, log) && 8 <= n <= |ManifestImage(crc, j, log)|
    ensures var cut := ManifestImage(crc, j, log)[..n];
            Replay(DecodeItems(j.decode, ReadFrames(crc, cut[8..], MaxEntry))) == Replay(log[..Complete(EncodeItems(j.encode, log), n - 8)])
  {
    TruncatedEntries(crc, j, log, FileHeader(), n);
  }

  /** Reopening an intact manifest replays its whole log. */
  lemma {:induction false} ReopenedManifest(crc: Checksum, j: Json, log: seq<LogEntry>)
    requires Fits32(crc) && LosslessJson(j) && AllSmall(j, log)
    ensures Replay(DecodeItems(j.decode, ReadFrames(crc, ManifestImage(crc, j, log)[8..], MaxEntry))) == Replay(log)
  {
    EntriesStorable(j, log);
    WholeItems(crc, FileHeader(), j.encode, j.decode, MaxEntry, log);
  }
}
