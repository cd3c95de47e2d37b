/** Checksummed frames, as the WAL and the manifest append them, and reading a file cut anywhere. */
module Framing {
  import opened ByteStrings
  import opened SegmentCodec

  /** A 32-bit checksum. */
  type Checksum = Bytes -> nat

  ghost predicate Fits32(crc: Checksum) {
    forall b :: crc(b) < 0x1_0000_0000
  }

  /** `[crc][len][payload]`. */
  function Frame(crc: Checksum, p: Bytes): (f: Bytes)
    ensures |f| == 8 + |p|
  {
    LittleEndian(crc(p), 4) + LittleEndian(|p|, 4) + p
  }

  /** Checksum, length, payload. */
  lemma {:induction false} FrameLayout(crc: Checksum, p: Bytes)
    requires crc(p) < 0x1_0000_0000 && |p| < 0x1_0000_0000
    ensures var f := Frame(crc, p); FromLittleEndian(f[..4]) == crc(p) && FromLittleEndian(f[4..8]) == |p| && f[8..] == p
  {
    Pow256Values();
    LittleEndianRoundTrip(crc(p), 4);
    LittleEndianRoundTrip(|p|, 4);
    ThreePieces(LittleEndian(crc(p), 4), LittleEndian(|p|, 4), p);
  }

  lemma ThreePieces(a: Bytes, b: Bytes, c: Bytes)
    ensures var all := a + b + c; all[..|a|] == a && all[|a|..|a| + |b|] == b && all[|a| + |b|..] == c
  {
  }

  function FrameAll(crc: Checksum, ps: seq<Bytes>): Bytes {
    if ps == [] then [] else Frame(crc, ps[0]) + FrameAll(crc, ps[1..])
  }

  datatype FrameRead = EndOfFrames | Skip(rest: Bytes) | Payload(payload: Bytes, rest: Bytes)

  /** Reads one frame: the end at a short or oversized frame, nothing when the checksum is off. */
  function ReadFrame(crc: Checksum, b: Bytes, limit: nat): (r: FrameRead)
    ensures !r.EndOfFrames? ==> |r.rest| < |b|
  {
    var sum := TakeInt(b, 4);
    if sum.0.None? then EndOfFrames else
    var len := TakeInt(sum.1, 4);
    if len.0.None? || len.0.value > limit then EndOfFrames else
    var p := Take(len.1, len.0.value);
    if p.TooShort? then EndOfFrames
    else if crc(p.field) != sum.0.value then Skip(p.rest)
    else Payload(p.field, p.rest)
  }

  /** The payloads of the frames of `b`. */
  function ReadFrames(crc: Checksum, b: Bytes, limit: nat): seq<Bytes>
    decreases |b|
  {
    match ReadFrame(crc, b, limit)
    case EndOfFrames => []
    case Skip(rest) => ReadFrames(crc, rest, limit)
    case Payload(p, rest) => [p] + ReadFrames(crc, rest, limit)
  }

  /** The read loop. */
  method ReadAll(crc: Checksum, b: Bytes, limit: nat) returns (ps: seq<Bytes>)
    ensures ps == ReadFrames(crc, b, limit)
  {
    ps := [];
    var rest := b;
    while true
      invariant ps + ReadFrames(crc, rest, limit) == ReadFrames(crc, b, limit)
      decreases |rest|
    {
      var f := ReadFrame(crc, rest, limit);
      if f.EndOfFrames? {
        return;
      }
      if f.Payload? {
        assert ps + ([f.payload] + ReadFrames(crc, f.rest, limit)) == ps + [f.payload] + ReadFrames(crc, f.rest, limit);
        ps := ps + [f.payload];
      }
      rest := f.rest;
    }
  }

  // ---- Truncation ----

  /** A file cut past its header. */
  lemma PastHeader(h: Bytes, b: Bytes, n: nat)
    requires |h| <= n <= |h| + |b|
    ensures (h + b)[..n][|h|..] == b[..n - |h|]
  {
  }

  predicate AllWithin(ps: seq<Bytes>, limit: nat) {
    forall i :: 0 <= i < |ps| ==> |ps[i]| <= limit
  }

  /** How many frames lie completely in the first `n` bytes. */
  function Complete(ps: seq<Bytes>, n: nat): (j: nat)
    ensures j <= |ps|
  {
    if ps == [] || n < 8 + |ps[0]| then 0 else 1 + Complete(ps[1..], n - (8 + |ps[0]|))
  }

  lemma {:induction false} CompleteIsMaximal(crc: Checksum, ps: seq<Bytes>, n: nat)
    ensures var j := Complete(ps, n); |FrameAll(crc, ps[..j])| <= n && (j < |ps| ==> n < |FrameAll(crc, ps[..j + 1])|)
  {
    var j := Complete(ps, n);
    if ps == [] || n < 8 + |ps[0]| {
      if ps != [] {
        assert ps[..1][1..] == [] && FrameAll(crc, ps[..1]) == Frame(crc, ps[0]) + [];
      }
    } else {
      CompleteIsMaximal(crc, ps[1..], n - (8 + |ps[0]|));
      assert ps[..j][1..] == ps[1..][..j - 1];
      if j < |ps| {
        assert ps[..j + 1][1..] == ps[1..][..j];
      }
    }
  }

  lemma {:induction false} WholeFrame(crc: Checksum, p: Bytes, rest: Bytes, limit: nat)
    requires Fits32(crc) && |p| <= limit < 0x1_0000_0000
    ensures ReadFrame(crc, Frame(crc, p) + rest, limit) == Payload(p, rest)
  {
    Pow256Values();
    var tail := LittleEndian(|p|, 4) + (p + rest);
    assert Frame(crc, p) + rest == LittleEndian(crc(p), 4) + tail;
    TakeIntField(crc(p), 4, tail);
    TakeIntField(|p|, 4, p + rest);
    TakeField(p, rest);
  }

  lemma {:induction false} TornFrame(crc: Checksum, p: Bytes, n: nat, limit: nat)
    requires Fits32(crc) && |p| <= limit < 0x1_0000_0000 && n < 8 + |p|
    ensures ReadFrame(crc, Frame(crc, p)[..n], limit) == EndOfFrames
  {
    if n >= 8 {
      Pow256Values();
      var cut := p[..n - 8];
      var tail := LittleEndian(|p|, 4) + cut;
      assert Frame(crc, p)[..n] == LittleEndian(crc(p), 4) + tail;
      TakeIntField(crc(p), 4, tail);
      TakeIntField(|p|, 4, cut);
    }
  }

  lemma {:induction false} ReadOneMore(crc: Checksum, p: Bytes, rest: Bytes, limit: nat)
    requires Fits32(crc) && |p| <= limit < 0x1_0000_0000
    ensures ReadFrames(crc, Frame(crc, p) + rest, limit) == [p] + ReadFrames(crc, rest, limit)
  {
    WholeFrame(crc, p, rest, limit);
  }

  lemma {:induction false} ReadTorn(crc: Checksum, p: Bytes, n: nat, limit: nat)
    requires Fits32(crc) && |p| <= limit < 0x1_0000_0000 && n < 8 + |p|
    ensures ReadFrames(crc, Frame(crc, p)[..n], limit) == []
  {
    TornFrame(crc, p, n, limit);
  }

  lemma CutFrames(f: Bytes, rest: Bytes, n: nat)
    requires n <= |f| + |rest|
    ensures (f + rest)[..n] == if n < |f| then f[..n] else f + rest[..n - |f|]
  {
  }

  lemma CompleteStep(ps: seq<Bytes>, n: nat)
    requires ps != []
    ensures ps[..Complete(ps, n)] == if n < 8 + |ps[0]| then [] else [ps[0]] + ps[1..][..Complete(ps[1..], n - (8 + |ps[0]|))]
  {
  }

  /** However a file of frames is cut, reading it returns exactly the payloads of its complete frames. */
  lemma {:induction false} TruncatedFrames(crc: Checksum, ps: seq<Bytes>, n: nat, limit: nat)
    requires Fits32(crc) && AllWithin(ps, limit) && limit < 0x1_0000_0000 && n <= |FrameAll(crc, ps)|
    ensures ReadFrames(crc, FrameAll(crc, ps)[..n], limit) == ps[..Complete(ps, n)]
  {
    if ps == [] {
      ShortTail(crc, [], limit);
    } else {
      var size := 8 + |ps[0]|;
      CompleteStep(ps, n);
      CutFrames(Frame(crc, ps[0]), FrameAll(crc, ps[1..]), n);
      if n < size {
        ReadTorn(crc, ps[0], n, limit);
      } else {
        ReadOneMore(crc, ps[0], FrameAll(crc, ps[1..])[..n - size], limit);
        TruncatedFrames(crc, ps[1..], n - size, limit);
      }
    }
  }

  lemma {:induction false} CompleteWhole(crc: Checksum, ps: seq<Bytes>)
    ensures Complete(ps, |FrameAll(crc, ps)|) == |ps|
  {
    if ps != [] {
      CompleteWhole(crc, ps[1..]);
    }
  }

  lemma {:induction false} FrameSnoc(crc: Checksum, ps: seq<Bytes>, p: Bytes)
    ensures FrameAll(crc, ps + [p]) == FrameAll(crc, ps) + Frame(crc, p)
  {
    if ps == [] {
      assert ps + [p] == [p] && [p][1..] == [] && FrameAll(crc, []) == [];
      assert Frame(crc, p) + [] == [] + Frame(crc, p);
    } else {
      FrameSnoc(crc, ps[1..], p);
      assert (ps + [p])[1..] == ps[1..] + [p];
      Associative(Frame(crc, ps[0]), FrameAll(crc, ps[1..]), Frame(crc, p));
    }
  }

  // ---- Files of encoded items ----

  function EncodeItems<T>(encode: T -> Bytes, xs: seq<T>): (ps: seq<Bytes>)
    ensures |ps| == |xs| && forall i :: 0 <= i < |xs| ==> ps[i] == encode(xs[i])
  {
    seq(|xs|, i requires 0 <= i < |xs| => encode(xs[i]))
  }

  /** The items of the payloads that decode. */
  function DecodeItems<T>(decode: Bytes -> Option<T>, ps: seq<Bytes>): seq<T> {
    if ps == [] then []
    else
      var x := decode(ps[|ps| - 1]);
      DecodeItems(decode, ps[..|ps| - 1]) + if x.None? then [] else [x.value]
  }

  lemma {:induction false} DecodeSnoc<T>(decode: Bytes -> Option<T>, ps: seq<Bytes>, i: nat)
    requires i < |ps|
    ensures DecodeItems(decode, ps[..i + 1]) == DecodeItems(decode, ps[..i]) + var x := decode(ps[i]); if x.None? then [] else [x.value]
  {
    assert ps[..i + 1][..i] == ps[..i];
  }

  predicate Storable<T(==)>(encode: T -> Bytes, decode: Bytes -> Option<T>, limit: nat, x: T) {
    decode(encode(x)) == Some(x) && |encode(x)| <= limit
  }

  predicate AllStorable<T(==)>(encode: T -> Bytes, decode: Bytes -> Option<T>, limit: nat, xs: seq<T>) {
    forall i :: 0 <= i < |xs| ==> Storable(encode, decode, limit, xs[i])
  }

  lemma {:induction false} DecodePrefix<T>(encode: T -> Bytes, decode: Bytes -> Option<T>, limit: nat, xs: seq<T>, n: nat)
    requires AllStorable(encode, decode, limit, xs) && n <= |xs|
    ensures DecodeItems(decode, EncodeItems(encode, xs)[..n]) == xs[..n]
  {
    if n > 0 {
      DecodePrefix(encode, decode, limit, xs, n - 1);
      assert EncodeItems(encode, xs)[..n][..n - 1] == EncodeItems(encode, xs)[..n - 1];
      assert Storable(encode, decode, limit, xs[n - 1]);
    }
  }

  lemma {:induction false} StorableWithin<T>(encode: T -> Bytes, decode: Bytes -> Option<T>, limit: nat, xs: seq<T>)
    requires AllStorable(encode, decode, limit, xs)
    ensures AllWithin(EncodeItems(encode, xs), limit)
  {
    assert forall i :: 0 <= i < |xs| ==> Storable(encode, decode, limit, xs[i]);
  }

  /** A file of `header` and framed items, cut anywhere past the header, yields exactly the items of its
      complete frames. */
  lemma {:induction false} TruncatedItems<T>(crc: Checksum, header: Bytes, encode: T -> Bytes, decode: Bytes -> Option<T>, limit: nat, xs: seq<T>, n: nat)
    requires Fits32(crc) && limit < 0x1_0000_0000 && AllStorable(encode, decode, limit, xs)
    requires |header| <= n <= |header + FrameAll(crc, EncodeItems(encode, xs))|
    ensures var cut := (header + FrameAll(crc, EncodeItems(encode, xs)))[..n];
            DecodeItems(decode, ReadFrames(crc, cut[|header|..], limit)) == xs[..Complete(EncodeItems(encode, xs), n - |header|)]
  {
    var body := FrameAll(crc, EncodeItems(encode, xs));
    TruncatedBody(crc, encode, decode, limit, xs, n - |header|);
    PastHeader(header, body, n);
    assert (header + body)[..n][|header|..] == body[..n - |header|];
  }

  lemma {:induction false} TruncatedBody<T>(crc: Checksum, encode: T -> Bytes, decode: Bytes -> Option<T>, limit: nat, xs: seq<T>, n: nat)
    requires Fits32(crc) && limit < 0x1_0000_0000 && AllStorable(encode, decode, limit, xs) && n <= |FrameAll(crc, EncodeItems(encode, xs))|
    ensures DecodeItems(decode, ReadFrames(crc, FrameAll(crc, EncodeItems(encode, xs))[..n], limit)) == xs[..Complete(EncodeItems(encode, xs), n)]
  {
    StorableWithin(encode, decode, limit, xs);
    TruncatedFrames(crc, EncodeItems(encode, xs), n, limit);
    DecodePrefix(encode, decode, limit, xs, Complete(EncodeItems(encode, xs), n));
  }

  lemma {:induction false} WholeItems<T>(crc: Checksum, header: Bytes, encode: T -> Bytes, decode: Bytes -> Option<T>, limit: nat, xs: seq<T>)
    requires Fits32(crc) && limit < 0x1_0000_0000 && AllStorable(encode, decode, limit, xs)
    ensures DecodeItems(decode, ReadFrames(crc, (header + FrameAll(crc, EncodeItems(encode, xs)))[|header|..], limit)) == xs
  {
    var file := header + FrameAll(crc, EncodeItems(encode, xs));
    assert file[..|file|] == file && xs[..|xs|] == xs;
    CompleteWhole(crc, EncodeItems(encode, xs));
    TruncatedItems(crc, header, encode, decode, limit, xs, |file|);
  }

  lemma {:induction false} AppendItem<T>(crc: Checksum, encode: T -> Bytes, xs: seq<T>, x: T)
    ensures FrameAll(crc, EncodeItems(encode, xs + [x])) == FrameAll(crc, EncodeItems(encode, xs)) + Frame(crc, encode(x))
  {
    assert EncodeItems(encode, xs + [x]) == EncodeItems(encode, xs) + [encode(x)];
    FrameSnoc(crc, EncodeItems(encode, xs), encode(x));
  }

  // ---- Appending behind a tail ----

  /** Complete frames in front are read whatever follows. */
  lemma {:induction false} ReadBehind(crc: Checksum, ps: seq<Bytes>, b: Bytes, limit: nat)
    requires Fits32(crc) && AllWithin(ps, limit) && limit < 0x1_0000_0000
    ensures ReadFrames(crc, FrameAll(crc, ps) + b, limit) == ps + ReadFrames(crc, b, limit)
  {
    if ps == [] {
      assert [] + b == b && ps + ReadFrames(crc, b, limit) == ReadFrames(crc, b, limit);
    } else {
      ReadBehind(crc, ps[1..], b, limit);
      FirstFrameBehind(crc, ps, b);
      ReadOneMore(crc, ps[0], FrameAll(crc, ps[1..]) + b, limit);
      FirstThenRest(ps, ReadFrames(crc, b, limit));
    }
  }

  lemma {:induction false} FirstFrameBehind(crc: Checksum, ps: seq<Bytes>, b: Bytes)
    requires ps != []
    ensures FrameAll(crc, ps) + b == Frame(crc, ps[0]) + (FrameAll(crc, ps[1..]) + b)
  {
    Associative(Frame(crc, ps[0]), FrameAll(crc, ps[1..]), b);
  }

  lemma FirstThenRest(ps: seq<Bytes>, x: seq<Bytes>)
    requires ps != []
    ensures [ps[0]] + (ps[1..] + x) == ps + x
  {
  }

  /** Cut at a frame boundary, everything appended later is read back. */
  lemma {:induction false} AppendAtBoundary(crc: Checksum, ps: seq<Bytes>, qs: seq<Bytes>, limit: nat)
    requires Fits32(crc) && AllWithin(ps, limit) && AllWithin(qs, limit) && limit < 0x1_0000_0000
    ensures ReadFrames(crc, FrameAll(crc, ps) + FrameAll(crc, qs), limit) == ps + qs
  {
    ReadBehind(crc, ps, FrameAll(crc, qs), limit);
    ReadBehind(crc, qs, [], limit);
    ShortTail(crc, [], limit);
    assert FrameAll(crc, qs) + [] == FrameAll(crc, qs) && qs + [] == qs;
  }

  /** How many bytes of the next append a frame of `p` cut at `n` still waits for. */
  function Missing(p: Bytes, n: nat): nat
    requires n <= 8 + |p|
  {
    8 + |p| - n
  }

  /** The payload the reader puts together from a torn frame and what follows. */
  function Mixed(p: Bytes, n: nat, b: Bytes): Bytes
    requires 8 <= n <= 8 + |p| && Missing(p, n) <= |b|
  {
    p[..n - 8] + b[..Missing(p, n)]
  }

  lemma {:induction false} TornHeaderRead(crc: Checksum, p: Bytes, rest: Bytes, limit: nat)
    requires Fits32(crc) && |p| <= limit < 0x1_0000_0000
    ensures ReadFrame(crc, LittleEndian(crc(p), 4) + (LittleEndian(|p|, 4) + rest), limit) ==
            if |rest| < |p| then EndOfFrames
            else if crc(rest[..|p|]) != crc(p) then Skip(rest[|p|..])
            else Payload(rest[..|p|], rest[|p|..])
  {
    Pow256Values();
    TakeIntField(crc(p), 4, LittleEndian(|p|, 4) + rest);
    TakeIntField(|p|, 4, rest);
  }

  /** Behind a frame cut inside its payload the reader swallows the missing bytes from what follows: too
      few end the log, otherwise reading goes on behind them. Exact for every checksum. */
  lemma {:induction false} ReadTornPayload(crc: Checksum, p: Bytes, n: nat, b: Bytes, limit: nat)
    requires Fits32(crc) && |p| <= limit < 0x1_0000_0000 && 8 <= n < 8 + |p|
    ensures ReadFrames(crc, Frame(crc, p)[..n] + b, limit) ==
            if |b| < Missing(p, n) then []
            else (if crc(Mixed(p, n, b)) == crc(p) then [Mixed(p, n, b)] else []) + ReadFrames(crc, b[Missing(p, n)..], limit)
  {
    var rest := p[..n - 8] + b;
    TornLayout(crc, p, n, b);
    TornHeaderRead(crc, p, rest, limit);
    if |b| >= Missing(p, n) {
      assert rest[..|p|] == Mixed(p, n, b) && rest[|p|..] == b[Missing(p, n)..];
    }
  }

  lemma CutFields(x: Bytes, y: Bytes, p: Bytes, n: nat, b: Bytes)
    requires |x| == |y| == 4 && 8 <= n <= 8 + |p|
    ensures (x + y + p)[..n] + b == x + (y + (p[..n - 8] + b))
  {
    assert (x + y + p)[..n] == x + y + p[..n - 8];
  }

  lemma {:induction false} TornLayout(crc: Checksum, p: Bytes, n: nat, b: Bytes)
    requires 8 <= n <= 8 + |p|
    ensures Frame(crc, p)[..n] + b == LittleEndian(crc(p), 4) + (LittleEndian(|p|, 4) + (p[..n - 8] + b))
  {
    CutFields(LittleEndian(crc(p), 4), LittleEndian(|p|, 4), p, n, b);
  }

  /** What is read takes up room. */
  lemma {:induction false} ReadFits(crc: Checksum, b: Bytes, limit: nat)
    ensures |FrameAll(crc, ReadFrames(crc, b, limit))| <= |b|
    decreases |b|
  {
    var f := ReadFrame(crc, b, limit);
    if f.Skip? {
      ReadFits(crc, f.rest, limit);
    } else if f.Payload? {
      ReadFits(crc, f.rest, limit);
      var tail := ReadFrames(crc, f.rest, limit);
      assert ([f.payload] + tail)[1..] == tail;
    }
  }

  /** The log behind a frame of `p` that was cut at `n` inside its payload, once `qs` are appended. Unless
      the checksum of the mixed payload happens to match, the appended records are read back intact only
      if there are none; all are lost while they are shorter than the missing bytes; and when the missing
      bytes end at a frame boundary exactly the records behind it are read. */
  lemma {:induction false} AppendBehindTornPayload(crc: Checksum, p: Bytes, n: nat, qs: seq<Bytes>, limit: nat)
    requires Fits32(crc) && |p| <= limit < 0x1_0000_0000 && 8 <= n < 8 + |p| && AllWithin(qs, limit)
    requires Missing(p, n) <= |FrameAll(crc, qs)| ==> crc(Mixed(p, n, FrameAll(crc, qs))) != crc(p)
    ensures var read := ReadFrames(crc, Frame(crc, p)[..n] + FrameAll(crc, qs), limit);
            && (read == qs <==> qs == [])
            && (|FrameAll(crc, qs)| < Missing(p, n) ==> read == [])
            && (forall j :: 0 <= j <= |qs| && |FrameAll(crc, qs[..j])| == Missing(p, n) ==> read == qs[j..])
  {
    var b := FrameAll(crc, qs);
    ReadTornPayload(crc, p, n, b, limit);
    if |b| >= Missing(p, n) {
      SwallowedNotIntact(crc, qs, Missing(p, n), limit);
    }
    forall j | 0 <= j <= |qs| && |FrameAll(crc, qs[..j])| == Missing(p, n)
      ensures Missing(p, n) <= |b| && ReadFrames(crc, b[Missing(p, n)..], limit) == qs[j..]
    {
      ReadFromBoundary(crc, qs, j, limit);
    }
  }

  lemma {:induction false} SwallowedNotIntact(crc: Checksum, qs: seq<Bytes>, k: nat, limit: nat)
    requires 0 < k <= |FrameAll(crc, qs)|
    ensures ReadFrames(crc, FrameAll(crc, qs)[k..], limit) != qs && qs != []
  {
    ReadFits(crc, FrameAll(crc, qs)[k..], limit);
  }

  lemma {:induction false} ReadFromBoundary(crc: Checksum, qs: seq<Bytes>, j: nat, limit: nat)
    requires Fits32(crc) && AllWithin(qs, limit) && limit < 0x1_0000_0000 && j <= |qs|
    ensures |FrameAll(crc, qs[..j])| <= |FrameAll(crc, qs)|
    ensures ReadFrames(crc, FrameAll(crc, qs)[|FrameAll(crc, qs[..j])|..], limit) == qs[j..]
  {
    var front, back := FrameAll(crc, qs[..j]), FrameAll(crc, qs[j..]);
    FrameSplit(crc, qs, j);
    assert (front + back)[|front|..] == back;
    ReadBehind(crc, qs[j..], [], limit);
    ShortTail(crc, [], limit);
    assert back + [] == back && qs[j..] + [] == qs[j..];
  }

  lemma {:induction false} FrameSplit(crc: Checksum, qs: seq<Bytes>, j: nat)
    requires j <= |qs|
    ensures FrameAll(crc, qs) == FrameAll(crc, qs[..j]) + FrameAll(crc, qs[j..])
  {
    if j == 0 {
      assert qs[..0] == [] && qs[0..] == qs;
    } else {
      FrameSplit(crc, qs[1..], j - 1);
      assert qs[..j][1..] == qs[1..][..j - 1] && qs[1..][j - 1..] == qs[j..];
      Associative(Frame(crc, qs[0]), FrameAll(crc, qs[1..][..j - 1]), FrameAll(crc, qs[j..]));
    }
  }

  /** Reading a payload off the front means the front is its frame. */
  lemma {:induction false} PayloadIsFrame(crc: Checksum, b: Bytes, limit: nat)
    requires Fits32(crc) && limit < 0x1_0000_0000 && ReadFrame(crc, b, limit).Payload?
    ensures var f := ReadFrame(crc, b, limit); b == Frame(crc, f.payload) + f.rest
  {
    var len := FromLittleEndian(b[4..8]);
    assert b[4..][..4] == b[4..8] && b[4..][4..] == b[8..];
    FromBytes(b[..4]);
    FromBytes(b[4..8]);
    CutInFour(b, len);
  }

  lemma CutInFour(b: Bytes, n: nat)
    requires 8 + n <= |b|
    ensures b == b[..4] + b[4..8] + b[8..][..n] + b[8..][n..]
  {
  }

  /** Four bytes are the encoding of the number they denote. */
  lemma {:induction false} FromBytes(b: Bytes)
    ensures LittleEndian(FromLittleEndian(b), |b|) == b
  {
    if b != [] {
      FromBytes(b[1..]);
      assert b == [b[0]] + b[1..];
    }
  }

  /** If the records take up all the bytes but fewer than eight, nothing was skipped: the bytes begin with
      exactly their frames. */
  lemma {:induction false} TightRead(crc: Checksum, b: Bytes, qs: seq<Bytes>, limit: nat)
    requires Fits32(crc) && limit < 0x1_0000_0000 && ReadFrames(crc, b, limit) == qs && |b| < |FrameAll(crc, qs)| + 8
    ensures FrameAll(crc, qs) <= b
    decreases |b|
  {
    var f := ReadFrame(crc, b, limit);
    if f.Skip? {
      SkipTakesHeader(crc, b, limit);
      ReadFits(crc, f.rest, limit);
    } else if f.Payload? {
      PayloadIsFrame(crc, b, limit);
      assert qs[1..] == ReadFrames(crc, f.rest, limit);
      TightRead(crc, f.rest, qs[1..], limit);
    }
  }

  lemma SkipTakesHeader(crc: Checksum, b: Bytes, limit: nat)
    requires ReadFrame(crc, b, limit).Skip?
    ensures |ReadFrame(crc, b, limit).rest| + 8 <= |b|
  {
  }

  /** Behind a tail of fewer than eight bytes, a torn header, the appended records are read back intact if
      and only if the bytes happen to begin with their frames anyway. */
  lemma {:induction false} AppendBehindTornHeader(crc: Checksum, t: Bytes, qs: seq<Bytes>, limit: nat)
    requires Fits32(crc) && AllWithin(qs, limit) && limit < 0x1_0000_0000 && |t| < 8
    ensures ReadFrames(crc, t + FrameAll(crc, qs), limit) == qs <==> FrameAll(crc, qs) <= t + FrameAll(crc, qs)
  {
    var b := t + FrameAll(crc, qs);
    if ReadFrames(crc, b, limit) == qs {
      TightRead(crc, b, qs, limit);
    }
    if FrameAll(crc, qs) <= b {
      var tail := b[|FrameAll(crc, qs)|..];
      assert b == FrameAll(crc, qs) + tail;
      ReadBehind(crc, qs, tail, limit);
      ShortTail(crc, tail, limit);
      assert qs + [] == qs;
    }
  }

  lemma ShortTail(crc: Checksum, b: Bytes, limit: nat)
    requires |b| < 8
    ensures ReadFrames(crc, b, limit) == []
  {
  }


  // ---- Frames over the limit ----

  /** A frame over the reader's limit ends the log, whatever its bytes and whatever follows. */
  lemma {:induction false} OversizedEnds(crc: Checksum, p: Bytes, b: Bytes, limit: nat)
    requires Fits32(crc) && limit < |p| < 0x1_0000_0000
    ensures ReadFrames(crc, Frame(crc, p) + b, limit) == []
  {
    Pow256Values();
    var rest := LittleEndian(|p|, 4) + (p + b);
    FrameAndMore(LittleEndian(crc(p), 4), LittleEndian(|p|, 4), p, b);
    TakeIntField(crc(p), 4, rest);
    TakeIntField(|p|, 4, p + b);
    assert ReadFrame(crc, LittleEndian(crc(p), 4) + rest, limit).EndOfFrames?;
  }

  lemma FrameAndMore(x: Bytes, y: Bytes, p: Bytes, b: Bytes)
    ensures x + y + p + b == x + (y + (p + b))
  {
  }

  lemma {:induction false} FramesSplit(crc: Checksum, ps: seq<Bytes>, n: nat)
    requires n < |ps|
    ensures FrameAll(crc, ps) == FrameAll(crc, ps[..n]) + (Frame(crc, ps[n]) + FrameAll(crc, ps[n + 1..]))
  {
    if n == 0 {
      assert ps[..0] == [];
      assert FrameAll(crc, ps[..0]) == [];
    } else {
      FramesSplit(crc, ps[1..], n - 1);
      assert ps[1..][..n - 1] == ps[..n][1..] && ps[1..][n..] == ps[n + 1..] && ps[..n][0] == ps[0];
      Associative(Frame(crc, ps[0]), FrameAll(crc, ps[..n][1..]), Frame(crc, ps[n]) + FrameAll(crc, ps[n + 1..]));
    }
  }

  /** How many payloads come in front of the first one over the limit. */
  function Leading(ps: seq<Bytes>, limit: nat): (n: nat)
    ensures n <= |ps| && AllWithin(ps[..n], limit) && (n < |ps| ==> |ps[n]| > limit)
  {
    if ps == [] || |ps[0]| > limit then 0
    else
      var n := Leading(ps[1..], limit) + 1;
      assert ps[..n] == [ps[0]] + ps[1..][..n - 1];
      n
  }

  /** A reader with a limit returns exactly the payloads in front of the first one over it. */
  lemma {:induction false} ReadsLeading(crc: Checksum, ps: seq<Bytes>, limit: nat)
    requires Fits32(crc) && limit < 0x1_0000_0000 && forall i :: 0 <= i < |ps| ==> |ps[i]| < 0x1_0000_0000
    ensures ReadFrames(crc, FrameAll(crc, ps), limit) == ps[..Leading(ps, limit)]
  {
    var n := Leading(ps, limit);
    if n < |ps| {
      FramesSplit(crc, ps, n);
      ReadBehind(crc, ps[..n], Frame(crc, ps[n]) + FrameAll(crc, ps[n + 1..]), limit);
      OversizedEnds(crc, ps[n], FrameAll(crc, ps[n + 1..]), limit);
    } else {
      AppendAtBoundary(crc, ps, [], limit);
      assert ps[..n] == ps && FrameAll(crc, ps) + FrameAll(crc, []) == FrameAll(crc, ps) && ps + [] == ps;
    }
  }
}
