/** Encoded keys: `{ns_len:u16-be}{ns}{key}`, their decoding, and prefix upper bounds. */
module Keys {
  import opened ByteStrings

  datatype Decoded = Decoded(ns: Bytes, key: Bytes) | CorruptKey

  const MaxNamespace := 0xFFFF

  /** The two big-endian length bytes and the namespace: what every key of `ns` starts with. */
  function NamespacePrefix(ns: Bytes): (r: Bytes)
    requires |ns| <= MaxNamespace
  {
    [|ns| / 256, |ns| % 256] + ns
  }

  function EncodeKey(ns: Bytes, key: Bytes): (r: Bytes)
    requires |ns| <= MaxNamespace
  {
    NamespacePrefix(ns) + key
  }

  function DecodeKey(encoded: Bytes): Decoded {
    if |encoded| < 2 then CorruptKey
    else
      var nsLen := encoded[0] as int * 256 + encoded[1];
      if |encoded| < 2 + nsLen then CorruptKey
      else Decoded(encoded[2..2 + nsLen], encoded[2 + nsLen..])
  }

  lemma DecodeEncode(ns: Bytes, key: Bytes)
    requires |ns| <= MaxNamespace
    ensures DecodeKey(EncodeKey(ns, key)) == Decoded(ns, key)
  {
    var e := EncodeKey(ns, key);
    assert e[2..2 + |ns|] == ns;
    assert e[2 + |ns|..] == key;
  }

  lemma EncodeDecode(encoded: Bytes)
    requires DecodeKey(encoded).Decoded?
    ensures |DecodeKey(encoded).ns| <= MaxNamespace
    ensures EncodeKey(DecodeKey(encoded).ns, DecodeKey(encoded).key) == encoded
  {
    var d := DecodeKey(encoded);
    assert |d.ns| == encoded[0] as int * 256 + encoded[1];
    assert encoded == [encoded[0], encoded[1]] + encoded[2..2 + |d.ns|] + encoded[2 + |d.ns|..];
  }

  lemma EncodeInjective(ns: Bytes, key: Bytes, ns': Bytes, key': Bytes)
    requires |ns| <= MaxNamespace && |ns'| <= MaxNamespace
    ensures EncodeKey(ns, key) == EncodeKey(ns', key') <==> ns == ns' && key == key'
  {
    DecodeEncode(ns, key);
    DecodeEncode(ns', key');
  }

  lemma EncodeMonotone(ns: Bytes, a: Bytes, b: Bytes)
    requires |ns| <= MaxNamespace
    ensures Less(EncodeKey(ns, a), EncodeKey(ns, b)) <==> Less(a, b)
  {
    SharedPrefixOrder(NamespacePrefix(ns), a, b);
  }

  lemma {:induction false} EqualLengthOrder(a: Bytes, b: Bytes, x: Bytes, y: Bytes)
    requires |a| == |b|
    ensures Less(a + x, b + y) <==> Less(a, b) || (a == b && Less(x, y))
  {
    if a == [] {
      assert a + x == x && b + y == y;
    } else {
      EqualLengthOrder(a[1..], b[1..], x, y);
      HeadThenTail(a + x, b + y);
      HeadThenTail(a, b);
      assert (a + x)[1..] == a[1..] + x && (b + y)[1..] == b[1..] + y;
      assert a == [a[0]] + a[1..] && b == [b[0]] + b[1..];
    }
  }

  /** Two big-endian bytes are ordered as the number they stand for. */
  lemma {:induction false} LengthOrder(m: nat, n: nat, x: Bytes, y: Bytes)
    requires m <= MaxNamespace && n <= MaxNamespace
    ensures Less([m / 256, m % 256] + x, [n / 256, n % 256] + y) <==> m < n || (m == n && Less(x, y))
  {
    var a, b := [m / 256, m % 256] + x, [n / 256, n % 256] + y;
    HeadThenTail(a, b);
    HeadThenTail(a[1..], b[1..]);
    assert a[1..][1..] == x && b[1..][1..] == y;
  }

  /** Across namespaces keys are ordered by the namespace's length, then its bytes, then the key. */
  lemma {:induction false} EncodeOrder(ns: Bytes, key: Bytes, ns': Bytes, key': Bytes)
    requires |ns| <= MaxNamespace && |ns'| <= MaxNamespace
    ensures Less(EncodeKey(ns, key), EncodeKey(ns', key')) <==>
            |ns| < |ns'| || (|ns| == |ns'| && (Less(ns, ns') || (ns == ns' && Less(key, key'))))
  {
    LengthOrder(|ns|, |ns'|, ns + key, ns' + key');
    assert EncodeKey(ns, key) == [|ns| / 256, |ns| % 256] + (ns + key);
    assert EncodeKey(ns', key') == [|ns'| / 256, |ns'| % 256] + (ns' + key');
    if |ns| == |ns'| {
      EqualLengthOrder(ns, ns', key, key');
    }
  }

  // ---- Prefix ranges ----

  function UpperBound(p: Bytes): Option<Bytes> {
    if p == [] then None
    else if p[|p| - 1] < 0xFF then Some(p[..|p| - 1] + [p[|p| - 1] + 1])
    else UpperBound(p[..|p| - 1])
  }

  /** The right-to-left scan for a byte that can be incremented. */
  method PrefixUpperBound(prefix: Bytes) returns (r: Option<Bytes>)
    ensures r == UpperBound(prefix)
  {
    var i := |prefix|;
    assert prefix[..i] == prefix;
    while i > 0
      invariant 0 <= i <= |prefix|
      invariant UpperBound(prefix) == UpperBound(prefix[..i])
    {
      i := i - 1;
      assert prefix[..i + 1][..i] == prefix[..i];
      if prefix[i] < 0xFF {
        return Some(prefix[..i] + [prefix[i] + 1]);
      }
    }
    return None;
  }

  predicate AllOnes(p: Bytes) {
    forall i :: 0 <= i < |p| ==> p[i] == 0xFF
  }

  lemma {:induction false} NoBoundIffAllOnes(p: Bytes)
    ensures UpperBound(p).None? <==> AllOnes(p)
  {
    if p != [] && p[|p| - 1] == 0xFF {
      NoBoundIffAllOnes(p[..|p| - 1]);
    }
  }

  /** `UpperBound` seen from the front: it leaves the first byte alone unless all others are ones. */
  lemma {:induction false} UpperBoundFromFront(p: Bytes)
    requires p != []
    ensures !AllOnes(p[1..]) ==> UpperBound(p[1..]).Some? && UpperBound(p) == Some([p[0]] + UpperBound(p[1..]).value)
    ensures AllOnes(p[1..]) && p[0] < 0xFF ==> UpperBound(p) == Some([p[0] + 1])
  {
    NoBoundIffAllOnes(p[1..]);
    var n := |p| - 1;
    if n == 0 {
      if p[0] < 0xFF {
        assert p[..0] + [p[0] + 1] == [p[0] + 1];
      }
    } else {
      assert p[1..][..n - 1] == p[..n][1..];
      if p[n] == 0xFF {
        UpperBoundFromFront(p[..n]);
        if AllOnes(p[..n][1..]) {
          assert forall i :: 1 <= i < n ==> p[i] == p[..n][1..][i - 1];
        }
      } else {
        assert p[1..][n - 1] == p[n] && !AllOnes(p[1..]);
        var bumped := [p[n] + 1];
        assert p[..n] + bumped == [p[0]] + (p[1..][..n - 1] + bumped);
      }
    }
  }

  lemma {:induction false} AllOnesIsGreatestPrefix(p: Bytes, s: Bytes)
    requires AllOnes(p)
    ensures AtMost(p, s) <==> p <= s
  {
    if p != [] && s != [] {
      HeadThenTail(p, s);
      assert AllOnes(p[1..]);
      AllOnesIsGreatestPrefix(p[1..], s[1..]);
      assert p == [p[0]] + p[1..] && s == [s[0]] + s[1..];
    }
  }

  /** A string lies in `[p, UpperBound(p))` exactly when it starts with `p`. */
  lemma {:induction false} PrefixRange(p: Bytes, s: Bytes)
    requires UpperBound(p).Some?
    ensures AtMost(p, s) && Less(s, UpperBound(p).value) <==> p <= s
  {
    NoBoundIffAllOnes(p);
    UpperBoundFromFront(p);
    var rest, u := p[1..], UpperBound(p).value;
    if s != [] {
      HeadThenTail(p, s);
      HeadThenTail(s, u);
      assert p <= s <==> p[0] == s[0] && rest <= s[1..] by {
        assert p == [p[0]] + rest && s == [s[0]] + s[1..];
      }
      if AllOnes(rest) {
        assert u[1..] == [];
        AllOnesIsGreatestPrefix(rest, s[1..]);
      } else {
        PrefixRange(rest, s[1..]);
        assert u[1..] == UpperBound(rest).value;
      }
    }
  }

  /** Encoded form of the prefix theorem: the range selects exactly the keys of `ns` that
      start with `p`. */
  lemma EncodedPrefixRange(ns: Bytes, p: Bytes, encoded: Bytes)
    requires |ns| <= MaxNamespace && DecodeKey(encoded).Decoded?
    requires UpperBound(EncodeKey(ns, p)).Some?
    ensures AtMost(EncodeKey(ns, p), encoded) && Less(encoded, UpperBound(EncodeKey(ns, p)).value)
       <==> DecodeKey(encoded).ns == ns && p <= DecodeKey(encoded).key
  {
    var d := DecodeKey(encoded);
    PrefixRange(EncodeKey(ns, p), encoded);
    EncodeDecode(encoded);
    PrefixDecides(ns, p, d.ns, d.key);
  }

  lemma PrefixDecides(ns: Bytes, p: Bytes, ns': Bytes, key: Bytes)
    requires |ns| <= MaxNamespace && |ns'| <= MaxNamespace
    ensures EncodeKey(ns, p) <= EncodeKey(ns', key) <==> ns == ns' && p <= key
  {
    var a, b := EncodeKey(ns, p), EncodeKey(ns', key);
    if a <= b {
      assert a[0] == b[0] && a[1] == b[1];
      assert |ns| == |ns'|;
      assert ns == a[2..2 + |ns|] == b[2..2 + |ns|] == ns';
      assert p == a[2 + |ns|..] == b[2 + |ns|..|a|] == key[..|p|];
    }
  }

  /** Everything between two keys of one namespace belongs to that namespace. */
  lemma RangeStaysInNamespace(ns: Bytes, start: Bytes, end: Bytes, encoded: Bytes)
    requires |ns| <= MaxNamespace
    requires AtMost(EncodeKey(ns, start), encoded) && Less(encoded, EncodeKey(ns, end))
    ensures DecodeKey(encoded).Decoded? && DecodeKey(encoded).ns == ns
    ensures AtMost(start, DecodeKey(encoded).key) && Less(DecodeKey(encoded).key, end)
  {
    var p := NamespacePrefix(ns);
    Sandwich(p, start, end, encoded);
    var key := encoded[|p|..];
    assert encoded == EncodeKey(ns, key);
    DecodeEncode(ns, key);
    SharedPrefixOrder(p, key, start);
    SharedPrefixOrder(p, key, end);
  }

  lemma {:induction false} Sandwich(p: Bytes, a: Bytes, b: Bytes, s: Bytes)
    requires AtMost(p + a, s) && Less(s, p + b)
    ensures p <= s
  {
    if p != [] {
      assert (p + a)[1..] == p[1..] + a && (p + b)[1..] == p[1..] + b;
      HeadThenTail(p + a, s);
      HeadThenTail(s, p + b);
      Sandwich(p[1..], a, b, s[1..]);
      assert p == [p[0]] + p[1..] && s == [s[0]] + s[1..];
    }
  }
}
