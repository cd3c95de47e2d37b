/** Byte strings, their lexicographic order, and the fixed-width integer codecs. */
module ByteStrings {

  type byte = x: int | 0 <= x < 256
  type Bytes = seq<byte>

  datatype Option<+T> = None | Some(value: T)

  /** The bytes of `s` from `i` on, read as a fraction in base 257, each byte shifted up by one
      so that a proper prefix ranks below its extensions. */
  function RankFrom(s: Bytes, i: nat): (r: real)
    ensures 0.0 <= r < 1.0
    ensures i >= |s| <==> r == 0.0
    decreases |s| - i
  {
    if i >= |s| then 0.0 else (s[i] as real + 1.0 + RankFrom(s, i + 1)) / 257.0
  }

  function Rank(s: Bytes): real {
    RankFrom(s, 0)
  }

  lemma {:induction false} RankOfTail(s: Bytes, n: nat, i: nat)
    requires n <= |s|
    ensures RankFrom(s[n..], i) == RankFrom(s, n + i)
    decreases |s| - i
  {
    if n + i < |s| {
      RankOfTail(s, n, i + 1);
    }
  }

  /** Slice order of byte strings. Compared through `Rank`, so that the solver gets a linear
      order without further lemmas; `LessIsLexicographic` shows it is the usual order. */
  predicate Less(a: Bytes, b: Bytes) {
    Rank(a) < Rank(b)
  }

  predicate AtMost(a: Bytes, b: Bytes) {
    Rank(a) <= Rank(b)
  }

  /** First differing byte decides; a proper prefix comes first. */
  predicate LexLess(a: Bytes, b: Bytes) {
    if b == [] then false
    else if a == [] then true
    else a[0] < b[0] || (a[0] == b[0] && LexLess(a[1..], b[1..]))
  }

  lemma {:induction false} LessIsLexicographic(a: Bytes, b: Bytes)
    ensures Less(a, b) <==> LexLess(a, b)
    ensures Rank(a) == Rank(b) <==> a == b
  {
    if a != [] && b != [] {
      LessIsLexicographic(a[1..], b[1..]);
      HeadThenTail(a, b);
      HeadThenTail(b, a);
      if a[0] == b[0] && a[1..] == b[1..] {
        assert a == [a[0]] + a[1..] == b;
      }
    }
  }

  /** One step of the order: compare heads, then tails. */
  lemma HeadThenTail(a: Bytes, b: Bytes)
    requires a != [] && b != []
    ensures Less(a, b) <==> a[0] < b[0] || (a[0] == b[0] && Less(a[1..], b[1..]))
    ensures AtMost(a, b) <==> a[0] < b[0] || (a[0] == b[0] && AtMost(a[1..], b[1..]))
  {
    RankOfTail(a, 1, 0);
    RankOfTail(b, 1, 0);
    assert a[0] < b[0] ==> a[0] as real + 1.0 <= b[0] as real;
    assert b[0] < a[0] ==> b[0] as real + 1.0 <= a[0] as real;
  }

  lemma RankInjective(a: Bytes, b: Bytes)
    requires Rank(a) == Rank(b)
    ensures a == b
  {
    LessIsLexicographic(a, b);
  }

  lemma {:induction false} SharedPrefixOrder(p: Bytes, a: Bytes, b: Bytes)
    ensures Less(p + a, p + b) <==> Less(a, b)
  {
    if p == [] {
      assert p + a == a && p + b == b;
    } else {
      SharedPrefixOrder(p[1..], a, b);
      HeadThenTail(p + a, p + b);
      assert (p + a)[1..] == p[1..] + a && (p + b)[1..] == p[1..] + b;
    }
  }

  /** Appending a zero byte gives the next string in the order. */
  lemma {:induction false} SuccessorOrder(c: Bytes, s: Bytes)
    ensures AtMost(c + [0], s) <==> Less(c, s)
  {
    if c == [] {
      if s != [] {
        HeadThenTail([0], s);
      }
      assert c + [0] == [0];
    } else if s != [] {
      SuccessorOrder(c[1..], s[1..]);
      HeadThenTail(c + [0], s);
      HeadThenTail(c, s);
      assert (c + [0])[1..] == c[1..] + [0];
    }
  }

  // ---- Fixed-width integers ----

  function Pow256(n: nat): (r: nat)
    ensures r > 0
  {
    if n == 0 then 1 else 256 * Pow256(n - 1)
  }

  /** Little-endian bytes of `v`, truncated to `n` bytes as an `as` cast would. */
  function LittleEndian(v: nat, n: nat): (s: Bytes)
    ensures |s| == n
  {
    if n == 0 then [] else [v % 256] + LittleEndian(v / 256, n - 1)
  }

  function FromLittleEndian(s: Bytes): nat {
    if s == [] then 0 else s[0] + 256 * FromLittleEndian(s[1..])
  }

  /** The least significant byte comes first. */
  lemma {:induction false} LittleEndianFour(a: byte, b: byte, c: byte, d: byte)
    ensures FromLittleEndian([a, b, c, d]) == a as int + 256 * b as int + 65536 * c as int + 16777216 * d as int
  {
    assert [a, b, c, d][1..] == [b, c, d] && [b, c, d][1..] == [c, d] && [c, d][1..] == [d] && [d][1..] == [];
    assert FromLittleEndian([d]) == d as int;
    assert FromLittleEndian([c, d]) == c as int + 256 * d as int;
  }

  lemma {:induction false} LittleEndianRoundTrip(v: nat, n: nat)
    requires v < Pow256(n)
    ensures FromLittleEndian(LittleEndian(v, n)) == v
  {
    if n > 0 {
      LittleEndianRoundTrip(v / 256, n - 1);
      assert LittleEndian(v, n)[1..] == LittleEndian(v / 256, n - 1);
    }
  }

  /** Two's-complement image of a signed 64-bit value. */
  function Unsigned64(v: int): nat
    requires -0x8000_0000_0000_0000 <= v < 0x8000_0000_0000_0000
  {
    if v < 0 then v + 0x1_0000_0000_0000_0000 else v
  }

  function Signed64(u: nat): int {
    if u < 0x8000_0000_0000_0000 then u else u - 0x1_0000_0000_0000_0000
  }

  lemma Pow256Values()
    ensures Pow256(1) == 0x100
    ensures Pow256(2) == 0x1_0000
    ensures Pow256(4) == 0x1_0000_0000
    ensures Pow256(8) == 0x1_0000_0000_0000_0000
  {
    assert Pow256(3) == 0x100_0000;
    assert Pow256(5) == 0x100_0000_0000;
    assert Pow256(6) == 0x1_0000_0000_0000;
    assert Pow256(7) == 0x100_0000_0000_0000;
  }
}
