/** The Bloom filter that guards document removal: double hashing, and no false negatives. */
module Bloom {
  import opened ByteStrings

  type Hasher = Bytes -> (nat, nat)

  const Wrap := 0x1_0000_0000_0000_0000

  /** A bit table of at least one bit with its hash seed. */
  datatype Filter = Filter(bits: seq<bool>, numHashes: nat, capacity: nat, count: nat, seed: Hasher)

  predicate Sized(f: Filter) {
    |f.bits| > 0
  }

  /** The `i`-th probe position, in wrapping 64-bit arithmetic. */
  function Position(h: (nat, nat), i: nat, numBits: nat): (p: nat)
    requires numBits > 0
    ensures p < numBits
  {
    ((h.0 + (i * h.1) % Wrap) % Wrap) % numBits
  }

  predicate IsSaturated(f: Filter) {
    f.count >= f.capacity
  }

  predicate MightContain(f: Filter, item: Bytes)
    requires Sized(f)
  {
    forall i :: 0 <= i < f.numHashes ==> f.bits[Position(f.seed(item), i, |f.bits|)]
  }

  /** `g` is `f` with more bits set. */
  ghost predicate Grown(f: Filter, g: Filter) {
    && |g.bits| == |f.bits| && g.numHashes == f.numHashes && g.seed == f.seed && g.capacity == f.capacity
    && forall p :: 0 <= p < |f.bits| && f.bits[p] ==> g.bits[p]
  }

  /** Bit `p` is one of the item's probe positions. */
  ghost predicate Probed(f: Filter, item: Bytes, p: nat) {
    |f.bits| > 0 && exists i :: 0 <= i < f.numHashes && Position(f.seed(item), i, |f.bits|) == p
  }

  /** Exactly the item's probe positions are new. */
  ghost predicate AddedBits(f: Filter, g: Filter, item: Bytes) {
    |g.bits| == |f.bits| && forall p :: 0 <= p < |f.bits| ==> (g.bits[p] <==> f.bits[p] || Probed(f, item, p))
  }

  /** An empty filter; its size comes from the sizing formula. */
  function Empty(numBits: nat, numHashes: nat, capacity: nat, seed: Hasher): (f: Filter)
    requires numBits > 0
    ensures Sized(f) && |f.bits| == numBits && forall p :: 0 <= p < numBits ==> !f.bits[p]
  {
    Filter(seq(numBits, _ => false), numHashes, capacity, 0, seed)
  }

  /** Sets the item's probe positions; what was contained stays contained. */
  method Insert(f: Filter, item: Bytes) returns (g: Filter)
    requires Sized(f)
    ensures Sized(g) && Grown(f, g) && MightContain(g, item) && g.count == f.count + 1
    ensures AddedBits(f, g, item)
    ensures forall x :: MightContain(f, x) ==> MightContain(g, x)
  {
    var h, n := f.seed(item), |f.bits|;
    var bits := f.bits;
    for i := 0 to f.numHashes
      invariant |bits| == n && (forall p :: 0 <= p < n && f.bits[p] ==> bits[p])
      invariant forall j :: 0 <= j < i ==> bits[Position(h, j, n)]
      invariant forall p :: 0 <= p < n && bits[p] ==> f.bits[p] || Probed(f, item, p)
    {
      bits := bits[Position(h, i, n) := true];
    }
    g := f.(bits := bits, count := f.count + 1);
    forall x | MightContain(f, x)
      ensures MightContain(g, x)
    {
      GrownContains(f, g, x);
    }
  }

  /** Exactly the probe positions of `items` are set. */
  ghost predicate HoldsOnly(f: Filter, items: set<Bytes>) {
    forall p :: 0 <= p < |f.bits| ==> (f.bits[p] <==> ProbedByOne(f, items, p))
  }

  ghost predicate ProbedByOne(f: Filter, items: set<Bytes>, p: nat) {
    exists x :: x in items && Probed(f, x, p)
  }

  lemma {:induction false} HoldsOneMore(f: Filter, g: Filter, items: set<Bytes>, item: Bytes)
    requires HoldsOnly(f, items) && Grown(f, g) && AddedBits(f, g, item)
    ensures HoldsOnly(g, items + {item})
  {
    forall p | 0 <= p < |g.bits|
      ensures g.bits[p] <==> ProbedByOne(g, items + {item}, p)
    {
      if x :| x in items && Probed(f, x, p) {
        assert x in items + {item} && Probed(g, x, p);
      }
      if Probed(f, item, p) {
        assert item in items + {item} && Probed(g, item, p);
      }
      if x :| x in items + {item} && Probed(g, x, p) {
        assert Probed(f, x, p);
      }
    }
  }

  lemma {:induction false} GrownContains(f: Filter, g: Filter, x: Bytes)
    requires Sized(f) && Grown(f, g) && MightContain(f, x)
    ensures MightContain(g, x)
  {
    forall i | 0 <= i < g.numHashes
      ensures g.bits[Position(g.seed(x), i, |g.bits|)]
    {
      assert f.bits[Position(f.seed(x), i, |f.bits|)];
    }
  }
}
