/** The descending K-way merge: each sorted vector is served from its tail. */
module MergeReverse {
  import opened ByteStrings
  import opened Entries
  import opened Merge

  function Rev(s: seq<Entry>): (r: seq<Entry>)
    ensures |r| == |s|
  {
    if s == [] then [] else Rev(s[1..]) + [s[0]]
  }

  lemma {:induction false} RevConcat(a: seq<Entry>, b: seq<Entry>)
    ensures Rev(a + b) == Rev(b) + Rev(a)
  {
    if a == [] {
      assert a + b == b;
    } else {
      assert (a + b)[1..] == a[1..] + b;
      RevConcat(a[1..], b);
    }
  }

  // ---- Deduplication of a descending run ----

  function BumpFront(m: seq<Entry>, e: Entry): seq<Entry> {
    if m != [] && m[0].key == e.key then
      if e.lsn > m[0].lsn then [e] + m[1..] else m
    else [e] + m
  }

  predicate AllAbove(m: Table, x: Bytes) {
    forall k :: k in m ==> Less(x, k)
  }

  lemma {:induction false} SuffixAbove(s: seq<Entry>, x: Bytes)
    requires forall i :: 0 <= i < |s| ==> Less(x, s[i].key)
    ensures AllAbove(AsTable(s), x)
  {
    if s != [] {
      SuffixAbove(s[..|s| - 1], x);
    }
  }

  lemma {:induction false} PrependLess(s: seq<Entry>, e: Entry)
    requires Sorted(s) && AllAbove(AsTable(s), e.key)
    ensures Sorted([e] + s) && AsTable([e] + s) == AsTable(s)[e.key := e]
  {
    AsTableMembers(s);
    AsTableConcat([e], s);
    assert [e][..0] == [];
  }

  lemma {:induction false} DropFirst(s: seq<Entry>)
    requires s != [] && Sorted(s)
    ensures AllAbove(AsTable(s[1..]), s[0].key)
    ensures AsTable(s) == AsTable(s[1..])[s[0].key := s[0]]
  {
    SuffixAbove(s[1..], s[0].key);
    PrependLess(s[1..], s[0]);
    assert s == [s[0]] + s[1..];
  }

  lemma {:induction false} BumpFrontIsOverlay(m: seq<Entry>, e: Entry)
    requires Sorted(m) && (m != [] ==> AtMost(e.key, m[0].key))
    ensures Sorted(BumpFront(m, e)) && AsTable(BumpFront(m, e)) == Overlay(AsTable(m), map[e.key := e])
  {
    if m != [] && m[0].key == e.key {
      BumpReplaces(m, e);
    } else {
      BumpPrepends(m, e);
    }
  }

  lemma {:induction false} BumpReplaces(m: seq<Entry>, e: Entry)
    requires m != [] && Sorted(m) && m[0].key == e.key
    ensures Sorted([e] + m[1..]) && AsTable([e] + m[1..]) == AsTable(m)[e.key := e]
    ensures e.key in AsTable(m) && AsTable(m)[e.key] == m[0]
  {
    DropFirst(m);
    PrependLess(m[1..], e);
  }

  lemma {:induction false} BumpPrepends(m: seq<Entry>, e: Entry)
    requires Sorted(m) && (m != [] ==> AtMost(e.key, m[0].key) && m[0].key != e.key)
    ensures Sorted([e] + m) && AsTable([e] + m) == Overlay(AsTable(m), map[e.key := e])
  {
    if m != [] {
      LessIsLexicographic(e.key, m[0].key);
    }
    SuffixAbove(m, e.key);
    PrependLess(m, e);
  }

  // ---- What is left and what is consumed ----

  function Served(cs: seq<seq<Entry>>, left: seq<nat>): (r: seq<seq<Entry>>)
    requires Positions(cs, left)
    ensures |r| == |cs| && forall i :: 0 <= i < |cs| ==> r[i] == cs[i][left[i]..]
  {
    seq(|cs|, i requires 0 <= i < |cs| => cs[i][left[i]..])
  }

  ghost function Tails(cs: seq<seq<Entry>>, left: seq<nat>): set<HeapItem>
    requires Positions(cs, left)
  {
    set i | 0 <= i < |cs| && left[i] > 0 :: HeapItem(cs[i][left[i] - 1], i)
  }

  predicate TailsUpTo(cs: seq<seq<Entry>>, left: seq<nat>, x: Bytes)
    requires Positions(cs, left)
  {
    forall i :: 0 <= i < |cs| && left[i] > 0 ==> AtMost(cs[i][left[i] - 1].key, x)
  }

  function StepBack(left: seq<nat>, j: nat): seq<nat>
    requires j < |left| && left[j] > 0
  {
    left[j := left[j] - 1]
  }

  function Total(left: seq<nat>): nat {
    if left == [] then 0 else Total(left[..|left| - 1]) + left[|left| - 1]
  }

  lemma {:induction false} TotalDrops(left: seq<nat>, j: nat)
    requires j < |left| && left[j] > 0
    ensures Total(StepBack(left, j)) == Total(left) - 1
  {
    var n := |left| - 1;
    if j < n {
      TotalDrops(left[..n], j);
      assert StepBack(left, j)[..n] == StepBack(left[..n], j);
    } else {
      assert StepBack(left, j)[..n] == left[..n];
    }
  }

  lemma {:induction false} ServeTables(cs: seq<seq<Entry>>, left: seq<nat>, j: nat)
    requires AllSorted(cs) && Positions(cs, left) && j < |cs| && left[j] > 0
    ensures var e := cs[j][left[j] - 1];
            var ts := Tables(Served(cs, left));
            && e.key !in ts[j]
            && Tables(Served(cs, StepBack(left, j))) == ts[j := ts[j][e.key := e]]
  {
    var s, n := cs[j], left[j] - 1;
    assert s[n..][1..] == s[n + 1..];
    DropFirst(s[n..]);
  }

  predicate Greatest(heap: set<HeapItem>, item: HeapItem) {
    && item in heap
    && (forall o :: o in heap ==> AtMost(o.entry.key, item.entry.key))
    && (forall o :: o in heap && o.entry.key == item.entry.key ==> o.entry.lsn <= item.entry.lsn)
  }

  lemma {:induction false} GreatestExists(heap: set<HeapItem>) returns (top: HeapItem)
    requires heap != {}
    ensures Greatest(heap, top)
  {
    var x :| x in heap;
    if heap == {x} {
      top := x;
    } else {
      var y := GreatestExists(heap - {x});
      assert forall o :: o in heap ==> o == x || o in heap - {x};
      if Less(y.entry.key, x.entry.key) || (x.entry.key == y.entry.key && x.entry.lsn > y.entry.lsn) {
        top := x;
      } else {
        if !Less(x.entry.key, y.entry.key) {
          RankInjective(x.entry.key, y.entry.key);
        }
        top := y;
      }
    }
  }

  ghost predicate MergingBack(cs: seq<seq<Entry>>, left: seq<nat>, heap: set<HeapItem>, m: seq<Entry>) {
    && Positions(cs, left)
    && heap == Tails(cs, left)
    && Sorted(m) && IsNewest(AsTable(m), Tables(Served(cs, left)))
    && (m != [] ==> TailsUpTo(cs, left, m[0].key))
  }

  function HeapBack(cs: seq<seq<Entry>>, left: seq<nat>, heap: set<HeapItem>, item: HeapItem): set<HeapItem>
    requires Positions(cs, left) && item.cursor < |cs| && left[item.cursor] > 0
  {
    var next := left[item.cursor] - 1;
    heap - {item} + (if next > 0 then {HeapItem(cs[item.cursor][next - 1], item.cursor)} else {})
  }

  lemma HeapBackIsTails(cs: seq<seq<Entry>>, left: seq<nat>, j: nat)
    requires Positions(cs, left) && j < |cs| && left[j] > 0
    ensures Positions(cs, StepBack(left, j))
    ensures Tails(cs, StepBack(left, j)) == HeapBack(cs, left, Tails(cs, left), HeapItem(cs[j][left[j] - 1], j))
  {
    var left' := StepBack(left, j);
    var r := HeapBack(cs, left, Tails(cs, left), HeapItem(cs[j][left[j] - 1], j));
    forall x | x in r
      ensures x in Tails(cs, left')
    {
      assert x.cursor == j || left'[x.cursor] == left[x.cursor];
    }
    forall x | x in Tails(cs, left')
      ensures x in r
    {
      assert x.cursor == j || left'[x.cursor] == left[x.cursor];
    }
  }

  lemma MaximumOfTails(cs: seq<seq<Entry>>, left: seq<nat>, heap: set<HeapItem>, item: HeapItem)
    requires Positions(cs, left) && heap == Tails(cs, left) && Greatest(heap, item)
    ensures item.cursor < |cs| && left[item.cursor] > 0 && item.entry == cs[item.cursor][left[item.cursor] - 1]
    ensures TailsUpTo(cs, left, item.entry.key)
  {
    forall i | 0 <= i < |cs| && left[i] > 0
      ensures AtMost(cs[i][left[i] - 1].key, item.entry.key)
    {
      assert HeapItem(cs[i][left[i] - 1], i) in heap;
    }
  }

  lemma {:induction false} ServeOne(cs: seq<seq<Entry>>, left: seq<nat>, m: seq<Entry>, j: nat)
    requires AllSorted(cs) && Positions(cs, left) && j < |cs| && left[j] > 0
    requires Sorted(m) && IsNewest(AsTable(m), Tables(Served(cs, left)))
    requires m != [] ==> AtMost(cs[j][left[j] - 1].key, m[0].key)
    ensures Positions(cs, StepBack(left, j))
    ensures Sorted(BumpFront(m, cs[j][left[j] - 1]))
    ensures IsNewest(AsTable(BumpFront(m, cs[j][left[j] - 1])), Tables(Served(cs, StepBack(left, j))))
  {
    var e := cs[j][left[j] - 1];
    ServeTables(cs, left, j);
    ConsumeOne(AsTable(m), Tables(Served(cs, left)), j, e);
    BumpFrontIsOverlay(m, e);
  }

  lemma TailsStepBack(cs: seq<seq<Entry>>, left: seq<nat>, j: nat, x: Bytes)
    requires AllSorted(cs) && Positions(cs, left) && j < |cs| && left[j] > 0 && x == cs[j][left[j] - 1].key
    requires TailsUpTo(cs, left, x)
    ensures Positions(cs, StepBack(left, j)) && TailsUpTo(cs, StepBack(left, j), x)
  {
    assert Sorted(cs[j]);
  }

  lemma {:induction false} PopBack(cs: seq<seq<Entry>>, left: seq<nat>, heap: set<HeapItem>, m: seq<Entry>, item: HeapItem)
    requires AllSorted(cs) && MergingBack(cs, left, heap, m) && Greatest(heap, item)
    ensures item.cursor < |cs| && left[item.cursor] > 0 && item.entry == cs[item.cursor][left[item.cursor] - 1]
    ensures m != [] ==> AtMost(item.entry.key, m[0].key)
    ensures TailsUpTo(cs, left, item.entry.key)
    ensures MergingBack(cs, StepBack(left, item.cursor), HeapBack(cs, left, heap, item), BumpFront(m, item.entry))
    ensures Total(StepBack(left, item.cursor)) < Total(left)
  {
    MaximumOfTails(cs, left, heap, item);
    TotalDrops(left, item.cursor);
    PopBackMerging(cs, left, m, item.cursor);
  }

  lemma {:induction false} PopBackMerging(cs: seq<seq<Entry>>, left: seq<nat>, m: seq<Entry>, j: nat)
    requires AllSorted(cs) && Positions(cs, left) && MergingBack(cs, left, Tails(cs, left), m) && j < |cs| && left[j] > 0
    requires TailsUpTo(cs, left, cs[j][left[j] - 1].key)
    ensures var item := HeapItem(cs[j][left[j] - 1], j);
            MergingBack(cs, StepBack(left, j), HeapBack(cs, left, Tails(cs, left), item), BumpFront(m, item.entry))
  {
    ServeOne(cs, left, m, j);
    HeapBackIsTails(cs, left, j);
    TailsStepBack(cs, left, j, cs[j][left[j] - 1].key);
  }

  // ---- Suffixes of the merge ----

  function Above(m: Table, x: Bytes): Table {
    map k | k in m && Less(x, k) :: m[k]
  }

  lemma AboveOverlay(a: Table, b: Table, x: Bytes)
    ensures Overlay(Above(a, x), Above(b, x)) == Above(Overlay(a, b), x)
  {
  }

  lemma {:induction false} AboveNewest(ts: seq<Table>, us: seq<Table>, x: Bytes)
    requires |ts| == |us| && forall i :: 0 <= i < |ts| ==> us[i] == Above(ts[i], x)
    ensures Newest(us) == Above(Newest(ts), x)
  {
    if ts != [] {
      AboveNewest(ts[..|ts| - 1], us[..|us| - 1], x);
      AboveOverlay(Newest(ts[..|ts| - 1]), ts[|ts| - 1], x);
    }
  }

  lemma {:induction false} AboveIsSuffix(m: seq<Entry>, full: seq<Entry>, x: Bytes)
    requires Sorted(m) && Sorted(full) && AsTable(m) == Above(AsTable(full), x)
    ensures |m| <= |full| && m == full[|full| - |m|..]
  {
    if full == [] {
      AsTableMembers(m);
    } else {
      DropFirst(full);
      if Less(x, full[0].key) {
        assert Above(AsTable(full), x) == AsTable(full);
        SortedUnique(m, full);
      } else {
        assert Above(AsTable(full), x) == Above(AsTable(full[1..]), x);
        AboveIsSuffix(m, full[1..], x);
      }
    }
  }

  lemma {:induction false} CutAbove(s: seq<Entry>, n: nat, x: Bytes)
    requires Sorted(s) && n <= |s| && AllAbove(AsTable(s[n..]), x)
    requires n > 0 ==> AtMost(s[n - 1].key, x)
    ensures AsTable(s[n..]) == Above(AsTable(s), x)
  {
    if n == 0 {
      assert s[n..] == s;
    } else {
      CutFront(s[..n], x);
      assert s == s[..n] + s[n..];
      AsTableConcat(s[..n], s[n..]);
    }
  }

  lemma {:induction false} CutFront(s: seq<Entry>, x: Bytes)
    requires forall i :: 0 <= i < |s| ==> AtMost(s[i].key, x)
    ensures forall k :: k in AsTable(s) ==> AtMost(k, x)
  {
    AsTableMembers(s);
  }

  lemma {:induction false} SuffixOfMerge(cs: seq<seq<Entry>>, left: seq<nat>, m: seq<Entry>, x: Bytes)
    requires AllSorted(cs) && Positions(cs, left) && Consistent(Tables(cs))
    requires Sorted(m) && IsNewest(AsTable(m), Tables(Served(cs, left)))
    requires AllAbove(AsTable(m), x) && TailsUpTo(cs, left, x)
    ensures |m| <= |FullMerge(cs)| && m == FullMerge(cs)[|FullMerge(cs)| - |m|..]
  {
    var ts, us := Tables(cs), Tables(Served(cs, left));
    forall i | 0 <= i < |cs|
      ensures us[i] == Above(ts[i], x)
    {
      forall k | k in us[i]
        ensures Less(x, k)
      {
        assert Holds(us, i, k);
      }
      CutAbove(cs[i], left[i], x);
    }
    NewestOfAbove(AsTable(m), ts, us, x);
    AboveIsSuffix(m, FullMerge(cs), x);
  }

  lemma {:induction false} NewestOfAbove(m: Table, ts: seq<Table>, us: seq<Table>, x: Bytes)
    requires |ts| == |us| && forall i :: 0 <= i < |ts| ==> us[i] == Above(ts[i], x)
    requires Consistent(ts) && IsNewest(m, us)
    ensures m == Above(Newest(ts), x)
  {
    forall i, j | 0 <= i < |us| && 0 <= j < |us|
      ensures Agree(us[i], us[j])
    {
      assert Agree(ts[i], ts[j]);
    }
    NewestUnique(m, us);
    AboveNewest(ts, us, x);
  }

  // ---- Emission ----

  ghost predicate EmittedBack(m: seq<Entry>, pending: Option<Entry>, results: seq<Entry>) {
    if m == [] then pending.None? && results == []
    else pending == Some(m[0]) && results == Rev(Puts(m[1..]))
  }

  lemma {:induction false} PutsFront(m: seq<Entry>)
    requires m != []
    ensures Rev(Puts(m)) == Rev(Puts(m[1..])) + (if m[0].op.Put? then [m[0]] else [])
  {
    assert m == [m[0]] + m[1..];
    PutsConcat([m[0]], m[1..]);
    assert [m[0]][..0] == [];
    RevConcat(Puts([m[0]]), Puts(m[1..]));
  }

  lemma {:induction false} EmitBackStep(m: seq<Entry>, pending: Option<Entry>, results: seq<Entry>, e: Entry)
    requires EmittedBack(m, pending, results)
    ensures Emit(pending, results) == Rev(Puts(m))
    ensures if pending.Some? && pending.value.key == e.key
            then EmittedBack(BumpFront(m, e), Some(if e.lsn > pending.value.lsn then e else pending.value), results)
            else EmittedBack(BumpFront(m, e), Some(e), Emit(pending, results))
  {
    if m != [] {
      PutsFront(m);
    }
    if pending.Some? && pending.value.key == e.key {
      assert m[1..] == BumpFront(m, e)[1..];
    } else {
      assert BumpFront(m, e)[1..] == m;
    }
  }

  function Smaller(a: nat, b: nat): nat {
    if a < b then a else b
  }

  /** The first `n` live records of `full`, greatest key first; a budget of zero counts as one. */
  function Descending(full: seq<Entry>, n: nat): seq<Entry> {
    Rev(Puts(full))[..Smaller(Positive(n), |Puts(full)|)]
  }

  lemma {:induction false} DescendingSuffix(m: seq<Entry>, full: seq<Entry>, n: nat)
    requires |m| <= |full| && m == full[|full| - |m|..] && |Puts(m)| == Positive(n)
    ensures Descending(full, n) == Rev(Puts(m))
  {
    var front := full[..|full| - |m|];
    assert full == front + m;
    PutsConcat(front, m);
    RevConcat(Puts(front), Puts(m));
  }

  lemma {:induction false} StopBack(cs: seq<seq<Entry>>, left: seq<nat>, heap: set<HeapItem>, item: HeapItem,
                                    m: seq<Entry>, pending: Option<Entry>, results: seq<Entry>, n: nat)
    requires AllSorted(cs) && Consistent(Tables(cs)) && MergingBack(cs, left, heap, m) && Greatest(heap, item)
    requires EmittedBack(m, pending, results) && |results| < Positive(n)
    requires pending.Some? && pending.value.op.Put? && pending.value.key != item.entry.key
    requires |Emit(pending, results)| >= n
    ensures Emit(pending, results) == Descending(FullMerge(cs), n)
  {
    EmitBackStep(m, pending, results, item.entry);
    MaximumOfTails(cs, left, heap, item);
    LessIsLexicographic(item.entry.key, pending.value.key);
    SuffixAbove(m, item.entry.key);
    SuffixOfMerge(cs, left, m, item.entry.key);
    DescendingSuffix(m, FullMerge(cs), n);
  }

  lemma {:induction false} AllServed(cs: seq<seq<Entry>>, left: seq<nat>, m: seq<Entry>)
    requires Positions(cs, left) && Consistent(Tables(cs)) && forall i :: 0 <= i < |cs| ==> left[i] == 0
    requires Sorted(m) && IsNewest(AsTable(m), Tables(Served(cs, left)))
    ensures m == FullMerge(cs)
  {
    assert forall i :: 0 <= i < |cs| ==> cs[i][left[i]..] == cs[i];
    assert Served(cs, left) == cs;
    NewestUnique(AsTable(m), Tables(cs));
    SortedUnique(m, FullMerge(cs));
  }

  lemma {:induction false} StartBack(cs: seq<seq<Entry>>, left: seq<nat>)
    requires |left| == |cs| && forall i :: 0 <= i < |cs| ==> left[i] == |cs[i]|
    ensures IsNewest(AsTable([]), Tables(Served(cs, left)))
  {
    var ts := Tables(Served(cs, left));
    assert forall i :: 0 <= i < |ts| ==> ts[i] == map[];
  }

  lemma TailsComplete(cs: seq<seq<Entry>>, left: seq<nat>)
    requires Positions(cs, left)
    ensures forall i :: 0 <= i < |cs| && left[i] > 0 ==> HeapItem(cs[i][left[i] - 1], i) in Tails(cs, left)
  {
  }

  lemma {:induction false} FinishBack(cs: seq<seq<Entry>>, left: seq<nat>, m: seq<Entry>, pending: Option<Entry>, results: seq<Entry>, n: nat)
    requires Consistent(Tables(cs)) && MergingBack(cs, left, {}, m)
    requires EmittedBack(m, pending, results) && |results| < Positive(n)
    ensures Emit(pending, results) == Descending(FullMerge(cs), n)
  {
    TailsComplete(cs, left);
    AllServed(cs, left, m);
    if m != [] {
      PutsFront(m);
    }
  }

  /** Pops the greatest key first (on a tie the higher LSN) and stops after `maxItems` live records. */
  method MergeBackward(vectors: seq<seq<Entry>>, maxItems: nat) returns (results: seq<Entry>)
    requires AllSorted(vectors) && Consistent(Tables(vectors))
    ensures results == Descending(FullMerge(vectors), maxItems)
  {
    var left: seq<nat> := seq(|vectors|, i requires 0 <= i < |vectors| => |vectors[i]|);
    var heap: set<HeapItem> := set i | 0 <= i < |vectors| && left[i] > 0 :: HeapItem(vectors[i][left[i] - 1], i);
    results := [];
    var pending: Option<Entry> := None;
    ghost var m: seq<Entry> := [];
    StartBack(vectors, left);
    while heap != {}
      invariant MergingBack(vectors, left, heap, m)
      invariant EmittedBack(m, pending, results)
      invariant |results| < Positive(maxItems)
      decreases Total(left)
    {
      ghost var _ := GreatestExists(heap);
      var item :| Greatest(heap, item) && item in heap;
      var e := item.entry;
      PopBack(vectors, left, heap, m, item);
      EmitBackStep(m, pending, results, e);
      if pending.Some? && pending.value.key == e.key {
        if e.lsn > pending.value.lsn {
          pending := Some(e);
        }
      } else {
        var emitted := Emit(pending, results);
        if pending.Some? && pending.value.op.Put? && |emitted| >= maxItems {
          StopBack(vectors, left, heap, item, m, pending, results, maxItems);
          return emitted;
        }
        results := emitted;
        pending := Some(e);
      }
      heap := HeapBack(vectors, left, heap, item);
      left := StepBack(left, item.cursor);
      m := BumpFront(m, e);
    }
    FinishBack(vectors, left, m, pending, results, maxItems);
    results := Emit(pending, results);
  }
}
