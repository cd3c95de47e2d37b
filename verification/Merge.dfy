/** The K-way heap merge over sorted cursors: forward (streaming, with early exit) and reverse. */
module Merge {
  import opened ByteStrings
  import opened Entries

  datatype HeapItem = HeapItem(entry: Entry, cursor: nat)

  predicate AllSorted(cs: seq<seq<Entry>>) {
    forall i :: 0 <= i < |cs| ==> Sorted(cs[i])
  }

  function Tables(cs: seq<seq<Entry>>): (ts: seq<Table>)
    ensures |ts| == |cs| && forall i :: 0 <= i < |cs| ==> ts[i] == AsTable(cs[i])
  {
    seq(|cs|, i requires 0 <= i < |cs| => AsTable(cs[i]))
  }

  function Positive(m: nat): nat {
    if m == 0 then 1 else m
  }

  /** The live records of the deduplicated list `full`, at most the budget. */
  function Limited(full: seq<Entry>, maxItems: Option<nat>): seq<Entry> {
    if maxItems.Some? && |Puts(full)| > Positive(maxItems.value)
    then Puts(full)[..Positive(maxItems.value)] else Puts(full)
  }

  /** The budget is full before the last key is reached: the scans emit a key only when the next
      one shows up, so this is when they stop early. */
  predicate CutsShort(full: seq<Entry>, maxItems: Option<nat>) {
    maxItems.Some? && full != [] && |Puts(full[..|full| - 1])| >= Positive(maxItems.value)
  }

  predicate Budgeted(results: seq<Entry>, truncated: bool, full: seq<Entry>, maxItems: Option<nat>) {
    results == Limited(full, maxItems) && (truncated <==> CutsShort(full, maxItems))
  }

  // ---- Deduplication of an ascending run ----

  /** Adds one record behind `m`, keeping the higher LSN when the key repeats. */
  function Bump(m: seq<Entry>, e: Entry): seq<Entry> {
    if m != [] && m[|m| - 1].key == e.key then
      if e.lsn > m[|m| - 1].lsn then m[..|m| - 1] + [e] else m
    else m + [e]
  }

  lemma {:induction false} BumpIsOverlay(m: seq<Entry>, e: Entry)
    requires Sorted(m) && (m != [] ==> AtMost(m[|m| - 1].key, e.key))
    ensures Sorted(Bump(m, e)) && AsTable(Bump(m, e)) == Overlay(AsTable(m), map[e.key := e])
  {
    if m != [] && m[|m| - 1].key == e.key {
      BumpReplaces(m, e);
    } else {
      BumpAppends(m, e);
    }
  }

  lemma {:induction false} BumpReplaces(m: seq<Entry>, e: Entry)
    requires Sorted(m) && m != [] && m[|m| - 1].key == e.key
    ensures Sorted(Bump(m, e)) && AsTable(Bump(m, e)) == Overlay(AsTable(m), map[e.key := e])
  {
    var last := m[|m| - 1];
    DropLast(m);
    assert e.key in AsTable(m) && AsTable(m)[e.key] == last;
    if e.lsn > last.lsn {
      AppendGreater(m[..|m| - 1], e);
      assert AsTable(Bump(m, e)) == AsTable(m)[e.key := e];
      assert Overlay(AsTable(m), map[e.key := e]) == AsTable(m)[e.key := e];
    } else {
      assert Overlay(AsTable(m), map[e.key := e]) == AsTable(m);
    }
  }

  lemma {:induction false} BumpAppends(m: seq<Entry>, e: Entry)
    requires Sorted(m) && (m != [] ==> AtMost(m[|m| - 1].key, e.key) && m[|m| - 1].key != e.key)
    ensures Sorted(m + [e]) && AsTable(m + [e]) == Overlay(AsTable(m), map[e.key := e])
  {
    if m != [] {
      LessIsLexicographic(m[|m| - 1].key, e.key);
    }
    PrefixBelow(m, e.key);
    AppendGreater(m, e);
  }

  // ---- Consumed parts of the cursors ----

  predicate Positions(cs: seq<seq<Entry>>, pos: seq<nat>) {
    |pos| == |cs| && forall i :: 0 <= i < |cs| ==> pos[i] <= |cs[i]|
  }

  function Advance(pos: seq<nat>, j: nat): seq<nat>
    requires j < |pos|
  {
    pos[j := pos[j] + 1]
  }

  function Consumed(cs: seq<seq<Entry>>, pos: seq<nat>): (r: seq<seq<Entry>>)
    requires Positions(cs, pos)
    ensures |r| == |cs| && forall i :: 0 <= i < |cs| ==> r[i] == cs[i][..pos[i]]
  {
    seq(|cs|, i requires 0 <= i < |cs| => cs[i][..pos[i]])
  }

  /** No head is below `x`. */
  predicate HeadsFrom(cs: seq<seq<Entry>>, pos: seq<nat>, x: Bytes)
    requires Positions(cs, pos)
  {
    forall i :: 0 <= i < |cs| && pos[i] < |cs[i]| ==> AtMost(x, cs[i][pos[i]].key)
  }

  ghost function Heads(cs: seq<seq<Entry>>, pos: seq<nat>): set<HeapItem>
    requires Positions(cs, pos)
  {
    set i | 0 <= i < |cs| && pos[i] < |cs[i]| :: HeapItem(cs[i][pos[i]], i)
  }

  /** Consuming one more record of one cursor overlays that record on the newest table. */
  lemma {:induction false} ConsumeOne(m: Table, ts: seq<Table>, j: nat, e: Entry)
    requires IsNewest(m, ts) && j < |ts| && e.key !in ts[j]
    ensures IsNewest(Overlay(m, map[e.key := e]), ts[j := ts[j][e.key := e]])
  {
    var r, us := Overlay(m, map[e.key := e]), ts[j := ts[j][e.key := e]];
    forall i, k | Holds(us, i, k)
      ensures k in r && us[i][k].lsn <= r[k].lsn
    {
      if k != e.key || i != j {
        assert Holds(ts, i, k);
      }
    }
    forall k | k in r
      ensures NewestAt(r[k], us, k)
    {
      if k == e.key && r[k] == e {
        assert Holds(us, j, k);
      } else {
        var i :| Holds(ts, i, k) && ts[i][k] == m[k];
        assert Holds(us, i, k);
      }
    }
  }

  lemma {:induction false} SortedSplit(s: seq<Entry>, n: nat)
    requires Sorted(s) && n < |s|
    ensures s[n].key !in AsTable(s[..n])
    ensures AsTable(s[..n + 1]) == AsTable(s[..n])[s[n].key := s[n]]
  {
    assert s[..n + 1][..n] == s[..n];
    DropLast(s[..n + 1]);
  }

  lemma {:induction false} StepTables(cs: seq<seq<Entry>>, pos: seq<nat>, j: nat)
    requires AllSorted(cs) && Positions(cs, pos) && j < |cs| && pos[j] < |cs[j]|
    ensures var e := cs[j][pos[j]];
            var ts := Tables(Consumed(cs, pos));
            && e.key !in ts[j]
            && Tables(Consumed(cs, Advance(pos, j))) == ts[j := ts[j][e.key := e]]
  {
    SortedSplit(cs[j], pos[j]);
  }

  lemma {:induction false} TopExists(heap: set<HeapItem>) returns (top: HeapItem)
    requires heap != {}
    ensures Top(heap, top)
  {
    var x :| x in heap;
    if heap == {x} {
      top := x;
    } else {
      var y := TopExists(heap - {x});
      assert forall o :: o in heap ==> o == x || o in heap - {x};
      if Less(x.entry.key, y.entry.key) || (x.entry.key == y.entry.key && x.entry.lsn < y.entry.lsn) {
        top := x;
      } else {
        if !Less(y.entry.key, x.entry.key) {
          RankInjective(x.entry.key, y.entry.key);
        }
        top := y;
      }
    }
  }

  lemma {:induction false} BelowNewest(ts: seq<Table>, us: seq<Table>, x: Bytes)
    requires |ts| == |us| && forall i :: 0 <= i < |ts| ==> us[i] == Below(ts[i], x)
    ensures Newest(us) == Below(Newest(ts), x)
  {
    if ts != [] {
      BelowNewest(ts[..|ts| - 1], us[..|us| - 1], x);
      BelowOverlay(Newest(ts[..|ts| - 1]), ts[|ts| - 1], x);
    }
  }

  lemma BelowOverlay(a: Table, b: Table, x: Bytes)
    ensures Overlay(Below(a, x), Below(b, x)) == Below(Overlay(a, b), x)
  {
  }

  /** When everything left is at least `x` and everything consumed is below `x`, the records
      consumed so far deduplicate to a prefix of the whole merge. */
  lemma {:induction false} PrefixOfMerge(cs: seq<seq<Entry>>, pos: seq<nat>, m: seq<Entry>, x: Bytes)
    requires AllSorted(cs) && Positions(cs, pos) && Consistent(Tables(cs))
    requires Sorted(m) && IsNewest(AsTable(m), Tables(Consumed(cs, pos)))
    requires AllBelow(AsTable(m), x)
    requires HeadsFrom(cs, pos, x)
    ensures m <= FullMerge(cs)
  {
    var ts, us := Tables(cs), Tables(Consumed(cs, pos));
    forall i | 0 <= i < |cs|
      ensures us[i] == Below(ts[i], x)
    {
      forall k | k in us[i]
        ensures Less(k, x)
      {
        assert Holds(us, i, k);
      }
      CutTable(cs[i], pos[i], x);
    }
    forall i, j | 0 <= i < |us| && 0 <= j < |us|
      ensures Agree(us[i], us[j])
    {
      assert Agree(ts[i], ts[j]);
    }
    NewestUnique(AsTable(m), us);
    BelowNewest(ts, us, x);
    BelowIsPrefix(m, FullMerge(cs), x);
  }

  lemma {:induction false} CutTable(s: seq<Entry>, n: nat, x: Bytes)
    requires Sorted(s) && n <= |s| && AllBelow(AsTable(s[..n]), x)
    requires n < |s| ==> AtMost(x, s[n].key)
    ensures AsTable(s[..n]) == Below(AsTable(s), x)
  {
    if n == |s| {
      assert s[..n] == s;
    } else {
      CutTableTail(s[n..], x);
      assert s == s[..n] + s[n..];
      AsTableConcat(s[..n], s[n..]);
    }
  }

  lemma {:induction false} CutTableTail(s: seq<Entry>, x: Bytes)
    requires forall i :: 0 <= i < |s| ==> AtMost(x, s[i].key)
    ensures forall k :: k in AsTable(s) ==> AtMost(x, k)
  {
    AsTableMembers(s);
  }

  lemma {:induction false} NewestKeyed(ts: seq<Table>)
    requires forall i :: 0 <= i < |ts| ==> Keyed(ts[i])
    ensures Keyed(Newest(ts))
  {
    if ts != [] {
      NewestKeyed(ts[..|ts| - 1]);
    }
  }

  /** The merge of all cursors: per key the record with the highest LSN, in key order. */
  ghost function FullMerge(cs: seq<seq<Entry>>): (s: seq<Entry>)
    ensures Sorted(s) && AsTable(s) == Newest(Tables(cs))
  {
    NewestKeyed(Tables(cs));
    Listing(Newest(Tables(cs)))
  }

  lemma {:induction false} AllConsumed(cs: seq<seq<Entry>>, pos: seq<nat>, m: seq<Entry>)
    requires Positions(cs, pos) && Consistent(Tables(cs)) && forall i :: 0 <= i < |cs| ==> pos[i] == |cs[i]|
    requires Sorted(m) && IsNewest(AsTable(m), Tables(Consumed(cs, pos)))
    ensures m == FullMerge(cs)
  {
    assert forall i :: 0 <= i < |cs| ==> cs[i][..pos[i]] == cs[i];
    assert Consumed(cs, pos) == cs;
    NewestUnique(AsTable(m), Tables(cs));
    SortedUnique(m, FullMerge(cs));
  }

  function Remaining(cs: seq<seq<Entry>>, pos: seq<nat>): nat
    requires Positions(cs, pos)
  {
    if cs == [] then 0
    else Remaining(cs[..|cs| - 1], pos[..|pos| - 1]) + |cs[|cs| - 1]| - pos[|cs| - 1]
  }

  lemma {:induction false} RemainingDrops(cs: seq<seq<Entry>>, pos: seq<nat>, j: nat)
    requires Positions(cs, pos) && j < |cs| && pos[j] < |cs[j]|
    ensures Remaining(cs, Advance(pos, j)) == Remaining(cs, pos) - 1
  {
    var pos' := Advance(pos, j);
    if j < |cs| - 1 {
      RemainingDrops(cs[..|cs| - 1], pos[..|pos| - 1], j);
      assert pos'[..|pos| - 1] == pos[..|pos| - 1][j := pos[j] + 1];
    } else {
      assert pos'[..|pos| - 1] == pos[..|pos| - 1];
    }
  }

  lemma {:induction false} StartMerge(cs: seq<seq<Entry>>, pos: seq<nat>)
    requires |pos| == |cs| && forall i :: 0 <= i < |cs| ==> pos[i] == 0
    ensures IsNewest(AsTable([]), Tables(Consumed(cs, pos)))
  {
    var ts := Tables(Consumed(cs, pos));
    assert forall i :: 0 <= i < |ts| ==> ts[i] == map[];
  }

  lemma MinimumOfHeads(cs: seq<seq<Entry>>, pos: seq<nat>, heap: set<HeapItem>, item: HeapItem)
    requires Positions(cs, pos) && heap == Heads(cs, pos) && item in heap
    requires forall o :: o in heap ==> AtMost(item.entry.key, o.entry.key)
    ensures item.cursor < |cs| && pos[item.cursor] < |cs[item.cursor]| && item.entry == cs[item.cursor][pos[item.cursor]]
    ensures HeadsFrom(cs, pos, item.entry.key)
  {
    forall i | 0 <= i < |cs| && pos[i] < |cs[i]|
      ensures AtMost(item.entry.key, cs[i][pos[i]].key)
    {
      assert HeapItem(cs[i][pos[i]], i) in heap;
    }
  }

  /** The heap after popping `item` and pushing its cursor's next record, if any. */
  function HeapAfter(cs: seq<seq<Entry>>, pos: seq<nat>, heap: set<HeapItem>, item: HeapItem): set<HeapItem>
    requires Positions(cs, pos) && item.cursor < |cs| && pos[item.cursor] < |cs[item.cursor]|
  {
    var next := pos[item.cursor] + 1;
    heap - {item} + (if next < |cs[item.cursor]| then {HeapItem(cs[item.cursor][next], item.cursor)} else {})
  }

  lemma HeapAfterPop(cs: seq<seq<Entry>>, pos: seq<nat>, j: nat)
    requires Positions(cs, pos) && j < |cs| && pos[j] < |cs[j]|
    ensures Positions(cs, Advance(pos, j))
    ensures Heads(cs, Advance(pos, j)) == HeapAfter(cs, pos, Heads(cs, pos), HeapItem(cs[j][pos[j]], j))
  {
    var pos' := Advance(pos, j);
    var r := HeapAfter(cs, pos, Heads(cs, pos), HeapItem(cs[j][pos[j]], j));
    forall x | x in r
      ensures x in Heads(cs, pos')
    {
      assert x.cursor == j || pos'[x.cursor] == pos[x.cursor];
    }
    forall x | x in Heads(cs, pos')
      ensures x in r
    {
      assert x.cursor == j || pos'[x.cursor] == pos[x.cursor];
    }
  }

  lemma HeadsComplete(cs: seq<seq<Entry>>, pos: seq<nat>)
    requires Positions(cs, pos)
    ensures forall i :: 0 <= i < |cs| && pos[i] < |cs[i]| ==> HeapItem(cs[i][pos[i]], i) in Heads(cs, pos)
  {
  }

  /** After the pop every head is still at or behind the last merged key. */
  lemma NextHeads(cs: seq<seq<Entry>>, pos: seq<nat>, j: nat, last: Bytes)
    requires AllSorted(cs) && Positions(cs, pos) && j < |cs| && pos[j] < |cs[j]| && last == cs[j][pos[j]].key
    requires HeadsFrom(cs, pos, last)
    ensures HeadsFrom(cs, Advance(pos, j), last)
  {
    assert Sorted(cs[j]);
  }

  /** The early exit: the emitted list is the budgeted prefix of the whole merge. */
  lemma {:induction false} EarlyExit(cs: seq<seq<Entry>>, pos: seq<nat>, m: seq<Entry>, j: nat, n: nat)
    requires AllSorted(cs) && Positions(cs, pos) && Consistent(Tables(cs)) && j < |cs| && pos[j] < |cs[j]|
    requires Sorted(m) && IsNewest(AsTable(m), Tables(Consumed(cs, pos))) && m != []
    requires Less(m[|m| - 1].key, cs[j][pos[j]].key)
    requires HeadsFrom(cs, pos, cs[j][pos[j]].key)
    requires |Puts(m)| == Positive(n)
    ensures Budgeted(Puts(m), true, FullMerge(cs), Some(n))
  {
    var e := cs[j][pos[j]];
    PrefixBelow(m, e.key);
    PrefixOfMerge(cs, pos, m, e.key);
    InFullMerge(cs, j, pos[j]);
    BudgetedPrefix(m, FullMerge(cs), n);
  }

  lemma {:induction false} InFullMerge(cs: seq<seq<Entry>>, i: nat, j: nat)
    requires i < |cs| && j < |cs[i]|
    ensures cs[i][j].key in AsTable(FullMerge(cs))
  {
    NewestIsNewest(Tables(cs));
    AsTableMembers(cs[i]);
    assert Holds(Tables(cs), i, cs[i][j].key);
  }

  lemma {:induction false} BudgetedPrefix(m: seq<Entry>, full: seq<Entry>, n: nat)
    requires m <= full && m != full && |Puts(m)| == Positive(n)
    ensures Budgeted(Puts(m), true, full, Some(n))
  {
    var rest := full[|m|..];
    assert full == m + rest && full[..|full| - 1] == m + rest[..|rest| - 1];
    PutsConcat(m, rest);
    PutsConcat(m, rest[..|rest| - 1]);
  }

  // ---- Forward merge ----

  /** The heap holds the head of every cursor; `m` is the merge of what was popped. */
  ghost predicate Merging(cs: seq<seq<Entry>>, pos: seq<nat>, heap: set<HeapItem>, m: seq<Entry>) {
    && Positions(cs, pos) && heap == Heads(cs, pos)
    && Sorted(m) && IsNewest(AsTable(m), Tables(Consumed(cs, pos)))
    && (m != [] ==> HeadsFrom(cs, pos, m[|m| - 1].key))
  }

  predicate Top(heap: set<HeapItem>, item: HeapItem) {
    && item in heap
    && (forall o :: o in heap ==> AtMost(item.entry.key, o.entry.key))
    && (forall o :: o in heap && o.entry.key == item.entry.key ==> item.entry.lsn <= o.entry.lsn)
  }

  lemma {:induction false} PopTables(cs: seq<seq<Entry>>, pos: seq<nat>, m: seq<Entry>, j: nat)
    requires AllSorted(cs) && Positions(cs, pos) && j < |cs| && pos[j] < |cs[j]|
    requires Sorted(m) && IsNewest(AsTable(m), Tables(Consumed(cs, pos)))
    requires m != [] ==> AtMost(m[|m| - 1].key, cs[j][pos[j]].key)
    ensures Sorted(Bump(m, cs[j][pos[j]]))
    ensures IsNewest(AsTable(Bump(m, cs[j][pos[j]])), Tables(Consumed(cs, Advance(pos, j))))
  {
    var e := cs[j][pos[j]];
    StepTables(cs, pos, j);
    ConsumeOne(AsTable(m), Tables(Consumed(cs, pos)), j, e);
    BumpIsOverlay(m, e);
  }

  lemma {:induction false} PopStep(cs: seq<seq<Entry>>, pos: seq<nat>, heap: set<HeapItem>, m: seq<Entry>, item: HeapItem)
    requires AllSorted(cs) && Merging(cs, pos, heap, m) && Top(heap, item)
    ensures item.cursor < |cs| && pos[item.cursor] < |cs[item.cursor]| && item.entry == cs[item.cursor][pos[item.cursor]]
    ensures m != [] ==> AtMost(m[|m| - 1].key, item.entry.key)
    ensures HeadsFrom(cs, pos, item.entry.key)
    ensures var pos' := Advance(pos, item.cursor);
            && Merging(cs, pos', HeapAfter(cs, pos, heap, item), Bump(m, item.entry))
            && Remaining(cs, pos') < Remaining(cs, pos)
  {
    MinimumOfHeads(cs, pos, heap, item);
    var e, j := item.entry, item.cursor;
    PopTables(cs, pos, m, j);
    RemainingDrops(cs, pos, j);
    HeapAfterPop(cs, pos, j);
    NextHeads(cs, pos, j, e.key);
  }

  /** The last merged record is pending, the live ones before it are emitted. */
  ghost predicate Emitted(m: seq<Entry>, pending: Option<Entry>, results: seq<Entry>) {
    if m == [] then pending.None? && results == []
    else pending == Some(m[|m| - 1]) && results == Puts(m[..|m| - 1])
  }

  function Emit(pending: Option<Entry>, results: seq<Entry>): seq<Entry> {
    if pending.Some? && pending.value.op.Put? then results + [pending.value] else results
  }

  lemma {:induction false} EmitStep(m: seq<Entry>, pending: Option<Entry>, results: seq<Entry>, e: Entry)
    requires Emitted(m, pending, results)
    ensures Emit(pending, results) == Puts(m)
    ensures if pending.Some? && pending.value.key == e.key
            then Emitted(Bump(m, e), Some(if e.lsn > pending.value.lsn then e else pending.value), results)
            else Emitted(Bump(m, e), Some(e), Emit(pending, results))
  {
    if pending.Some? && pending.value.key == e.key {
      assert m[..|m| - 1] == Bump(m, e)[..|Bump(m, e)| - 1];
    } else {
      assert Bump(m, e)[..|Bump(m, e)| - 1] == m;
    }
  }

  lemma {:induction false} EmitAll(m: seq<Entry>, pending: Option<Entry>, results: seq<Entry>, maxItems: Option<nat>)
    requires Emitted(m, pending, results) && (maxItems.Some? ==> |results| < Positive(maxItems.value))
    ensures Budgeted(Emit(pending, results), false, m, maxItems)
  {
  }

  /** Stopping with `n` live records emitted, in front of a record with a further key. */
  lemma {:induction false} StopEarly(cs: seq<seq<Entry>>, pos: seq<nat>, heap: set<HeapItem>, item: HeapItem,
                                     m: seq<Entry>, pending: Option<Entry>, results: seq<Entry>, n: nat)
    requires AllSorted(cs) && Consistent(Tables(cs)) && Merging(cs, pos, heap, m) && Top(heap, item)
    requires Emitted(m, pending, results) && |results| < Positive(n)
    requires pending.Some? && pending.value.op.Put? && pending.value.key != item.entry.key
    requires |Emit(pending, results)| >= n
    ensures Budgeted(Emit(pending, results), true, FullMerge(cs), Some(n))
  {
    EmitStep(m, pending, results, item.entry);
    PopStep(cs, pos, heap, m, item);
    LessIsLexicographic(pending.value.key, item.entry.key);
    EarlyExit(cs, pos, m, item.cursor, n);
  }

  /** Pops the smallest key first (on a tie the lower LSN), folds repeated keys into the pending
      record, and stops once the budget of live records is emitted. */
  method MergeForward(cursors: seq<seq<Entry>>, maxItems: Option<nat>) returns (results: seq<Entry>, truncated: bool)
    requires AllSorted(cursors) && Consistent(Tables(cursors))
    ensures Budgeted(results, truncated, FullMerge(cursors), maxItems)
  {
    var pos: seq<nat> := seq(|cursors|, _ => 0);
    var heap: set<HeapItem> := set i | 0 <= i < |cursors| && pos[i] < |cursors[i]| :: HeapItem(cursors[i][pos[i]], i);
    results := [];
    var pending: Option<Entry> := None;
    ghost var m: seq<Entry> := [];
    StartMerge(cursors, pos);
    while heap != {}
      invariant Merging(cursors, pos, heap, m)
      invariant Emitted(m, pending, results)
      invariant maxItems.Some? ==> |results| < Positive(maxItems.value)
      decreases Remaining(cursors, pos)
    {
      ghost var _ := TopExists(heap);
      var item :| Top(heap, item) && item in heap;
      var e := item.entry;
      PopStep(cursors, pos, heap, m, item);
      EmitStep(m, pending, results, e);
      if pending.Some? && pending.value.key == e.key {
        if e.lsn > pending.value.lsn {
          pending := Some(e);
        }
      } else {
        var emitted := Emit(pending, results);
        if pending.Some? && pending.value.op.Put? && maxItems.Some? && |emitted| >= maxItems.value {
          StopEarly(cursors, pos, heap, item, m, pending, results, maxItems.value);
          return emitted, true;
        }
        results := emitted;
        pending := Some(e);
      }
      heap := HeapAfter(cursors, pos, heap, item);
      pos := Advance(pos, item.cursor);
      m := Bump(m, e);
    }
    HeadsComplete(cursors, pos);
    AllConsumed(cursors, pos, m);
    EmitAll(m, pending, results, maxItems);
    results := Emit(pending, results);
    truncated := false;
  }
}
