/** Building the graph: neighbour selection, pruning, insertion, and the layered search. */
module Hnsw {
  import opened ByteStrings
  import opened Collections
  import opened HnswSearch

  // ---- Well-formed graphs ----

  /** Neighbour list `l` of node `u`: in range, irreflexive, distinct, at most `m` long, and every
      neighbour is on layer `l` itself. */
  ghost predicate ListOk(nodes: seq<Node>, m: nat, u: nat, l: nat)
    requires u < |nodes| && l < |nodes[u].neighbors|
  {
    var list := nodes[u].neighbors[l];
    && |list| <= m && NoRepeats(list)
    && forall v :: v in list ==> v < |nodes| && v != u && l < |nodes[v].neighbors|
  }

  ghost predicate GraphOk(nodes: seq<Node>, m: nat) {
    forall u, l :: 0 <= u < |nodes| && 0 <= l < |nodes[u].neighbors| ==> ListOk(nodes, m, u, l)
  }

  /** The entry point is on the top layer, and nothing is above it. */
  ghost predicate TopOk(nodes: seq<Node>, entry: nat, top: nat) {
    nodes != [] ==>
      && entry < |nodes| && |nodes[entry].neighbors| == top + 1
      && forall u :: 0 <= u < |nodes| ==> 0 < |nodes[u].neighbors| <= top + 1
  }

  lemma {:induction false} GraphLinksInRange(nodes: seq<Node>, m: nat, layer: nat)
    requires GraphOk(nodes, m)
    ensures LinksInRange(nodes, layer)
  {
    forall u, v | v in Links(nodes, layer, u)
      ensures v < |nodes|
    {
      assert ListOk(nodes, m, u, layer);
    }
  }

  predicate OnLayer(nodes: seq<Node>, u: nat, layer: nat) {
    u < |nodes| && layer < |nodes[u].neighbors|
  }

  /** Whatever a layer's links lead to is on that layer. */
  lemma {:induction false} ReachOnLayer(nodes: seq<Node>, m: nat, layer: nat, u: nat, v: nat)
    requires GraphOk(nodes, m) && OnLayer(nodes, u, layer) && v in Reach(nodes, layer, u)
    ensures OnLayer(nodes, v, layer)
  {
    var s := set x | 0 <= x < |nodes| && layer < |nodes[x].neighbors|;
    forall x, y | x in s && y in Links(nodes, layer, x)
      ensures y in s
    {
      assert ListOk(nodes, m, x, layer);
    }
    ClosedHoldsReach(nodes, layer, s, u);
  }

  // ---- Pruning ----

  /** `kept` are the `m` nearest of `list`, in order. */
  ghost predicate NearestFew(dist: Distance, nodes: seq<Node>, query: Bytes, list: seq<nat>, m: nat, kept: seq<nat>) {
    && NoRepeats(kept) && InOrder(dist, nodes, query, kept) && |kept| == (if |list| < m then |list| else m)
    && (forall v :: v in kept ==> v in list)
    && (forall v, w :: v in kept && w in list && w !in kept ==> DistanceTo(dist, nodes, query, v) <= DistanceTo(dist, nodes, query, w))
  }

  lemma {:induction false} PrefixIsNearest(dist: Distance, nodes: seq<Node>, query: Bytes, list: seq<nat>, sorted: seq<nat>, m: nat)
    requires NoRepeats(list) && Lists(dist, nodes, query, Members(list), sorted)
    ensures NearestFew(dist, nodes, query, list, m, if |sorted| > m then sorted[..m] else sorted)
  {
    ListAsSet(list);
    var kept := if |sorted| > m then sorted[..m] else sorted;
    forall i | 0 <= i < |kept|
      ensures kept[i] == sorted[i] && kept[i] in list
    {
      assert sorted[i] in sorted;
    }
    forall v, w | v in kept && w in list && w !in kept
      ensures DistanceTo(dist, nodes, query, v) <= DistanceTo(dist, nodes, query, w)
    {
      assert w in sorted;
      var i :| 0 <= i < |kept| && kept[i] == v;
      var j :| 0 <= j < |sorted| && sorted[j] == w;
      assert j >= |kept|;
    }
  }

  /** Keeps the `m` nearest neighbours. */
  method Prune(dist: Distance, nodes: seq<Node>, u: nat, list: seq<nat>, m: nat) returns (kept: seq<nat>)
    requires u < |nodes| && NoRepeats(list) && u !in list
    ensures NearestFew(dist, nodes, nodes[u].data, list, m, kept)
  {
    var sorted := SortByDistance(dist, nodes, nodes[u].data, Members(list));
    PrefixIsNearest(dist, nodes, nodes[u].data, list, sorted, m);
    kept := if |sorted| > m then sorted[..m] else sorted;
  }

  // ---- Selection ----

  /** Picked so far from the first `n` candidates: `selected` and `discarded` split them. */
  ghost predicate Split(cands: seq<nat>, n: nat, u: nat, selected: seq<nat>, discarded: seq<nat>) {
    && n <= |cands| && NoRepeats(selected + discarded)
    && (forall v :: v in selected + discarded <==> v in cands[..n] && v != u)
  }

  lemma {:induction false} SplitMore(cands: seq<nat>, n: nat, u: nat, selected: seq<nat>, discarded: seq<nat>)
    requires NoRepeats(cands) && n < |cands| && Split(cands, n, u, selected, discarded)
    ensures cands[n] == u ==> Split(cands, n + 1, u, selected, discarded)
    ensures cands[n] != u ==> Split(cands, n + 1, u, selected + [cands[n]], discarded) && Split(cands, n + 1, u, selected, discarded + [cands[n]])
  {
    var x := cands[n];
    assert cands[..n + 1] == cands[..n] + [x];
    assert x !in cands[..n];
    var all := selected + discarded;
    assert forall i :: 0 <= i < |all| ==> all[i] in all;
    if x != u {
      assert selected + (discarded + [x]) == all + [x];
      SnocDistinct(all, x);
      InsertDistinct(selected, discarded, x);
    }
  }

  lemma {:induction false} SnocDistinct(s: seq<nat>, x: nat)
    requires NoRepeats(s) && x !in s
    ensures NoRepeats(s + [x])
  {
    assert forall i :: 0 <= i < |s| ==> s[i] in s;
  }

  lemma {:induction false} InsertDistinct(a: seq<nat>, b: seq<nat>, x: nat)
    requires NoRepeats(a + b) && x !in a + b
    ensures NoRepeats(a + [x] + b) && forall v :: v in a + [x] + b <==> v in a + b || v == x
  {
    var r := a + [x] + b;
    forall i, j | 0 <= i < j < |r|
      ensures r[i] != r[j]
    {
      InsertAt(a, b, x, i);
      InsertAt(a, b, x, j);
    }
  }

  lemma InsertAt(a: seq<nat>, b: seq<nat>, x: nat, i: nat)
    requires i < |a| + 1 + |b|
    ensures (a + [x] + b)[i] == if i < |a| then (a + b)[i] else if i == |a| then x else (a + b)[i - 1]
    ensures i != |a| ==> (a + [x] + b)[i] in a + b
  {
  }

  /** Nearer to `w` than to the query. */
  predicate BlockedBy(dist: Distance, nodes: seq<Node>, query: Bytes, v: nat, w: nat) {
    v < |nodes| && DistanceTo(dist, nodes, query, v) > DistanceTo(dist, nodes, nodes[v].data, w)
  }

  /** No picked node is nearer to one picked before it than to the query. */
  predicate AllDiverse(dist: Distance, nodes: seq<Node>, query: Bytes, picked: seq<nat>) {
    forall i, j :: 0 <= i < j < |picked| ==> !BlockedBy(dist, nodes, query, picked[j], picked[i])
  }

  /** `v` comes before `w` among the candidates. */
  predicate Before(cands: seq<nat>, v: nat, w: nat) {
    exists i, j :: 0 <= i < j < |cands| && cands[i] == v && cands[j] == w
  }

  predicate InCandidateOrder(cands: seq<nat>, s: seq<nat>) {
    forall i, j :: 0 <= i < j < |s| ==> Before(cands, s[i], s[j])
  }

  lemma {:induction false} SeenBefore(cands: seq<nat>, n: nat, w: nat)
    requires n < |cands| && w in cands[..n]
    ensures Before(cands, w, cands[n])
  {
    var i :| 0 <= i < n && cands[..n][i] == w;
    assert cands[i] == w;
  }

  lemma {:induction false} OrderSnoc(cands: seq<nat>, s: seq<nat>, n: nat)
    requires n < |cands| && InCandidateOrder(cands, s) && forall v :: v in s ==> v in cands[..n]
    ensures InCandidateOrder(cands, s + [cands[n]])
  {
    forall i | 0 <= i < |s|
      ensures Before(cands, s[i], cands[n])
    {
      SeenBefore(cands, n, s[i]);
    }
  }

  /** Every passed-over node is nearer to a node picked before it than to the query. */
  ghost predicate AllBlocked(dist: Distance, nodes: seq<Node>, query: Bytes, cands: seq<nat>, over: seq<nat>, picked: seq<nat>) {
    forall v :: v in over ==> Blocked(dist, nodes, query, cands, v, picked)
  }

  ghost predicate Blocked(dist: Distance, nodes: seq<Node>, query: Bytes, cands: seq<nat>, v: nat, picked: seq<nat>) {
    exists w :: w in picked && BlockedBy(dist, nodes, query, v, w) && Before(cands, w, v)
  }

  /** Distinct candidates other than the node, as many as fit. */
  ghost predicate Selected(cands: seq<nat>, u: nat, m: nat, s: seq<nat>) {
    && NoRepeats(s) && |s| <= m && (forall v :: v in s ==> v in cands && v != u)
    && (|s| < m ==> forall v :: v in cands && v != u ==> v in s)
  }

  lemma {:induction false} PickOne(dist: Distance, nodes: seq<Node>, query: Bytes, cands: seq<nat>, picked: seq<nat>, over: seq<nat>, v: nat)
    requires AllDiverse(dist, nodes, query, picked) && AllBlocked(dist, nodes, query, cands, over, picked)
    requires forall w :: w in picked ==> !BlockedBy(dist, nodes, query, v, w)
    ensures AllDiverse(dist, nodes, query, picked + [v]) && AllBlocked(dist, nodes, query, cands, over, picked + [v])
  {
    assert forall i :: 0 <= i < |picked| ==> picked[i] in picked;
    forall x | x in over
      ensures Blocked(dist, nodes, query, cands, x, picked + [v])
    {
      assert Blocked(dist, nodes, query, cands, x, picked);
      var w :| w in picked && BlockedBy(dist, nodes, query, x, w) && Before(cands, w, x);
      assert w in picked + [v];
    }
  }

  /** Is the candidate at least as near to the query as to everything picked? */
  method Diverse(dist: Distance, nodes: seq<Node>, query: Bytes, cand: nat, picked: seq<nat>) returns (add: bool)
    requires cand < |nodes|
    ensures add <==> forall w :: w in picked ==> !BlockedBy(dist, nodes, query, cand, w)
  {
    for i := 0 to |picked|
      invariant forall j :: 0 <= j < i ==> !BlockedBy(dist, nodes, query, cand, picked[j])
    {
      if DistanceTo(dist, nodes, query, cand) > DistanceTo(dist, nodes, nodes[cand].data, picked[i]) {
        assert picked[i] in picked && BlockedBy(dist, nodes, query, cand, picked[i]);
        return false;
      }
    }
    return true;
  }

  /** The first `n` candidates are split into diverse ones, in order, and ones passed over, in order. */
  ghost predicate Picking(dist: Distance, nodes: seq<Node>, u: nat, cands: seq<nat>, n: nat, selected: seq<nat>, discarded: seq<nat>)
    requires u < |nodes|
  {
    && Split(cands, n, u, selected, discarded) && InCandidateOrder(cands, selected) && InCandidateOrder(cands, discarded)
    && AllDiverse(dist, nodes, nodes[u].data, selected) && AllBlocked(dist, nodes, nodes[u].data, cands, discarded, selected)
  }

  lemma {:induction false} SplitSeen(cands: seq<nat>, n: nat, u: nat, selected: seq<nat>, discarded: seq<nat>)
    requires Split(cands, n, u, selected, discarded)
    ensures forall v :: v in selected || v in discarded ==> v in cands[..n] && v != u
  {
    assert forall v :: v in selected || v in discarded ==> v in selected + discarded;
  }

  lemma {:induction false} PickNext(dist: Distance, nodes: seq<Node>, u: nat, cands: seq<nat>, n: nat, selected: seq<nat>, discarded: seq<nat>)
    requires u < |nodes| && NoRepeats(cands) && n < |cands| && cands[n] != u && Picking(dist, nodes, u, cands, n, selected, discarded)
    ensures var cand := cands[n];
            if forall w :: w in selected ==> !BlockedBy(dist, nodes, nodes[u].data, cand, w)
            then Picking(dist, nodes, u, cands, n + 1, selected + [cand], discarded)
            else Picking(dist, nodes, u, cands, n + 1, selected, discarded + [cand])
  {
    var cand := cands[n];
    SplitMore(cands, n, u, selected, discarded);
    SplitSeen(cands, n, u, selected, discarded);
    if forall w :: w in selected ==> !BlockedBy(dist, nodes, nodes[u].data, cand, w) {
      PickOne(dist, nodes, nodes[u].data, cands, selected, discarded, cand);
      OrderSnoc(cands, selected, n);
    } else {
      var w :| w in selected && BlockedBy(dist, nodes, nodes[u].data, cand, w);
      SeenBefore(cands, n, w);
      assert Blocked(dist, nodes, nodes[u].data, cands, cand, selected);
      OrderSnoc(cands, discarded, n);
    }
  }

  lemma {:induction false} SkipSelf(dist: Distance, nodes: seq<Node>, u: nat, cands: seq<nat>, n: nat, selected: seq<nat>, discarded: seq<nat>)
    requires u < |nodes| && NoRepeats(cands) && n < |cands| && cands[n] == u && Picking(dist, nodes, u, cands, n, selected, discarded)
    ensures Picking(dist, nodes, u, cands, n + 1, selected, discarded)
  {
    SplitMore(cands, n, u, selected, discarded);
  }

  /** The search goes on only with room left, or with nothing but a first pick. */
  predicate RoomLeft(m: nat, selected: seq<nat>, discarded: seq<nat>) {
    |selected| < m || (|selected| <= 1 && discarded == [])
  }

  /** Takes diverse candidates first; a full list ends the search early. */
  method PickDiverse(dist: Distance, nodes: seq<Node>, u: nat, cands: seq<nat>, m: nat) returns (selected: seq<nat>, discarded: seq<nat>, n: nat)
    requires u < |nodes| && NoRepeats(cands) && forall v :: v in cands ==> v < |nodes|
    ensures Picking(dist, nodes, u, cands, n, selected, discarded) && (n < |cands| ==> |selected| >= m)
    ensures m > 0 && |selected| > m ==> discarded == []
  {
    selected, discarded, n := [], [], 0;
    while n < |cands|
      invariant Picking(dist, nodes, u, cands, n, selected, discarded) && RoomLeft(m, selected, discarded)
    {
      var cand := cands[n];
      assert cand in cands;
      n := n + 1;
      if cand == u {
        SkipSelf(dist, nodes, u, cands, n - 1, selected, discarded);
        continue;
      }
      PassedOver(dist, nodes, nodes[u].data, cands, discarded, selected);
      PickNext(dist, nodes, u, cands, n - 1, selected, discarded);
      if selected == [] {
        selected := selected + [cand];
        continue;
      }
      var add := Diverse(dist, nodes, nodes[u].data, cand, selected);
      if add {
        selected := selected + [cand];
      } else {
        discarded := discarded + [cand];
      }
      if |selected| >= m {
        return;
      }
    }
  }

  /** Without a pick nothing has been passed over. */
  lemma {:induction false} PassedOver(dist: Distance, nodes: seq<Node>, query: Bytes, cands: seq<nat>, over: seq<nat>, picked: seq<nat>)
    requires AllBlocked(dist, nodes, query, cands, over, picked)
    ensures over != [] ==> picked != []
  {
    if over != [] {
      assert Blocked(dist, nodes, query, cands, over[0], picked);
    }
  }

  function Room(m: nat, selected: seq<nat>): nat {
    if |selected| < m then m - |selected| else 0
  }

  /** Fills free places with discarded candidates, nearest first. */
  method FillUp(selected: seq<nat>, discarded: seq<nat>, m: nat) returns (s: seq<nat>)
    requires NoRepeats(selected + discarded)
    ensures s == selected + discarded[..Smaller(|discarded|, Room(m, selected))]
  {
    s := selected;
    if |s| >= m {
      return;
    }
    for i := 0 to |discarded|
      invariant s == selected + discarded[..i] && |s| < m
    {
      assert discarded[..i + 1] == discarded[..i] + [discarded[i]];
      FreshFiller(selected, discarded, i);
      if discarded[i] !in s {
        s := s + [discarded[i]];
        if |s| >= m {
          return;
        }
      }
    }
    assert discarded[..|discarded|] == discarded;
  }

  lemma {:induction false} FreshFiller(selected: seq<nat>, discarded: seq<nat>, i: nat)
    requires NoRepeats(selected + discarded) && i < |discarded|
    ensures discarded[i] !in selected + discarded[..i]
  {
    var all, front := selected + discarded, selected + discarded[..i];
    assert all[|selected| + i] == discarded[i];
    assert forall j :: 0 <= j < |front| ==> front[j] == all[j];
  }

  /** Why a candidate was not taken: it is nearer to a pick in front of it than to the query and behind all
      fillers, or the list was full of candidates in front of it. */
  ghost predicate LeftOut(dist: Distance, nodes: seq<Node>, query: Bytes, cands: seq<nat>, m: nat, s: seq<nat>, k: nat, v: nat)
    requires k <= |s|
  {
    || (Blocked(dist, nodes, query, cands, v, s[..k]) && forall f :: f in s[k..] ==> Before(cands, f, v))
    || (k == m && forall w :: w in s ==> Before(cands, w, v))
  }

  /** The first `k` are the diverse picks, the rest fillers, both in the order of the candidates. */
  ghost predicate Selection(dist: Distance, nodes: seq<Node>, u: nat, cands: seq<nat>, m: nat, s: seq<nat>, k: nat)
    requires u < |nodes|
  {
    && Selected(cands, u, m, s) && k <= |s|
    && InCandidateOrder(cands, s[..k]) && InCandidateOrder(cands, s[k..])
    && AllDiverse(dist, nodes, nodes[u].data, s[..k]) && AllBlocked(dist, nodes, nodes[u].data, cands, s[k..], s[..k])
    && forall v :: v in cands && v != u && v !in s ==> LeftOut(dist, nodes, nodes[u].data, cands, m, s, k, v)
  }

  /** The diversity heuristic: diverse candidates first, then passed-over ones up to `m`. */
  method SelectNeighbors(dist: Distance, nodes: seq<Node>, u: nat, cands: seq<nat>, m: nat) returns (s: seq<nat>)
    requires u < |nodes| && NoRepeats(cands) && forall v :: v in cands ==> v < |nodes|
    ensures Selected(cands, u, m, s) && exists k :: Selection(dist, nodes, u, cands, m, s, k)
  {
    var selected, discarded, n := PickDiverse(dist, nodes, u, cands, m);
    var filled := FillUp(selected, discarded, m);
    s := if |filled| > m then filled[..m] else filled;
    if |selected| <= m {
      FilledSelection(dist, nodes, u, cands, m, n, selected, discarded, s);
    } else {
      CutSelection(dist, nodes, u, cands, m, n, selected, discarded, s);
    }
  }

  /** Before a full list, and behind it. */
  lemma {:induction false} UnseenAfter(cands: seq<nat>, n: nat, w: nat, v: nat)
    requires n <= |cands| && w in cands[..n] && v in cands && v !in cands[..n]
    ensures Before(cands, w, v)
  {
    var i :| 0 <= i < n && cands[..n][i] == w;
    assert cands[i] == w;
    assert forall j :: 0 <= j < n ==> cands[j] in cands[..n];
  }

  lemma {:induction false} FillersTaken(cands: seq<nat>, n: nat, u: nat, m: nat, selected: seq<nat>, discarded: seq<nat>, s: seq<nat>)
    requires Split(cands, n, u, selected, discarded) && |selected| <= m && (n < |cands| ==> |selected| >= m)
    requires s == selected + discarded[..Smaller(|discarded|, Room(m, selected))]
    ensures Selected(cands, u, m, s) && s[..|selected|] == selected && s[|selected|..] == discarded[..|s| - |selected|]
  {
    var all := selected + discarded;
    assert s == all[..|s|];
    assert forall i :: 0 <= i < |s| ==> s[i] == all[i] && all[i] in all;
    if |s| < m {
      assert s == all && n == |cands|;
      assert cands[..n] == cands;
    }
  }

  lemma {:induction false} FilledSelection(dist: Distance, nodes: seq<Node>, u: nat, cands: seq<nat>, m: nat, n: nat, selected: seq<nat>, discarded: seq<nat>, s: seq<nat>)
    requires u < |nodes| && Picking(dist, nodes, u, cands, n, selected, discarded) && |selected| <= m && (n < |cands| ==> |selected| >= m)
    requires s == selected + discarded[..Smaller(|discarded|, Room(m, selected))]
    ensures Selection(dist, nodes, u, cands, m, s, |selected|)
  {
    var k := |selected|;
    FillersTaken(cands, n, u, m, selected, discarded, s);
    forall i, j | 0 <= i < j < |s[k..]|
      ensures Before(cands, s[k..][i], s[k..][j])
    {
      assert s[k..][i] == discarded[i] && s[k..][j] == discarded[j];
    }
    assert forall v :: v in s[k..] ==> v in discarded;
    forall v | v in cands && v != u && v !in s
      ensures LeftOut(dist, nodes, nodes[u].data, cands, m, s, k, v)
    {
      LeftOutFilled(dist, nodes, u, cands, m, n, selected, discarded, s, v);
    }
  }

  lemma {:induction false} LeftOutFilled(dist: Distance, nodes: seq<Node>, u: nat, cands: seq<nat>, m: nat, n: nat, selected: seq<nat>, discarded: seq<nat>, s: seq<nat>, v: nat)
    requires u < |nodes| && Picking(dist, nodes, u, cands, n, selected, discarded) && |selected| <= m && (n < |cands| ==> |selected| >= m)
    requires selected <= s && s[..|selected|] == selected && |s| <= m
    requires |s| - |selected| <= |discarded| && s[|selected|..] == discarded[..|s| - |selected|]
    requires v in cands && v != u && v !in s
    ensures LeftOut(dist, nodes, nodes[u].data, cands, m, s, |selected|, v)
  {
    SplitSeen(cands, n, u, selected, discarded);
    if v in cands[..n] {
      assert v in selected + discarded;
      assert v !in selected;
      var j :| 0 <= j < |discarded| && discarded[j] == v;
      var t := |s| - |selected|;
      assert s[|selected|..] == discarded[..t];
      assert forall i :: 0 <= i < t ==> discarded[i] in s[|selected|..] && discarded[i] in s;
      forall f | f in s[|selected|..]
        ensures Before(cands, f, v)
      {
        var i :| 0 <= i < t && discarded[..t][i] == f;
        assert discarded[i] == f;
      }
    } else {
      assert s == selected;
      forall w | w in s
        ensures Before(cands, w, v)
      {
        UnseenAfter(cands, n, w, v);
      }
    }
  }

  lemma {:induction false} CutSelection(dist: Distance, nodes: seq<Node>, u: nat, cands: seq<nat>, m: nat, n: nat, selected: seq<nat>, discarded: seq<nat>, s: seq<nat>)
    requires u < |nodes| && Picking(dist, nodes, u, cands, n, selected, discarded) && |selected| > m && (m > 0 ==> discarded == [])
    requires s == selected[..m]
    ensures Selection(dist, nodes, u, cands, m, s, m)
  {
    SplitSeen(cands, n, u, selected, discarded);
    assert s[..m] == s && s[m..] == [];
    assert forall i :: 0 <= i < m ==> s[i] == selected[i] && s[i] in selected;
    assert NoRepeats(s) by {
      assert forall i :: 0 <= i < m ==> s[i] == (selected + discarded)[i];
    }
    forall v, w | v in cands && v != u && v !in s && w in s
      ensures Before(cands, w, v)
    {
      if v in cands[..n] {
        assert v in selected + discarded;
        var i :| 0 <= i < |selected| && selected[i] == v;
        var j :| 0 <= j < m && s[j] == w;
        assert selected[j] == w;
      } else {
        UnseenAfter(cands, n, w, v);
      }
    }
  }

  /** A selection has as many members as fit or as there are candidates. */
  lemma {:induction false} SelectionSize(cands: seq<nat>, u: nat, m: nat, s: seq<nat>)
    requires Selected(cands, u, m, s) && NoRepeats(cands) && u !in cands
    ensures |s| == Smaller(m, |cands|)
  {
    ListAsSet(s);
    ListAsSet(cands);
    assert Members(s) <= Members(cands);
    SubsetSize(Members(s), Members(cands));
    if |s| < m {
      assert Members(s) == Members(cands);
    }
  }

  // ---- Changing one list ----

  function SetList(nodes: seq<Node>, u: nat, l: nat, list: seq<nat>): seq<Node>
    requires OnLayer(nodes, u, l)
  {
    nodes[u := nodes[u].(neighbors := nodes[u].neighbors[l := list])]
  }

  /** The same vectors on the same layers. */
  ghost predicate SameShape(a: seq<Node>, b: seq<Node>) {
    |a| == |b| && forall u :: 0 <= u < |a| ==> a[u].id == b[u].id && a[u].data == b[u].data && |a[u].neighbors| == |b[u].neighbors|
  }

  ghost predicate GoodList(nodes: seq<Node>, m: nat, u: nat, l: nat, list: seq<nat>) {
    |list| <= m && NoRepeats(list) && forall v :: v in list ==> OnLayer(nodes, v, l) && v != u
  }

  lemma {:induction false} SetListLinks(nodes: seq<Node>, u: nat, l: nat, list: seq<nat>)
    requires OnLayer(nodes, u, l)
    ensures SameShape(nodes, SetList(nodes, u, l, list))
    ensures forall k, y :: Links(SetList(nodes, u, l, list), k, y) == if k == l && y == u then list else Links(nodes, k, y)
  {
  }

  lemma {:induction false} SetListOk(nodes: seq<Node>, m: nat, u: nat, l: nat, list: seq<nat>)
    requires GraphOk(nodes, m) && OnLayer(nodes, u, l) && GoodList(nodes, m, u, l, list)
    ensures GraphOk(SetList(nodes, u, l, list), m)
  {
    var nodes' := SetList(nodes, u, l, list);
    forall y, k | 0 <= y < |nodes'| && 0 <= k < |nodes'[y].neighbors|
      ensures ListOk(nodes', m, y, k)
    {
      assert ListOk(nodes, m, y, k);
    }
  }

  lemma {:induction false} GraphGoodList(nodes: seq<Node>, m: nat, u: nat, l: nat)
    requires GraphOk(nodes, m) && OnLayer(nodes, u, l)
    ensures GoodList(nodes, m, u, l, Links(nodes, l, u))
  {
    assert ListOk(nodes, m, u, l);
  }

  // ---- Linking a new node ----

  /** On layer `l`, node `x` is linked with the nodes of `done` only. */
  ghost predicate LinkedWith(nodes: seq<Node>, l: nat, x: nat, done: seq<nat>) {
    Links(nodes, l, x) == done && forall y :: x in Links(nodes, l, y) ==> y in done
  }

  lemma {:induction false} LinkForward(nodes: seq<Node>, m: nat, l: nat, x: nat, done: seq<nat>, v: nat)
    requires GraphOk(nodes, m) && OnLayer(nodes, x, l) && OnLayer(nodes, v, l) && v != x
    requires LinkedWith(nodes, l, x, done) && v !in done && |done| < m
    ensures GraphOk(SetList(nodes, x, l, done + [v]), m)
    ensures LinkedWith(SetList(nodes, x, l, done + [v]), l, x, done + [v])
    ensures x !in Links(SetList(nodes, x, l, done + [v]), l, v)
  {
    GraphGoodList(nodes, m, x, l);
    SnocDistinct(done, v);
    SetListOk(nodes, m, x, l, done + [v]);
    SetListLinks(nodes, x, l, done + [v]);
  }

  lemma {:induction false} LinkBack(nodes: seq<Node>, m: nat, l: nat, x: nat, done: seq<nat>, v: nat, kept: seq<nat>)
    requires GraphOk(nodes, m) && OnLayer(nodes, x, l) && OnLayer(nodes, v, l) && v != x
    requires LinkedWith(nodes, l, x, done) && v in done
    requires |kept| <= m && NoRepeats(kept) && forall w :: w in kept ==> w in Links(nodes, l, v) + [x]
    ensures GraphOk(SetList(nodes, v, l, kept), m) && LinkedWith(SetList(nodes, v, l, kept), l, x, done)
  {
    GraphGoodList(nodes, m, v, l);
    SetListOk(nodes, m, v, l, kept);
    SetListLinks(nodes, v, l, kept);
  }

  /** Nothing below layer `l` links `x` yet. */
  ghost predicate UnlinkedBelow(nodes: seq<Node>, x: nat, l: nat) {
    forall k :: 0 <= k < l ==> LinkedWith(nodes, k, x, [])
  }

  lemma {:induction false} StillUnlinked(nodes: seq<Node>, x: nat, l: nat, u: nat, list: seq<nat>)
    requires OnLayer(nodes, u, l) && UnlinkedBelow(nodes, x, l)
    ensures UnlinkedBelow(SetList(nodes, u, l, list), x, l)
  {
    SetListLinks(nodes, u, l, list);
    forall k | 0 <= k < l
      ensures LinkedWith(SetList(nodes, u, l, list), k, x, [])
    {
      assert LinkedWith(nodes, k, x, []);
    }
  }

  lemma ShapeTransitive(a: seq<Node>, b: seq<Node>, c: seq<Node>)
    requires SameShape(a, b) && SameShape(b, c)
    ensures SameShape(a, c)
  {
  }

  /** After `x` was linked back, `v` lists `x` too, or the `m` nearest of its neighbours and `x`. */
  ghost predicate BackLinked(dist: Distance, old0: seq<Node>, nodes: seq<Node>, m: nat, l: nat, x: nat, v: nat) {
    var list, grown := Links(nodes, l, v), Links(old0, l, v) + [x];
    v < |old0| && if |grown| <= m then list == grown else NearestFew(dist, old0, old0[v].data, grown, m, list)
  }

  /** `nodes` is `old0` with `x` linked both ways with the nodes of `done` on layer `l`, and nothing else changed. */
  ghost predicate Rewired(dist: Distance, old0: seq<Node>, nodes: seq<Node>, m: nat, l: nat, x: nat, done: seq<nat>) {
    && SameShape(old0, nodes) && Links(nodes, l, x) == done
    && (forall v :: v in done ==> BackLinked(dist, old0, nodes, m, l, x, v))
    && (forall y :: y != x && y !in done ==> Links(nodes, l, y) == Links(old0, l, y))
    && (forall k, y :: k != l ==> Links(nodes, k, y) == Links(old0, k, y))
  }

  lemma SameData(a: seq<Node>, b: seq<Node>, dist: Distance, query: Bytes, v: nat)
    requires SameShape(a, b)
    ensures DistanceTo(dist, a, query, v) == DistanceTo(dist, b, query, v)
  {
  }

  lemma {:induction false} NearestFewShape(dist: Distance, a: seq<Node>, b: seq<Node>, query: Bytes, list: seq<nat>, m: nat, kept: seq<nat>)
    requires SameShape(a, b) && NearestFew(dist, a, query, list, m, kept)
    ensures NearestFew(dist, b, query, list, m, kept)
  {
    forall v: nat
      ensures DistanceTo(dist, a, query, v) == DistanceTo(dist, b, query, v)
    {
      SameData(a, b, dist, query, v);
    }
  }

  lemma {:induction false} RewireOne(dist: Distance, old0: seq<Node>, nodes: seq<Node>, r: seq<Node>, m: nat, l: nat, x: nat, done: seq<nat>, v: nat)
    requires Rewired(dist, old0, nodes, m, l, x, done) && v != x && v !in done && SameShape(nodes, r) && BackLinked(dist, old0, r, m, l, x, v)
    requires forall k, y :: Links(r, k, y) == if k == l && y == x then done + [v] else if k == l && y == v then Links(r, l, v) else Links(nodes, k, y)
    requires forall w :: w in done ==> w != x
    ensures Rewired(dist, old0, r, m, l, x, done + [v])
  {
    ShapeTransitive(old0, nodes, r);
    forall w | w in done + [v]
      ensures BackLinked(dist, old0, r, m, l, x, w)
    {
      if w != v {
        assert w in done && Links(r, l, w) == Links(nodes, l, w);
        assert BackLinked(dist, old0, nodes, m, l, x, w);
      }
    }
  }

  /** Links `x` and `v` both ways, pruning `v`'s list if it grew over `m`. */
  method LinkPair(dist: Distance, nodes: seq<Node>, m: nat, l: nat, x: nat, v: nat, ghost done: seq<nat>) returns (r: seq<Node>, ghost back: seq<nat>)
    requires GraphOk(nodes, m) && OnLayer(nodes, x, l) && OnLayer(nodes, v, l) && v != x
    requires LinkedWith(nodes, l, x, done) && v !in done && |done| < m && UnlinkedBelow(nodes, x, l)
    ensures GraphOk(r, m) && SameShape(nodes, r) && LinkedWith(r, l, x, done + [v]) && UnlinkedBelow(r, x, l)
    ensures forall k, y :: Links(r, k, y) == if k == l && y == x then done + [v] else if k == l && y == v then back else Links(nodes, k, y)
    ensures if |Links(nodes, l, v)| < m then back == Links(nodes, l, v) + [x] else NearestFew(dist, nodes, nodes[v].data, Links(nodes, l, v) + [x], m, back)
  {
    LinkForward(nodes, m, l, x, done, v);
    StillUnlinked(nodes, x, l, x, done + [v]);
    SetListLinks(nodes, x, l, done + [v]);
    r := SetList(nodes, x, l, Links(nodes, l, x) + [v]);
    ghost var mid := r;
    GraphGoodList(r, m, v, l);
    var list := Links(r, l, v) + [x];
    SnocDistinct(Links(r, l, v), x);
    if |list| > m {
      list := Prune(dist, r, v, list, m);
      NearestFewShape(dist, r, nodes, r[v].data, Links(nodes, l, v) + [x], m, list);
    }
    LinkBack(r, m, l, x, done + [v], v, list);
    StillUnlinked(r, x, l, v, list);
    SetListLinks(r, v, l, list);
    r := SetList(r, v, l, list);
    ShapeTransitive(nodes, mid, r);
    back := list;
  }

  /** What one more linked pair does to the whole. */
  lemma {:induction false} PairRewires(dist: Distance, old0: seq<Node>, nodes: seq<Node>, r: seq<Node>, m: nat, l: nat, x: nat, done: seq<nat>, v: nat, back: seq<nat>)
    requires Rewired(dist, old0, nodes, m, l, x, done) && SameShape(nodes, r) && v < |nodes| && v != x && v !in done && x !in done
    requires forall k, y :: Links(r, k, y) == if k == l && y == x then done + [v] else if k == l && y == v then back else Links(nodes, k, y)
    requires if |Links(nodes, l, v)| < m then back == Links(nodes, l, v) + [x] else NearestFew(dist, nodes, nodes[v].data, Links(nodes, l, v) + [x], m, back)
    ensures Rewired(dist, old0, r, m, l, x, done + [v])
  {
    assert Links(nodes, l, v) == Links(old0, l, v);
    if |Links(nodes, l, v)| >= m {
      SameShapeBack(old0, nodes);
      NearestFewShape(dist, nodes, old0, nodes[v].data, Links(nodes, l, v) + [x], m, back);
    }
    RewireOne(dist, old0, nodes, r, m, l, x, done, v);
  }

  lemma SameShapeBack(a: seq<Node>, b: seq<Node>)
    requires SameShape(a, b)
    ensures SameShape(b, a)
  {
  }

  /** Links `x` with every selected neighbour on layer `l`. */
  method LinkAll(dist: Distance, nodes: seq<Node>, m: nat, l: nat, x: nat, selected: seq<nat>) returns (r: seq<Node>)
    requires GraphOk(nodes, m) && OnLayer(nodes, x, l) && UnlinkedBelow(nodes, x, l + 1)
    requires NoRepeats(selected) && |selected| <= m && forall v :: v in selected ==> OnLayer(nodes, v, l) && v != x
    ensures GraphOk(r, m) && UnlinkedBelow(r, x, l) && Rewired(dist, nodes, r, m, l, x, selected)
  {
    r := nodes;
    assert LinkedWith(r, l, x, []) && UnlinkedBelow(r, x, l);
    for i := 0 to |selected|
      invariant GraphOk(r, m) && UnlinkedBelow(r, x, l) && LinkedWith(r, l, x, selected[..i])
      invariant Rewired(dist, nodes, r, m, l, x, selected[..i])
    {
      assert selected[i] in selected;
      assert selected[i] !in selected[..i];
      assert selected[..i + 1] == selected[..i] + [selected[i]];
      var next; ghost var back;
      next, back := LinkPair(dist, r, m, l, x, selected[i], selected[..i]);
      PairRewires(dist, nodes, r, next, m, l, x, selected[..i], selected[i], back);
      r := next;
    }
    assert selected[..|selected|] == selected;
  }

  // ---- The same graph on one layer ----

  ghost predicate SameLinks(a: seq<Node>, b: seq<Node>, l: nat) {
    forall y :: Links(a, l, y) == Links(b, l, y)
  }

  lemma {:induction false} SameReach(a: seq<Node>, b: seq<Node>, l: nat, u: nat)
    requires |a| == |b| && SameLinks(a, b, l)
    ensures Reach(a, l, u) == Reach(b, l, u)
  {
    forall v
      ensures Reachable(a, l, u, v) <==> Reachable(b, l, u, v)
    {
      if p :| Walk(a, l, p, u, v) {
        assert Walk(b, l, p, u, v);
      }
      if p :| Walk(b, l, p, u, v) {
        assert Walk(a, l, p, u, v);
      }
    }
  }

  lemma {:induction false} SameBeam(dist: Distance, a: seq<Node>, b: seq<Node>, query: Bytes, l: nat, entry: nat, ef: nat, out: seq<nat>)
    requires SameShape(a, b) && SameLinks(a, b, l) && BeamResult(dist, a, query, l, entry, ef, out)
    ensures BeamResult(dist, b, query, l, entry, ef, out)
  {
    SameReach(a, b, l, entry);
    forall v: nat
      ensures DistanceTo(dist, a, query, v) == DistanceTo(dist, b, query, v)
    {
      SameData(a, b, dist, query, v);
    }
  }

  lemma {:induction false} SameBlocks(dist: Distance, a: seq<Node>, b: seq<Node>, query: Bytes, cands: seq<nat>, picked: seq<nat>)
    requires SameShape(a, b)
    ensures forall v, w :: BlockedBy(dist, a, query, v, w) == BlockedBy(dist, b, query, v, w)
    ensures forall v :: Blocked(dist, a, query, cands, v, picked) == Blocked(dist, b, query, cands, v, picked)
  {
    forall v: nat, w: nat
      ensures BlockedBy(dist, a, query, v, w) == BlockedBy(dist, b, query, v, w)
    {
      SameData(a, b, dist, query, v);
      if v < |a| {
        SameData(a, b, dist, a[v].data, w);
      }
    }
  }

  lemma {:induction false} SameSelection(dist: Distance, a: seq<Node>, b: seq<Node>, u: nat, cands: seq<nat>, m: nat, s: seq<nat>, k: nat)
    requires SameShape(a, b) && u < |a| && Selection(dist, a, u, cands, m, s, k)
    ensures Selection(dist, b, u, cands, m, s, k)
  {
    SameBlocks(dist, a, b, a[u].data, cands, s[..k]);
    forall v | v in cands && v != u && v !in s
      ensures LeftOut(dist, b, b[u].data, cands, m, s, k, v)
    {
      assert LeftOut(dist, a, a[u].data, cands, m, s, k, v);
    }
  }

  lemma {:induction false} SameBack(dist: Distance, a: seq<Node>, b: seq<Node>, nodes: seq<Node>, m: nat, l: nat, x: nat, v: nat)
    requires SameShape(a, b) && SameLinks(a, b, l) && BackLinked(dist, a, nodes, m, l, x, v)
    ensures BackLinked(dist, b, nodes, m, l, x, v)
  {
    if |Links(a, l, v)| >= m {
      NearestFewShape(dist, a, b, a[v].data, Links(a, l, v) + [x], m, Links(nodes, l, v));
    }
  }

  // ---- A new node on its layers ----

  /** Layer `l` after connecting `x` there: a search from `entry` in the graph as it was found `knn`, `x` links
      the neighbours selected from them and these link back; every other list is as it was. */
  ghost predicate Connected(dist: Distance, base: seq<Node>, nodes: seq<Node>, m: nat, ef: nat, x: nat, l: nat, entry: nat, knn: seq<nat>) {
    var list := Links(nodes, l, x);
    && x < |base| && BeamResult(dist, base, base[x].data, l, entry, ef, knn)
    && (exists k :: Selection(dist, base, x, knn, m, list, k)) && |list| == Smaller(m, |knn|)
    && (forall v :: v in list ==> BackLinked(dist, base, nodes, m, l, x, v))
    && (forall y :: y != x && y !in list ==> Links(nodes, l, y) == Links(base, l, y))
  }

  lemma {:induction false} StillConnected(dist: Distance, base: seq<Node>, nodes: seq<Node>, r: seq<Node>, m: nat, ef: nat, x: nat, l: nat, entry: nat, knn: seq<nat>)
    requires Connected(dist, base, nodes, m, ef, x, l, entry, knn) && SameLinks(nodes, r, l)
    ensures Connected(dist, base, r, m, ef, x, l, entry, knn)
  {
    forall v | v in Links(r, l, x)
      ensures BackLinked(dist, base, r, m, l, x, v)
    {
      assert BackLinked(dist, base, nodes, m, l, x, v);
    }
  }

  lemma {:induction false} RewiredConnects(dist: Distance, base: seq<Node>, nodes: seq<Node>, r: seq<Node>, m: nat, ef: nat, x: nat, l: nat, entry: nat, knn: seq<nat>, s: seq<nat>, k: nat)
    requires SameShape(base, nodes) && SameLinks(base, nodes, l) && x < |base| && x !in knn
    requires BeamResult(dist, nodes, base[x].data, l, entry, ef, knn) && Selection(dist, nodes, x, knn, m, s, k) && Rewired(dist, nodes, r, m, l, x, s)
    ensures Connected(dist, base, r, m, ef, x, l, entry, knn)
  {
    SameShapeBack(base, nodes);
    SameBeam(dist, nodes, base, base[x].data, l, entry, ef, knn);
    SameSelection(dist, nodes, base, x, knn, m, s, k);
    SelectionSize(knn, x, m, s);
    forall v | v in s
      ensures BackLinked(dist, base, r, m, l, x, v)
    {
      SameBack(dist, nodes, base, r, m, l, x, v);
    }
  }

  /** A neighbour of the new node links back, or holds `m` neighbours that are all at least as near to it. */
  lemma {:induction false} LinksBackUnlessFull(dist: Distance, base: seq<Node>, nodes: seq<Node>, m: nat, ef: nat, x: nat, l: nat, entry: nat, knn: seq<nat>, v: nat)
    requires Connected(dist, base, nodes, m, ef, x, l, entry, knn) && v in Links(nodes, l, x)
    ensures v < |base| && (x in Links(nodes, l, v) ||
              (|Links(nodes, l, v)| == m && forall w :: w in Links(nodes, l, v) ==> DistanceTo(dist, base, base[v].data, w) <= DistanceTo(dist, base, base[v].data, x)))
  {
    assert BackLinked(dist, base, nodes, m, l, x, v);
    assert x in Links(base, l, v) + [x];
  }

  /** What an unlinked node is not reached from. */
  lemma {:induction false} UnlinkedUnreached(nodes: seq<Node>, l: nat, x: nat, u: nat)
    requires LinksInRange(nodes, l) && LinkedWith(nodes, l, x, []) && u < |nodes| && u != x
    ensures x !in Reach(nodes, l, u)
  {
    var s := Reach(nodes, l, u) - {x};
    ReachSelf(nodes, l, u);
    forall y, v | y in s && v in Links(nodes, l, y)
      ensures v in s
    {
      ReachNext(nodes, l, u, y, v);
    }
    ClosedHoldsReach(nodes, l, s, u);
  }

  // ---- Going down the layers ----

  /** `v` is the first result of a search of one layer from `u`. */
  ghost predicate GreedyStep(dist: Distance, nodes: seq<Node>, query: Bytes, layer: nat, ef: nat, u: nat, v: nat) {
    exists out :: BeamResult(dist, nodes, query, layer, u, ef, out) && out[0] == v
  }

  /** One greedy step per layer from `from` down to just above `to`. */
  ghost predicate Descent(dist: Distance, nodes: seq<Node>, query: Bytes, ef: nat, from: nat, to: nat, path: seq<nat>) {
    && to <= from && |path| == from - to + 1
    && forall i :: 0 <= i < from - to ==> GreedyStep(dist, nodes, query, from - i, ef, path[i], path[i + 1])
  }

  lemma {:induction false} AppendNode(nodes: seq<Node>, m: nat, n: Node)
    requires GraphOk(nodes, m) && forall l :: 0 <= l < |n.neighbors| ==> n.neighbors[l] == []
    ensures GraphOk(nodes + [n], m) && forall k :: LinkedWith(nodes + [n], k, |nodes|, [])
  {
    var nodes', x := nodes + [n], |nodes|;
    forall u, l | 0 <= u < |nodes'| && 0 <= l < |nodes'[u].neighbors|
      ensures ListOk(nodes', m, u, l)
    {
      if u < x {
        assert ListOk(nodes, m, u, l);
      }
    }
    forall k: nat, y: nat, v | v in Links(nodes', k, y)
      ensures v < x
    {
      if y < x {
        assert ListOk(nodes, m, y, k);
      }
    }
  }

  function EmptyLists(n: nat): (r: seq<seq<nat>>)
    ensures |r| == n && forall l :: 0 <= l < n ==> r[l] == []
  {
    seq(n, _ => [])
  }

  lemma {:induction false} DescentMore(dist: Distance, nodes: seq<Node>, query: Bytes, ef: nat, from: nat, l: nat, path: seq<nat>, out: seq<nat>)
    requires 0 < l && Descent(dist, nodes, query, ef, from, l, path) && BeamResult(dist, nodes, query, l, path[|path| - 1], ef, out)
    ensures Descent(dist, nodes, query, ef, from, l - 1, path + [out[0]])
  {
    assert GreedyStep(dist, nodes, query, l, ef, path[|path| - 1], out[0]);
  }

  /** A greedy step stays on the layer and does not reach a node without links. */
  lemma {:induction false} StepStays(dist: Distance, nodes: seq<Node>, m: nat, query: Bytes, l: nat, u: nat, ef: nat, out: seq<nat>)
    requires GraphOk(nodes, m) && OnLayer(nodes, u, l) && BeamResult(dist, nodes, query, l, u, ef, out)
    ensures forall v :: v in out ==> OnLayer(nodes, v, l)
    ensures forall x :: x != u && LinkedWith(nodes, l, x, []) ==> x !in out
  {
    forall v | v in out
      ensures OnLayer(nodes, v, l)
    {
      ReachOnLayer(nodes, m, l, u, v);
    }
    GraphLinksInRange(nodes, m, l);
    forall x | x != u && LinkedWith(nodes, l, x, [])
      ensures x !in out
    {
      UnlinkedUnreached(nodes, l, x, u);
    }
  }

  /** Moves greedily from layer `from` down to just above layer `to`, one search per layer. A node without
      links, such as the new one, is not met. */
  method Descend(dist: Distance, nodes: seq<Node>, query: Bytes, entry: nat, ef: nat, from: nat, to: nat, ghost m: nat, ghost x: nat)
    returns (curr: nat, ghost path: seq<nat>)
    requires GraphOk(nodes, m) && OnLayer(nodes, entry, from) && to <= from
    requires entry != x && ((forall k :: LinkedWith(nodes, k, x, [])) || x >= |nodes|)
    ensures OnLayer(nodes, curr, to) && curr != x
    ensures Descent(dist, nodes, query, ef, from, to, path) && path[0] == entry && path[|path| - 1] == curr
  {
    curr, path := entry, [entry];
    var l := from;
    while l > to
      invariant to <= l <= from && OnLayer(nodes, curr, l) && curr != x
      invariant Descent(dist, nodes, query, ef, from, l, path) && path[0] == entry && path[|path| - 1] == curr
    {
      GraphLinksInRange(nodes, m, l);
      var res := SearchLayer(dist, nodes, query, curr, ef, l);
      assert res[0] in res;
      StepStays(dist, nodes, m, query, l, curr, ef, res);
      DescentMore(dist, nodes, query, ef, from, l, path, res);
      curr := res[0];
      path := path + [curr];
      l := l - 1;
    }
  }

  /** Where the search of layer `l` starts: at the best node of the layer above. */
  function StartOn(found: map<nat, seq<nat>>, top: nat, start: nat, l: nat): nat {
    if l < top && l + 1 in found && found[l + 1] != [] then found[l + 1][0] else start
  }

  /** `x` is connected on the layers from `low` to `top`, each search starting at the best node of the layer above. */
  ghost predicate AllConnected(dist: Distance, base: seq<Node>, nodes: seq<Node>, m: nat, ef: nat, x: nat, top: nat, low: nat, start: nat, found: map<nat, seq<nat>>) {
    forall l :: low <= l <= top ==> l in found && Connected(dist, base, nodes, m, ef, x, l, StartOn(found, top, start, l), found[l])
  }

  lemma {:induction false} StartKept(found: map<nat, seq<nat>>, top: nat, start: nat, low: nat, l: nat, knn: seq<nat>)
    requires l >= low
    ensures StartOn(found[low := knn], top, start, l) == StartOn(found, top, start, l)
  {
  }

  lemma {:induction false} OneMoreConnected(dist: Distance, base: seq<Node>, nodes: seq<Node>, r: seq<Node>, m: nat, ef: nat, x: nat, top: nat, low: nat, start: nat,
                                            found: map<nat, seq<nat>>, knn: seq<nat>)
    requires AllConnected(dist, base, nodes, m, ef, x, top, low + 1, start, found) && low <= top
    requires SameBut(nodes, r, low)
    requires Connected(dist, base, r, m, ef, x, low, StartOn(found, top, start, low), knn)
    ensures AllConnected(dist, base, r, m, ef, x, top, low, start, found[low := knn])
  {
    var more := found[low := knn];
    forall l | low <= l <= top
      ensures l in more && Connected(dist, base, r, m, ef, x, l, StartOn(more, top, start, l), more[l])
    {
      StartKept(found, top, start, low, l, knn);
      if l > low {
        StillConnected(dist, base, nodes, r, m, ef, x, l, StartOn(found, top, start, l), found[l]);
      }
    }
  }

  /** The graph is as it was on the layers below `l`, and `x` unlinked there. */
  ghost predicate Untouched(base: seq<Node>, nodes: seq<Node>, x: nat, l: nat) {
    SameShape(base, nodes) && UnlinkedBelow(nodes, x, l) && forall k :: 0 <= k < l ==> SameLinks(base, nodes, k)
  }

  /** Layers outside `0..top` are as they were. */
  ghost predicate SameAbove(base: seq<Node>, nodes: seq<Node>, top: nat) {
    forall k :: k > top ==> SameLinks(base, nodes, k)
  }

  /** Two graphs agree on every layer but one. */
  ghost predicate SameBut(a: seq<Node>, b: seq<Node>, l: nat) {
    forall k :: k != l ==> SameLinks(a, b, k)
  }

  lemma SameLinksTransitive(a: seq<Node>, b: seq<Node>, c: seq<Node>, k: nat)
    requires SameLinks(a, b, k) && SameLinks(b, c, k)
    ensures SameLinks(a, c, k)
  {
  }

  lemma {:induction false} RewiredSameBut(dist: Distance, a: seq<Node>, b: seq<Node>, m: nat, l: nat, x: nat, s: seq<nat>)
    requires Rewired(dist, a, b, m, l, x, s)
    ensures SameBut(a, b, l) && SameShape(a, b)
  {
  }

  lemma {:induction false} UntouchedBelow(base: seq<Node>, before: seq<Node>, after: seq<Node>, x: nat, l: nat)
    requires Untouched(base, before, x, l + 1) && SameBut(before, after, l) && SameShape(before, after) && UnlinkedBelow(after, x, l)
    ensures Untouched(base, after, x, l)
  {
    ShapeTransitive(base, before, after);
    forall k | 0 <= k < l
      ensures SameLinks(base, after, k)
    {
      SameLinksTransitive(base, before, after, k);
    }
  }

  lemma {:induction false} AboveKept(base: seq<Node>, before: seq<Node>, after: seq<Node>, top: nat, l: nat)
    requires SameAbove(base, before, top) && l <= top && SameBut(before, after, l)
    ensures SameAbove(base, after, top)
  {
    forall k: nat | k > top
      ensures SameLinks(base, after, k)
    {
      SameLinksTransitive(base, before, after, k);
    }
  }

  // ---- The index ----

  class HnswIndex {
    const distance: Distance
    const m: nat
    const efConstruction: nat
    var nodes: seq<Node>
    var entryPoint: nat
    var maxLayer: nat

    ghost predicate Valid()
      reads this
    {
      GraphOk(nodes, m) && TopOk(nodes, entryPoint, maxLayer)
    }

    constructor (distance: Distance, m: nat, efConstruction: nat)
      ensures Valid() && nodes == [] && this.distance == distance && this.m == m && this.efConstruction == efConstruction
    {
      this.distance, this.m, this.efConstruction := distance, m, efConstruction;
      nodes, entryPoint, maxLayer := [], 0, 0;
    }

    /** Connects node `x` on layer `l`, searching from `curr`; the layer below is searched from the best node found. */
    method ConnectOn(x: nat, l: nat, curr: nat, ghost base: seq<Node>) returns (knn: seq<nat>)
      requires GraphOk(nodes, m) && OnLayer(nodes, x, l) && OnLayer(nodes, curr, l) && curr != x && Untouched(base, nodes, x, l + 1)
      modifies this`nodes
      ensures GraphOk(nodes, m) && Untouched(base, nodes, x, l)
      ensures Connected(distance, base, nodes, m, efConstruction, x, l, curr, knn)
      ensures knn != [] && OnLayer(nodes, knn[0], l) && knn[0] != x && SameBut(old(nodes), nodes, l)
    {
      GraphLinksInRange(nodes, m, l);
      knn := SearchLayer(distance, nodes, nodes[x].data, curr, efConstruction, l);
      StepStays(distance, nodes, m, nodes[x].data, l, curr, efConstruction, knn);
      assert knn[0] in knn;
      var selected := SelectNeighbors(distance, nodes, x, knn, m);
      ghost var k :| Selection(distance, nodes, x, knn, m, selected, k);
      ghost var before := nodes;
      nodes := LinkAll(distance, nodes, m, l, x, selected);
      RewiredConnects(distance, base, before, nodes, m, efConstruction, x, l, curr, knn, selected, k);
      RewiredSameBut(distance, before, nodes, m, l, x, selected);
      UntouchedBelow(base, before, nodes, x, l);
    }

    /** Connects node `x` on layer `top` and every layer below. */
    method ConnectDown(x: nat, top: nat, start: nat, ghost base: seq<Node>) returns (ghost found: map<nat, seq<nat>>)
      requires GraphOk(nodes, m) && OnLayer(nodes, x, top) && OnLayer(nodes, start, top) && start != x && Untouched(base, nodes, x, top + 1) && SameAbove(base, nodes, top)
      modifies this`nodes
      ensures GraphOk(nodes, m) && SameShape(base, nodes) && SameAbove(base, nodes, top)
      ensures AllConnected(distance, base, nodes, m, efConstruction, x, top, 0, start, found)
    {
      var l, curr := top + 1, start;
      found := map[];
      while l > 0
        invariant 0 <= l <= top + 1 && GraphOk(nodes, m) && OnLayer(nodes, x, top) && Untouched(base, nodes, x, l) && SameAbove(base, nodes, top)
        invariant curr != x && OnLayer(nodes, curr, if l > 0 then l - 1 else 0) && (l > 0 ==> curr == StartOn(found, top, start, l - 1))
        invariant AllConnected(distance, base, nodes, m, efConstruction, x, top, l, start, found)
      {
        ghost var before := nodes;
        l := l - 1;
        var knn := ConnectOn(x, l, curr, base);
        AboveKept(base, before, nodes, top, l);
        OneMoreConnected(distance, base, before, nodes, m, efConstruction, x, top, l, start, found, knn);
        curr := knn[0];
        found := found[l := knn];
      }
    }

    /** Inserts a vector on layers `0..layer`. The layer, drawn at random, is an input. */
    method Insert(id: Bytes, data: Bytes, layer: nat) returns (x: nat, ghost path: seq<nat>, ghost found: map<nat, seq<nat>>)
      requires Valid()
      modifies this
      ensures Valid() && x == |old(nodes)|
      ensures SameShape(old(nodes) + [Node(id, data, EmptyLists(layer + 1))], nodes)
      ensures maxLayer == if old(nodes) == [] || layer > old(maxLayer) then layer else old(maxLayer)
      ensures old(nodes) != [] ==>
                var base, top := old(nodes) + [Node(id, data, EmptyLists(layer + 1))], Smaller(layer, old(maxLayer));
                && Descent(distance, base, data, 1, old(maxLayer), top, path) && path[0] == old(entryPoint)
                && AllConnected(distance, base, nodes, m, efConstruction, x, top, 0, path[|path| - 1], found)
                && SameAbove(base, nodes, top)
    {
      x := |nodes|;
      var n := Node(id, data, EmptyLists(layer + 1));
      AppendNode(nodes, m, n);
      nodes := nodes + [n];
      path, found := [], map[];
      if x == 0 {
        entryPoint, maxLayer := 0, layer;
        return;
      }
      ghost var pushed := nodes;
      var shared := if layer < maxLayer then layer else maxLayer;
      var curr;
      curr, path := Descend(distance, nodes, data, entryPoint, 1, maxLayer, shared, m, x);
      found := ConnectDown(x, shared, curr, pushed);
      StillTop(pushed, nodes, entryPoint, maxLayer, layer);
      if layer > maxLayer {
        maxLayer, entryPoint := layer, x;
      }
    }

    /** The `k` nearest of what the beam keeps on layer 0. */
    method Search(query: Bytes, k: nat, ef: nat) returns (out: seq<nat>, ghost path: seq<nat>, ghost found: seq<nat>)
      requires Valid()
      ensures nodes == [] ==> out == []
      ensures |nodes| == 1 ==> out == [0]
      ensures |nodes| > 1 ==>
                var width := if ef > k then ef else k;
                && Descent(distance, nodes, query, Width(width), maxLayer, 0, path) && path[0] == entryPoint
                && BeamResult(distance, nodes, query, 0, path[|path| - 1], width, found)
                && FirstOf(distance, nodes, query, k, found, out)
    {
      out, path, found := [], [], [];
      if nodes == [] {
        return;
      }
      if |nodes| == 1 {
        return [0], path, found;
      }
      var width := if ef > k then ef else k;
      var curr;
      curr, path := Descend(distance, nodes, query, entryPoint, if width > 1 then width else 1, maxLayer, 0, m, |nodes|);
      GraphLinksInRange(nodes, m, 0);
      var results := SearchLayer(distance, nodes, query, curr, width, 0);
      found := results;
      out := if |results| > k then results[..k] else results;
      PrefixOrdered(distance, nodes, query, results, out);
    }
  }

  /** The first `k` results; nothing left out is nearer. */
  ghost predicate FirstOf(dist: Distance, nodes: seq<Node>, query: Bytes, k: nat, all: seq<nat>, out: seq<nat>) {
    && out <= all && |out| == Smaller(k, |all|) && NoRepeats(out) && InOrder(dist, nodes, query, out)
    && forall v, w :: v in out && w in all && w !in out ==> DistanceTo(dist, nodes, query, v) <= DistanceTo(dist, nodes, query, w)
  }

  /** What a search on layer 0 answers: as many as asked for or as can be reached, none of whose links leads to
      a nearer node left out; with a beam as wide as what can be reached, exactly the nearest. */
  lemma {:induction false} AnswersAreBest(dist: Distance, nodes: seq<Node>, query: Bytes, start: nat, k: nat, width: nat, found: seq<nat>, out: seq<nat>)
    requires BeamResult(dist, nodes, query, 0, start, width, found) && FirstOf(dist, nodes, query, k, found, out) && k <= width
    ensures |out| == Smaller(k, |Reach(nodes, 0, start)|) && LocallyBest(dist, nodes, query, 0, out)
    ensures |Reach(nodes, 0, start)| <= width ==>
              forall v, w :: v in out && w in Reach(nodes, 0, start) && w !in out ==> DistanceTo(dist, nodes, query, v) <= DistanceTo(dist, nodes, query, w)
    ensures k > 0 ==> DistanceTo(dist, nodes, query, out[0]) <= DistanceTo(dist, nodes, query, start)
  {
    assert forall v :: v in out ==> v in found;
    if |Reach(nodes, 0, start)| <= width {
      WideBeamFindsAll(dist, nodes, query, 0, start, width, found);
    }
  }

  /** Every node on the way down is at least as near as the one before. */
  lemma {:induction false} DescentComesNearer(dist: Distance, nodes: seq<Node>, query: Bytes, ef: nat, from: nat, to: nat, path: seq<nat>, i: nat)
    requires Descent(dist, nodes, query, ef, from, to, path) && i < |path|
    ensures DistanceTo(dist, nodes, query, path[i]) <= DistanceTo(dist, nodes, query, path[0])
  {
    if i > 0 {
      DescentComesNearer(dist, nodes, query, ef, from, to, path, i - 1);
      assert GreedyStep(dist, nodes, query, from - (i - 1), ef, path[i - 1], path[i - 1 + 1]);
    }
  }

  lemma {:induction false} PrefixOrdered(dist: Distance, nodes: seq<Node>, query: Bytes, all: seq<nat>, out: seq<nat>)
    requires NoRepeats(all) && InOrder(dist, nodes, query, all) && out <= all
    ensures NoRepeats(out) && InOrder(dist, nodes, query, out) && (forall v :: v in out ==> v in all)
    ensures forall v, w :: v in out && w in all && w !in out ==> DistanceTo(dist, nodes, query, v) <= DistanceTo(dist, nodes, query, w)
  {
    assert forall i :: 0 <= i < |out| ==> out[i] == all[i];
    forall v, w | v in out && w in all && w !in out
      ensures DistanceTo(dist, nodes, query, v) <= DistanceTo(dist, nodes, query, w)
    {
      var i :| 0 <= i < |out| && out[i] == v;
      var j :| 0 <= j < |all| && all[j] == w;
      assert j >= |out|;
    }
  }

  lemma {:induction false} StillTop(pushed: seq<Node>, nodes: seq<Node>, entry: nat, top: nat, layer: nat)
    requires |pushed| > 1 && TopOk(pushed[..|pushed| - 1], entry, top) && |pushed[|pushed| - 1].neighbors| == layer + 1
    requires SameShape(pushed, nodes)
    ensures if layer > top then TopOk(nodes, |pushed| - 1, layer) else TopOk(nodes, entry, top)
  {
    assert forall u :: 0 <= u < |pushed| - 1 ==> pushed[..|pushed| - 1][u] == pushed[u];
  }
}
