/** The navigable small-world graph: its layers, reachability, and the beam search on one layer. */
module HnswSearch {
  import opened ByteStrings
  import opened Collections

  /** A vector and, for each layer it is on, its neighbours there. */
  datatype Node = Node(id: Bytes, data: Bytes, neighbors: seq<seq<nat>>)

  type Distance = (Bytes, Bytes) -> real

  function Links(nodes: seq<Node>, layer: nat, u: nat): seq<nat> {
    if u < |nodes| && layer < |nodes[u].neighbors| then nodes[u].neighbors[layer] else []
  }

  ghost predicate LinksInRange(nodes: seq<Node>, layer: nat) {
    forall u, v :: v in Links(nodes, layer, u) ==> v < |nodes|
  }

  // ---- Reachability ----

  ghost predicate Walk(nodes: seq<Node>, layer: nat, p: seq<nat>, u: nat, v: nat) {
    && p != [] && p[0] == u && p[|p| - 1] == v
    && forall i :: 0 < i < |p| ==> p[i] in Links(nodes, layer, p[i - 1])
  }

  ghost predicate Reachable(nodes: seq<Node>, layer: nat, u: nat, v: nat) {
    exists p :: Walk(nodes, layer, p, u, v)
  }

  ghost function Reach(nodes: seq<Node>, layer: nat, u: nat): set<nat> {
    set v | 0 <= v < |nodes| && Reachable(nodes, layer, u, v)
  }

  lemma {:induction false} ReachSelf(nodes: seq<Node>, layer: nat, u: nat)
    requires u < |nodes|
    ensures u in Reach(nodes, layer, u)
  {
    assert Walk(nodes, layer, [u], u, u);
  }

  lemma {:induction false} ReachNext(nodes: seq<Node>, layer: nat, u: nat, v: nat, w: nat)
    requires LinksInRange(nodes, layer) && v in Reach(nodes, layer, u) && w in Links(nodes, layer, v)
    ensures w in Reach(nodes, layer, u)
  {
    var p :| Walk(nodes, layer, p, u, v);
    var q := p + [w];
    forall i | 0 < i < |q|
      ensures q[i] in Links(nodes, layer, q[i - 1])
    {
      if i < |p| {
        assert q[i] == p[i] && q[i - 1] == p[i - 1];
      }
    }
    assert Walk(nodes, layer, q, u, w);
  }

  ghost predicate Closed(nodes: seq<Node>, layer: nat, s: set<nat>) {
    forall u, v :: u in s && v in Links(nodes, layer, u) ==> v in s
  }

  /** A closed set holds whatever can be reached from its members. */
  lemma {:induction false} ClosedHoldsReach(nodes: seq<Node>, layer: nat, s: set<nat>, u: nat)
    requires Closed(nodes, layer, s) && u in s
    ensures Reach(nodes, layer, u) <= s
  {
    forall v | v in Reach(nodes, layer, u)
      ensures v in s
    {
      var p :| Walk(nodes, layer, p, u, v);
      WalkStaysInside(nodes, layer, s, p, |p| - 1);
    }
  }

  lemma {:induction false} WalkStaysInside(nodes: seq<Node>, layer: nat, s: set<nat>, p: seq<nat>, i: nat)
    requires Closed(nodes, layer, s) && i < |p| && p[0] in s
    requires forall j :: 0 < j < |p| ==> p[j] in Links(nodes, layer, p[j - 1])
    ensures p[i] in s
  {
    if i > 0 {
      WalkStaysInside(nodes, layer, s, p, i - 1);
      assert p[i] in Links(nodes, layer, p[i - 1]);
    }
  }

  // ---- Picking by distance ----

  function DistanceTo(dist: Distance, nodes: seq<Node>, query: Bytes, v: nat): real {
    if v < |nodes| then dist(query, nodes[v].data) else 0.0
  }

  /** Order of heap entries: distance, then index. */
  predicate NearerEq(dist: Distance, nodes: seq<Node>, query: Bytes, u: nat, v: nat) {
    var du, dv := DistanceTo(dist, nodes, query, u), DistanceTo(dist, nodes, query, v);
    du < dv || (du == dv && u <= v)
  }

  predicate Nearest(dist: Distance, nodes: seq<Node>, query: Bytes, s: set<nat>, u: nat) {
    u in s && forall v :: v in s ==> NearerEq(dist, nodes, query, u, v)
  }

  predicate Farthest(dist: Distance, nodes: seq<Node>, query: Bytes, s: set<nat>, u: nat) {
    u in s && forall v :: v in s ==> NearerEq(dist, nodes, query, v, u)
  }

  lemma {:induction false} NearestExists(dist: Distance, nodes: seq<Node>, query: Bytes, s: set<nat>)
    requires s != {}
    ensures exists u :: Nearest(dist, nodes, query, s, u)
  {
    var x :| x in s;
    if s == {x} {
      assert Nearest(dist, nodes, query, s, x);
    } else {
      NearestExists(dist, nodes, query, s - {x});
      var y :| Nearest(dist, nodes, query, s - {x}, y);
      var best := if NearerEq(dist, nodes, query, x, y) then x else y;
      forall v | v in s
        ensures NearerEq(dist, nodes, query, best, v)
      {
        assert v == x || v in s - {x};
      }
      assert Nearest(dist, nodes, query, s, best);
    }
  }

  lemma {:induction false} FarthestExists(dist: Distance, nodes: seq<Node>, query: Bytes, s: set<nat>)
    requires s != {}
    ensures exists u :: Farthest(dist, nodes, query, s, u)
  {
    var x :| x in s;
    if s == {x} {
      assert Farthest(dist, nodes, query, s, x);
    } else {
      FarthestExists(dist, nodes, query, s - {x});
      var y :| Farthest(dist, nodes, query, s - {x}, y);
      var worst := if NearerEq(dist, nodes, query, y, x) then x else y;
      forall v | v in s
        ensures NearerEq(dist, nodes, query, v, worst)
      {
        assert v == x || v in s - {x};
      }
      assert Farthest(dist, nodes, query, s, worst);
    }
  }

  predicate InOrder(dist: Distance, nodes: seq<Node>, query: Bytes, s: seq<nat>) {
    forall i, j :: 0 <= i < j < |s| ==> DistanceTo(dist, nodes, query, s[i]) <= DistanceTo(dist, nodes, query, s[j])
  }

  /** `out` lists the set in order of distance. */
  ghost predicate Lists(dist: Distance, nodes: seq<Node>, query: Bytes, s: set<nat>, out: seq<nat>) {
    NoRepeats(out) && InOrder(dist, nodes, query, out) && (forall v :: v in out <==> v in s) && |out| == |s|
  }

  /** Nothing left is nearer than what is listed. */
  ghost predicate AllNearer(dist: Distance, nodes: seq<Node>, query: Bytes, out: seq<nat>, rest: set<nat>) {
    forall i, v :: 0 <= i < |out| && v in rest ==> DistanceTo(dist, nodes, query, out[i]) <= DistanceTo(dist, nodes, query, v)
  }

  lemma {:induction false} ListNext(dist: Distance, nodes: seq<Node>, query: Bytes, s: set<nat>, out: seq<nat>, rest: set<nat>, u: nat)
    requires Lists(dist, nodes, query, s, out) && s !! rest && AllNearer(dist, nodes, query, out, rest) && Nearest(dist, nodes, query, rest, u)
    ensures Lists(dist, nodes, query, s + {u}, out + [u]) && AllNearer(dist, nodes, query, out + [u], rest - {u})
  {
    forall i | 0 <= i < |out|
      ensures out[i] != u
    {
      assert out[i] in s;
    }
    forall v | v in rest
      ensures DistanceTo(dist, nodes, query, u) <= DistanceTo(dist, nodes, query, v)
    {
      assert NearerEq(dist, nodes, query, u, v);
    }
  }

  /** Sorting the kept results. */
  method SortByDistance(dist: Distance, nodes: seq<Node>, query: Bytes, s: set<nat>) returns (out: seq<nat>)
    ensures Lists(dist, nodes, query, s, out)
  {
    out := [];
    var rest := s;
    while rest != {}
      invariant rest <= s && Lists(dist, nodes, query, s - rest, out) && AllNearer(dist, nodes, query, out, rest)
      decreases rest
    {
      NearestExists(dist, nodes, query, rest);
      var u :| u in rest && Nearest(dist, nodes, query, rest, u);
      ListNext(dist, nodes, query, s - rest, out, rest, u);
      assert s - (rest - {u}) == (s - rest) + {u};
      out := out + [u];
      rest := rest - {u};
    }
    assert s - rest == s;
  }

  // ---- The beam ----

  datatype Beam = Beam(visited: set<nat>, candidates: set<nat>, results: set<nat>)

  function Smaller(a: nat, b: nat): nat {
    if a < b then a else b
  }

  /** How many results a search of beam `ef` keeps. */
  function Width(ef: nat): nat {
    if ef == 0 then 1 else ef
  }

  /** `s` are the nearest of `all`. */
  ghost predicate BestOf(dist: Distance, nodes: seq<Node>, query: Bytes, s: set<nat>, all: set<nat>) {
    s <= all && forall u, v :: u in s && v in all && v !in s ==> NearerEq(dist, nodes, query, u, v)
  }

  /** What every step of the search keeps: the results are the nearest of the visited nodes. */
  ghost predicate Searching(dist: Distance, nodes: seq<Node>, query: Bytes, reach: set<nat>, entry: nat, ef: nat, b: Beam) {
    && entry in b.visited && b.visited <= reach && b.candidates <= b.visited
    && BestOf(dist, nodes, query, b.results, b.visited) && |b.results| == Smaller(Width(ef), |b.visited|)
  }

  /** The neighbours of everything visited and not waiting are visited, except for `pending`. */
  ghost predicate Expanded(nodes: seq<Node>, layer: nat, b: Beam, pending: set<nat>) {
    forall u, v :: u in b.visited && u !in b.candidates && u !in pending && v in Links(nodes, layer, u) ==> v in b.visited
  }

  lemma {:induction false} SameSize<T>(a: set<T>, b: set<T>)
    requires a <= b && |a| == |b|
    ensures a == b
  {
    SubsetSize(a, b);
  }

  lemma {:induction false} BestWithNew(dist: Distance, nodes: seq<Node>, query: Bytes, s: set<nat>, all: set<nat>, v: nat, worst: nat)
    requires BestOf(dist, nodes, query, s, all) && v !in all && Farthest(dist, nodes, query, s + {v}, worst)
    ensures BestOf(dist, nodes, query, s + {v} - {worst}, all + {v})
  {
    forall x, y | x in s + {v} - {worst} && y in all + {v} && y !in s + {v} - {worst}
      ensures NearerEq(dist, nodes, query, x, y)
    {
      assert NearerEq(dist, nodes, query, x, worst);
      if y != worst && worst in s {
        assert NearerEq(dist, nodes, query, worst, y);
      }
    }
  }

  /** Adds a newly visited node and, over capacity, evicts the farthest result. */
  method Visit(dist: Distance, nodes: seq<Node>, query: Bytes, ef: nat, b: Beam, v: nat, ghost reach: set<nat>, ghost entry: nat) returns (c: Beam)
    requires Searching(dist, nodes, query, reach, entry, ef, b) && v !in b.visited && v in reach
    ensures Searching(dist, nodes, query, reach, entry, ef, c)
    ensures c.visited == b.visited + {v} && c.candidates == b.candidates + {v}
  {
    var results := b.results + {v};
    SubsetSize({entry}, b.visited);
    if |results| > ef {
      FarthestExists(dist, nodes, query, results);
      var worst :| worst in results && Farthest(dist, nodes, query, results, worst);
      BestWithNew(dist, nodes, query, b.results, b.visited, v, worst);
      results := results - {worst};
    } else {
      SameSize(b.results, b.visited);
    }
    c := Beam(b.visited + {v}, b.candidates + {v}, results);
  }

  lemma {:induction false} VisitKeepsExpanded(nodes: seq<Node>, layer: nat, b: Beam, c: Beam, pending: set<nat>, v: nat)
    requires Expanded(nodes, layer, b, pending) && c.visited == b.visited + {v} && c.candidates == b.candidates + {v}
    ensures Expanded(nodes, layer, c, pending)
  {
  }

  lemma {:induction false} ExpandedAll(nodes: seq<Node>, layer: nat, b: Beam, u: nat)
    requires Expanded(nodes, layer, b, {u}) && forall v :: v in Links(nodes, layer, u) ==> v in b.visited
    ensures Expanded(nodes, layer, b, {})
  {
  }

  /** Follows one link of `u`. */
  method Follow(dist: Distance, nodes: seq<Node>, query: Bytes, ef: nat, layer: nat, b: Beam, u: nat, v: nat, ghost reach: set<nat>, ghost entry: nat) returns (c: Beam)
    requires LinksInRange(nodes, layer) && reach == Reach(nodes, layer, entry) && u in b.visited && v in Links(nodes, layer, u)
    requires Searching(dist, nodes, query, reach, entry, ef, b) && Expanded(nodes, layer, b, {u})
    ensures Searching(dist, nodes, query, reach, entry, ef, c) && Expanded(nodes, layer, c, {u})
    ensures v in c.visited && b.visited <= c.visited && (c.visited == b.visited ==> c == b)
  {
    c := b;
    if v !in b.visited {
      ReachNext(nodes, layer, entry, u, v);
      c := Visit(dist, nodes, query, ef, b, v, reach, entry);
      VisitKeepsExpanded(nodes, layer, b, c, {u}, v);
    }
  }

  /** Visits the unvisited neighbours of `u`, which has just left the candidates. */
  method Expand(dist: Distance, nodes: seq<Node>, query: Bytes, ef: nat, layer: nat, b: Beam, u: nat, ghost reach: set<nat>, ghost entry: nat) returns (c: Beam)
    requires LinksInRange(nodes, layer) && reach == Reach(nodes, layer, entry) && u in b.visited && u !in b.candidates
    requires Searching(dist, nodes, query, reach, entry, ef, b) && Expanded(nodes, layer, b, {u})
    ensures Searching(dist, nodes, query, reach, entry, ef, c) && Expanded(nodes, layer, c, {})
    ensures b.visited <= c.visited && (c.visited == b.visited ==> c.candidates == b.candidates)
  {
    c := b;
    var links := Links(nodes, layer, u);
    for i := 0 to |links|
      invariant Searching(dist, nodes, query, reach, entry, ef, c) && Expanded(nodes, layer, c, {u}) && u in c.visited
      invariant b.visited <= c.visited && (c.visited == b.visited ==> c.candidates == b.candidates)
      invariant forall j :: 0 <= j < i ==> links[j] in c.visited
    {
      c := Follow(dist, nodes, query, ef, layer, c, u, links[i], reach, entry);
    }
    ExpandedAll(nodes, layer, c, u);
  }

  /** Following a link never leads from a result to a node that is nearer than some result and left out. */
  ghost predicate LocallyBest(dist: Distance, nodes: seq<Node>, query: Bytes, layer: nat, out: seq<nat>) {
    forall u, v, w :: u in out && v in Links(nodes, layer, u) && v !in out && w in out ==>
      DistanceTo(dist, nodes, query, w) <= DistanceTo(dist, nodes, query, v)
  }

  /** What a search of one layer from `entry` returns: distinct reachable nodes in order, as many as the
      beam is wide or as there are, starting at least as near as the entry, and locally best. */
  ghost predicate BeamResult(dist: Distance, nodes: seq<Node>, query: Bytes, layer: nat, entry: nat, ef: nat, out: seq<nat>) {
    && NoRepeats(out) && InOrder(dist, nodes, query, out)
    && (forall v :: v in out ==> v in Reach(nodes, layer, entry))
    && |out| == Smaller(Width(ef), |Reach(nodes, layer, entry)|)
    && LocallyBest(dist, nodes, query, layer, out)
    && out != [] && DistanceTo(dist, nodes, query, out[0]) <= DistanceTo(dist, nodes, query, entry)
  }

  /** The search is over: nothing waits, or only nodes farther than every result. */
  ghost predicate Stopped(dist: Distance, nodes: seq<Node>, query: Bytes, b: Beam) {
    forall u, w :: u in b.candidates && w in b.results ==> DistanceTo(dist, nodes, query, u) > DistanceTo(dist, nodes, query, w)
  }

  lemma {:induction false} StoppedBest(dist: Distance, nodes: seq<Node>, query: Bytes, layer: nat, b: Beam)
    requires BestOf(dist, nodes, query, b.results, b.visited) && Expanded(nodes, layer, b, {}) && Stopped(dist, nodes, query, b)
    ensures forall u, v, w :: u in b.results && v in Links(nodes, layer, u) && v !in b.results && w in b.results ==>
              DistanceTo(dist, nodes, query, w) <= DistanceTo(dist, nodes, query, v)
  {
    forall u, v, w | u in b.results && v in Links(nodes, layer, u) && v !in b.results && w in b.results
      ensures DistanceTo(dist, nodes, query, w) <= DistanceTo(dist, nodes, query, v)
    {
      assert v in b.visited;
      assert NearerEq(dist, nodes, query, w, v);
    }
  }

  lemma {:induction false} StoppedSize(dist: Distance, nodes: seq<Node>, query: Bytes, layer: nat, reach: set<nat>, entry: nat, ef: nat, b: Beam)
    requires reach == Reach(nodes, layer, entry) && Searching(dist, nodes, query, reach, entry, ef, b)
    requires Expanded(nodes, layer, b, {}) && Stopped(dist, nodes, query, b)
    ensures |b.results| == Smaller(Width(ef), |reach|)
  {
    SubsetSize(b.visited, reach);
    if |b.results| < Width(ef) {
      SameSize(b.results, b.visited);
      assert b.candidates <= b.results;
      assert b.candidates == {};
      assert Closed(nodes, layer, b.visited);
      ClosedHoldsReach(nodes, layer, b.visited, entry);
      assert b.visited == reach;
    }
  }

  lemma {:induction false} BeamFromResults(dist: Distance, nodes: seq<Node>, query: Bytes, layer: nat, entry: nat, ef: nat, b: Beam, out: seq<nat>)
    requires Searching(dist, nodes, query, Reach(nodes, layer, entry), entry, ef, b) && Expanded(nodes, layer, b, {}) && Stopped(dist, nodes, query, b)
    requires Lists(dist, nodes, query, b.results, out)
    ensures BeamResult(dist, nodes, query, layer, entry, ef, out)
  {
    StoppedBest(dist, nodes, query, layer, b);
    StoppedSize(dist, nodes, query, layer, Reach(nodes, layer, entry), entry, ef, b);
    SubsetSize({entry}, b.visited);
    if entry in b.results {
      var i :| 0 <= i < |out| && out[i] == entry;
    } else {
      assert out[0] in b.results;
      assert NearerEq(dist, nodes, query, out[0], entry);
    }
  }

  /** Greedy beam search on one layer from one entry point. */
  method SearchLayer(dist: Distance, nodes: seq<Node>, query: Bytes, entry: nat, ef: nat, layer: nat) returns (out: seq<nat>)
    requires entry < |nodes| && LinksInRange(nodes, layer)
    ensures BeamResult(dist, nodes, query, layer, entry, ef, out)
  {
    ghost var reach := Reach(nodes, layer, entry);
    ReachSelf(nodes, layer, entry);
    var b := Beam({entry}, {entry}, {entry});
    while b.candidates != {}
      invariant Searching(dist, nodes, query, reach, entry, ef, b) && Expanded(nodes, layer, b, {})
      decreases |reach| - |b.visited|, |b.candidates|
    {
      NearestExists(dist, nodes, query, b.candidates);
      var u :| u in b.candidates && Nearest(dist, nodes, query, b.candidates, u);
      SubsetSize({entry}, b.visited);
      FarthestExists(dist, nodes, query, b.results);
      var worst :| worst in b.results && Farthest(dist, nodes, query, b.results, worst);
      if DistanceTo(dist, nodes, query, u) > DistanceTo(dist, nodes, query, worst) {
        AllWaitingFarther(dist, nodes, query, b, u, worst);
        break;
      }
      var c := Expand(dist, nodes, query, ef, layer, Beam(b.visited, b.candidates - {u}, b.results), u, reach, entry);
      SubsetSize(b.visited, c.visited);
      SubsetSize(c.visited, reach);
      b := c;
    }
    out := SortByDistance(dist, nodes, query, b.results);
    BeamFromResults(dist, nodes, query, layer, entry, ef, b, out);
  }

  lemma {:induction false} AllWaitingFarther(dist: Distance, nodes: seq<Node>, query: Bytes, b: Beam, u: nat, worst: nat)
    requires Nearest(dist, nodes, query, b.candidates, u) && Farthest(dist, nodes, query, b.results, worst)
    requires DistanceTo(dist, nodes, query, u) > DistanceTo(dist, nodes, query, worst)
    ensures Stopped(dist, nodes, query, b)
  {
    forall x, w | x in b.candidates && w in b.results
      ensures DistanceTo(dist, nodes, query, x) > DistanceTo(dist, nodes, query, w)
    {
      assert NearerEq(dist, nodes, query, u, x) && NearerEq(dist, nodes, query, w, worst);
    }
  }

  /** A beam at least as wide as the reachable set returns all of it. */
  lemma {:induction false} WideBeamFindsAll(dist: Distance, nodes: seq<Node>, query: Bytes, layer: nat, entry: nat, ef: nat, out: seq<nat>)
    requires BeamResult(dist, nodes, query, layer, entry, ef, out) && |Reach(nodes, layer, entry)| <= ef
    ensures forall v :: v in Reach(nodes, layer, entry) ==> v in out
  {
    ListAsSet(out);
    SameSize(Members(out), Reach(nodes, layer, entry));
    assert forall v :: v in Members(out) ==> v in out;
  }

  // ---- Lists as sets ----

  function Members(list: seq<nat>): set<nat> {
    set v | v in list
  }

  lemma {:induction false} ListAsSet(list: seq<nat>)
    requires NoRepeats(list)
    ensures |Members(list)| == |list|
  {
    if list == [] {
      assert Members(list) == {};
    } else {
      var l', x := list[..|list| - 1], list[|list| - 1];
      ListAsSet(l');
      assert list == l' + [x];
      assert Members(list) == Members(l') + {x};
    }
  }
}
