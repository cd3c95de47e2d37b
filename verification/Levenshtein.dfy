/** Edit distance: the two-row dynamic program, the recursive distance it computes, and shortest edit
    scripts. */
module Levenshtein {

  function Min(x: nat, y: nat): nat {
    if x <= y then x else y
  }

  function Init(s: string): string
    requires s != ""
  {
    s[..|s| - 1]
  }

  function Last(s: string): char
    requires s != ""
  {
    s[|s| - 1]
  }

  /** The recursive distance, on last characters. */
  function Lev(a: string, b: string): nat
    decreases |a| + |b|
  {
    if a == "" then |b|
    else if b == "" then |a|
    else Min(Min(Lev(a, Init(b)) + 1, Lev(Init(a), b) + 1), Lev(Init(a), Init(b)) + if Last(a) == Last(b) then 0 else 1)
  }

  // ---- The two-row program ----

  /** The distance between the first `i` characters of `a` and the first `j` of `b`. */
  ghost function Prefixes(a: string, b: string, i: nat, j: nat): nat
    requires i <= |a| && j <= |b|
  {
    Lev(a[..i], b[..j])
  }

  /** `row` holds the distances from `a[..i]` to the first `n` prefixes of `b`. */
  ghost predicate Row(row: array<nat>, a: string, b: string, i: nat, n: nat)
    requires i <= |a| && n <= row.Length == |b| + 1
    reads row
  {
    forall j :: 0 <= j < n ==> row[j] == Prefixes(a, b, i, j)
  }

  lemma {:induction false} Cell(a: string, b: string, i: nat, j: nat)
    requires i < |a| && j < |b|
    ensures Prefixes(a, b, i + 1, j + 1) ==
            Min(Min(Prefixes(a, b, i + 1, j) + 1, Prefixes(a, b, i, j + 1) + 1), Prefixes(a, b, i, j) + if a[i] == b[j] then 0 else 1)
  {
    assert Init(a[..i + 1]) == a[..i] && Init(b[..j + 1]) == b[..j];
  }

  lemma {:induction false} Edge(a: string, b: string, i: nat, j: nat)
    requires i <= |a| && j <= |b|
    ensures Prefixes(a, b, 0, j) == j && Prefixes(a, b, i, 0) == i
  {
  }

  /** Fills `curr` for `a[..i + 1]` from `prev` for `a[..i]`. */
  method FillRow(prev: array<nat>, curr: array<nat>, a: string, b: string, i: nat)
    requires i < |a| && prev != curr && prev.Length == curr.Length == |b| + 1
    requires Row(prev, a, b, i, |b| + 1)
    modifies curr
    ensures Row(curr, a, b, i + 1, |b| + 1)
  {
    Edge(a, b, i + 1, 0);
    curr[0] := i + 1;
    for j := 0 to |b|
      invariant Row(curr, a, b, i + 1, j + 1)
    {
      Cell(a, b, i, j);
      var cost := if a[i] == b[j] then 0 else 1;
      curr[j + 1] := Min(Min(curr[j] + 1, prev[j + 1] + 1), prev[j] + cost);
    }
  }

  /** Two rows, swapped after each character of `a`. */
  method Distance(a: string, b: string) returns (d: nat)
    ensures d == Lev(a, b)
  {
    if |a| == 0 {
      return |b|;
    }
    if |b| == 0 {
      return |a|;
    }
    var prev := new nat[|b| + 1](j => j);
    var curr := new nat[|b| + 1](_ => 0);
    forall j | 0 <= j <= |b|
      ensures prev[j] == Prefixes(a, b, 0, j)
    {
      Edge(a, b, 0, j);
    }
    for i := 0 to |a|
      invariant prev != curr && prev.Length == curr.Length == |b| + 1 && fresh(prev) && fresh(curr)
      invariant Row(prev, a, b, i, |b| + 1)
    {
      FillRow(prev, curr, a, b, i);
      prev, curr := curr, prev;
    }
    assert a[..|a|] == a && b[..|b|] == b;
    return prev[|b|];
  }

  // ---- Edits ----

  function DropAt(s: string, p: nat): string
    requires p < |s|
  {
    s[..p] + s[p + 1..]
  }

  /** `b` is `a` with one character put in. */
  ghost predicate Inserts(a: string, b: string) {
    exists p :: 0 <= p < |b| && a == DropAt(b, p)
  }

  predicate ReplacedAt(a: string, b: string, p: nat)
    requires p < |a| == |b|
  {
    a[..p] == b[..p] && a[p] != b[p] && a[p + 1..] == b[p + 1..]
  }

  ghost predicate Replaces(a: string, b: string) {
    |a| == |b| && exists p :: 0 <= p < |a| && ReplacedAt(a, b, p)
  }

  ghost predicate OneEdit(a: string, b: string) {
    Inserts(a, b) || Inserts(b, a) || Replaces(a, b)
  }

  /** A script: strings from `a` to `b`, each one edit from the next. */
  ghost predicate Script(path: seq<string>, a: string, b: string) {
    && path != [] && path[0] == a && path[|path| - 1] == b
    && forall i :: 0 <= i < |path| - 1 ==> OneEdit(path[i], path[i + 1])
  }

  // ---- A script of length Lev exists ----

  lemma {:induction false} EditAtEnd(s: string, x: char, y: char)
    ensures OneEdit(s, s + [x]) && OneEdit(s + [x], s)
    ensures x != y ==> OneEdit(s + [x], s + [y])
  {
    assert DropAt(s + [x], |s|) == s;
    if x != y {
      assert ReplacedAt(s + [x], s + [y], |s|);
    }
  }

  lemma {:induction false} EditBefore(a: string, b: string, x: char)
    requires OneEdit(a, b)
    ensures OneEdit(a + [x], b + [x])
  {
    if p :| 0 <= p < |b| && a == DropAt(b, p) {
      assert a + [x] == DropAt(b + [x], p);
    } else if p :| 0 <= p < |a| && b == DropAt(a, p) {
      assert b + [x] == DropAt(a + [x], p);
    } else {
      var p :| 0 <= p < |a| == |b| && ReplacedAt(a, b, p);
      assert (a + [x])[..p] == a[..p] && (b + [x])[..p] == b[..p];
      assert (a + [x])[p + 1..] == a[p + 1..] + [x] && (b + [x])[p + 1..] == b[p + 1..] + [x];
      assert ReplacedAt(a + [x], b + [x], p);
    }
  }

  function AppendTo(path: seq<string>, x: char): (r: seq<string>)
    ensures |r| == |path| && forall i :: 0 <= i < |path| ==> r[i] == path[i] + [x]
  {
    seq(|path|, i requires 0 <= i < |path| => path[i] + [x])
  }

  lemma {:induction false} ScriptBefore(path: seq<string>, a: string, b: string, x: char)
    requires Script(path, a, b)
    ensures Script(AppendTo(path, x), a + [x], b + [x])
  {
    var r := AppendTo(path, x);
    forall i | 0 <= i < |r| - 1
      ensures OneEdit(r[i], r[i + 1])
    {
      EditBefore(path[i], path[i + 1], x);
    }
  }

  lemma {:induction false} ScriptFirst(path: seq<string>, a: string, b: string, c: string)
    requires OneEdit(a, b) && Script(path, b, c)
    ensures Script([a] + path, a, c)
  {
    var r := [a] + path;
    forall i | 0 <= i < |r| - 1
      ensures OneEdit(r[i], r[i + 1])
    {
      if i > 0 {
        assert r[i] == path[i - 1] && r[i + 1] == path[i];
      }
    }
  }

  lemma {:induction false} ScriptLast(path: seq<string>, a: string, b: string, c: string)
    requires Script(path, a, b) && OneEdit(b, c)
    ensures Script(path + [c], a, c)
  {
    var r := path + [c];
    forall i | 0 <= i < |r| - 1
      ensures OneEdit(r[i], r[i + 1])
    {
      if i < |path| - 1 {
        assert r[i] == path[i] && r[i + 1] == path[i + 1];
      }
    }
  }

  /** The three ways into a cell. */
  lemma {:induction false} LevCases(a: string, b: string)
    requires a != "" && b != ""
    ensures Lev(a, b) <= Lev(a, Init(b)) + 1 && Lev(a, b) <= Lev(Init(a), b) + 1
    ensures Lev(a, b) <= Lev(Init(a), Init(b)) + if Last(a) == Last(b) then 0 else 1
    ensures Lev(a, b) == Lev(a, Init(b)) + 1 || Lev(a, b) == Lev(Init(a), b) + 1
         || Lev(a, b) == Lev(Init(a), Init(b)) + if Last(a) == Last(b) then 0 else 1
  {
  }

  lemma Rejoin(s: string)
    requires s != ""
    ensures s == Init(s) + [Last(s)]
  {
  }

  lemma {:induction false} ShortScript(a: string, b: string) returns (path: seq<string>)
    ensures Script(path, a, b) && |path| == Lev(a, b) + 1
    decreases |a| + |b|
  {
    if a == "" && b == "" {
      path := [""];
    } else if a != "" && (b == "" || Lev(a, b) == Lev(Init(a), b) + 1) {
      Rejoin(a);
      EditAtEnd(Init(a), Last(a), Last(a));
      var p := ShortScript(Init(a), b);
      ScriptFirst(p, a, Init(a), b);
      path := [a] + p;
    } else if a == "" || Lev(a, b) == Lev(a, Init(b)) + 1 {
      Rejoin(b);
      EditAtEnd(Init(b), Last(b), Last(b));
      var p := ShortScript(a, Init(b));
      ScriptLast(p, a, Init(b), b);
      path := p + [b];
    } else {
      LevCases(a, b);
      path := DiagonalScript(a, b);
    }
  }

  lemma {:induction false} DiagonalScript(a: string, b: string) returns (path: seq<string>)
    requires a != "" && b != ""
    ensures Script(path, a, b) && |path| == Lev(Init(a), Init(b)) + 1 + if Last(a) == Last(b) then 0 else 1
    decreases |a| + |b|, 0
  {
    Rejoin(a);
    Rejoin(b);
    var p := ShortScript(Init(a), Init(b));
    ScriptBefore(p, Init(a), Init(b), Last(b));
    path := AppendTo(p, Last(b));
    if Last(a) != Last(b) {
      EditAtEnd(Init(a), Last(a), Last(b));
      ScriptFirst(path, a, Init(a) + [Last(b)], b);
      path := [a] + path;
    }
  }

  // ---- No script is shorter ----

  /** One edit moves every distance by at most one. */
  ghost predicate Close(u: string, v: string) {
    |v| <= |u| + 1 && forall a :: Lev(a, v) <= Lev(a, u) + 1
  }

  lemma InitOf(s: string, x: char)
    ensures Init(s + [x]) == s && Last(s + [x]) == x
  {
  }

  /** Growing `a` by its last character costs at most one. */
  lemma {:induction false} LevGrows(a: string, b: string)
    requires a != ""
    ensures Lev(a, b) <= Lev(Init(a), b) + 1
  {
    if b != "" {
      LevCases(a, b);
    }
  }

  lemma {:induction false} InsertedEnd(a: string, s: string, x: char)
    ensures Lev(a, s + [x]) <= Lev(a, s) + 1
  {
    InitOf(s, x);
    if a != "" {
      LevCases(a, s + [x]);
    }
  }

  lemma {:induction false} DeletedEnd(a: string, s: string, x: char)
    ensures Lev(a, s) <= Lev(a, s + [x]) + 1
    decreases |a|
  {
    InitOf(s, x);
    if a != "" {
      LevCases(a, s + [x]);
      LevGrows(a, s);
      DeletedEnd(Init(a), s, x);
    }
  }

  lemma {:induction false} ReplacedEnd(a: string, s: string, x: char, y: char)
    ensures Lev(a, s + [y]) <= Lev(a, s + [x]) + 1
    decreases |a|
  {
    InitOf(s, x);
    InitOf(s, y);
    if a != "" {
      LevCases(a, s + [x]);
      LevCases(a, s + [y]);
      ReplacedEnd(Init(a), s, x, y);
    }
  }

  lemma {:induction false} CloseMore(u: string, v: string, z: char, a: string)
    requires Close(u, v)
    ensures Lev(a, v + [z]) <= Lev(a, u + [z]) + 1
    decreases |a|
  {
    InitOf(u, z);
    InitOf(v, z);
    if a != "" {
      LevCases(a, u + [z]);
      LevCases(a, v + [z]);
      CloseMore(u, v, z, Init(a));
    }
  }

  lemma {:induction false} CloseExtends(u: string, v: string, s: string)
    requires Close(u, v)
    ensures Close(u + s, v + s)
    decreases |s|
  {
    if s == "" {
      assert u + s == u && v + s == v;
    } else {
      CloseExtends(u, v, Init(s));
      Rejoin(s);
      assert u + s == u + Init(s) + [Last(s)] && v + s == v + Init(s) + [Last(s)];
      forall a
        ensures Lev(a, v + s) <= Lev(a, u + s) + 1
      {
        CloseMore(u + Init(s), v + Init(s), Last(s), a);
      }
    }
  }

  lemma {:induction false} CloseAtEnd(s: string, x: char, y: char)
    ensures Close(s, s + [x]) && Close(s + [x], s) && Close(s + [x], s + [y])
  {
    forall a
      ensures Lev(a, s + [x]) <= Lev(a, s) + 1 && Lev(a, s) <= Lev(a, s + [x]) + 1
    {
      InsertedEnd(a, s, x);
      DeletedEnd(a, s, x);
    }
    forall a
      ensures Lev(a, s + [y]) <= Lev(a, s + [x]) + 1
    {
      ReplacedEnd(a, s, x, y);
    }
  }

  lemma SplitAt(s: string, p: nat)
    requires p < |s|
    ensures s == s[..p] + [s[p]] + s[p + 1..]
  {
  }

  lemma {:induction false} EditIsClose(u: string, v: string)
    requires OneEdit(u, v)
    ensures Close(u, v)
  {
    if p :| 0 <= p < |v| && u == DropAt(v, p) {
      SplitAt(v, p);
      CloseAtEnd(v[..p], v[p], v[p]);
      CloseExtends(v[..p], v[..p] + [v[p]], v[p + 1..]);
    } else if p :| 0 <= p < |u| && v == DropAt(u, p) {
      SplitAt(u, p);
      CloseAtEnd(u[..p], u[p], u[p]);
      CloseExtends(u[..p] + [u[p]], u[..p], u[p + 1..]);
    } else {
      var p :| 0 <= p < |u| == |v| && ReplacedAt(u, v, p);
      SplitAt(u, p);
      SplitAt(v, p);
      CloseAtEnd(u[..p], u[p], v[p]);
      CloseExtends(u[..p] + [u[p]], u[..p] + [v[p]], u[p + 1..]);
    }
  }

  lemma {:induction false} LevSelf(a: string)
    ensures Lev(a, a) == 0
  {
    if a != "" {
      LevSelf(Init(a));
    }
  }

  /** Every script from `a` to `b` has at least `Lev(a, b)` edits. */
  lemma {:induction false} NoShorterScript(path: seq<string>, a: string, b: string)
    requires Script(path, a, b)
    ensures |path| - 1 >= Lev(a, b)
    decreases |path|
  {
    var n := |path| - 1;
    if n == 0 {
      LevSelf(a);
    } else {
      assert Script(path[..n], a, path[n - 1]);
      NoShorterScript(path[..n], a, path[n - 1]);
      assert OneEdit(path[n - 1], path[n - 1 + 1]);
      EditIsClose(path[n - 1], b);
      assert Lev(a, b) <= Lev(a, path[n - 1]) + 1;
    }
  }

  // ---- A metric ----

  lemma {:induction false} LevZero(a: string, b: string)
    ensures Lev(a, b) == 0 <==> a == b
    decreases |a| + |b|
  {
    LevSelf(a);
    if a != "" && b != "" {
      LevZero(Init(a), Init(b));
      Rejoin(a);
      Rejoin(b);
    }
  }

  lemma {:induction false} LevSymmetric(a: string, b: string)
    ensures Lev(a, b) == Lev(b, a)
    decreases |a| + |b|
  {
    if a != "" && b != "" {
      LevSymmetric(a, Init(b));
      LevSymmetric(Init(a), b);
      LevSymmetric(Init(a), Init(b));
    }
  }

  lemma {:induction false} JoinScripts(p: seq<string>, q: seq<string>, a: string, b: string, c: string)
    requires Script(p, a, b) && Script(q, b, c)
    ensures Script(p + q[1..], a, c)
  {
    var r := p + q[1..];
    forall i | 0 <= i < |r| - 1
      ensures OneEdit(r[i], r[i + 1])
    {
      if i < |p| - 1 {
        assert r[i] == p[i] && r[i + 1] == p[i + 1];
      } else {
        var j := i - (|p| - 1);
        assert r[i] == q[j] && r[i + 1] == q[j + 1];
      }
    }
  }

  lemma {:induction false} LevTriangle(a: string, b: string, c: string)
    ensures Lev(a, c) <= Lev(a, b) + Lev(b, c)
  {
    var p := ShortScript(a, b);
    var q := ShortScript(b, c);
    JoinScripts(p, q, a, b, c);
    NoShorterScript(p + q[1..], a, c);
  }

  /** Accepts exactly the pairs that at most one edit apart. */
  method IsOneEditAway(a: string, b: string) returns (r: bool)
    ensures r <==> a == b || OneEdit(a, b)
  {
    var d := Distance(a, b);
    OneOrNone(a, b);
    r := d <= 1;
  }

  lemma {:induction false} OneOrNone(a: string, b: string)
    ensures Lev(a, b) <= 1 <==> a == b || OneEdit(a, b)
  {
    if a == b {
      LevSelf(a);
    }
    if OneEdit(a, b) {
      assert Script([a, b], a, b);
      NoShorterScript([a, b], a, b);
    }
    if Lev(a, b) <= 1 {
      var path := ShortScript(a, b);
      if |path| == 2 {
        assert OneEdit(path[0], path[0 + 1]);
      }
    }
  }
}
