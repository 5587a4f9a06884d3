/**
 * Reachability along adjacency entries, and the recursive depth-first search
 * that marks the vertices reachable from a start vertex in a `visited` vector.
 */
module Reach {
  import opened Graphs

  /** `g` has an adjacency entry from `x` to `y`. */
  predicate Linked(g: GraphView, x: int, y: int) {
    0 <= x < |g.adj| && exists k :: 0 <= k < |g.adj[x]| && g.adj[x][k].to == y
  }

  /** A non-empty sequence of vertices, each linked to the next. */
  predicate IsPath(g: GraphView, p: seq<int>) {
    && |p| >= 1
    && (forall i :: 0 <= i < |p| ==> 0 <= p[i] < g.n)
    && (forall i :: 0 <= i < |p| - 1 ==> Linked(g, p[i], p[i + 1]))
  }

  ghost predicate Reachable(g: GraphView, s: int, t: int) {
    exists p :: IsPath(g, p) && p[0] == s && p[|p| - 1] == t
  }

  lemma ReachRefl(g: GraphView, s: int)
    requires 0 <= s < g.n
    ensures Reachable(g, s, s)
  {
    assert IsPath(g, [s]);
  }

  /** A path to `x` extended by an entry x -> y is a path to `y`. */
  lemma ReachStep(g: GraphView, s: int, x: int, y: int)
    requires Reachable(g, s, x) && Linked(g, x, y) && 0 <= y < g.n
    ensures Reachable(g, s, y)
  {
    var p :| IsPath(g, p) && p[0] == s && p[|p| - 1] == x;
    var q := p + [y];
    assert forall i :: 0 <= i < |q| - 1 ==> q[i] == p[i];
    assert IsPath(g, q);
  }

  /** An entry u -> v followed by a path from `v` is a path from `u`. */
  lemma ReachPrepend(g: GraphView, u: int, v: int, t: int)
    requires 0 <= u < g.n && Linked(g, u, v) && Reachable(g, v, t)
    ensures Reachable(g, u, t)
  {
    var p :| IsPath(g, p) && p[0] == v && p[|p| - 1] == t;
    var q := [u] + p;
    assert forall i :: 1 <= i < |q| ==> q[i] == p[i - 1];
    assert IsPath(g, q);
  }

  /** Paths compose. */
  lemma ReachTrans(g: GraphView, s: int, x: int, t: int)
    requires Reachable(g, s, x) && Reachable(g, x, t)
    ensures Reachable(g, s, t)
  {
    var p :| IsPath(g, p) && p[0] == s && p[|p| - 1] == x;
    var q :| IsPath(g, q) && q[0] == x && q[|q| - 1] == t;
    var r := p + q[1..];
    forall i | 0 <= i < |r| - 1 ensures Linked(g, r[i], r[i + 1]) {
      if i < |p| - 1 {
        assert r[i] == p[i] && r[i + 1] == p[i + 1];
      } else {
        assert r[i] == q[i - |p| + 1] && r[i + 1] == q[i - |p| + 2];
      }
    }
    assert IsPath(g, r);
  }

  /** Every entry of `h` is the reverse of an entry of `g`. */
  ghost predicate Reverses(g: GraphView, h: GraphView) {
    g.n == h.n && forall a, b :: Linked(h, a, b) ==> Linked(g, b, a)
  }

  /** A path of `h` read backwards is a path of `g`. */
  lemma {:induction false} ReachAgainst(g: GraphView, h: GraphView, p: seq<int>)
    requires Reverses(g, h) && IsPath(h, p)
    ensures Reachable(g, p[|p| - 1], p[0])
    decreases |p|
  {
    if |p| == 1 {
      ReachRefl(g, p[0]);
    } else {
      var q := p[1..];
      assert IsPath(h, q) by {
        assert forall i :: 0 <= i < |q| ==> q[i] == p[i + 1];
      }
      ReachAgainst(g, h, q);
      assert Linked(h, p[0], p[1]);
      ReachStep(g, p[|p| - 1], p[1], p[0]);
    }
  }

  lemma ReachReversed(g: GraphView, h: GraphView, s: int, t: int)
    requires Reverses(g, h) && Reachable(h, s, t)
    ensures Reachable(g, t, s)
  {
    var p :| IsPath(h, p) && p[0] == s && p[|p| - 1] == t;
    ReachAgainst(g, h, p);
  }

  /** In a symmetric graph every entry has its reverse. */
  lemma LinkedSym(g: GraphView, x: int, y: int)
    requires g.Wf() && g.Symmetric() && Linked(g, x, y)
    ensures Linked(g, y, x)
  {
    if x != y {
      var k :| 0 <= k < |g.adj[x]| && g.adj[x][k].to == y;
      WeightsToHas(g.adj[x], k, y);
      assert WeightsTo(g.adj[x], y) == WeightsTo(g.adj[y], x);
      var j := WeightsToWitness(g.adj[y], x);
    }
  }

  /** In a symmetric graph reachability goes both ways. */
  lemma ReachBack(g: GraphView, s: int, t: int)
    requires g.Wf() && g.Symmetric() && Reachable(g, s, t)
    ensures Reachable(g, t, s)
  {
    forall a, b | Linked(g, a, b) ensures Linked(g, b, a) {
      LinkedSym(g, a, b);
    }
    ReachReversed(g, g, s, t);
  }

  lemma LinkedEntry(g: GraphView, x: int, k: int)
    requires g.Wf() && 0 <= x < g.n && 0 <= k < |g.adj[x]|
    ensures Linked(g, x, g.adj[x][k].to) && 0 <= g.adj[x][k].to < g.n
  {
  }

  /**
   * Every marked vertex outside `S` (the vertices whose search is still in
   * progress) has all its neighbours marked.
   */
  predicate Closed(g: GraphView, visited: seq<bool>, S: set<int>) {
    forall x :: 0 <= x < |visited| && visited[x] && x !in S ==> NeighboursMarked(g, visited, x)
  }

  /** Every neighbour of `x` is marked. */
  predicate NeighboursMarked(g: GraphView, visited: seq<bool>, x: int) {
    0 <= x < |g.adj| &&
    forall k :: 0 <= k < |g.adj[x]| ==> 0 <= g.adj[x][k].to < |visited| && visited[g.adj[x][k].to]
  }

  /** A marking closed under adjacency that contains `s` contains everything reachable from `s`. */
  lemma ClosedHoldsReachable(g: GraphView, visited: seq<bool>, s: int, t: int)
    requires g.Wf() && |visited| == g.n && Closed(g, visited, {})
    requires 0 <= s < g.n && visited[s] && Reachable(g, s, t)
    ensures 0 <= t < g.n && visited[t]
  {
    var p :| IsPath(g, p) && p[0] == s && p[|p| - 1] == t;
    var i := 0;
    while i < |p| - 1
      invariant 0 <= i <= |p| - 1
      invariant visited[p[i]]
    {
      assert Linked(g, p[i], p[i + 1]);
      var k :| 0 <= k < |g.adj[p[i]]| && g.adj[p[i]][k].to == p[i + 1];
      i := i + 1;
    }
  }

  /** No element occurs twice. */
  predicate Distinct(s: seq<int>) {
    forall i, j :: 0 <= i < j < |s| ==> s[i] != s[j]
  }

  /** Number of unmarked entries. */
  function Unmarked(s: seq<bool>): nat {
    if s == [] then 0 else Unmarked(s[..|s| - 1]) + (if s[|s| - 1] then 0 else 1)
  }

  /** Marking more vertices never raises the count of unmarked ones, and marking `i` lowers it. */
  lemma {:induction false} UnmarkedLess(s: seq<bool>, t: seq<bool>, i: int)
    requires Grows(s, t)
    ensures Unmarked(t) <= Unmarked(s)
    ensures 0 <= i < |s| && !s[i] && t[i] ==> Unmarked(t) < Unmarked(s)
    decreases |s|
  {
    if s != [] {
      var m := |s| - 1;
      UnmarkedLess(s[..m], t[..m], i);
    }
  }

  lemma {:induction false} UnmarkedMark(s: seq<bool>, i: int)
    requires 0 <= i < |s| && !s[i]
    ensures Unmarked(s[i := true]) == Unmarked(s) - 1
  {
    var m := |s| - 1;
    if i < m {
      assert s[i := true][..m] == s[..m][i := true];
      UnmarkedMark(s[..m], i);
    } else {
      assert s[i := true][..m] == s[..m];
    }
  }

  lemma {:induction false} UnmarkedAll(s: seq<bool>)
    requires forall i :: 0 <= i < |s| ==> s[i]
    ensures Unmarked(s) == 0
  {
    if s != [] {
      UnmarkedAll(s[..|s| - 1]);
    }
  }

  lemma {:induction false} UnmarkedNone(s: seq<bool>)
    requires forall i :: 0 <= i < |s| ==> !s[i]
    ensures Unmarked(s) == |s|
  {
    if s != [] {
      UnmarkedNone(s[..|s| - 1]);
    }
  }

  /** Every vertex marked in `a` is marked in `b`. */
  predicate Grows(a: seq<bool>, b: seq<bool>) {
    |a| == |b| && forall x :: 0 <= x < |a| && a[x] ==> b[x]
  }

  /** Every vertex marked in `b` but not in `a` is reachable from `u`. */
  ghost predicate NewlyReachable(g: GraphView, u: int, a: seq<bool>, b: seq<bool>) {
    |a| == |b| && forall x :: 0 <= x < |a| && b[x] && !a[x] ==> Reachable(g, u, x)
  }

  /** The search of a neighbour `v` of `u` extends what the search of `u` has marked so far. */
  lemma ChildSearched(g: GraphView, u: int, v: int, entry: seq<bool>, before: seq<bool>, after: seq<bool>)
    requires g.Wf() && 0 <= u < g.n && Linked(g, u, v) && |entry| == g.n
    requires Grows(entry, before) && NewlyReachable(g, u, entry, before)
    requires Grows(before, after) && NewlyReachable(g, v, before, after)
    ensures Grows(entry, after) && NewlyReachable(g, u, entry, after)
  {
    forall x | 0 <= x < g.n && after[x] && !entry[x]
      ensures Reachable(g, u, x)
    {
      if !before[x] {
        ReachPrepend(g, u, v, x);
      }
    }
  }

  /** Marking `u` keeps the marking closed once `u` counts as in progress. */
  lemma MarkKeepsClosed(g: GraphView, entry: seq<bool>, now: seq<bool>, u: int, S: set<int>)
    requires Closed(g, entry, S) && 0 <= u < |entry| && now == entry[u := true]
    ensures Closed(g, now, S + {u}) && Grows(entry, now)
  {
    forall x | 0 <= x < |now| && now[x] && x !in S + {u}
      ensures NeighboursMarked(g, now, x)
    {
      assert entry[x];
    }
  }

  /** Once every neighbour of `u` is marked, `u` no longer needs to count as in progress. */
  lemma FinishKeepsClosed(g: GraphView, now: seq<bool>, u: int, S: set<int>)
    requires Closed(g, now, S + {u}) && NeighboursMarked(g, now, u)
    ensures Closed(g, now, S)
  {
  }

  /**
   * `dfs(u, g, visited)`: marks `u` and, recursively, every unmarked
   * neighbour. Every newly marked vertex is reachable from `u`, and the
   * marking stays closed under adjacency outside the searches in progress.
   */
  method Dfs(u: int, g: GraphView, visited: array<bool>, ghost S: set<int>)
    requires g.Wf() && visited.Length == g.n && 0 <= u < g.n
    requires u !in S && forall x :: x in S ==> 0 <= x < g.n && visited[x]
    requires Closed(g, visited[..], S)
    modifies visited
    ensures visited[u]
    ensures Grows(old(visited[..]), visited[..])
    ensures NewlyReachable(g, u, old(visited[..]), visited[..])
    ensures Closed(g, visited[..], S)
    decreases Unmarked(visited[..]), if visited[u] then 1 else 0
  {
    ghost var entry := visited[..];
    visited[u] := true;
    MarkKeepsClosed(g, entry, visited[..], u, S);
    ReachRefl(g, u);
    var row := g.adj[u];
    var k := 0;
    while k < |row|
      invariant 0 <= k <= |row|
      invariant visited[u]
      invariant Grows(entry, visited[..]) && NewlyReachable(g, u, entry, visited[..])
      invariant EntriesMarked(visited[..], row, k)
      invariant Closed(g, visited[..], S + {u})
    {
      var v := row[k].to;
      ghost var before := visited[..];
      if !visited[v] {
        UnmarkedLess(entry, before, u);
        LinkedEntry(g, u, k);
        Dfs(v, g, visited, S + {u});
        ChildSearched(g, u, v, entry, before, visited[..]);
      }
      EntriesStep(before, visited[..], row, k);
      k := k + 1;
    }
    FinishKeepsClosed(g, visited[..], u, S);
  }

  /** The first `k` entries of `row` lead to marked vertices. */
  predicate EntriesMarked(visited: seq<bool>, row: seq<Edge>, k: int) {
    forall j :: 0 <= j < k && 0 <= j < |row| ==> 0 <= row[j].to < |visited| && visited[row[j].to]
  }

  lemma EntriesStep(before: seq<bool>, after: seq<bool>, row: seq<Edge>, k: int)
    requires EntriesMarked(before, row, k) && Grows(before, after)
    requires 0 <= k < |row| && 0 <= row[k].to < |after| && after[row[k].to]
    ensures EntriesMarked(after, row, k + 1)
  {
  }

  /**
   * A search from `s` over an all-unmarked vector marks exactly the vertices
   * reachable from `s`.
   */
  lemma MarkedIsReachable(g: GraphView, before: seq<bool>, after: seq<bool>, s: int)
    requires g.Wf() && |before| == g.n && |after| == g.n && 0 <= s < g.n
    requires forall x :: 0 <= x < g.n ==> !before[x]
    requires after[s] && Closed(g, after, {}) && NewlyReachable(g, s, before, after)
    ensures forall x :: 0 <= x < g.n ==> (after[x] <==> Reachable(g, s, x))
  {
    forall x | 0 <= x < g.n && Reachable(g, s, x)
      ensures after[x]
    {
      ClosedHoldsReachable(g, after, s, x);
    }
  }
}
