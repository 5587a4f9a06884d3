/**
 * Spanning trees of an undirected graph, rooted at vertex 0 and given by the
 * entry each other vertex hangs from, and the exchange that hangs a vertex
 * from a new parent while keeping a tree. These are the trees against which
 * Prim's total is the least (module Mst).
 */
module Trees {
  import opened Graphs
  import opened Reach

  /**
   * `par`, `wt` and `rk` describe a spanning tree of `g` rooted at vertex 0:
   * every other vertex `v` hangs from `par[v]` by an entry `par[v] -> v` of
   * weight `wt[v]`, and ranks fall towards the root, so following parents
   * from any vertex ends at vertex 0.
   */
  ghost predicate IsTree(g: GraphView, par: seq<int>, wt: seq<int>, rk: seq<nat>) {
    && g.Wf() && g.n > 0 && |par| == g.n && |wt| == g.n && |rk| == g.n && wt[0] == 0
    && forall v :: 0 < v < g.n ==> 0 <= par[v] < g.n && rk[par[v]] < rk[v] && Edge(v, wt[v]) in g.adj[par[v]]
  }

  /** The weight of a tree: the weights of the entries its vertices hang from. */
  function Weight(wt: seq<int>): int {
    if wt == [] then 0 else Weight(wt[..|wt| - 1]) + wt[|wt| - 1]
  }

  lemma {:induction false} WeightUpdate(wt: seq<int>, i: int, x: int)
    requires 0 <= i < |wt|
    ensures Weight(wt[i := x]) == Weight(wt) - wt[i] + x
  {
    var m := |wt| - 1;
    if i < m {
      assert wt[i := x][..m] == wt[..m][i := x];
      WeightUpdate(wt[..m], i, x);
    } else {
      assert wt[i := x][..m] == wt[..m];
    }
  }

  /** `inQ` marks a set of vertices that holds the root and the parent of each of its vertices. */
  predicate Rooted(par: seq<int>, inQ: seq<bool>) {
    && |par| == |inQ| && |inQ| > 0 && inQ[0]
    && forall v :: 0 < v < |inQ| && inQ[v] ==> 0 <= par[v] < |inQ| && inQ[par[v]]
  }

  /** An entry lists its weight among the weights leading to its end. */
  lemma {:induction false} WeightsToIn(row: seq<Edge>, k: int, v: int)
    requires 0 <= k < |row| && row[k].to == v
    ensures row[k].weight in WeightsTo(row, v)
  {
    if k < |row| - 1 {
      WeightsToIn(row[..|row| - 1], k, v);
    }
  }

  /** A weight listed as leading to `v` belongs to an entry leading to `v`. */
  lemma {:induction false} WeightsToEntry(row: seq<Edge>, v: int, x: int)
    requires x in WeightsTo(row, v)
    ensures Edge(v, x) in row
  {
    var m := |row| - 1;
    if row[m].to == v && x == row[m].weight {
      assert row[m] == Edge(v, x);
    } else {
      WeightsToEntry(row[..m], v, x);
      assert row[..m] <= row;
    }
  }

  /** In an undirected graph, an entry `u -> v` has a twin `v -> u` of the same weight. */
  lemma SymmetricEntry(g: GraphView, u: int, v: int, w: int)
    requires g.Wf() && g.Symmetric() && 0 <= u < g.n && 0 <= v < g.n && u != v
    requires Edge(v, w) in g.adj[u]
    ensures Edge(u, w) in g.adj[v]
  {
    var k :| 0 <= k < |g.adj[u]| && g.adj[u][k] == Edge(v, w);
    WeightsToIn(g.adj[u], k, v);
    assert WeightsTo(g.adj[u], v) == WeightsTo(g.adj[v], u);
    WeightsToEntry(g.adj[v], u, w);
  }

  /** The ranks outside `inQ` raised by `s`. */
  function Lifted(rk: seq<nat>, inQ: seq<bool>, s: nat): (r: seq<nat>)
    requires |inQ| == |rk|
    ensures |r| == |rk| && forall v :: 0 <= v < |rk| ==> r[v] == if inQ[v] then rk[v] else rk[v] + s
  {
    seq(|rk|, v requires 0 <= v < |rk| => if inQ[v] then rk[v] else rk[v] + s)
  }

  /**
   * Hanging the single vertex `b`, outside a rooted set, from `a` inside it
   * keeps a tree once the ranks outside the set are raised above `a`'s.
   */
  lemma Rehang(g: GraphView, par: seq<int>, wt: seq<int>, rk: seq<nat>, inQ: seq<bool>, b: int, a: int, w: int)
    requires IsTree(g, par, wt, rk) && Rooted(par, inQ)
    requires 0 <= a < g.n && inQ[a] && 0 < b < g.n && !inQ[b] && Edge(b, w) in g.adj[a]
    ensures IsTree(g, par[b := a], wt[b := w], Lifted(rk, inQ, rk[a] + 1))
  {
    var rk1 := Lifted(rk, inQ, rk[a] + 1);
    var par1, wt1 := par[b := a], wt[b := w];
    forall v | 0 < v < g.n
      ensures 0 <= par1[v] < g.n && rk1[par1[v]] < rk1[v] && Edge(v, wt1[v]) in g.adj[par1[v]]
    {
      if v != b && inQ[v] {
        assert inQ[par[v]];
      }
    }
  }

  /** Hanging `b` from a vertex of a rooted set and adding it keeps the set rooted. */
  lemma RootedGrow(par: seq<int>, inQ: seq<bool>, b: int, a: int)
    requires Rooted(par, inQ) && 0 < b < |inQ| && 0 <= a < |inQ| && inQ[a]
    ensures Rooted(par[b := a], inQ[b := true])
  {
  }

  /** What a change at `b` leaves alone, and a later change outside the set with `b` leaves alone too. */
  lemma KeptOutside(inQ: seq<bool>, b: int, s: seq<int>, x: int, u: seq<int>)
    requires |inQ| == |s| == |u| && 0 <= b < |s| && !inQ[b]
    requires forall v :: 0 <= v < |s| && inQ[b := true][v] ==> u[v] == s[b := x][v]
    ensures forall v :: 0 <= v < |s| && inQ[v] ==> u[v] == s[v]
  {
    forall v | 0 <= v < |s| && inQ[v] ensures u[v] == s[v] {
      assert inQ[b := true][v];
    }
  }

  /**
   * Hanging `b` from `a`, outside a rooted set `inQ`, by an entry of weight
   * `w`: the vertices on the way from `b` up to the set are turned round, so
   * that each hangs from the one below it, and the entry from the set to the
   * last of them (`x -> y`) is dropped. The result is a tree that keeps
   * every vertex of the set as it was, and its weight is the old weight plus
   * `w` less the weight of the dropped entry.
   */
  lemma {:induction false} Hang(g: GraphView, par: seq<int>, wt: seq<int>, rk: seq<nat>, inQ: seq<bool>, b: int, a: int, w: int)
    returns (par': seq<int>, wt': seq<int>, rk': seq<nat>, x: int, y: int)
    requires IsTree(g, par, wt, rk) && g.Symmetric() && Rooted(par, inQ)
    requires 0 <= a < g.n && inQ[a] && 0 < b < g.n && !inQ[b] && Edge(b, w) in g.adj[a]
    ensures IsTree(g, par', wt', rk')
    ensures par'[b] == a && wt'[b] == w
    ensures forall v :: 0 <= v < g.n && inQ[v] ==> par'[v] == par[v] && wt'[v] == wt[v]
    ensures 0 < y < g.n && !inQ[y] && x == par[y] && inQ[x] && rk[y] <= rk[b]
    ensures Weight(wt') == Weight(wt) + w - wt[y]
    decreases Unmarked(inQ), 1
  {
    if inQ[par[b]] {
      Rehang(g, par, wt, rk, inQ, b, a, w);
      WeightUpdate(wt, b, w);
      par', wt', rk', x, y := par[b := a], wt[b := w], Lifted(rk, inQ, rk[a] + 1), par[b], b;
    } else {
      par', wt', rk', x, y := HangOn(g, par, wt, rk, inQ, b, a, w);
    }
  }

  /**
   * `Hang` when the parent `p` of `b` is outside the set too: hang `b`
   * from `a`, then `p` from `b` by the twin of the entry `p -> b`.
   */
  lemma {:induction false} HangOn(g: GraphView, par: seq<int>, wt: seq<int>, rk: seq<nat>, inQ: seq<bool>, b: int, a: int, w: int)
    returns (par': seq<int>, wt': seq<int>, rk': seq<nat>, x: int, y: int)
    requires IsTree(g, par, wt, rk) && g.Symmetric() && Rooted(par, inQ)
    requires 0 <= a < g.n && inQ[a] && 0 < b < g.n && !inQ[b] && Edge(b, w) in g.adj[a] && !inQ[par[b]]
    ensures IsTree(g, par', wt', rk')
    ensures par'[b] == a && wt'[b] == w
    ensures forall v :: 0 <= v < g.n && inQ[v] ==> par'[v] == par[v] && wt'[v] == wt[v]
    ensures 0 < y < g.n && !inQ[y] && x == par[y] && inQ[x] && rk[y] <= rk[b]
    ensures Weight(wt') == Weight(wt) + w - wt[y]
    decreases Unmarked(inQ), 0
  {
    var p, c := par[b], wt[b];
    assert 0 <= p < g.n && rk[p] < rk[b];
    assert p != 0;
    var rk1 := Lifted(rk, inQ, rk[a] + 1);
    var par1, wt1 := par[b := a], wt[b := w];
    Rehang(g, par, wt, rk, inQ, b, a, w);
    WeightUpdate(wt, b, w);
    var inQ1 := inQ[b := true];
    UnmarkedMark(inQ, b);
    SymmetricEntry(g, p, b, c);
    RootedGrow(par, inQ, b, a);
    assert IsTree(g, par1, wt1, rk1);
    assert Edge(p, c) in g.adj[b];
    par', wt', rk', x, y := Hang(g, par1, wt1, rk1, inQ1, p, b, c);
    assert rk1[x] < rk1[y] <= rk1[p] < rk1[b];
    KeptOutside(inQ, b, par, a, par');
    KeptOutside(inQ, b, wt, w, wt');
  }
}
