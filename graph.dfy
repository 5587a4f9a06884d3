/**
 * The adjacency-list graph: vertices 0..n-1, a direction flag, and for each
 * vertex the list of (neighbour, weight) entries in insertion order.
 *
 * `GraphView` is the value a `const Graph &` stands for; the class `Graph`
 * holds the same fields and updates them in place.
 */
module Graphs {

  datatype Edge = Edge(to: int, weight: int)

  /** Every entry of every row names a vertex in [0, n). */
  predicate RowsBounded(adj: seq<seq<Edge>>, n: int) {
    forall u, k :: 0 <= u < |adj| && 0 <= k < |adj[u]| ==> 0 <= adj[u][k].to < n
  }

  datatype GraphView = GraphView(n: int, directed: bool, adj: seq<seq<Edge>>) {
    /** What the class keeps true: one list per vertex, every neighbour a vertex. */
    predicate Wf() {
      n >= 0 && |adj| == n && RowsBounded(adj, n)
    }

    /**
     * What `addEdge` keeps true of an undirected graph: the weights listed
     * from u to v are those listed from v to u, in the same order, and the
     * weights of the self-loops at u come in equal pairs.
     */
    predicate Symmetric() {
      && (forall u, v :: 0 <= u < |adj| && 0 <= v < |adj| && u != v ==> WeightsTo(adj[u], v) == WeightsTo(adj[v], u))
      && (forall u :: 0 <= u < |adj| ==> Paired(WeightsTo(adj[u], u)))
    }
  }

  /** The weights of the entries of `row` that lead to `v`, in order. */
  function WeightsTo(row: seq<Edge>, v: int): seq<int> {
    if row == [] then []
    else WeightsTo(row[..|row| - 1], v) + (if row[|row| - 1].to == v then [row[|row| - 1].weight] else [])
  }

  lemma WeightsToSnoc(row: seq<Edge>, e: Edge, v: int)
    ensures WeightsTo(row + [e], v) == WeightsTo(row, v) + (if e.to == v then [e.weight] else [])
  {
    assert (row + [e])[..|row|] == row;
  }

  /** An entry leading to `v` puts a weight in the list. */
  lemma {:induction false} WeightsToHas(row: seq<Edge>, k: int, v: int)
    requires 0 <= k < |row| && row[k].to == v
    ensures WeightsTo(row, v) != []
  {
    if k < |row| - 1 {
      WeightsToHas(row[..|row| - 1], k, v);
    }
  }

  /** A weight in the list comes from an entry leading to `v`. */
  lemma {:induction false} WeightsToWitness(row: seq<Edge>, v: int) returns (k: int)
    requires WeightsTo(row, v) != []
    ensures 0 <= k < |row| && row[k].to == v
  {
    if row[|row| - 1].to == v {
      k := |row| - 1;
    } else {
      k := WeightsToWitness(row[..|row| - 1], v);
    }
  }

  /** A sequence made of consecutive equal pairs. */
  predicate Paired(s: seq<int>) {
    |s| % 2 == 0 && forall i :: 0 <= i < |s| / 2 ==> s[2 * i] == s[2 * i + 1]
  }

  /** `n` empty lists. */
  function Empties(n: nat): (r: seq<seq<Edge>>)
    ensures |r| == n && forall u :: 0 <= u < n ==> r[u] == []
  {
    seq(n, _ => [])
  }

  /** The graph the constructor `Graph(vertices, directed)` builds. */
  function Empty(n: nat, directed: bool): (g: GraphView)
    ensures g.Wf() && g.n == n && g.directed == directed
    ensures TotalEdges(g.adj) == 0
  {
    var adj := Empties(n);
    EmptiesHaveNoEdges(n);
    GraphView(n, directed, adj)
  }

  /** Number of adjacency entries in all rows. */
  function TotalEdges(adj: seq<seq<Edge>>): nat {
    if adj == [] then 0 else TotalEdges(adj[..|adj| - 1]) + |adj[|adj| - 1]|
  }

  lemma {:induction false} EmptiesHaveNoEdges(n: nat)
    ensures TotalEdges(Empties(n)) == 0
  {
    if n > 0 {
      assert Empties(n)[..n - 1] == Empties(n - 1);
      EmptiesHaveNoEdges(n - 1);
    }
  }

  /** Replacing one row changes the entry count by the difference in row length. */
  lemma {:induction false} TotalEdgesUpdate(adj: seq<seq<Edge>>, i: nat, row: seq<Edge>)
    requires i < |adj|
    ensures TotalEdges(adj[i := row]) == TotalEdges(adj) - |adj[i]| + |row|
    decreases |adj|
  {
    var last := |adj| - 1;
    if i == last {
      assert adj[i := row][..last] == adj[..last];
    } else {
      assert adj[i := row][..last] == adj[..last][i := row];
      TotalEdgesUpdate(adj[..last], i, row);
    }
  }

  /** The effect of `addEdge(u, v, w)` once its range check has passed. */
  function WithEdge(g: GraphView, u: int, v: int, w: int): (r: GraphView)
    requires g.Wf() && 0 <= u < g.n && 0 <= v < g.n
    ensures r.Wf() && r.n == g.n && r.directed == g.directed
  {
    var a := g.adj[u := g.adj[u] + [Edge(v, w)]];
    var b := if g.directed then a else a[v := a[v] + [Edge(u, w)]];
    assert RowsBounded(b, g.n) by {
      forall x, k | 0 <= x < |b| && 0 <= k < |b[x]| ensures 0 <= b[x][k].to < g.n {
        if x != u && x != v {
          assert b[x] == g.adj[x];
        }
      }
    }
    GraphView(g.n, g.directed, b)
  }

  /** addEdge appends (v, w) to the list of u, and (u, w) to that of v when undirected; no other list changes. */
  lemma WithEdgeRows(g: GraphView, u: int, v: int, w: int)
    requires g.Wf() && 0 <= u < g.n && 0 <= v < g.n
    ensures var r := WithEdge(g, u, v, w);
      && (g.directed || u != v ==> r.adj[u] == g.adj[u] + [Edge(v, w)])
      && (!g.directed && u != v ==> r.adj[v] == g.adj[v] + [Edge(u, w)])
      && (!g.directed && u == v ==> r.adj[u] == g.adj[u] + [Edge(v, w), Edge(u, w)])
      && (forall x :: 0 <= x < g.n && x != u && (g.directed || x != v) ==> r.adj[x] == g.adj[x])
  {
  }

  lemma {:induction false} EmptiesHaveNoWeights(n: nat, u: int, v: int)
    requires 0 <= u < n
    ensures WeightsTo(Empties(n)[u], v) == []
  {
  }

  /** The graph the constructor builds is symmetric. */
  lemma EmptySymmetric(n: nat, directed: bool)
    ensures Empty(n, directed).Symmetric()
  {
    var g := Empty(n, directed);
    forall u, v | 0 <= u < n && 0 <= v < n
      ensures WeightsTo(g.adj[u], v) == []
    {
      EmptiesHaveNoWeights(n, u, v);
    }
  }

  /** The weights that addEdge(u, v, w) adds to the entries of `a` leading to `b` (undirected). */
  lemma WithEdgeWeights(g: GraphView, u: int, v: int, w: int, a: int, b: int)
    requires g.Wf() && !g.directed && 0 <= u < g.n && 0 <= v < g.n && 0 <= a < g.n
    ensures WeightsTo(WithEdge(g, u, v, w).adj[a], b) == WeightsTo(g.adj[a], b) + Added(u, v, w, a, b)
  {
    WithEdgeRows(g, u, v, w);
    if a == u && u == v {
      WeightsToSnoc(g.adj[u], Edge(v, w), b);
      WeightsToSnoc(g.adj[u] + [Edge(v, w)], Edge(u, w), b);
      assert g.adj[u] + [Edge(v, w), Edge(u, w)] == g.adj[u] + [Edge(v, w)] + [Edge(u, w)];
    } else if a == u {
      WeightsToSnoc(g.adj[u], Edge(v, w), b);
    } else if a == v {
      WeightsToSnoc(g.adj[v], Edge(u, w), b);
    }
  }

  lemma PairedSnoc(s: seq<int>, w: int)
    requires Paired(s)
    ensures Paired(s + [w, w])
  {
    var t := s + [w, w];
    forall i | 0 <= i < |t| / 2 ensures t[2 * i] == t[2 * i + 1] {
      if i < |s| / 2 {
        assert t[2 * i] == s[2 * i] && t[2 * i + 1] == s[2 * i + 1];
      }
    }
  }

  /** addEdge keeps an undirected graph symmetric. */
  lemma WithEdgeSymmetric(g: GraphView, u: int, v: int, w: int)
    requires g.Wf() && !g.directed && g.Symmetric() && 0 <= u < g.n && 0 <= v < g.n
    ensures WithEdge(g, u, v, w).Symmetric()
  {
    var r := WithEdge(g, u, v, w);
    forall a, b | 0 <= a < g.n && 0 <= b < g.n && a != b
      ensures WeightsTo(r.adj[a], b) == WeightsTo(r.adj[b], a)
    {
      WithEdgeWeights(g, u, v, w, a, b);
      WithEdgeWeights(g, u, v, w, b, a);
    }
    forall a | 0 <= a < g.n
      ensures Paired(WeightsTo(r.adj[a], a))
    {
      WithEdgeWeights(g, u, v, w, a, a);
      if a == u && u == v {
        PairedSnoc(WeightsTo(g.adj[a], a), w);
      } else {
        assert WeightsTo(g.adj[a], a) + [] == WeightsTo(g.adj[a], a);
      }
    }
  }

  /** The weights addEdge(u, v, w) adds to the entries of `a` that lead to `b` (undirected). */
  function Added(u: int, v: int, w: int, a: int, b: int): seq<int> {
    if a == u && u == v && b == u then [w, w]
    else if (a == u && b == v) || (a == v && b == u) then [w]
    else []
  }

  /** On an undirected graph a self-loop raises the degree of its vertex by two. */
  lemma UndirectedSelfLoopDegree(g: GraphView, u: int, w: int)
    requires g.Wf() && !g.directed && 0 <= u < g.n
    ensures |WithEdge(g, u, u, w).adj[u]| == |g.adj[u]| + 2
  {
  }

  /** An accepted addEdge adds one entry to a directed graph and two to an undirected one. */
  lemma WithEdgeCount(g: GraphView, u: int, v: int, w: int)
    requires g.Wf() && 0 <= u < g.n && 0 <= v < g.n
    ensures TotalEdges(WithEdge(g, u, v, w).adj) == TotalEdges(g.adj) + (if g.directed then 1 else 2)
  {
    var a := g.adj[u := g.adj[u] + [Edge(v, w)]];
    TotalEdgesUpdate(g.adj, u, g.adj[u] + [Edge(v, w)]);
    if !g.directed {
      TotalEdgesUpdate(a, v, a[v] + [Edge(u, w)]);
    }
  }

  /** Adds (u, weight) to the row of every neighbour in `row`, front to back. */
  function AppendReversed(acc: seq<seq<Edge>>, u: int, row: seq<Edge>): (r: seq<seq<Edge>>)
    requires forall k :: 0 <= k < |row| ==> 0 <= row[k].to < |acc|
    ensures |r| == |acc|
    decreases |row|
  {
    if row == [] then acc
    else
      var v := row[0].to;
      AppendReversed(acc[v := acc[v] + [Edge(u, row[0].weight)]], u, row[1..])
  }

  /** Processes the rows `u..` of `adj` into `acc`, as the outer loop of `reversed()` does. */
  function TransposeFrom(adj: seq<seq<Edge>>, acc: seq<seq<Edge>>, u: nat): (r: seq<seq<Edge>>)
    requires u <= |adj| && |acc| == |adj| && RowsBounded(adj, |adj|)
    ensures |r| == |adj|
    decreases |adj| - u
  {
    if u == |adj| then acc else TransposeFrom(adj, AppendReversed(acc, u, adj[u]), u + 1)
  }

  /** The transpose of a directed adjacency: rev[v] lists (u, w) for every (v, w) in adj[u]. */
  function Transpose(adj: seq<seq<Edge>>): (r: seq<seq<Edge>>)
    requires RowsBounded(adj, |adj|)
    ensures |r| == |adj|
  {
    TransposeFrom(adj, Empties(|adj|), 0)
  }

  /** What `reversed()` returns: the transpose for a directed graph, a copy otherwise. */
  function ReversedView(g: GraphView): (r: GraphView)
    requires g.Wf()
    ensures r.n == g.n && r.directed == g.directed
  {
    if g.directed then GraphView(g.n, true, Transpose(g.adj)) else g
  }

  /** Number of occurrences of `e` in a row. */
  function Count(row: seq<Edge>, e: Edge): nat {
    multiset(row)[e]
  }

  lemma {:induction false} AppendReversedCount(acc: seq<seq<Edge>>, u: int, row: seq<Edge>, v: int, x: int, w: int)
    requires forall k :: 0 <= k < |row| ==> 0 <= row[k].to < |acc|
    requires 0 <= v < |acc|
    ensures Count(AppendReversed(acc, u, row)[v], Edge(x, w))
         == Count(acc[v], Edge(x, w)) + (if x == u then Count(row, Edge(v, w)) else 0)
    decreases |row|
  {
    if row != [] {
      var t := row[0].to;
      var acc' := acc[t := acc[t] + [Edge(u, row[0].weight)]];
      AppendReversedCount(acc', u, row[1..], v, x, w);
      assert row == [row[0]] + row[1..];
      assert multiset(row) == multiset{row[0]} + multiset(row[1..]);
      if t == v {
        assert multiset(acc'[v]) == multiset(acc[v]) + multiset{Edge(u, row[0].weight)};
      }
    }
  }

  lemma {:induction false} AppendReversedBounded(acc: seq<seq<Edge>>, u: int, row: seq<Edge>, n: int)
    requires forall k :: 0 <= k < |row| ==> 0 <= row[k].to < |acc|
    requires RowsBounded(acc, n) && 0 <= u < n
    ensures RowsBounded(AppendReversed(acc, u, row), n)
    decreases |row|
  {
    if row != [] {
      var t := row[0].to;
      var acc' := acc[t := acc[t] + [Edge(u, row[0].weight)]];
      assert RowsBounded(acc', n) by {
        forall y, k | 0 <= y < |acc'| && 0 <= k < |acc'[y]| ensures 0 <= acc'[y][k].to < n {
          if y == t && k == |acc[t]| {
          } else {
            assert acc'[y][k] == acc[y][k];
          }
        }
      }
      AppendReversedBounded(acc', u, row[1..], n);
    }
  }

  lemma {:induction false} AppendReversedTotal(acc: seq<seq<Edge>>, u: int, row: seq<Edge>)
    requires forall k :: 0 <= k < |row| ==> 0 <= row[k].to < |acc|
    ensures TotalEdges(AppendReversed(acc, u, row)) == TotalEdges(acc) + |row|
    decreases |row|
  {
    if row != [] {
      var t := row[0].to;
      var acc' := acc[t := acc[t] + [Edge(u, row[0].weight)]];
      TotalEdgesUpdate(acc, t, acc[t] + [Edge(u, row[0].weight)]);
      AppendReversedTotal(acc', u, row[1..]);
    }
  }

  lemma {:induction false} TransposeFromFacts(adj: seq<seq<Edge>>, acc: seq<seq<Edge>>, u: nat, v: int, x: int, w: int)
    requires u <= |adj| && |acc| == |adj| && RowsBounded(adj, |adj|) && RowsBounded(acc, |adj|)
    ensures RowsBounded(TransposeFrom(adj, acc, u), |adj|)
    ensures TotalEdges(TransposeFrom(adj, acc, u)) == TotalEdges(acc) + TotalEdges(adj) - TotalEdges(adj[..u])
    ensures 0 <= v < |adj| ==>
      Count(TransposeFrom(adj, acc, u)[v], Edge(x, w))
      == Count(acc[v], Edge(x, w)) + (if u <= x < |adj| then Count(adj[x], Edge(v, w)) else 0)
    decreases |adj| - u
  {
    if u == |adj| {
      assert adj[..u] == adj;
    } else {
      var acc' := AppendReversed(acc, u, adj[u]);
      if 0 <= v < |adj| {
        AppendReversedCount(acc, u, adj[u], v, x, w);
      }
      AppendReversedBounded(acc, u, adj[u], |adj|);
      AppendReversedTotal(acc, u, adj[u]);
      assert adj[..u + 1][..u] == adj[..u];
      TransposeFromFacts(adj, acc', u + 1, v, x, w);
    }
  }

  lemma TransposeCount(adj: seq<seq<Edge>>, u: int, v: int, w: int)
    requires RowsBounded(adj, |adj|) && 0 <= u < |adj| && 0 <= v < |adj|
    ensures Count(Transpose(adj)[v], Edge(u, w)) == Count(adj[u], Edge(v, w))
  {
    TransposeFromFacts(adj, Empties(|adj|), 0, v, u, w);
  }

  lemma TransposeShape(adj: seq<seq<Edge>>)
    requires RowsBounded(adj, |adj|)
    ensures RowsBounded(Transpose(adj), |adj|)
    ensures TotalEdges(Transpose(adj)) == TotalEdges(adj)
  {
    EmptiesHaveNoEdges(|adj|);
    assert adj[..0] == [];
    TransposeFromFacts(adj, Empties(|adj|), 0, 0, 0, 0);
  }

  /**
   * The transpose is a graph on the same vertices with the same number of
   * entries, and (u, w) occurs in rev[v] exactly as often as (v, w) in adj[u].
   */
  lemma TransposeCorrect(adj: seq<seq<Edge>>)
    requires RowsBounded(adj, |adj|)
    ensures RowsBounded(Transpose(adj), |adj|)
    ensures TotalEdges(Transpose(adj)) == TotalEdges(adj)
    ensures forall u, v, w :: 0 <= u < |adj| && 0 <= v < |adj| ==>
      Count(Transpose(adj)[v], Edge(u, w)) == Count(adj[u], Edge(v, w))
  {
    TransposeShape(adj);
    forall u, v, w | 0 <= u < |adj| && 0 <= v < |adj|
      ensures Count(Transpose(adj)[v], Edge(u, w)) == Count(adj[u], Edge(v, w))
    {
      TransposeCount(adj, u, v, w);
    }
  }

  /** reversed() of a well-formed graph is well formed and keeps every entry, reversed. */
  lemma ReversedCorrect(g: GraphView)
    requires g.Wf()
    ensures ReversedView(g).Wf()
    ensures TotalEdges(ReversedView(g).adj) == TotalEdges(g.adj)
    ensures g.directed ==> forall u, v, w :: 0 <= u < g.n && 0 <= v < g.n ==>
      Count(ReversedView(g).adj[v], Edge(u, w)) == Count(g.adj[u], Edge(v, w))
    ensures !g.directed ==> ReversedView(g).adj == g.adj
  {
    if g.directed {
      TransposeCorrect(g.adj);
    }
  }

  class Graph {
    var vertices: int
    var directed: bool
    var adj: seq<seq<Edge>>

    function View(): GraphView
      reads this
    {
      GraphView(vertices, directed, adj)
    }

    ghost predicate Valid()
      reads this
    {
      View().Wf()
    }

    /** `Graph(vertices, directed)`: exactly `vertices` empty lists and the given flag. */
    constructor (vertices: int, directed: bool)
      requires vertices >= 0
      ensures Valid() && View() == Empty(vertices, directed)
    {
      this.vertices := vertices;
      this.directed := directed;
      this.adj := Empties(vertices);
    }

    /** `Graph()`: no vertices, undirected. */
    constructor Default()
      ensures Valid() && View() == Empty(0, false)
      ensures vertices == 0 && !directed
    {
      vertices := 0;
      directed := false;
      adj := [];
    }

    /** The copy constructor reproduces the count, the flag and every list. */
    constructor Copy(graph: Graph)
      requires graph.Valid()
      ensures Valid() && View() == graph.View()
    {
      vertices := graph.vertices;
      directed := graph.directed;
      adj := graph.adj;
    }

    function NumVertices(): (r: int)
      reads this
      ensures r == View().n
    {
      vertices
    }

    function IsDirected(): (r: bool)
      reads this
      ensures r == View().directed
    {
      directed
    }

    function Neighbours(u: int): (r: seq<Edge>)
      reads this
      requires Valid() && 0 <= u < vertices
      ensures forall k :: 0 <= k < |r| ==> 0 <= r[k].to < vertices
    {
      adj[u]
    }

    /** The degree (out-degree when directed) is the length of the neighbour list. */
    function Degree(u: int): (r: nat)
      reads this
      requires Valid() && 0 <= u < vertices
      ensures r == |Neighbours(u)|
    {
      |adj[u]|
    }

    /**
     * `addEdge(u, v, w)`: `ok` is false exactly when an endpoint is outside
     * [0, n), which throws `std::out_of_range` and changes nothing.
     */
    method AddEdge(u: int, v: int, w: int) returns (ok: bool)
      requires Valid()
      modifies this
      ensures Valid()
      ensures ok <==> 0 <= u < old(vertices) && 0 <= v < old(vertices)
      ensures View() == if ok then WithEdge(old(View()), u, v, w) else old(View())
      ensures !directed && old(View().Symmetric()) ==> View().Symmetric()
    {
      if u < 0 || v < 0 || u >= vertices || v >= vertices {
        return false;
      }
      ghost var before := View();
      adj := adj[u := adj[u] + [Edge(v, w)]];
      if !directed {
        adj := adj[v := adj[v] + [Edge(u, w)]];
      }
      ok := true;
      assert View() == WithEdge(before, u, v, w);
      if !directed && before.Symmetric() {
        WithEdgeSymmetric(before, u, v, w);
      }
    }

    /** `addEdge(u, v)` with the default weight 1. */
    method AddUnitEdge(u: int, v: int) returns (ok: bool)
      requires Valid()
      modifies this
      ensures Valid()
      ensures ok <==> 0 <= u < old(vertices) && 0 <= v < old(vertices)
      ensures View() == if ok then WithEdge(old(View()), u, v, 1) else old(View())
      ensures !directed && old(View().Symmetric()) ==> View().Symmetric()
    {
      ok := AddEdge(u, v, 1);
    }

    /** The inner loop of `reversed()`: adds (u, w) to the list of v for every entry (v, w) of `row`. */
    method AppendReversedRow(u: int, row: seq<Edge>)
      requires forall k :: 0 <= k < |row| ==> 0 <= row[k].to < |adj|
      modifies this
      ensures vertices == old(vertices) && directed == old(directed)
      ensures adj == AppendReversed(old(adj), u, row)
    {
      var k := 0;
      while k < |row|
        invariant 0 <= k <= |row|
        invariant vertices == old(vertices) && directed == old(directed) && |adj| == |old(adj)|
        invariant AppendReversed(old(adj), u, row) == AppendReversed(adj, u, row[k..])
      {
        var e := row[k];
        assert row[k..] == [e] + row[k + 1..];
        adj := adj[e.to := adj[e.to] + [Edge(u, e.weight)]];
        k := k + 1;
      }
    }

    /** `reversed()`: a new graph, the receiver left as it was. */
    method Reversed() returns (rev: Graph)
      requires Valid()
      ensures fresh(rev) && rev.Valid()
      ensures rev.View() == ReversedView(View())
    {
      rev := new Graph(vertices, directed);
      if directed {
        var u := 0;
        while u < vertices
          invariant 0 <= u <= vertices
          invariant rev.vertices == vertices && rev.directed && |rev.adj| == vertices
          invariant TransposeFrom(adj, rev.adj, u) == Transpose(adj)
        {
          rev.AppendReversedRow(u, adj[u]);
          u := u + 1;
        }
        TransposeCorrect(adj);
      } else {
        rev.adj := adj;
      }
    }
  }
}
