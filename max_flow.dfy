/**
 * Edmonds–Karp maximum flow from vertex 0 to vertex n-1: a capacity matrix
 * built from the adjacency lists, a breadth-first search for a shortest
 * augmenting path in the residual matrix, and the augmentation along the
 * parent chain that search leaves behind.
 *
 * The matrices are the `std::vector` values of the source (copied, never
 * shared), so they are modelled as `seq<seq<int>>` values that the loops
 * reassign.
 */
module MaxFlow {
  import opened Text
  import opened Graphs

  /** `std::numeric_limits<long long>::max()`, the flow the source is pushed with. */
  const Infinity: int := 0x7fff_ffff_ffff_ffff

  const TooSmallText := "Graph must contain at least two vertices to compute max flow."
  const FlowText := "Max flow from 0 to "

  function Sum(s: seq<int>): int {
    if s == [] then 0 else Sum(s[..|s| - 1]) + s[|s| - 1]
  }

  function Pos(x: int): nat {
    if x > 0 then x else 0
  }

  /** The sum of the positive entries. */
  function PosSum(s: seq<int>): nat {
    if s == [] then 0 else PosSum(s[..|s| - 1]) + Pos(s[|s| - 1])
  }

  lemma SumSnoc(s: seq<int>, x: int)
    ensures Sum(s + [x]) == Sum(s) + x
  {
    assert (s + [x])[..|s|] == s;
  }

  lemma {:induction false} SumUpdate(s: seq<int>, j: int, x: int)
    requires 0 <= j < |s|
    ensures Sum(s[j := x]) == Sum(s) - s[j] + x
    ensures PosSum(s[j := x]) == PosSum(s) - Pos(s[j]) + Pos(x)
  {
    var t := s[j := x];
    if j < |s| - 1 {
      assert t[..|t| - 1] == s[..|s| - 1][j := x];
      SumUpdate(s[..|s| - 1], j, x);
    } else {
      assert t[..|t| - 1] == s[..|s| - 1];
    }
  }

  /** An n-by-n matrix. */
  predicate Square(m: seq<seq<int>>, n: int) {
    |m| == n && forall u :: 0 <= u < n ==> |m[u]| == n
  }

  // ---------------------------------------------------------------------
  // The capacity matrix (lines 22-32)
  // ---------------------------------------------------------------------

  /**
   * The capacity from `u` to `v`: the weights of all entries u -> v, and,
   * for an undirected graph, also those of all entries v -> u.
   */
  function Cap(g: GraphView, u: int, v: int): int
    requires g.Wf() && 0 <= u < g.n && 0 <= v < g.n
  {
    Sum(WeightsTo(g.adj[u], v)) + (if g.directed then 0 else Sum(WeightsTo(g.adj[v], u)))
  }

  /** The matrix holds the capacity of every pair. */
  ghost predicate Capacities(g: GraphView, cap: seq<seq<int>>)
    requires g.Wf()
  {
    Square(cap, g.n) && forall u, v :: 0 <= u < g.n && 0 <= v < g.n ==> cap[u][v] == Cap(g, u, v)
  }

  /**
   * An undirected graph already lists each edge in both rows, so the mirrored
   * addition counts every edge twice: each direction gets twice its weight.
   */
  lemma CapacityDoubles(g: GraphView, u: int, v: int)
    requires g.Wf() && 0 <= u < g.n && 0 <= v < g.n
    requires !g.directed && g.Symmetric()
    ensures Cap(g, u, v) == 2 * Sum(WeightsTo(g.adj[u], v))
    ensures Cap(g, u, v) == Cap(g, v, u)
  {}

  /** The weight from `a` to `b` among the entries visited before entry `k` of row `u`. */
  function Seen(g: GraphView, u: int, k: int, a: int, b: int): int
    requires g.Wf() && 0 <= u <= g.n && (u < g.n ==> 0 <= k <= |g.adj[u]|) && 0 <= a < g.n
  {
    if a < u then Sum(WeightsTo(g.adj[a], b))
    else if a == u then Sum(WeightsTo(g.adj[u][..k], b))
    else 0
  }

  /** The matrix after the additions of the entries before entry `k` of row `u`. */
  ghost predicate Built(g: GraphView, cap: seq<seq<int>>, u: int, k: int)
    requires g.Wf() && 0 <= u <= g.n && (u < g.n ==> 0 <= k <= |g.adj[u]|)
  {
    Square(cap, g.n) &&
    forall a, b :: 0 <= a < g.n && 0 <= b < g.n ==>
      cap[a][b] == Seen(g, u, k, a, b) + (if g.directed then 0 else Seen(g, u, k, b, a))
  }

  /** Visiting entry `k` of row `u` adds its weight at (u, to) and, undirected, at (to, u). */
  lemma BuiltStep(g: GraphView, cap: seq<seq<int>>, cap': seq<seq<int>>, u: int, k: int)
    requires g.Wf() && 0 <= u < g.n && 0 <= k < |g.adj[u]| && Built(g, cap, u, k)
    requires Square(cap', g.n)
    requires forall a, b :: 0 <= a < g.n && 0 <= b < g.n ==>
      cap'[a][b] == cap[a][b]
        + (if a == u && b == g.adj[u][k].to then g.adj[u][k].weight else 0)
        + (if !g.directed && a == g.adj[u][k].to && b == u then g.adj[u][k].weight else 0)
    ensures Built(g, cap', u, k + 1)
  {
    var e := g.adj[u][k];
    assert g.adj[u][..k + 1] == g.adj[u][..k] + [e];
    forall b | 0 <= b < g.n
      ensures Seen(g, u, k + 1, u, b) == Seen(g, u, k, u, b) + (if b == e.to then e.weight else 0)
    {
      WeightsToSnoc(g.adj[u][..k], e, b);
      if b == e.to {
        SumSnoc(WeightsTo(g.adj[u][..k], b), e.weight);
      } else {
        assert WeightsTo(g.adj[u][..k + 1], b) == WeightsTo(g.adj[u][..k], b);
      }
    }
  }

  lemma BuiltRow(g: GraphView, cap: seq<seq<int>>, u: int)
    requires g.Wf() && 0 <= u < g.n && Built(g, cap, u, |g.adj[u]|)
    ensures Built(g, cap, u + 1, 0)
  {
    assert g.adj[u][..|g.adj[u]|] == g.adj[u];
  }

  function Zeros(n: nat): (m: seq<seq<int>>)
    ensures Square(m, n) && forall a, b :: 0 <= a < n && 0 <= b < n ==> m[a][b] == 0
  {
    seq(n, _ => seq(n, _ => 0))
  }

  /** Lines 25-30: one entry u -> v of weight w adds w at (u, v) and, undirected, at (v, u). */
  method AddEntry(cap: seq<seq<int>>, n: int, u: int, v: int, w: int, directed: bool) returns (cap': seq<seq<int>>)
    requires Square(cap, n) && 0 <= u < n && 0 <= v < n
    ensures Square(cap', n)
    ensures forall a, b :: 0 <= a < n && 0 <= b < n ==>
      cap'[a][b] == cap[a][b] + (if a == u && b == v then w else 0) + (if !directed && a == v && b == u then w else 0)
  {
    cap' := cap[u := cap[u][v := cap[u][v] + w]];
    if !directed {
      cap' := cap'[v := cap'[v][u := cap'[v][u] + w]];
    }
  }

  /** Lines 22-32: the capacity matrix, filled in by one pass over every adjacency entry. */
  method BuildCapacity(g: GraphView) returns (cap: seq<seq<int>>)
    requires g.Wf()
    ensures Capacities(g, cap)
  {
    cap := Zeros(g.n);
    var u := 0;
    while u < g.n
      invariant 0 <= u <= g.n && Built(g, cap, u, 0)
    {
      var k := 0;
      while k < |g.adj[u]|
        invariant 0 <= k <= |g.adj[u]| && Built(g, cap, u, k)
      {
        ghost var before := cap;
        cap := AddEntry(cap, g.n, u, g.adj[u][k].to, g.adj[u][k].weight, g.directed);
        BuiltStep(g, before, cap, u, k);
        k := k + 1;
      }
      BuiltRow(g, cap, u);
      u := u + 1;
    }
  }

  // ---------------------------------------------------------------------
  // Augmenting paths in the residual matrix
  // ---------------------------------------------------------------------

  /** The pair (a, b) has positive residual capacity. */
  predicate Residual(res: seq<seq<int>>, a: int, b: int) {
    0 <= a < |res| && 0 <= b < |res[a]| && res[a][b] > 0
  }

  /** A non-empty walk along pairs of positive residual capacity. */
  predicate IsResidualPath(res: seq<seq<int>>, p: seq<int>) {
    && |p| >= 1
    && (forall i :: 0 <= i < |p| ==> 0 <= p[i] < |res|)
    && (forall i :: 0 <= i < |p| - 1 ==> Residual(res, p[i], p[i + 1]))
  }

  ghost predicate Augmentable(res: seq<seq<int>>, s: int, t: int) {
    exists p :: IsResidualPath(res, p) && p[0] == s && p[|p| - 1] == t
  }

  /**
   * What one search leaves in `parent`: the source carries -2, an unreached
   * vertex -1, and a reached one the vertex it was reached from, over a pair
   * of positive residual capacity. The ghost `rank` (the search depth) falls
   * along parents, and the ghost `flow` (the bottleneck the source pushed
   * with) is positive and bounded by the parent's flow and by the residual.
   */
  ghost predicate Tree(res: seq<seq<int>>, parent: seq<int>, rank: seq<nat>, flow: seq<int>) {
    var n := |parent|;
    && n >= 1 && Square(res, n) && |rank| == n && |flow| == n
    && parent[0] == -2 && flow[0] > 0
    && (forall v :: 0 < v < n ==> -1 <= parent[v] < n)
    && (forall v :: 0 < v < n && parent[v] >= 0 ==>
         && parent[parent[v]] != -1
         && rank[parent[v]] < rank[v]
         && res[parent[v]][v] > 0
         && 0 < flow[v] <= flow[parent[v]]
         && flow[v] <= res[parent[v]][v])
  }

  /** Every queued vertex is reached and queued with its flow. */
  ghost predicate Queued(parent: seq<int>, flow: seq<int>, q: seq<Item>) {
    forall i :: 0 <= i < |q| ==>
      0 <= q[i].u < |parent| && |flow| == |parent| && parent[q[i].u] != -1 && q[i].flow == flow[q[i].u]
  }

  predicate InQueue(q: seq<Item>, x: int) {
    exists i :: 0 <= i < |q| && q[i].u == x
  }

  /** Every reached vertex other than `skip` that has left the queue has its whole row examined. */
  ghost predicate Explored(res: seq<seq<int>>, parent: seq<int>, q: seq<Item>, skip: int) {
    forall x, y ::
      (0 <= x < |parent| && 0 <= y < |parent| && x != skip && parent[x] != -1 && !InQueue(q, x) && Residual(res, x, y))
      ==> parent[y] != -1
  }

  datatype Item = Item(u: int, flow: int)

  function Unlabelled(parent: seq<int>): nat {
    if parent == [] then 0 else Unlabelled(parent[..|parent| - 1]) + (if parent[|parent| - 1] == -1 then 1 else 0)
  }

  lemma {:induction false} UnlabelledSet(parent: seq<int>, v: int, x: int)
    requires 0 <= v < |parent| && parent[v] == -1 && x != -1
    ensures Unlabelled(parent[v := x]) == Unlabelled(parent) - 1
  {
    var p := parent[v := x];
    if v < |parent| - 1 {
      assert p[..|p| - 1] == parent[..|parent| - 1][v := x];
      UnlabelledSet(parent[..|parent| - 1], v, x);
    } else {
      assert p[..|p| - 1] == parent[..|parent| - 1];
    }
  }

  /** Reaching `v` from `u` keeps the tree a tree. */
  lemma Label(res: seq<seq<int>>, parent: seq<int>, rank: seq<nat>, flow: seq<int>, u: int, v: int, f: int)
    requires Tree(res, parent, rank, flow)
    requires 0 <= u < |parent| && parent[u] != -1 && 0 <= v < |parent| && parent[v] == -1
    requires res[u][v] > 0 && 0 < f <= flow[u] && f <= res[u][v]
    ensures Tree(res, parent[v := u], rank[v := rank[u] + 1], flow[v := f])
  {}

  /** A walk that starts at a reached vertex stays among reached vertices once no row is left to examine. */
  lemma {:induction false} StaysReached(res: seq<seq<int>>, parent: seq<int>, p: seq<int>)
    requires Explored(res, parent, [], -1) && IsResidualPath(res, p) && |res| == |parent|
    requires parent[p[0]] != -1
    ensures parent[p[|p| - 1]] != -1
  {
    if |p| > 1 {
      assert !InQueue([], p[0]);
      StaysReached(res, parent, p[1..]);
    }
  }

  /** Taking the head of the queue leaves its vertex's row the only one possibly unexamined. */
  lemma ExploredPop(res: seq<seq<int>>, parent: seq<int>, flow: seq<int>, q: seq<Item>)
    requires q != [] && Queued(parent, flow, q) && Explored(res, parent, q, -1)
    ensures Queued(parent, flow, q[1..]) && Explored(res, parent, q[1..], q[0].u)
  {
    forall x | InQueue(q, x) && x != q[0].u ensures InQueue(q[1..], x) {
      var i :| 0 <= i < |q| && q[i].u == x;
      assert q[1..][i - 1].u == x;
    }
  }

  /** Reaching `v` from `u` and queueing it keeps the queue and the examined rows in order. */
  lemma ExploredLabel(res: seq<seq<int>>, parent: seq<int>, flow: seq<int>, q: seq<Item>, u: int, v: int, f: int)
    requires Queued(parent, flow, q) && Explored(res, parent, q, u)
    requires 0 <= u < |parent| && 0 <= v < |parent| && parent[v] == -1 && |flow| == |parent|
    ensures Queued(parent[v := u], flow[v := f], q + [Item(v, f)])
    ensures Explored(res, parent[v := u], q + [Item(v, f)], u)
  {
    var q' := q + [Item(v, f)];
    assert q'[|q|].u == v;
    forall x | InQueue(q, x) ensures InQueue(q', x) {
      var i :| 0 <= i < |q| && q[i].u == x;
      assert q'[i].u == x;
    }
  }

  /** Once the whole row of `u` is examined, every vertex that left the queue is done. */
  lemma ExploredRow(res: seq<seq<int>>, parent: seq<int>, q: seq<Item>, u: int)
    requires Explored(res, parent, q, u) && Square(res, |parent|) && 0 <= u < |parent|
    requires forall y :: 0 <= y < |parent| && res[u][y] > 0 ==> parent[y] != -1
    ensures Explored(res, parent, q, -1)
  {}

  function Min(a: int, b: int): int {
    if a <= b then a else b
  }

  /**
   * Lines 38-59: the breadth-first search from the source. A positive
   * `pathFlow` means the sink was reached, with that bottleneck; zero means
   * no walk of positive residual capacity leads from the source to the sink.
   */
  method Bfs(res: seq<seq<int>>) returns (parent: seq<int>, pathFlow: int, ghost rank: seq<nat>, ghost flow: seq<int>)
    requires |res| >= 2 && Square(res, |res|)
    ensures |parent| == |res| && Tree(res, parent, rank, flow)
    ensures pathFlow >= 0
    ensures pathFlow > 0 ==> parent[|res| - 1] >= 0 && pathFlow == flow[|res| - 1]
    ensures pathFlow == 0 ==> !Augmentable(res, 0, |res| - 1)
  {
    var n := |res|;
    var sink := n - 1;
    parent := seq(n, _ => -1)[0 := -2];
    rank := seq(n, _ => 0);
    flow := seq(n, _ => 0)[0 := Infinity];
    var q := [Item(0, Infinity)];
    assert q[0].u == 0;
    pathFlow := 0;
    while q != []
      invariant |parent| == n && Tree(res, parent, rank, flow)
      invariant pathFlow == 0 && parent[sink] == -1
      invariant Queued(parent, flow, q) && Explored(res, parent, q, -1)
      decreases 2 * Unlabelled(parent) + |q|
    {
      var u, f := q[0].u, q[0].flow;
      ExploredPop(res, parent, flow, q);
      parent, rank, flow, q, pathFlow := Scan(res, parent, rank, flow, q[1..], u, f);
      if pathFlow > 0 {
        break;
      }
    }
    if pathFlow == 0 {
      forall p | IsResidualPath(res, p) && p[0] == 0 ensures p[|p| - 1] != sink {
        StaysReached(res, parent, p);
      }
    }
  }

  /** Lines 47-57: examine the whole row of `u`, stopping once the sink is reached. */
  method Scan(res: seq<seq<int>>, parent: seq<int>, ghost rank: seq<nat>, ghost flow: seq<int>, q: seq<Item>, u: int, f: int)
      returns (parent': seq<int>, ghost rank': seq<nat>, ghost flow': seq<int>, q': seq<Item>, pathFlow: int)
    requires |res| >= 2 && Square(res, |res|)
    requires |parent| == |res| && Tree(res, parent, rank, flow) && parent[|res| - 1] == -1
    requires 0 <= u < |res| && parent[u] != -1 && f == flow[u]
    requires Queued(parent, flow, q) && Explored(res, parent, q, u)
    ensures |parent'| == |res| && Tree(res, parent', rank', flow') && pathFlow >= 0
    ensures pathFlow > 0 ==> parent'[|res| - 1] >= 0 && pathFlow == flow'[|res| - 1]
    ensures pathFlow == 0 ==> parent'[|res| - 1] == -1
    ensures pathFlow == 0 ==> Queued(parent', flow', q') && Explored(res, parent', q', -1)
    ensures 2 * Unlabelled(parent') + |q'| <= 2 * Unlabelled(parent) + |q|
  {
    parent', rank', flow', q', pathFlow := parent, rank, flow, q, 0;
    var n := |res|;
    var v := 0;
    while v < n
      invariant 0 <= v <= n && |parent'| == n && Tree(res, parent', rank', flow')
      invariant parent'[n - 1] == -1 && parent'[u] != -1 && f == flow'[u]
      invariant Queued(parent', flow', q') && Explored(res, parent', q', u)
      invariant forall y :: 0 <= y < v && res[u][y] > 0 ==> parent'[y] != -1
      invariant 2 * Unlabelled(parent') + |q'| <= 2 * Unlabelled(parent) + |q|
    {
      parent', rank', flow', q', pathFlow := Visit(res, parent', rank', flow', q', u, f, v);
      if pathFlow > 0 {
        return;
      }
      v := v + 1;
    }
    ExploredRow(res, parent', q', u);
  }

  /** One round of the inner loop of lines 49-57: examine the edge u -> v. */
  method Visit(res: seq<seq<int>>, parent: seq<int>, ghost rank: seq<nat>, ghost flow: seq<int>, q: seq<Item>, u: int, f: int, v: int)
      returns (parent': seq<int>, ghost rank': seq<nat>, ghost flow': seq<int>, q': seq<Item>, pathFlow: int)
    requires |res| >= 2 && Square(res, |res|) && 0 <= v < |res|
    requires |parent| == |res| && Tree(res, parent, rank, flow) && parent[|res| - 1] == -1
    requires 0 <= u < |res| && parent[u] != -1 && f == flow[u]
    requires Queued(parent, flow, q) && Explored(res, parent, q, u)
    ensures |parent'| == |res| && Tree(res, parent', rank', flow') && pathFlow >= 0
    ensures pathFlow > 0 ==> parent'[|res| - 1] >= 0 && pathFlow == flow'[|res| - 1]
    ensures pathFlow == 0 ==> parent'[|res| - 1] == -1
    ensures pathFlow == 0 ==> Queued(parent', flow', q') && Explored(res, parent', q', u)
    ensures pathFlow == 0 ==> res[u][v] > 0 ==> parent'[v] != -1
    ensures forall y :: 0 <= y < |res| && parent[y] != -1 ==> parent'[y] == parent[y] && flow'[y] == flow[y]
    ensures 2 * Unlabelled(parent') + |q'| <= 2 * Unlabelled(parent) + |q|
  {
    parent', rank', flow', q', pathFlow := parent, rank, flow, q, 0;
    if parent[v] == -1 && res[u][v] > 0 {
      var newFlow := Min(f, res[u][v]);
      Label(res, parent, rank, flow, u, v, newFlow);
      UnlabelledSet(parent, v, u);
      ExploredLabel(res, parent, flow, q, u, v, newFlow);
      parent', rank', flow' := parent[v := u], rank[v := rank[u] + 1], flow[v := newFlow];
      if v == |res| - 1 {
        pathFlow := newFlow;
      } else {
        q' := q + [Item(v, newFlow)];
      }
    }
  }

  // ---------------------------------------------------------------------
  // Augmentation (lines 64-72)
  // ---------------------------------------------------------------------

  /**
   * The parent chain from the sink back to (but not including) the source:
   * distinct non-source vertices, each the parent of the one before it, the
   * last one reached straight from the source.
   */
  ghost predicate ParentChain(parent: seq<int>, path: seq<int>) {
    && |path| >= 1 && path[0] == |parent| - 1
    && (forall i :: 0 <= i < |path| ==> 0 < path[i] < |parent| && 0 <= parent[path[i]] < |parent|)
    && (forall i, j {:trigger path[i], path[j]} :: 0 <= i && j == i + 1 && j < |path| ==> parent[path[i]] == path[j])
    && parent[path[|path| - 1]] == 0
    && (forall i, j :: 0 <= i < j < |path| ==> path[i] != path[j])
  }

  /** What augmenting along `path` takes from the pair (a, b). */
  function Along(parent: seq<int>, path: seq<int>, f: int, a: int, b: int): int {
    if b in path && 0 <= b < |parent| && parent[b] == a then f else 0
  }

  /** The residual after pushing `f` along `path`: the forward pair loses it, the backward pair gains it. */
  ghost predicate Pushed(parent: seq<int>, path: seq<int>, f: int, res: seq<seq<int>>, res': seq<seq<int>>) {
    var n := |parent|;
    Square(res, n) && Square(res', n) &&
    forall a, b :: 0 <= a < n && 0 <= b < n ==>
      res'[a][b] == res[a][b] - Along(parent, path, f, a, b) + Along(parent, path, f, b, a)
  }

  /** Pushing along one more pair (u, v) of the chain. */
  lemma PushStep(parent: seq<int>, path: seq<int>, f: int, res: seq<seq<int>>, before: seq<seq<int>>, after: seq<seq<int>>, u: int, v: int)
    requires Pushed(parent, path, f, res, before)
    requires 0 <= u < |parent| && 0 <= v < |parent| && u != v && parent[v] == u && v !in path && u !in path
    requires Square(after, |parent|)
    requires forall a, b :: 0 <= a < |parent| && 0 <= b < |parent| ==>
      after[a][b] == before[a][b] - (if a == u && b == v then f else 0) + (if a == v && b == u then f else 0)
    ensures Pushed(parent, path + [v], f, res, after)
  {
    var n := |parent|;
    forall a, b | 0 <= a < n && 0 <= b < n
      ensures after[a][b] == res[a][b] - Along(parent, path + [v], f, a, b) + Along(parent, path + [v], f, b, a)
    {
      assert b in path + [v] <==> b in path || b == v;
      assert a in path + [v] <==> a in path || a == v;
    }
  }

  /** Lines 69-70: `f` moves from the pair (u, v) to the pair (v, u). */
  method PushPair(m: seq<seq<int>>, n: int, u: int, v: int, f: int) returns (m': seq<seq<int>>)
    requires Square(m, n) && 0 <= u < n && 0 <= v < n && u != v
    ensures Square(m', n)
    ensures forall a, b :: 0 <= a < n && 0 <= b < n ==>
      m'[a][b] == m[a][b] - (if a == u && b == v then f else 0) + (if a == v && b == u then f else 0)
  {
    m' := m[u := m[u][v := m[u][v] - f]];
    m' := m'[v := m'[v][u := m'[v][u] + f]];
  }

  /**
   * `path` is the part of the parent chain walked so far, from the sink down
   * to just above `v`; ranks fall strictly along it.
   */
  ghost predicate Walked(parent: seq<int>, rank: seq<nat>, path: seq<int>, v: int) {
    var n := |parent|;
    && 0 <= v < n && |rank| == n
    && (forall i :: 0 <= i < |path| ==> 0 < path[i] < n && rank[path[i]] > rank[v] && 0 <= parent[path[i]] < n)
    && (path == [] ==> v == n - 1)
    && (path != [] ==> path[0] == n - 1 && parent[path[|path| - 1]] == v)
    && (forall i, j {:trigger path[i], path[j]} :: 0 <= i && j == i + 1 && j < |path| ==> parent[path[i]] == path[j])
    && (forall i, j :: 0 <= i < j < |path| ==> rank[path[i]] > rank[path[j]])
  }

  /** `f` fits in the residual of every pair of the walked chain. */
  ghost predicate Fits(res: seq<seq<int>>, parent: seq<int>, path: seq<int>, f: int) {
    forall i :: 0 <= i < |path| ==>
      0 <= path[i] < |parent| && 0 <= parent[path[i]] < |res| && path[i] < |res[parent[path[i]]]| &&
      f <= res[parent[path[i]]][path[i]]
  }

  lemma WalkStep(res: seq<seq<int>>, parent: seq<int>, rank: seq<nat>, flow: seq<int>, path: seq<int>, v: int, f: int)
    requires Tree(res, parent, rank, flow) && Walked(parent, rank, path, v) && Fits(res, parent, path, f)
    requires v != 0 && parent[v] != -1 && f <= flow[v]
    ensures v !in path && parent[v] !in path && parent[v] != v && 0 <= parent[v] < |parent|
    ensures Walked(parent, rank, path + [v], parent[v]) && Fits(res, parent, path + [v], f)
    ensures f <= flow[parent[v]] && rank[parent[v]] < rank[v]
  {}

  method Augment(res: seq<seq<int>>, parent: seq<int>, ghost rank: seq<nat>, ghost flow: seq<int>, pathFlow: int)
    returns (res': seq<seq<int>>, ghost path: seq<int>)
    requires |parent| >= 2 && Tree(res, parent, rank, flow)
    requires parent[|parent| - 1] >= 0 && 0 < pathFlow <= flow[|parent| - 1]
    ensures ParentChain(parent, path) && Pushed(parent, path, pathFlow, res, res')
    ensures Fits(res, parent, path, pathFlow)
  {
    var n := |parent|;
    var v := n - 1;
    res' := res;
    path := [];
    while v != 0
      invariant 0 <= v < n && parent[v] != -1 && pathFlow <= flow[v]
      invariant Pushed(parent, path, pathFlow, res, res')
      invariant Walked(parent, rank, path, v) && Fits(res, parent, path, pathFlow)
      decreases rank[v]
    {
      var u := parent[v];
      WalkStep(res, parent, rank, flow, path, v, pathFlow);
      ghost var before := res';
      res' := PushPair(res', n, u, v, pathFlow);
      PushStep(parent, path, pathFlow, res, before, res', u, v);
      path := path + [v];
      v := u;
    }
    WalkEnd(parent, rank, path);
  }

  lemma WalkEnd(parent: seq<int>, rank: seq<nat>, path: seq<int>)
    requires |parent| >= 2 && parent[0] == -2 && Walked(parent, rank, path, 0)
    ensures ParentChain(parent, path)
  {}

  // ---------------------------------------------------------------------
  // What one augmentation does to the residual matrix
  // ---------------------------------------------------------------------

  /** A row that changed at one place. */
  lemma ChangedOnce(s: seq<int>, t: seq<int>, j: int, d: int)
    requires |s| == |t| && 0 <= j < |s|
    requires forall b :: 0 <= b < |s| ==> t[b] == s[b] + (if b == j then d else 0)
    ensures t == s[j := s[j] + d]
  {}

  /** A row that changed at two distinct places. */
  lemma ChangedTwice(s: seq<int>, t: seq<int>, j: int, dj: int, k: int, dk: int)
    requires |s| == |t| && 0 <= j < |s| && 0 <= k < |s| && j != k
    requires forall b :: 0 <= b < |s| ==> t[b] == s[b] + (if b == j then dj else 0) + (if b == k then dk else 0)
    ensures Sum(t) == Sum(s) + dj + dk
  {
    var s1 := s[j := s[j] + dj];
    assert t == s1[k := s1[k] + dk];
    SumUpdate(s, j, s[j] + dj);
    SumUpdate(s1, k, s1[k] + dk);
  }

  /** The amount augmenting by `f` adds to the outflow of row `x`: the sink gains, the source loses. */
  function Gain(n: int, f: int, x: int): int {
    (if x == n - 1 then f else 0) - (if x == 0 then f else 0)
  }

  /** The source row loses `f` at the first pair of the path, and nowhere else. */
  lemma SourceRow(parent: seq<int>, path: seq<int>, f: int, res: seq<seq<int>>, res': seq<seq<int>>)
    requires |parent| >= 2 && ParentChain(parent, path) && Pushed(parent, path, f, res, res')
    ensures res'[0] == res[0][path[|path| - 1] := res[0][path[|path| - 1]] - f]
    ensures Sum(res'[0]) == Sum(res[0]) - f
  {
    var n := |parent|;
    var last := path[|path| - 1];
    assert 0 !in path;
    forall b | 0 <= b < n
      ensures res'[0][b] == res[0][b] + (if b == last then -f else 0)
    {
      if b in path && b != last {
        var j :| 0 <= j < |path| && path[j] == b;
        assert parent[b] == path[j + 1];
      }
    }
    ChangedOnce(res[0], res'[0], last, -f);
    SumUpdate(res[0], last, res[0][last] - f);
  }

  /** The pair from the source into the path had at least `f` left, so the source row's positive part loses `f`. */
  lemma SourceShrinks(parent: seq<int>, path: seq<int>, f: int, res: seq<seq<int>>, res': seq<seq<int>>)
    requires |parent| >= 2 && ParentChain(parent, path) && Pushed(parent, path, f, res, res')
    requires Fits(res, parent, path, f) && f > 0
    ensures PosSum(res'[0]) == PosSum(res[0]) - f
  {
    var last := path[|path| - 1];
    SourceRow(parent, path, f, res, res');
    assert f <= res[0][last];
    SumUpdate(res[0], last, res[0][last] - f);
  }

  /** The sink's row gains `f` on its pair back to its parent. */
  lemma SinkRow(parent: seq<int>, path: seq<int>, f: int, res: seq<seq<int>>, res': seq<seq<int>>)
    requires |parent| >= 2 && ParentChain(parent, path) && Pushed(parent, path, f, res, res')
    ensures Sum(res'[|parent| - 1]) == Sum(res[|parent| - 1]) + f
  {
    var n := |parent|;
    var x := n - 1;
    var p := parent[x];
    forall b | 0 <= b < n
      ensures res'[x][b] == res[x][b] + (if b == p then f else 0)
    {
      assert x in path;
      if b in path {
        var j :| 0 <= j < |path| && path[j] == b;
        if j < |path| - 1 {
          assert parent[b] == path[j + 1] && path[j + 1] != path[0];
        }
      }
    }
    ChangedOnce(res[x], res'[x], p, f);
    SumUpdate(res[x], p, res[x][p] + f);
  }

  /** A vertex inside the path gains `f` towards its parent and loses it towards its child. */
  lemma InnerRow(parent: seq<int>, path: seq<int>, f: int, res: seq<seq<int>>, res': seq<seq<int>>, i: int)
    requires |parent| >= 2 && ParentChain(parent, path) && Pushed(parent, path, f, res, res')
    requires 0 < i < |path|
    ensures Sum(res'[path[i]]) == Sum(res[path[i]])
  {
    var n := |parent|;
    var x := path[i];
    var p := parent[x];
    var c := path[i - 1];
    assert p != c by {
      if i < |path| - 1 {
        assert p == path[i + 1];
      }
    }
    assert x in path;
    forall b | 0 <= b < n
      ensures res'[x][b] == res[x][b] + (if b == p then f else 0) + (if b == c then -f else 0)
    {
      if b in path && parent[b] == x {
        var j :| 0 <= j < |path| && path[j] == b;
        assert j < |path| - 1 && path[j + 1] == path[i];
        assert j + 1 == i;
      }
    }
    ChangedTwice(res[x], res'[x], p, f, c, -f);
  }

  /** A row off the path, other than the source's, does not change. */
  lemma OtherRow(parent: seq<int>, path: seq<int>, f: int, res: seq<seq<int>>, res': seq<seq<int>>, x: int)
    requires |parent| >= 2 && ParentChain(parent, path) && Pushed(parent, path, f, res, res')
    requires 0 < x < |parent| && x !in path
    ensures res'[x] == res[x]
  {
    forall j | 0 <= j < |path| ensures parent[path[j]] != x {
      if j < |path| - 1 {
        assert path[j + 1] in path;
      }
    }
    forall b | 0 <= b < |parent| ensures res'[x][b] == res[x][b] {
      if b in path {
        var j :| 0 <= j < |path| && path[j] == b;
      }
    }
  }

  /** The sum of every row changes by its gain. */
  lemma PushedRow(parent: seq<int>, path: seq<int>, f: int, res: seq<seq<int>>, res': seq<seq<int>>, x: int)
    requires |parent| >= 2 && ParentChain(parent, path) && Pushed(parent, path, f, res, res') && 0 <= x < |parent|
    ensures Sum(res'[x]) == Sum(res[x]) + Gain(|parent|, f, x)
  {
    if x == 0 {
      SourceRow(parent, path, f, res, res');
    } else if x == |parent| - 1 {
      SinkRow(parent, path, f, res, res');
    } else if x in path {
      var i :| 0 <= i < |path| && path[i] == x;
      InnerRow(parent, path, f, res, res', i);
    } else {
      OtherRow(parent, path, f, res, res', x);
    }
  }

  /** Every entry of the matrix is non-negative. */
  ghost predicate NonNeg(m: seq<seq<int>>) {
    forall a, b :: 0 <= a < |m| && 0 <= b < |m[a]| ==> m[a][b] >= 0
  }

  /** A push that fits keeps a non-negative matrix non-negative. */
  lemma PushedNonNeg(parent: seq<int>, path: seq<int>, f: int, res: seq<seq<int>>, res': seq<seq<int>>)
    requires |parent| >= 2 && ParentChain(parent, path) && Pushed(parent, path, f, res, res')
    requires Fits(res, parent, path, f) && f > 0 && NonNeg(res)
    ensures NonNeg(res')
  {
    forall a, b | 0 <= a < |res'| && 0 <= b < |res'[a]| ensures res'[a][b] >= 0 {
      if b in path && parent[b] == a {
        var j :| 0 <= j < |path| && path[j] == b;
      }
    }
  }

  /** Both matrices give every pair {a, b} the same total a -> b plus b -> a. */
  ghost predicate PairSums(m: seq<seq<int>>, m': seq<seq<int>>) {
    var n := |m|;
    Square(m, n) && Square(m', n) &&
    forall a, b :: 0 <= a < n && 0 <= b < n ==> m[a][b] + m[b][a] == m'[a][b] + m'[b][a]
  }

  /** Every row of `res` sums to that of `cap`, except that `m` has left the source and reached the sink. */
  ghost predicate Balanced(cap: seq<seq<int>>, res: seq<seq<int>>, m: int) {
    |res| == |cap| && forall x {:trigger Sum(res[x])} :: 0 <= x < |cap| ==> Sum(res[x]) == Sum(cap[x]) + Gain(|cap|, m, x)
  }

  /** One augmentation by `f` keeps the pair sums, moves `f` more from source to sink, and keeps signs. */
  lemma AugmentKeeps(parent: seq<int>, path: seq<int>, f: int, cap: seq<seq<int>>, res: seq<seq<int>>, res': seq<seq<int>>, m: int)
    requires |parent| >= 2 && ParentChain(parent, path) && Pushed(parent, path, f, res, res')
    requires Fits(res, parent, path, f) && f > 0
    requires PairSums(res, cap) && Balanced(cap, res, m) && (NonNeg(cap) ==> NonNeg(res))
    ensures PairSums(res', cap) && Balanced(cap, res', m + f) && (NonNeg(cap) ==> NonNeg(res'))
    ensures PosSum(res'[0]) == PosSum(res[0]) - f
  {
    PushedPairs(parent, path, f, res, res', cap);
    PushedRows(parent, path, f, res, res');
    BalanceStep(cap, res, res', m, f);
    SourceShrinks(parent, path, f, res, res');
    if NonNeg(cap) {
      PushedNonNeg(parent, path, f, res, res');
    }
  }

  lemma PushedPairs(parent: seq<int>, path: seq<int>, f: int, res: seq<seq<int>>, res': seq<seq<int>>, cap: seq<seq<int>>)
    requires Pushed(parent, path, f, res, res') && PairSums(res, cap)
    ensures PairSums(res', cap)
  {
    var n := |parent|;
    forall a, b | 0 <= a < n && 0 <= b < n ensures res'[a][b] + res'[b][a] == res[a][b] + res[b][a] {
      assert res'[a][b] == res[a][b] - Along(parent, path, f, a, b) + Along(parent, path, f, b, a);
      assert res'[b][a] == res[b][a] - Along(parent, path, f, b, a) + Along(parent, path, f, a, b);
    }
  }

  lemma PushedRows(parent: seq<int>, path: seq<int>, f: int, res: seq<seq<int>>, res': seq<seq<int>>)
    requires |parent| >= 2 && ParentChain(parent, path) && Pushed(parent, path, f, res, res')
    ensures forall x {:trigger Sum(res'[x])} :: 0 <= x < |parent| ==> Sum(res'[x]) == Sum(res[x]) + Gain(|parent|, f, x)
  {
    forall x {:trigger Sum(res'[x])} | 0 <= x < |parent| ensures Sum(res'[x]) == Sum(res[x]) + Gain(|parent|, f, x) {
      PushedRow(parent, path, f, res, res', x);
    }
  }

  lemma BalancedStart(cap: seq<seq<int>>)
    ensures Balanced(cap, cap, 0)
  {
    forall x | 0 <= x < |cap| ensures Sum(cap[x]) == Sum(cap[x]) + Gain(|cap|, 0, x) {}
  }

  /** Gains add up. */
  lemma BalanceStep(cap: seq<seq<int>>, res: seq<seq<int>>, res': seq<seq<int>>, m: int, f: int)
    requires Balanced(cap, res, m) && |res'| == |res|
    requires forall x {:trigger Sum(res'[x])} :: 0 <= x < |res| ==> Sum(res'[x]) == Sum(res[x]) + Gain(|res|, f, x)
    ensures Balanced(cap, res', m + f)
  {
    forall x | 0 <= x < |cap| ensures Sum(res'[x]) == Sum(cap[x]) + Gain(|cap|, m + f, x) {
      assert Sum(res[x]) == Sum(cap[x]) + Gain(|cap|, m, x);
    }
  }

  /**
   * Lines 19-73: augment along shortest paths until none is left. The
   * residual keeps the pair sums of the capacities, every row keeps its
   * sum except that the source has given `maxFlow` away and the sink has
   * received it, and at the end no residual walk leads from source to sink.
   */
  method EdmondsKarp(g: GraphView) returns (maxFlow: int, ghost cap: seq<seq<int>>, ghost res: seq<seq<int>>)
    requires g.Wf() && g.n >= 2
    ensures Capacities(g, cap) && Square(res, g.n)
    ensures PairSums(res, cap) && Balanced(cap, res, maxFlow)
    ensures NonNeg(cap) ==> NonNeg(res)
    ensures 0 <= maxFlow <= PosSum(cap[0])
    ensures !Augmentable(res, 0, g.n - 1)
  {
    var n := g.n;
    var capacity := BuildCapacity(g);
    cap := capacity;
    var residual := capacity;
    maxFlow := 0;
    BalancedStart(cap);
    while true
      invariant Square(residual, n)
      invariant PairSums(residual, cap) && Balanced(cap, residual, maxFlow)
      invariant NonNeg(cap) ==> NonNeg(residual)
      invariant 0 <= maxFlow && maxFlow + PosSum(residual[0]) <= PosSum(cap[0])
      decreases PosSum(residual[0])
    {
      var parent, pathFlow, rank, flow := Bfs(residual);
      if pathFlow == 0 {
        res := residual;
        break;
      }
      var next, path := Augment(residual, parent, rank, flow, pathFlow);
      AugmentKeeps(parent, path, pathFlow, cap, residual, next, maxFlow);
      maxFlow := maxFlow + pathFlow;
      residual := next;
    }
  }

  /** Lines 14-18 and 74-76: the message for fewer than two vertices, or the flow from 0 to n-1. */
  method Run(g: GraphView) returns (text: string)
    requires g.Wf()
    ensures g.n < 2 ==> text == TooSmallText
    ensures g.n >= 2 ==> exists m, cap, res ::
      && FlowResult(g, m, cap, res)
      && text == FlowText + IntToString(g.n - 1) + ": " + IntToString(m)
  {
    if g.n < 2 {
      return TooSmallText;
    }
    var maxFlow;
    ghost var cap, res;
    maxFlow, cap, res := EdmondsKarp(g);
    assert FlowResult(g, maxFlow, cap, res);
    text := FlowText + IntToString(g.n - 1) + ": " + IntToString(maxFlow);
  }

  /** What `EdmondsKarp` promises about the value `m` it returns, with its final residual. */
  ghost predicate FlowResult(g: GraphView, m: int, cap: seq<seq<int>>, res: seq<seq<int>>)
    requires g.Wf()
  {
    && g.n >= 2 && Capacities(g, cap) && Square(res, g.n)
    && PairSums(res, cap) && Balanced(cap, res, m)
    && (NonNeg(cap) ==> NonNeg(res))
    && 0 <= m <= PosSum(cap[0])
    && !Augmentable(res, 0, g.n - 1)
  }

  // ---------------------------------------------------------------------
  // Cuts: the value returned is the capacity of a minimum cut
  // ---------------------------------------------------------------------

  /** A cut puts the source on the `true` side and the sink on the `false` side. */
  predicate IsCut(cut: seq<bool>, n: int) {
    n >= 2 && |cut| == n && cut[0] && !cut[n - 1]
  }

  /** The entries `row[b]`, b < k, whose column lies on side `side`. */
  function Part(row: seq<int>, cut: seq<bool>, side: bool, k: nat): int
    requires k <= |row| && k <= |cut|
  {
    if k == 0 then 0 else Part(row, cut, side, k - 1) + (if cut[k - 1] == side then row[k - 1] else 0)
  }

  /** The entries `m[a][b]` with a < r on the source side and b < k on side `side`. */
  function Block(m: seq<seq<int>>, cut: seq<bool>, side: bool, r: nat, k: nat): int
    requires Square(m, |cut|) && r <= |cut| && k <= |cut|
  {
    if r == 0 then 0
    else Block(m, cut, side, r - 1, k) + (if cut[r - 1] then Part(m[r - 1], cut, side, k) else 0)
  }

  /** The entries `m[a][c]` with a < r on the source side. */
  function Column(m: seq<seq<int>>, cut: seq<bool>, r: nat, c: int): int
    requires Square(m, |cut|) && r <= |cut| && 0 <= c < |cut|
  {
    if r == 0 then 0 else Column(m, cut, r - 1, c) + (if cut[r - 1] then m[r - 1][c] else 0)
  }

  /** The row sums of the rows a < r on the source side. */
  function RowTotals(m: seq<seq<int>>, cut: seq<bool>, r: nat): int
    requires Square(m, |cut|) && r <= |cut|
  {
    if r == 0 then 0 else RowTotals(m, cut, r - 1) + (if cut[r - 1] then Sum(m[r - 1]) else 0)
  }

  /** The capacity of the cut: what leads from the source side to the sink side. */
  function CutCapacity(cap: seq<seq<int>>, cut: seq<bool>): int
    requires Square(cap, |cut|)
  {
    Block(cap, cut, false, |cut|, |cut|)
  }

  lemma {:induction false} PartSplit(row: seq<int>, cut: seq<bool>, k: nat)
    requires k <= |row| && k <= |cut|
    ensures Part(row, cut, true, k) + Part(row, cut, false, k) == Sum(row[..k])
  {
    if k > 0 {
      PartSplit(row, cut, k - 1);
      assert row[..k][..k - 1] == row[..k - 1];
    }
  }

  lemma {:induction false} RowTotalsSplit(m: seq<seq<int>>, cut: seq<bool>, r: nat)
    requires Square(m, |cut|) && r <= |cut|
    ensures RowTotals(m, cut, r) == Block(m, cut, true, r, |cut|) + Block(m, cut, false, r, |cut|)
  {
    if r > 0 {
      RowTotalsSplit(m, cut, r - 1);
      PartSplit(m[r - 1], cut, |cut|);
      assert m[r - 1][..|cut|] == m[r - 1];
    }
  }

  /** Widening the source-side block by one column adds that column. */
  lemma {:induction false} BlockWiden(m: seq<seq<int>>, cut: seq<bool>, r: nat, k: nat)
    requires Square(m, |cut|) && r <= |cut| && k < |cut|
    ensures Block(m, cut, true, r, k + 1) == Block(m, cut, true, r, k) + (if cut[k] then Column(m, cut, r, k) else 0)
  {
    if r > 0 {
      BlockWiden(m, cut, r - 1, k);
    }
  }

  /** Column k and row k over the first r source-side indices only depend on the pair sums. */
  lemma {:induction false} CrossPairs(m: seq<seq<int>>, m': seq<seq<int>>, cut: seq<bool>, r: nat, k: int)
    requires PairSums(m, m') && |m| == |cut| && r <= k < |cut|
    ensures Column(m, cut, r, k) + Part(m[k], cut, true, r) == Column(m', cut, r, k) + Part(m'[k], cut, true, r)
  {
    if r > 0 {
      CrossPairs(m, m', cut, r - 1, k);
      assert m[r - 1][k] + m[k][r - 1] == m'[r - 1][k] + m'[k][r - 1];
    }
  }

  /**
   * What flows inside the source side cancels out: the source-side block
   * only depends on the pair sums.
   */
  lemma {:induction false} InsidePairs(m: seq<seq<int>>, m': seq<seq<int>>, cut: seq<bool>, k: nat)
    requires PairSums(m, m') && |m| == |cut| && k <= |cut|
    ensures Block(m, cut, true, k, k) == Block(m', cut, true, k, k)
  {
    if k > 0 {
      var j := k - 1;
      InsidePairs(m, m', cut, j);
      BlockWiden(m, cut, j, j);
      BlockWiden(m', cut, j, j);
      CrossPairs(m, m', cut, j, j);
      assert m[j][j] + m[j][j] == m'[j][j] + m'[j][j];
    }
  }

  /** Over a cut, the source side sends off exactly `m`: only the source row is out of balance there. */
  lemma {:induction false} CutBalance(cap: seq<seq<int>>, res: seq<seq<int>>, m: int, cut: seq<bool>, r: nat)
    requires Balanced(cap, res, m) && IsCut(cut, |cap|) && Square(cap, |cap|) && Square(res, |cap|) && r <= |cut|
    ensures RowTotals(res, cut, r) == RowTotals(cap, cut, r) - (if r > 0 then m else 0)
  {
    if r > 0 {
      CutBalance(cap, res, m, cut, r - 1);
      assert Sum(res[r - 1]) == Sum(cap[r - 1]) + Gain(|cap|, m, r - 1);
    }
  }

  lemma {:induction false} PartNonNeg(row: seq<int>, cut: seq<bool>, k: nat)
    requires k <= |row| && k <= |cut| && forall b :: 0 <= b < |row| ==> row[b] >= 0
    ensures Part(row, cut, false, k) >= 0
  {
    if k > 0 {
      PartNonNeg(row, cut, k - 1);
    }
  }

  lemma {:induction false} BlockNonNeg(m: seq<seq<int>>, cut: seq<bool>, r: nat)
    requires Square(m, |cut|) && r <= |cut| && NonNeg(m)
    ensures Block(m, cut, false, r, |cut|) >= 0
  {
    if r > 0 {
      BlockNonNeg(m, cut, r - 1);
      PartNonNeg(m[r - 1], cut, |cut|);
    }
  }

  lemma {:induction false} PartZero(row: seq<int>, cut: seq<bool>, k: nat)
    requires k <= |row| && k <= |cut| && forall b :: 0 <= b < k && !cut[b] ==> row[b] == 0
    ensures Part(row, cut, false, k) == 0
  {
    if k > 0 {
      PartZero(row, cut, k - 1);
    }
  }

  lemma {:induction false} BlockZero(m: seq<seq<int>>, cut: seq<bool>, r: nat)
    requires Square(m, |cut|) && r <= |cut|
    requires forall a, b :: 0 <= a < |cut| && 0 <= b < |cut| && cut[a] && !cut[b] ==> m[a][b] == 0
    ensures Block(m, cut, false, r, |cut|) == 0
  {
    if r > 0 {
      BlockZero(m, cut, r - 1);
      if cut[r - 1] {
        PartZero(m[r - 1], cut, |cut|);
      }
    }
  }

  /** For every cut, the value is the cut's capacity less what the residual still leaves across it. */
  lemma FlowAcrossCut(g: GraphView, m: int, cap: seq<seq<int>>, res: seq<seq<int>>, cut: seq<bool>)
    requires g.Wf() && FlowResult(g, m, cap, res) && IsCut(cut, g.n)
    ensures m == CutCapacity(cap, cut) - Block(res, cut, false, |cut|, |cut|)
  {
    var n := g.n;
    CutBalance(cap, res, m, cut, n);
    RowTotalsSplit(cap, cut, n);
    RowTotalsSplit(res, cut, n);
    InsidePairs(res, cap, cut, n);
  }

  /** No entry of an adjacency list has a negative weight. */
  predicate NonNegWeights(g: GraphView) {
    forall u, k :: 0 <= u < |g.adj| && 0 <= k < |g.adj[u]| ==> g.adj[u][k].weight >= 0
  }

  lemma {:induction false} WeightsNonNeg(row: seq<Edge>, v: int)
    requires forall k :: 0 <= k < |row| ==> row[k].weight >= 0
    ensures Sum(WeightsTo(row, v)) >= 0
  {
    if row != [] {
      WeightsNonNeg(row[..|row| - 1], v);
      var e := row[|row| - 1];
      if e.to == v {
        SumSnoc(WeightsTo(row[..|row| - 1], v), e.weight);
      } else {
        assert WeightsTo(row, v) == WeightsTo(row[..|row| - 1], v);
      }
    }
  }

  lemma CapacitiesNonNeg(g: GraphView, cap: seq<seq<int>>)
    requires g.Wf() && Capacities(g, cap) && NonNegWeights(g)
    ensures NonNeg(cap)
  {
    forall u, v | 0 <= u < g.n && 0 <= v < g.n ensures Cap(g, u, v) >= 0 {
      WeightsNonNeg(g.adj[u], v);
      WeightsNonNeg(g.adj[v], u);
    }
  }

  /**
   * Max-flow min-cut: with non-negative weights, the value returned is at
   * most the capacity of every cut, and equals the capacity of the cut made
   * by the vertices the last search still reached.
   */
  lemma MaxFlowMinCut(g: GraphView, m: int, cap: seq<seq<int>>, res: seq<seq<int>>)
    requires g.Wf() && FlowResult(g, m, cap, res) && NonNegWeights(g)
    ensures forall cut :: IsCut(cut, g.n) ==> m <= CutCapacity(cap, cut)
    ensures exists cut :: IsCut(cut, g.n) && m == CutCapacity(cap, cut)
  {
    var n := g.n;
    CapacitiesNonNeg(g, cap);
    forall cut | IsCut(cut, n) ensures m <= CutCapacity(cap, cut) {
      FlowAcrossCut(g, m, cap, res, cut);
      BlockNonNeg(res, cut, n);
    }
    var reached := seq(n, x => Augmentable(res, 0, x));
    assert IsResidualPath(res, [0]);
    assert IsCut(reached, n);
    forall a, b | 0 <= a < n && 0 <= b < n && reached[a] && !reached[b] ensures res[a][b] == 0 {
      if res[a][b] > 0 {
        ResidualStep(res, a, b);
      }
    }
    BlockZero(res, reached, n);
    FlowAcrossCut(g, m, cap, res, reached);
  }

  /** A residual walk from the source extends by one pair of positive capacity. */
  lemma ResidualStep(res: seq<seq<int>>, a: int, b: int)
    requires Augmentable(res, 0, a) && Residual(res, a, b) && Square(res, |res|)
    ensures Augmentable(res, 0, b)
  {
    var p :| IsResidualPath(res, p) && p[0] == 0 && p[|p| - 1] == a;
    var q := p + [b];
    assert forall i :: 0 <= i < |p| ==> q[i] == p[i];
    assert IsResidualPath(res, q);
  }
}
