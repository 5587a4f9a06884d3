/**
 * Prim's algorithm (MSTAlgorithm) over an undirected graph: grows a tree
 * from vertex 0, always taking the lightest queued entry that leads outside
 * the tree, and reports the total weight of the tree or that the graph is
 * not connected.
 */
module Mst {
  import opened Text
  import opened Graphs
  import opened Reach
  import opened Trees

  /** A queued entry: the vertex it leads to and the weight of the entry. */
  datatype Elem = Elem(u: int, w: int)

  /** A tree edge: the entry `from -> to` of weight `w` that added `to`. */
  datatype TreeEdge = TreeEdge(from: int, to: int, w: int)

  /** Vertex 0 followed by the vertices the tree edges added, in order. */
  function Joined(tree: seq<TreeEdge>): (r: seq<int>)
    ensures |r| == |tree| + 1 && r[0] == 0
  {
    if tree == [] then [0] else Joined(tree[..|tree| - 1]) + [tree[|tree| - 1].to]
  }

  function TreeWeight(tree: seq<TreeEdge>): int {
    if tree == [] then 0 else TreeWeight(tree[..|tree| - 1]) + tree[|tree| - 1].w
  }

  /** `e` is an adjacency entry of `g`. */
  predicate HasEntry(g: GraphView, e: TreeEdge) {
    0 <= e.from < |g.adj| && Edge(e.to, e.w) in g.adj[e.from]
  }

  /**
   * `tree` grows a tree from vertex 0: each edge is an entry from a vertex
   * already joined to a vertex not joined before.
   */
  ghost predicate Grown(g: GraphView, tree: seq<TreeEdge>) {
    && Distinct(Joined(tree))
    && forall i :: 0 <= i < |tree| ==> HasEntry(g, tree[i]) && tree[i].from in Joined(tree[..i])
  }

  /** A tree grown from vertex 0 that joins every vertex. */
  ghost predicate SpanningTree(g: GraphView, tree: seq<TreeEdge>) {
    Grown(g, tree) && forall v :: 0 <= v < g.n ==> v in Joined(tree)
  }

  /** `inTree` marks exactly the joined vertices. */
  predicate Marks(g: GraphView, inTree: seq<bool>, tree: seq<TreeEdge>) {
    |inTree| == g.n && forall v :: 0 <= v < g.n ==> (inTree[v] <==> v in Joined(tree))
  }

  /** Every queued entry is an entry of a tree vertex, recorded in `from`. */
  predicate Pending(g: GraphView, pq: seq<Elem>, from: seq<int>, inTree: seq<bool>) {
    |from| == |pq| &&
    forall k :: 0 <= k < |pq| ==>
      0 <= from[k] < |inTree| && from[k] < |g.adj| && inTree[from[k]] && Edge(pq[k].u, pq[k].w) in g.adj[from[k]]
  }

  /** The entry `j` of `t` leads into the tree or is queued with its weight. */
  predicate Covers(g: GraphView, inTree: seq<bool>, pq: seq<Elem>, t: int, j: int) {
    0 <= t < |g.adj| && 0 <= j < |g.adj[t]| && 0 <= g.adj[t][j].to < |inTree| &&
    (inTree[g.adj[t][j].to] || Elem(g.adj[t][j].to, g.adj[t][j].weight) in pq)
  }

  /** Every entry of every tree vertex leads into the tree or is queued. */
  predicate Frontier(g: GraphView, inTree: seq<bool>, pq: seq<Elem>) {
    forall t, j :: 0 <= t < |inTree| && t < |g.adj| && inTree[t] && 0 <= j < |g.adj[t]| ==> Covers(g, inTree, pq, t, j)
  }

  /** As `Frontier`, except that only the first `k` entries of `u` are covered. */
  predicate FrontierExcept(g: GraphView, inTree: seq<bool>, pq: seq<Elem>, u: int, k: int) {
    && (forall t, j :: 0 <= t < |inTree| && t < |g.adj| && inTree[t] && t != u && 0 <= j < |g.adj[t]| ==> Covers(g, inTree, pq, t, j))
    && (forall j :: 0 <= j < k ==> Covers(g, inTree, pq, u, j))
  }

  /**
   * The edge `i` weighs no more than any entry from the vertices joined
   * before it to a vertex outside them.
   */
  ghost predicate Lightest(g: GraphView, tree: seq<TreeEdge>, i: int)
    requires 0 <= i < |tree|
  {
    forall t, j :: 0 <= t < |g.adj| && t in Joined(tree[..i]) && 0 <= j < |g.adj[t]| && g.adj[t][j].to !in Joined(tree[..i])
      ==> tree[i].w <= g.adj[t][j].weight
  }

  /** Every tree edge is a lightest entry leaving the part of the tree grown before it. */
  ghost predicate Greedy(g: GraphView, tree: seq<TreeEdge>) {
    forall i :: 0 <= i < |tree| ==> Lightest(g, tree, i)
  }

  /** Every tree vertex is reachable from vertex 0. */
  ghost predicate Reached(g: GraphView, inTree: seq<bool>) {
    forall v :: 0 <= v < |inTree| && inTree[v] ==> Reachable(g, 0, v)
  }

  /** The sum of the degrees of the marked vertices. */
  function TreeDegrees(adj: seq<seq<Edge>>, s: seq<bool>): nat
    requires |s| == |adj|
  {
    if s == [] then 0
    else TreeDegrees(adj[..|s| - 1], s[..|s| - 1]) + (if s[|s| - 1] then |adj[|s| - 1]| else 0)
  }

  lemma {:induction false} TreeDegreesMark(adj: seq<seq<Edge>>, s: seq<bool>, u: int)
    requires |s| == |adj| && 0 <= u < |s| && !s[u]
    ensures TreeDegrees(adj, s[u := true]) == TreeDegrees(adj, s) + |adj[u]|
  {
    var m := |s| - 1;
    if u < m {
      assert s[u := true][..m] == s[..m][u := true];
      TreeDegreesMark(adj[..m], s[..m], u);
    } else {
      assert s[u := true][..m] == s[..m];
    }
  }

  lemma {:induction false} TreeDegreesNone(adj: seq<seq<Edge>>, s: seq<bool>)
    requires |s| == |adj| && forall v :: 0 <= v < |s| ==> !s[v]
    ensures TreeDegrees(adj, s) == 0
  {
    if s != [] {
      TreeDegreesNone(adj[..|s| - 1], s[..|s| - 1]);
    }
  }

  /** The degrees of part of the vertices add up to no more than all entries. */
  lemma {:induction false} TreeDegreesBound(adj: seq<seq<Edge>>, s: seq<bool>)
    requires |s| == |adj|
    ensures TreeDegrees(adj, s) <= TotalEdges(adj)
  {
    if s != [] {
      TreeDegreesBound(adj[..|s| - 1], s[..|s| - 1]);
    }
  }

  /** A marking with no unmarked entry marks everything. */
  lemma {:induction false} UnmarkedZero(s: seq<bool>)
    requires Unmarked(s) == 0
    ensures forall i :: 0 <= i < |s| ==> s[i]
  {
    if s != [] {
      UnmarkedZero(s[..|s| - 1]);
    }
  }

  lemma JoinedSnoc(tree: seq<TreeEdge>, e: TreeEdge)
    ensures Joined(tree + [e]) == Joined(tree) + [e.to]
    ensures TreeWeight(tree + [e]) == TreeWeight(tree) + e.w
  {
    assert (tree + [e])[..|tree|] == tree;
  }

  /** Lines 41-42: the top of the min-heap is a lightest entry; any lightest one will do. */
  method PopMin(pq: seq<Elem>) returns (i: int)
    requires |pq| > 0
    ensures 0 <= i < |pq| && forall j :: 0 <= j < |pq| ==> pq[i].w <= pq[j].w
  {
    i := 0;
    var j := 1;
    while j < |pq|
      invariant 0 <= i < j <= |pq|
      invariant forall k :: 0 <= k < j ==> pq[i].w <= pq[k].w
    {
      if pq[j].w < pq[i].w {
        i := j;
      }
      j := j + 1;
    }
  }

  /** Lines 35-37: every entry of `u` is queued. */
  method PushAll(g: GraphView, u: int) returns (pq: seq<Elem>)
    requires g.Wf() && 0 <= u < g.n
    ensures |pq| == |g.adj[u]|
    ensures forall k :: 0 <= k < |pq| ==> pq[k] == Elem(g.adj[u][k].to, g.adj[u][k].weight)
  {
    pq := [];
    var row := g.adj[u];
    var k := 0;
    while k < |row|
      invariant 0 <= k <= |row| && |pq| == k
      invariant forall j :: 0 <= j < k ==> pq[j] == Elem(row[j].to, row[j].weight)
    {
      pq := pq + [Elem(row[k].to, row[k].weight)];
      k := k + 1;
    }
  }

  /** Queuing an entry of the tree vertex `u` keeps the earlier entries queued and covered. */
  lemma PushStep(g: GraphView, inTree: seq<bool>, pq: seq<Elem>, from: seq<int>, u: int, k: int)
    requires g.Wf() && |inTree| == g.n && 0 <= u < g.n && inTree[u] && 0 <= k < |g.adj[u]|
    requires Pending(g, pq, from, inTree) && FrontierExcept(g, inTree, pq, u, k)
    ensures Pending(g, pq + [Elem(g.adj[u][k].to, g.adj[u][k].weight)], from + [u], inTree)
    ensures FrontierExcept(g, inTree, pq + [Elem(g.adj[u][k].to, g.adj[u][k].weight)], u, k + 1)
  {
    var e := Elem(g.adj[u][k].to, g.adj[u][k].weight);
    var pq' := pq + [e];
    assert g.adj[u][k] in g.adj[u];
    assert pq'[..|pq|] == pq;
    forall t, j | 0 <= t < g.n && inTree[t] && (t != u || j < k) && 0 <= j < |g.adj[t]|
      ensures Covers(g, inTree, pq', t, j)
    {
      assert Covers(g, inTree, pq, t, j);
    }
    assert pq'[|pq|] == e;
  }

  lemma SkipStep(g: GraphView, inTree: seq<bool>, pq: seq<Elem>, from: seq<int>, u: int, k: int)
    requires g.Wf() && |inTree| == g.n && 0 <= u < g.n && 0 <= k < |g.adj[u]| && inTree[g.adj[u][k].to]
    requires FrontierExcept(g, inTree, pq, u, k)
    ensures FrontierExcept(g, inTree, pq, u, k + 1)
  {
  }

  /**
   * Lines 49-55: queues every entry of the new tree vertex `u` that leads
   * outside the tree, and no other. Afterwards the frontier is covered again.
   */
  method PushOutside(g: GraphView, inTree: array<bool>, u: int, pq: seq<Elem>, ghost from: seq<int>)
    returns (pq': seq<Elem>, ghost from': seq<int>)
    requires g.Wf() && inTree.Length == g.n && 0 <= u < g.n && inTree[u]
    requires Pending(g, pq, from, inTree[..]) && FrontierExcept(g, inTree[..], pq, u, 0)
    ensures Pending(g, pq', from', inTree[..]) && Frontier(g, inTree[..], pq')
    ensures |pq| <= |pq'| <= |pq| + |g.adj[u]| && pq'[..|pq|] == pq
    ensures forall k :: |pq| <= k < |pq'| ==> 0 <= pq'[k].u < g.n && !inTree[pq'[k].u]
  {
    pq', from' := pq, from;
    var row := g.adj[u];
    var k := 0;
    while k < |row|
      invariant 0 <= k <= |row|
      invariant Pending(g, pq', from', inTree[..]) && FrontierExcept(g, inTree[..], pq', u, k)
      invariant |pq| <= |pq'| <= |pq| + k && pq'[..|pq|] == pq
      invariant forall j :: |pq| <= j < |pq'| ==> 0 <= pq'[j].u < g.n && !inTree[pq'[j].u]
    {
      var v := row[k].to;
      var weight := row[k].weight;
      if !inTree[v] {
        PushStep(g, inTree[..], pq', from', u, k);
        pq', from' := pq' + [Elem(v, weight)], from' + [u];
      } else {
        SkipStep(g, inTree[..], pq', from', u, k);
      }
      k := k + 1;
    }
  }

  /** The state after `inTree[0] = true` and the first pushes (lines 34-39). */
  lemma StartState(g: GraphView, inTree: seq<bool>, pq: seq<Elem>)
    requires g.Wf() && g.n > 0 && |inTree| == g.n
    requires forall v :: 0 <= v < g.n ==> (inTree[v] <==> v == 0)
    requires |pq| == |g.adj[0]|
    requires forall k :: 0 <= k < |pq| ==> pq[k] == Elem(g.adj[0][k].to, g.adj[0][k].weight)
    ensures Marks(g, inTree, []) && Grown(g, []) && Reached(g, inTree)
    ensures Pending(g, pq, seq(|pq|, _ => 0), inTree) && Frontier(g, inTree, pq)
  {
    ReachRefl(g, 0);
    forall k | 0 <= k < |pq| ensures Edge(pq[k].u, pq[k].w) in g.adj[0] {
      assert g.adj[0][k] == Edge(pq[k].u, pq[k].w);
    }
    forall t, j | 0 <= t < g.n && inTree[t] && 0 <= j < |g.adj[t]|
      ensures Covers(g, inTree, pq, t, j)
    {
      assert pq[j] == Elem(g.adj[0][j].to, g.adj[0][j].weight);
    }
  }

  /** Taking entry `i` out of the queue keeps every other target queued. */
  lemma PopStep(g: GraphView, inTree: seq<bool>, pq: seq<Elem>, from: seq<int>, i: int)
    requires g.Wf() && |inTree| == g.n && 0 <= i < |pq|
    requires Pending(g, pq, from, inTree) && Frontier(g, inTree, pq)
    ensures Pending(g, pq[..i] + pq[i + 1..], from[..i] + from[i + 1..], inTree)
    ensures inTree[from[i]] && HasEntry(g, TreeEdge(from[i], pq[i].u, pq[i].w))
    ensures 0 <= pq[i].u < g.n
    ensures FrontierExcept(g, inTree[pq[i].u := true], pq[..i] + pq[i + 1..], pq[i].u, 0)
    ensures inTree[pq[i].u] ==> Frontier(g, inTree, pq[..i] + pq[i + 1..])
  {
    var rest := pq[..i] + pq[i + 1..];
    var u := pq[i].u;
    assert Edge(u, pq[i].w) in g.adj[from[i]];
    var p :| 0 <= p < |g.adj[from[i]]| && g.adj[from[i]][p] == Edge(u, pq[i].w);
    assert forall k :: 0 <= k < i ==> rest[k] == pq[k];
    assert forall k :: i < k < |pq| ==> rest[k - 1] == pq[k];
    forall t, j | 0 <= t < g.n && inTree[t] && 0 <= j < |g.adj[t]| && g.adj[t][j].to != u
      ensures Covers(g, inTree, rest, t, j)
    {
      assert Covers(g, inTree, pq, t, j);
      if !inTree[g.adj[t][j].to] {
        var q :| 0 <= q < |pq| && pq[q] == Elem(g.adj[t][j].to, g.adj[t][j].weight);
        if q < i {
          assert rest[q] == pq[q];
        } else {
          assert rest[q - 1] == pq[q];
        }
      }
    }
    var inTree' := inTree[u := true];
    forall t, j | 0 <= t < g.n && inTree'[t] && t != u && 0 <= j < |g.adj[t]|
      ensures Covers(g, inTree', rest, t, j)
    {
      if g.adj[t][j].to != u {
        assert Covers(g, inTree, rest, t, j);
      }
    }
  }

  /** Joining `u` through the popped entry from `f` extends the tree by one edge. */
  lemma JoinStep(g: GraphView, inTree: seq<bool>, tree: seq<TreeEdge>, pq: seq<Elem>, from: seq<int>, f: int, u: int, w: int)
    requires g.Wf() && Marks(g, inTree, tree) && Grown(g, tree) && Reached(g, inTree)
    requires 0 <= f < g.n && inTree[f] && HasEntry(g, TreeEdge(f, u, w)) && 0 <= u < g.n && !inTree[u]
    requires Pending(g, pq, from, inTree)
    ensures Marks(g, inTree[u := true], tree + [TreeEdge(f, u, w)])
    ensures Grown(g, tree + [TreeEdge(f, u, w)]) && Reached(g, inTree[u := true])
    ensures Pending(g, pq, from, inTree[u := true])
    ensures TreeWeight(tree + [TreeEdge(f, u, w)]) == TreeWeight(tree) + w
    ensures Unmarked(inTree[u := true]) == Unmarked(inTree) - 1
    ensures TreeDegrees(g.adj, inTree[u := true]) == TreeDegrees(g.adj, inTree) + |g.adj[u]|
  {
    var e := TreeEdge(f, u, w);
    JoinedSnoc(tree, e);
    UnmarkedMark(inTree, u);
    TreeDegreesMark(g.adj, inTree, u);
    GrowKeepsGrown(g, inTree, tree, e);
    GrowKeepsReached(g, inTree, f, u, w);
    MarkKeepsMarks(g, inTree, tree, e);
    MarkKeepsPending(g, pq, from, inTree, u);
  }

  /**
   * A lightest queued entry weighs no more than any entry leaving the tree,
   * so the edge it adds keeps the tree greedy.
   */
  lemma GreedyJoin(g: GraphView, inTree: seq<bool>, tree: seq<TreeEdge>, pq: seq<Elem>, i: int, f: int)
    requires g.Wf() && Marks(g, inTree, tree) && Frontier(g, inTree, pq) && Greedy(g, tree)
    requires 0 <= i < |pq| && forall j :: 0 <= j < |pq| ==> pq[i].w <= pq[j].w
    ensures Greedy(g, tree + [TreeEdge(f, pq[i].u, pq[i].w)])
  {
    var tree' := tree + [TreeEdge(f, pq[i].u, pq[i].w)];
    forall k | 0 <= k < |tree'| ensures Lightest(g, tree', k) {
      if k < |tree| {
        assert tree'[..k] == tree[..k];
        assert Lightest(g, tree, k);
      } else {
        assert tree'[..k] == tree;
        forall t, j | 0 <= t < |g.adj| && t in Joined(tree) && 0 <= j < |g.adj[t]| && g.adj[t][j].to !in Joined(tree)
          ensures pq[i].w <= g.adj[t][j].weight
        {
          assert Covers(g, inTree, pq, t, j);
          var q :| 0 <= q < |pq| && pq[q] == Elem(g.adj[t][j].to, g.adj[t][j].weight);
        }
      }
    }
  }

  lemma GrowKeepsGrown(g: GraphView, inTree: seq<bool>, tree: seq<TreeEdge>, e: TreeEdge)
    requires Marks(g, inTree, tree) && Grown(g, tree)
    requires 0 <= e.from < g.n && inTree[e.from] && HasEntry(g, e) && 0 <= e.to < g.n && !inTree[e.to]
    ensures Grown(g, tree + [e])
  {
    var tree' := tree + [e];
    JoinedSnoc(tree, e);
    assert Distinct(Joined(tree')) by {
      assert e.to !in Joined(tree);
    }
    forall i | 0 <= i < |tree'| ensures HasEntry(g, tree'[i]) && tree'[i].from in Joined(tree'[..i]) {
      if i < |tree| {
        assert tree'[..i] == tree[..i];
      } else {
        assert tree'[..i] == tree;
      }
    }
  }

  lemma GrowKeepsReached(g: GraphView, inTree: seq<bool>, f: int, u: int, w: int)
    requires g.Wf() && Reached(g, inTree) && |inTree| == g.n
    requires 0 <= f < g.n && inTree[f] && Edge(u, w) in g.adj[f] && 0 <= u < g.n
    ensures Reached(g, inTree[u := true])
  {
    var k :| 0 <= k < |g.adj[f]| && g.adj[f][k] == Edge(u, w);
    ReachStep(g, 0, f, u);
  }

  lemma MarkKeepsMarks(g: GraphView, inTree: seq<bool>, tree: seq<TreeEdge>, e: TreeEdge)
    requires Marks(g, inTree, tree) && 0 <= e.to < g.n
    ensures Marks(g, inTree[e.to := true], tree + [e])
  {
    JoinedSnoc(tree, e);
  }

  lemma MarkKeepsPending(g: GraphView, pq: seq<Elem>, from: seq<int>, inTree: seq<bool>, u: int)
    requires Pending(g, pq, from, inTree) && 0 <= u < |inTree|
    ensures Pending(g, pq, from, inTree[u := true])
  {}

  /**
   * When the loop stops, the tree holds every vertex exactly when every
   * vertex is reachable from vertex 0.
   */
  lemma PrimEnd(g: GraphView, inTree: seq<bool>, tree: seq<TreeEdge>, pq: seq<Elem>, visitedCount: int)
    requires g.Wf() && g.n > 0 && Marks(g, inTree, tree) && Reached(g, inTree)
    requires Unmarked(inTree) + visitedCount == g.n && Frontier(g, inTree, pq)
    requires inTree[0] && (|pq| == 0 || visitedCount >= g.n)
    ensures visitedCount == g.n <==> forall v :: 0 <= v < g.n ==> Reachable(g, 0, v)
    ensures visitedCount == g.n ==> forall v :: 0 <= v < g.n ==> v in Joined(tree)
  {
    if visitedCount == g.n {
      UnmarkedZero(inTree);
    }
    if |pq| == 0 {
      assert Closed(g, inTree, {}) by {
        forall t | 0 <= t < g.n && inTree[t] ensures NeighboursMarked(g, inTree, t) {
          forall j | 0 <= j < |g.adj[t]| ensures inTree[g.adj[t][j].to] {
            assert Covers(g, inTree, pq, t, j);
          }
        }
      }
      forall v | 0 <= v < g.n && Reachable(g, 0, v) ensures inTree[v] {
        ClosedHoldsReachable(g, inTree, 0, v);
      }
    }
    if forall v :: 0 <= v < g.n ==> inTree[v] {
      UnmarkedAll(inTree);
    }
  }

  /**
   * Lines 46-55: the popped entry leads outside the tree, so its vertex
   * joins, its weight is added, and its entries leading outside are queued.
   */
  method Join(g: GraphView, inTree: array<bool>, current: Elem, totalWeight: int, visitedCount: int,
              pq: seq<Elem>, ghost tree: seq<TreeEdge>, ghost from: seq<int>, ghost pushes: nat, ghost f: int)
    returns (totalWeight': int, visitedCount': int, pq': seq<Elem>, ghost tree': seq<TreeEdge>,
             ghost from': seq<int>, ghost pushes': nat)
    requires g.Wf() && inTree.Length == g.n
    requires Marks(g, inTree[..], tree) && Grown(g, tree) && Reached(g, inTree[..])
    requires visitedCount == |tree| + 1 && Unmarked(inTree[..]) + visitedCount == g.n
    requires totalWeight == TreeWeight(tree)
    requires Pending(g, pq, from, inTree[..]) && pushes <= TreeDegrees(g.adj, inTree[..])
    requires 0 <= current.u < g.n && !inTree[current.u] && 0 <= f < g.n && inTree[f]
    requires HasEntry(g, TreeEdge(f, current.u, current.w))
    requires FrontierExcept(g, inTree[..][current.u := true], pq, current.u, 0)
    modifies inTree
    ensures inTree[..] == old(inTree[..])[current.u := true] && tree' == tree + [TreeEdge(f, current.u, current.w)]
    ensures Marks(g, inTree[..], tree') && Grown(g, tree') && Reached(g, inTree[..])
    ensures visitedCount' == |tree'| + 1 && Unmarked(inTree[..]) + visitedCount' == g.n
    ensures totalWeight' == TreeWeight(tree')
    ensures Pending(g, pq', from', inTree[..]) && Frontier(g, inTree[..], pq')
    ensures pushes' <= TreeDegrees(g.adj, inTree[..])
  {
    var u := current.u;
    var w := current.w;
    JoinStep(g, inTree[..], tree, pq, from, f, u, w);
    inTree[u] := true;
    visitedCount' := visitedCount + 1;
    totalWeight' := totalWeight + w;
    tree' := tree + [TreeEdge(f, u, w)];
    pq', from' := PushOutside(g, inTree, u, pq, from);
    pushes' := pushes + (|pq'| - |pq|);
  }

  /**
   * Lines 41-55, one round of the loop: pops a lightest entry and, when it
   * leads outside the tree, joins its vertex. Either the tree grows by one
   * vertex or the queue shrinks by one entry.
   */
  method Step(g: GraphView, inTree: array<bool>, totalWeight: int, visitedCount: int,
              pq: seq<Elem>, ghost tree: seq<TreeEdge>, ghost from: seq<int>, ghost pushes: nat)
    returns (totalWeight': int, visitedCount': int, pq': seq<Elem>, ghost tree': seq<TreeEdge>,
             ghost from': seq<int>, ghost pushes': nat)
    requires g.Wf() && inTree.Length == g.n && |pq| > 0
    requires Marks(g, inTree[..], tree) && Grown(g, tree) && Reached(g, inTree[..])
    requires visitedCount == |tree| + 1 && Unmarked(inTree[..]) + visitedCount == g.n
    requires totalWeight == TreeWeight(tree)
    requires Pending(g, pq, from, inTree[..]) && Frontier(g, inTree[..], pq)
    requires pushes <= TreeDegrees(g.adj, inTree[..]) && Greedy(g, tree)
    modifies inTree
    ensures Marks(g, inTree[..], tree') && Grown(g, tree') && Reached(g, inTree[..]) && Greedy(g, tree')
    ensures visitedCount' == |tree'| + 1 && Unmarked(inTree[..]) + visitedCount' == g.n
    ensures totalWeight' == TreeWeight(tree')
    ensures Pending(g, pq', from', inTree[..]) && Frontier(g, inTree[..], pq')
    ensures pushes' <= TreeDegrees(g.adj, inTree[..])
    ensures visitedCount' == visitedCount + 1 || (visitedCount' == visitedCount && |pq'| < |pq|)
  {
    var i := PopMin(pq);
    var current := pq[i];
    ghost var f := from[i];
    GreedyJoin(g, inTree[..], tree, pq, i, f);
    PopStep(g, inTree[..], pq, from, i);
    pq', from' := pq[..i] + pq[i + 1..], from[..i] + from[i + 1..];
    if !inTree[current.u] {
      totalWeight', visitedCount', pq', tree', from', pushes' :=
        Join(g, inTree, current, totalWeight, visitedCount, pq', tree, from', pushes, f);
    } else {
      totalWeight', visitedCount', tree', pushes' := totalWeight, visitedCount, tree, pushes;
    }
  }

  /**
   * Lines 30-56: the loop of Prim's algorithm from vertex 0. The total is
   * the weight of a tree grown from vertex 0 with one edge per vertex added,
   * the tree spans the graph exactly when every vertex is reachable from 0,
   * each tree edge is a lightest entry leaving the part grown before it (so
   * a spanning tree of symmetric lists weighs least of all spanning trees),
   * and the queue receives no more entries than the graph has.
   */
  method Prim(g: GraphView) returns (totalWeight: int, visitedCount: int, ghost tree: seq<TreeEdge>, ghost pushes: nat)
    requires g.Wf() && g.n > 0
    ensures Grown(g, tree) && visitedCount == |tree| + 1 <= g.n && totalWeight == TreeWeight(tree)
    ensures visitedCount == g.n <==> forall v :: 0 <= v < g.n ==> Reachable(g, 0, v)
    ensures visitedCount == g.n ==> SpanningTree(g, tree)
    ensures Greedy(g, tree)
    ensures visitedCount == g.n && g.Symmetric() ==> LeastWeight(g, totalWeight)
    ensures pushes <= TotalEdges(g.adj)
  {
    var inTree := new bool[g.n](_ => false);
    UnmarkedNone(inTree[..]);
    TreeDegreesNone(g.adj, inTree[..]);
    UnmarkedMark(inTree[..], 0);
    TreeDegreesMark(g.adj, inTree[..], 0);
    inTree[0] := true;
    var pq := PushAll(g, 0);
    ghost var from: seq<int> := seq(|pq|, _ => 0);
    StartState(g, inTree[..], pq);
    pushes := |pq|;
    totalWeight := 0;
    visitedCount := 1;
    tree := [];
    while |pq| > 0 && visitedCount < g.n
      invariant Marks(g, inTree[..], tree) && Grown(g, tree) && Reached(g, inTree[..])
      invariant visitedCount == |tree| + 1 && Unmarked(inTree[..]) + visitedCount == g.n
      invariant totalWeight == TreeWeight(tree)
      invariant Pending(g, pq, from, inTree[..]) && Frontier(g, inTree[..], pq)
      invariant pushes <= TreeDegrees(g.adj, inTree[..]) && Greedy(g, tree)
      decreases g.n - visitedCount, |pq|
    {
      totalWeight, visitedCount, pq, tree, from, pushes :=
        Step(g, inTree, totalWeight, visitedCount, pq, tree, from, pushes);
    }
    PrimEnd(g, inTree[..], tree, pq, visitedCount);
    TreeDegreesBound(g.adj, inTree[..]);
    if visitedCount == g.n && g.Symmetric() {
      GreedyIsLeast(g, tree);
    }
  }

  /** The first `k` edges of `tree` are the ones `par` and `wt` hang their vertices from. */
  ghost predicate Agrees(tree: seq<TreeEdge>, k: int, par: seq<int>, wt: seq<int>)
    requires 0 <= k <= |tree|
  {
    forall i :: 0 <= i < k ==> 0 <= tree[i].to < |par| && tree[i].to < |wt| && par[tree[i].to] == tree[i].from && wt[tree[i].to] == tree[i].w
  }

  /** The vertices joined by a prefix of the edges are a prefix of the joined vertices. */
  lemma {:induction false} JoinedPrefix(tree: seq<TreeEdge>, k: int)
    requires 0 <= k <= |tree|
    ensures Joined(tree[..k]) == Joined(tree)[..k + 1]
  {
    if k < |tree| {
      var m := |tree| - 1;
      assert tree[..m][..k] == tree[..k];
      JoinedPrefix(tree[..m], k);
    } else {
      assert tree[..k] == tree;
    }
  }

  /** Edge `i` joins the vertex at place `i + 1`. */
  lemma JoinedAt(tree: seq<TreeEdge>, i: int)
    requires 0 <= i < |tree|
    ensures Joined(tree)[i + 1] == tree[i].to
  {
    JoinedPrefix(tree, i + 1);
    assert tree[..i + 1][..i] == tree[..i];
  }

  /**
   * One exchange: a spanning tree that agrees with the first `k` edges of a
   * greedy spanning tree can be turned into one that agrees with the first
   * `k + 1`, weighing no more. Edge `k` leaves the vertices joined before
   * it, and the entry the exchange drops leaves them too, so it weighs no
   * less.
   */
  lemma Exchange(g: GraphView, tree: seq<TreeEdge>, k: int, par: seq<int>, wt: seq<int>, rk: seq<nat>)
    returns (par': seq<int>, wt': seq<int>, rk': seq<nat>)
    requires g.Symmetric() && SpanningTree(g, tree) && Greedy(g, tree) && 0 <= k < |tree|
    requires IsTree(g, par, wt, rk) && Agrees(tree, k, par, wt)
    ensures IsTree(g, par', wt', rk') && Agrees(tree, k + 1, par', wt') && Weight(wt') <= Weight(wt)
  {
    var inQ := seq(g.n, v => v in Joined(tree[..k]));
    var e := tree[k];
    PrefixRooted(g, tree, k, par, wt, rk, inQ);
    var x, y;
    par', wt', rk', x, y := Hang(g, par, wt, rk, inQ, e.to, e.from, e.w);
    assert Edge(y, wt[y]) in g.adj[x];
    LightestCrossing(g, tree, k, x, y, wt[y]);
  }

  /** Edge `k` weighs no more than any entry from the vertices joined before it to one outside them. */
  lemma LightestCrossing(g: GraphView, tree: seq<TreeEdge>, k: int, x: int, y: int, c: int)
    requires g.Wf() && Greedy(g, tree) && 0 <= k < |tree| && 0 <= x < g.n
    requires x in Joined(tree[..k]) && y !in Joined(tree[..k]) && Edge(y, c) in g.adj[x]
    ensures tree[k].w <= c
  {
    assert Lightest(g, tree, k);
    var j :| 0 <= j < |g.adj[x]| && g.adj[x][j] == Edge(y, c);
    assert tree[k].w <= g.adj[x][j].weight;
  }

  /**
   * The vertices joined by the first `k` edges hold the root and their
   * parents, and edge `k` leads from them to a vertex outside.
   */
  lemma PrefixRooted(g: GraphView, tree: seq<TreeEdge>, k: int, par: seq<int>, wt: seq<int>, rk: seq<nat>, inQ: seq<bool>)
    requires SpanningTree(g, tree) && 0 <= k < |tree| && IsTree(g, par, wt, rk) && Agrees(tree, k, par, wt)
    requires inQ == seq(g.n, v => v in Joined(tree[..k]))
    ensures Rooted(par, inQ)
    ensures 0 <= tree[k].from < g.n && inQ[tree[k].from] && 0 < tree[k].to < g.n && !inQ[tree[k].to]
    ensures Edge(tree[k].to, tree[k].w) in g.adj[tree[k].from]
    ensures forall i :: 0 <= i < k ==> 0 <= tree[i].to < g.n && inQ[tree[i].to]
  {
    JoinedPrefix(tree, k);
    forall v | 0 < v < g.n && inQ[v] ensures 0 <= par[v] < g.n && inQ[par[v]] {
      ParentJoined(g, tree, k, par, wt, rk, v);
    }
    var e := tree[k];
    assert HasEntry(g, e) && e.from in Joined(tree[..k]);
    JoinedAt(tree, k);
    assert !inQ[e.to] && e.to != 0 by {
      assert Joined(tree)[k + 1] !in Joined(tree)[..k + 1];
    }
    forall i | 0 <= i < k ensures 0 <= tree[i].to < g.n && inQ[tree[i].to] {
      JoinedAt(tree, i);
    }
  }

  /** In a tree agreeing with the first `k` edges, a vertex they joined has its parent joined before it. */
  lemma ParentJoined(g: GraphView, tree: seq<TreeEdge>, k: int, par: seq<int>, wt: seq<int>, rk: seq<nat>, v: int)
    requires Grown(g, tree) && 0 <= k < |tree| && IsTree(g, par, wt, rk) && Agrees(tree, k, par, wt)
    requires 0 < v < g.n && v in Joined(tree[..k])
    ensures 0 <= par[v] < g.n && par[v] in Joined(tree[..k])
  {
    var i := JoinedEdge(tree[..k], v);
    assert tree[..k][i] == tree[i];
    JoinedPrefix(tree, k);
    JoinedPrefix(tree, i);
    assert tree[i].from in Joined(tree)[..i + 1];
  }

  /**
   * A weight table that holds the weight of each edge at the vertex it
   * joins, and 0 at every vertex no edge joins, adds up to the weight of the
   * tree. `rk` tells the vertices apart: 1 + the number of the edge that
   * joined each, or 0.
   */
  lemma {:induction false} WeightOfEdges(tree: seq<TreeEdge>, wt: seq<int>, rk: seq<nat>)
    requires |rk| == |wt|
    requires forall i :: 0 <= i < |tree| ==> 0 <= tree[i].to < |wt| && rk[tree[i].to] == i + 1 && wt[tree[i].to] == tree[i].w
    requires forall v :: 0 <= v < |wt| && rk[v] > 0 ==> rk[v] <= |tree| && tree[rk[v] - 1].to == v
    requires forall v :: 0 <= v < |wt| && rk[v] == 0 ==> wt[v] == 0
    ensures Weight(wt) == TreeWeight(tree)
  {
    if tree == [] {
      WeightZero(wt);
    } else {
      var m := |tree| - 1;
      var e := tree[m];
      var wt1, rk1 := wt[e.to := 0], rk[e.to := 0];
      forall i | 0 <= i < m ensures tree[i].to != e.to {
        assert rk[tree[i].to] != rk[e.to];
      }
      forall v | 0 <= v < |wt| && rk1[v] > 0 ensures rk1[v] <= m && tree[..m][rk1[v] - 1].to == v {
        assert v != e.to;
      }
      WeightOfEdges(tree[..m], wt1, rk1);
      WeightUpdate(wt, e.to, 0);
    }
  }

  lemma {:induction false} WeightZero(wt: seq<int>)
    requires forall v :: 0 <= v < |wt| ==> wt[v] == 0
    ensures Weight(wt) == 0
  {
    if wt != [] {
      WeightZero(wt[..|wt| - 1]);
    }
  }

  /** Where each vertex was joined: 1 + the number of the edge that added it, or 0. */
  function Index(tree: seq<TreeEdge>, n: nat): (r: seq<nat>)
    ensures |r| == n
    ensures forall v :: 0 <= v < n && r[v] > 0 ==> r[v] <= |tree| && tree[r[v] - 1].to == v
  {
    if tree == [] then seq(n, _ => 0)
    else
      var r := Index(tree[..|tree| - 1], n);
      var e := tree[|tree| - 1];
      if 0 <= e.to < n then r[e.to := |tree|] else r
  }

  /** The vertex each vertex hangs from, read off the places `rk` where vertices were joined. */
  function ParentsAt(tree: seq<TreeEdge>, rk: seq<nat>): (r: seq<int>)
    ensures |r| == |rk|
    ensures forall v :: 0 <= v < |rk| ==> r[v] == if 0 < rk[v] <= |tree| then tree[rk[v] - 1].from else 0
  {
    seq(|rk|, v requires 0 <= v < |rk| => if 0 < rk[v] <= |tree| then tree[rk[v] - 1].from else 0)
  }

  /** The weight each vertex hangs by, read off the same places. */
  function WeightsAt(tree: seq<TreeEdge>, rk: seq<nat>): (r: seq<int>)
    ensures |r| == |rk|
    ensures forall v :: 0 <= v < |rk| ==> r[v] == if 0 < rk[v] <= |tree| then tree[rk[v] - 1].w else 0
  {
    seq(|rk|, v requires 0 <= v < |rk| => if 0 < rk[v] <= |tree| then tree[rk[v] - 1].w else 0)
  }

  /** With every vertex joined once, edge `i` is found at the vertex it joined. */
  lemma {:induction false} IndexAt(tree: seq<TreeEdge>, n: nat)
    requires Distinct(Joined(tree)) && forall i :: 0 <= i < |tree| ==> 0 <= tree[i].to < n
    ensures forall i :: 0 <= i < |tree| ==> Index(tree, n)[tree[i].to] == i + 1
  {
    if tree != [] {
      var m := |tree| - 1;
      JoinedPrefix(tree, m);
      JoinedAt(tree, m);
      IndexAt(tree[..m], n);
      forall i | 0 <= i < m ensures tree[i].to != tree[m].to {
        JoinedAt(tree, i);
      }
    }
  }

  /** After vertex 0, the joined vertices are the ends of the edges in order. */
  lemma JoinedTail(tree: seq<TreeEdge>)
    ensures forall i :: 0 <= i < |tree| ==> Joined(tree)[1..][i] == tree[i].to
  {
    forall i | 0 <= i < |tree| ensures Joined(tree)[1..][i] == tree[i].to {
      JoinedAt(tree, i);
    }
  }

  /** A joined vertex other than 0 is the end of some edge. */
  lemma JoinedEdge(tree: seq<TreeEdge>, v: int) returns (i: int)
    requires v in Joined(tree) && v != 0
    ensures 0 <= i < |tree| && tree[i].to == v
  {
    var j :| 0 <= j < |Joined(tree)| && Joined(tree)[j] == v;
    i := j - 1;
    JoinedAt(tree, i);
  }

  /** Edge `i` starts at vertex 0 (`l == -1`) or at the end of an earlier edge `l`. */
  lemma HangsEarlier(g: GraphView, tree: seq<TreeEdge>, i: int) returns (l: int)
    requires Grown(g, tree) && 0 <= i < |tree|
    ensures -1 <= l < i && (if l < 0 then tree[i].from == 0 else tree[l].to == tree[i].from)
  {
    JoinedPrefix(tree, i);
    assert tree[i].from in Joined(tree)[..i + 1];
    var j :| 0 <= j <= i && Joined(tree)[j] == tree[i].from;
    l := j - 1;
    if j > 0 {
      JoinedAt(tree, l);
    }
  }

  /** A spanning tree grown edge by edge, as the entry each vertex hangs from. */
  lemma TreeOfEdges(g: GraphView, tree: seq<TreeEdge>) returns (par: seq<int>, wt: seq<int>, rk: seq<nat>)
    requires g.Wf() && g.n > 0 && SpanningTree(g, tree)
    ensures IsTree(g, par, wt, rk) && Weight(wt) == TreeWeight(tree) && Agrees(tree, |tree|, par, wt)
  {
    rk := Index(tree, g.n);
    par, wt := ParentsAt(tree, rk), WeightsAt(tree, rk);
    IndexTree(g, tree);
    IndexWeights(g, tree);
    IndexAgrees(g, tree);
  }

  /** Every edge ends at a vertex of the graph other than 0, and is found there. */
  lemma EndsInside(g: GraphView, tree: seq<TreeEdge>)
    requires g.Wf() && g.n > 0 && Grown(g, tree)
    ensures forall i :: 0 <= i < |tree| ==> 0 < tree[i].to < g.n && Index(tree, g.n)[tree[i].to] == i + 1
    ensures Index(tree, g.n)[0] == 0
  {
    forall i | 0 <= i < |tree| ensures 0 < tree[i].to < g.n {
      assert HasEntry(g, tree[i]);
      JoinedAt(tree, i);
    }
    IndexAt(tree, g.n);
  }

  /** The weights read off the places where vertices were joined add up to the tree's weight. */
  lemma IndexWeights(g: GraphView, tree: seq<TreeEdge>)
    requires g.Wf() && g.n > 0 && Grown(g, tree)
    ensures Weight(WeightsAt(tree, Index(tree, g.n))) == TreeWeight(tree)
  {
    var rk := Index(tree, g.n);
    var wt := WeightsAt(tree, rk);
    EndsInside(g, tree);
    forall i | 0 <= i < |tree| ensures wt[tree[i].to] == tree[i].w {
      assert rk[tree[i].to] == i + 1;
    }
    assert forall v :: 0 <= v < g.n && rk[v] == 0 ==> wt[v] == 0;
    WeightOfEdges(tree, wt, rk);
  }

  /** Read off the places where vertices were joined, each vertex hangs by the edge that joined it. */
  lemma IndexAgrees(g: GraphView, tree: seq<TreeEdge>)
    requires g.Wf() && g.n > 0 && Grown(g, tree)
    ensures Agrees(tree, |tree|, ParentsAt(tree, Index(tree, g.n)), WeightsAt(tree, Index(tree, g.n)))
  {
    var rk := Index(tree, g.n);
    var par, wt := ParentsAt(tree, rk), WeightsAt(tree, rk);
    EndsInside(g, tree);
    forall i | 0 <= i < |tree| ensures par[tree[i].to] == tree[i].from && wt[tree[i].to] == tree[i].w {
      assert rk[tree[i].to] == i + 1;
    }
  }

  /** The parents read off the places where vertices were joined form a tree. */
  lemma IndexTree(g: GraphView, tree: seq<TreeEdge>)
    requires g.Wf() && g.n > 0 && SpanningTree(g, tree)
    ensures IsTree(g, ParentsAt(tree, Index(tree, g.n)), WeightsAt(tree, Index(tree, g.n)), Index(tree, g.n))
  {
    var rk := Index(tree, g.n);
    var par, wt := ParentsAt(tree, rk), WeightsAt(tree, rk);
    EndsInside(g, tree);
    forall v | 0 < v < g.n ensures 0 <= par[v] < g.n && rk[par[v]] < rk[v] && Edge(v, wt[v]) in g.adj[par[v]] {
      IndexTreeAt(g, tree, rk, v);
    }
  }

  /** Vertex `v` hangs, by an entry of the graph, from a vertex joined before it. */
  lemma IndexTreeAt(g: GraphView, tree: seq<TreeEdge>, rk: seq<nat>, v: int)
    requires g.Wf() && g.n > 0 && SpanningTree(g, tree) && rk == Index(tree, g.n) && 0 < v < g.n
    ensures 0 <= ParentsAt(tree, rk)[v] < g.n && rk[ParentsAt(tree, rk)[v]] < rk[v]
    ensures Edge(v, WeightsAt(tree, rk)[v]) in g.adj[ParentsAt(tree, rk)[v]]
  {
    EndsInside(g, tree);
    assert v in Joined(tree);
    var i := JoinedEdge(tree, v);
    assert rk[v] == i + 1;
    assert ParentsAt(tree, rk)[v] == tree[i].from && WeightsAt(tree, rk)[v] == tree[i].w;
    assert HasEntry(g, tree[i]);
    var l := HangsEarlier(g, tree, i);
  }

  /** No spanning tree weighs less than a greedy one: exchange its edges one by one. */
  lemma {:induction false} NoLighter(g: GraphView, tree: seq<TreeEdge>, par: seq<int>, wt: seq<int>, rk: seq<nat>)
    requires g.Symmetric() && SpanningTree(g, tree) && Greedy(g, tree) && IsTree(g, par, wt, rk)
    ensures TreeWeight(tree) <= Weight(wt)
  {
    var p, q, r := par, wt, rk;
    for k := 0 to |tree|
      invariant IsTree(g, p, q, r) && Agrees(tree, k, p, q) && Weight(q) <= Weight(wt)
    {
      p, q, r := Exchange(g, tree, k, p, q, r);
    }
    AgreedWeight(g, tree, p, q, r);
  }

  /** A tree that agrees with every edge of a spanning tree weighs what it does. */
  lemma AgreedWeight(g: GraphView, tree: seq<TreeEdge>, par: seq<int>, wt: seq<int>, rk: seq<nat>)
    requires SpanningTree(g, tree) && IsTree(g, par, wt, rk) && Agrees(tree, |tree|, par, wt)
    ensures Weight(wt) == TreeWeight(tree)
  {
    var idx := Index(tree, g.n);
    EndsInside(g, tree);
    forall v | 0 < v < g.n ensures idx[v] > 0 {
      assert v in Joined(tree);
      var i := JoinedEdge(tree, v);
    }
    WeightOfEdges(tree, wt, idx);
  }

  /** `x` is the weight of a spanning tree of `g`, and no spanning tree of `g` weighs less. */
  ghost predicate LeastWeight(g: GraphView, x: int) {
    && (exists par, wt, rk :: IsTree(g, par, wt, rk) && Weight(wt) == x)
    && forall par, wt, rk :: IsTree(g, par, wt, rk) ==> x <= Weight(wt)
  }

  /** The cut property: a greedy spanning tree of an undirected graph is a minimum spanning tree. */
  lemma GreedyIsLeast(g: GraphView, tree: seq<TreeEdge>)
    requires g.Wf() && g.n > 0 && g.Symmetric() && SpanningTree(g, tree) && Greedy(g, tree)
    ensures LeastWeight(g, TreeWeight(tree))
  {
    var par, wt, rk := TreeOfEdges(g, tree);
    forall par0, wt0, rk0 | IsTree(g, par0, wt0, rk0) ensures TreeWeight(tree) <= Weight(wt0) {
      NoLighter(g, tree, par0, wt0, rk0);
    }
  }

  const DirectedText := "Error: MST algorithm expects an undirected graph."
  const EmptyText := "Graph is empty; MST weight is 0."
  const NotConnectedText := "Graph is not connected; no spanning tree exists."
  const WeightText := "MST total weight: "

  /**
   * `MSTAlgorithm::run`: an error for a directed graph, the empty-graph
   * message, the not-connected message when some vertex cannot be reached
   * from vertex 0, and otherwise the weight of a spanning tree, which is
   * the least weight of any spanning tree when the lists are symmetric, as
   * `addEdge` keeps them in an undirected graph.
   */
  method Run(g: GraphView) returns (text: string)
    requires g.Wf()
    ensures g.directed ==> text == DirectedText
    ensures !g.directed && g.n == 0 ==> text == EmptyText
    ensures !g.directed && g.n > 0 && (exists v :: 0 <= v < g.n && !Reachable(g, 0, v)) ==> text == NotConnectedText
    ensures !g.directed && g.n > 0 && (forall v :: 0 <= v < g.n ==> Reachable(g, 0, v)) ==>
      exists tree :: SpanningTree(g, tree) && (g.Symmetric() ==> LeastWeight(g, TreeWeight(tree)))
        && text == WeightText + IntToString(TreeWeight(tree))
  {
    if g.directed {
      return DirectedText;
    }
    if g.n == 0 {
      return EmptyText;
    }
    var totalWeight, visitedCount;
    ghost var tree, pushes;
    totalWeight, visitedCount, tree, pushes := Prim(g);
    if visitedCount < g.n {
      return NotConnectedText;
    }
    text := WeightText + IntToString(totalWeight);
  }
}
