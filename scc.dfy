/**
 * Kosaraju's algorithm (SCCAlgorithm). A first depth-first pass lists the
 * vertices by finishing time. A second pass runs over the reversed graph,
 * taking the vertices in reverse finishing order, and starts one search per
 * strongly connected component.
 */
module Scc {
  import opened Text
  import opened Graphs
  import opened Reach

  /** `a` and `b` reach each other: they lie in one strongly connected component. */
  ghost predicate Equiv(g: GraphView, a: int, b: int) {
    Reachable(g, a, b) && Reachable(g, b, a)
  }

  lemma EquivTrans(g: GraphView, a: int, b: int, c: int)
    requires Equiv(g, a, b) && Equiv(g, b, c)
    ensures Equiv(g, a, c)
  {
    ReachTrans(g, a, b, c);
    ReachTrans(g, c, b, a);
  }

  /** `x` lies in the component of one of the `roots`. */
  ghost predicate InComponentOf(g: GraphView, roots: seq<int>, x: int) {
    exists k :: 0 <= k < |roots| && Equiv(g, x, roots[k])
  }

  /** `roots` names exactly one vertex of every strongly connected component of `g`. */
  ghost predicate Representatives(g: GraphView, roots: seq<int>) {
    && (forall k :: 0 <= k < |roots| ==> 0 <= roots[k] < g.n)
    && (forall j, k :: 0 <= j < k < |roots| ==> !Equiv(g, roots[j], roots[k]))
    && (forall x :: 0 <= x < g.n ==> InComponentOf(g, roots, x))
  }

  /** `order` lists every vertex of [0, n) exactly once. */
  predicate Ordering(order: seq<int>, n: int) {
    && |order| == n
    && Distinct(order)
    && (forall k :: 0 <= k < |order| ==> 0 <= order[k] < n)
    && (forall x :: 0 <= x < n ==> x in order)
  }

  /**
   * The marking of the first pass: a vertex is marked exactly when it has
   * finished (it is in `order`) or its search is in progress (it is in `S`).
   */
  predicate Arranged(g: GraphView, visited: seq<bool>, order: seq<int>, S: set<int>) {
    && |visited| == g.n
    && Distinct(order)
    && (forall k :: 0 <= k < |order| ==> 0 <= order[k] < g.n)
    && (forall x :: x in S ==> x !in order)
    && (forall x :: 0 <= x < g.n ==> (visited[x] <==> x in order || x in S))
  }

  /**
   * What finishing `order[k]` guarantees: any vertex it reaches that had not
   * finished by then is reached through a vertex of its own component that
   * finishes later (or whose search is still in progress, in `S`).
   */
  ghost predicate Finished(g: GraphView, order: seq<int>, S: set<int>, k: int)
    requires 0 <= k < |order|
  {
    forall z :: Reachable(g, order[k], z) && z !in order[..k + 1] ==>
      exists y :: (y in S || y in order[k + 1..]) && Equiv(g, order[k], y) && Reachable(g, y, z)
  }

  /** Every vertex from position `lo` on has finished in the sense of `Finished`. */
  ghost predicate FinishedFrom(g: GraphView, order: seq<int>, S: set<int>, lo: int) {
    0 <= lo <= |order| && forall j :: lo <= j < |order| ==> Finished(g, order, S, j)
  }

  /** Every vertex from position `lo` on is reachable from `u`. */
  ghost predicate ReachedFrom(g: GraphView, u: int, order: seq<int>, lo: int) {
    0 <= lo <= |order| && forall j :: lo <= j < |order| ==> Reachable(g, u, order[j])
  }

  lemma SliceIndex(s: seq<int>, lo: int, y: int) returns (j: int)
    requires 0 <= lo <= |s| && y in s[lo..]
    ensures lo <= j < |s| && s[j] == y
  {
    var i :| 0 <= i < |s| - lo && s[lo..][i] == y;
    j := lo + i;
  }

  lemma IndexInSlice(s: seq<int>, lo: int, hi: int, j: int)
    requires 0 <= lo <= j < hi <= |s|
    ensures s[j] in s[lo..hi]
  {
    assert s[lo..hi][j - lo] == s[j];
  }

  /**
   * Searches appended later leave the guarantee of an earlier finish intact,
   * once the vertices in progress are in progress or finished later.
   */
  lemma BlocksExtend(g: GraphView, o: seq<int>, o': seq<int>, S1: set<int>, S2: set<int>, lo: int)
    requires |o| <= |o'| && o'[..|o|] == o
    requires forall y :: y in S1 ==> y in S2 || y in o'[|o|..]
    requires FinishedFrom(g, o, S1, lo) && FinishedFrom(g, o', S2, |o|)
    ensures FinishedFrom(g, o', S2, lo)
  {
    forall j, z | lo <= j < |o| && Reachable(g, o'[j], z) && z !in o'[..j + 1]
      ensures exists y :: (y in S2 || y in o'[j + 1..]) && Equiv(g, o'[j], y) && Reachable(g, y, z)
    {
      assert o'[j] == o[j];
      assert o'[..j + 1] == o[..j + 1];
      assert Finished(g, o, S1, j);
      var y :| (y in S1 || y in o[j + 1..]) && Equiv(g, o[j], y) && Reachable(g, y, z);
      if y in o[j + 1..] {
        var i := SliceIndex(o, j + 1, y);
        IndexInSlice(o', j + 1, |o'|, i);
      } else if y !in S2 {
        var i := SliceIndex(o', |o|, y);
        IndexInSlice(o', j + 1, |o'|, i);
      }
    }
    forall j | lo <= j < |o'| ensures Finished(g, o', S2, j) {
      if j >= |o| {
        assert Finished(g, o', S2, j);
      }
    }
  }

  /**
   * A path from a finished vertex to an unfinished one leaves the finished
   * vertices through a vertex whose search is in progress.
   */
  lemma FirstExit(g: GraphView, visited: seq<bool>, order: seq<int>, S: set<int>, x: int, z: int)
    requires g.Wf() && Arranged(g, visited, order, S) && Closed(g, visited, S)
    requires x in order && Reachable(g, x, z) && z !in order
    ensures exists y :: y in S && Reachable(g, x, y) && Reachable(g, y, z)
  {
    var p :| IsPath(g, p) && p[0] == x && p[|p| - 1] == z;
    var i := 0;
    ReachRefl(g, x);
    while p[i + 1] in order
      invariant 0 <= i < |p| - 1
      invariant p[i] in order && Reachable(g, x, p[i])
      decreases |p| - i
    {
      assert Linked(g, p[i], p[i + 1]);
      ReachStep(g, x, p[i], p[i + 1]);
      i := i + 1;
    }
    var y := p[i + 1];
    assert Linked(g, p[i], y);
    var k :| 0 <= k < |g.adj[p[i]]| && g.adj[p[i]][k].to == y;
    assert NeighboursMarked(g, visited, p[i]);
    assert y in S;
    ReachStep(g, x, p[i], y);
    var q := p[i + 1..];
    assert forall j :: 0 <= j < |q| ==> q[j] == p[i + 1 + j];
    assert IsPath(g, q);
  }

  /** The vertex that has just finished is reached by every search in progress. */
  lemma OwnFinish(g: GraphView, visited: seq<bool>, order: seq<int>, S: set<int>)
    requires g.Wf() && Arranged(g, visited, order, S) && Closed(g, visited, S) && order != []
    requires forall y :: y in S ==> Reachable(g, y, order[|order| - 1])
    ensures FinishedFrom(g, order, S, |order| - 1)
  {
    var k := |order| - 1;
    var u := order[k];
    assert order[..k + 1] == order;
    forall z | Reachable(g, u, z) && z !in order[..k + 1]
      ensures exists y :: (y in S || y in order[k + 1..]) && Equiv(g, u, y) && Reachable(g, y, z)
    {
      FirstExit(g, visited, order, S, u, z);
      var y :| y in S && Reachable(g, u, y) && Reachable(g, y, z);
      assert Equiv(g, u, y);
    }
  }

  lemma MarkArranged(g: GraphView, entry: seq<bool>, now: seq<bool>, order: seq<int>, S: set<int>, u: int)
    requires Arranged(g, entry, order, S) && 0 <= u < g.n && !entry[u] && now == entry[u := true]
    ensures Arranged(g, now, order, S + {u}) && u !in S && u !in order
  {
  }

  lemma FinishArranged(g: GraphView, now: seq<bool>, body: seq<int>, S: set<int>, u: int)
    requires Arranged(g, now, body, S + {u}) && u !in S && 0 <= u < g.n
    ensures Arranged(g, now, body + [u], S)
  {
    assert forall x :: x in body + [u] <==> x in body || x == u;
  }

  /** Every search in progress, and `u` itself, reaches the neighbour `v` of `u`. */
  lemma AncestorsReach(g: GraphView, S: set<int>, u: int, v: int)
    requires 0 <= u < g.n && 0 <= v < g.n && Linked(g, u, v)
    requires forall x :: x in S ==> Reachable(g, x, u)
    ensures forall x :: x in S + {u} ==> Reachable(g, x, v)
  {
    ReachRefl(g, u);
    forall x | x in S + {u} ensures Reachable(g, x, v) {
      ReachStep(g, x, u, v);
    }
  }

  /** The vertices appended by the search of a neighbour `v` are reachable from `u`. */
  lemma BlockReach(g: GraphView, u: int, v: int, lo: int, o: seq<int>, o': seq<int>)
    requires 0 <= u < g.n && Linked(g, u, v)
    requires |o| <= |o'| && o'[..|o|] == o
    requires ReachedFrom(g, u, o, lo) && ReachedFrom(g, v, o', |o|)
    ensures ReachedFrom(g, u, o', lo)
  {
    forall j | lo <= j < |o'| ensures Reachable(g, u, o'[j]) {
      if j < |o| {
        assert o'[j] == o[j];
      } else {
        ReachPrepend(g, u, v, o'[j]);
      }
    }
  }

  /** After the search of a neighbour `v` of `u`, the block of `u` so far is still finished and reached. */
  lemma ChildFinished(g: GraphView, u: int, v: int, lo: int, o: seq<int>, o': seq<int>, S: set<int>)
    requires 0 <= u < g.n && Linked(g, u, v)
    requires |o| <= |o'| && o'[..|o|] == o
    requires FinishedFrom(g, o, S, lo) && FinishedFrom(g, o', S, |o|)
    requires ReachedFrom(g, u, o, lo) && ReachedFrom(g, v, o', |o|)
    ensures FinishedFrom(g, o', S, lo) && ReachedFrom(g, u, o', lo)
  {
    BlocksExtend(g, o, o', S, S, lo);
    BlockReach(g, u, v, lo, o, o');
  }

  /** Appending `u` once all its neighbours are marked completes the block of `u`. */
  lemma SelfFinished(g: GraphView, visited: seq<bool>, order: seq<int>, body: seq<int>, S: set<int>, u: int)
    requires g.Wf() && 0 <= u < g.n && u !in S && forall x :: x in S ==> Reachable(g, x, u)
    requires Arranged(g, visited, body, S + {u}) && Closed(g, visited, S + {u}) && NeighboursMarked(g, visited, u)
    requires |order| <= |body| && FinishedFrom(g, body, S + {u}, |order|) && ReachedFrom(g, u, body, |order|)
    ensures Arranged(g, visited, body + [u], S) && Closed(g, visited, S)
    ensures FinishedFrom(g, body + [u], S, |order|) && ReachedFrom(g, u, body + [u], |order|)
  {
    var out := body + [u];
    FinishKeepsClosed(g, visited, u, S);
    FinishArranged(g, visited, body, S, u);
    OwnFinish(g, visited, out, S);
    BlocksExtend(g, body, out, S + {u}, S, |order|);
    ReachRefl(g, u);
    assert forall j :: |order| <= j < |body| ==> out[j] == body[j];
  }

  /**
   * `dfsOrder(u, g, visited, order)`: marks `u`, searches every unmarked
   * neighbour, then appends `u` (post-order). The appended block ends with
   * `u`, holds exactly the newly marked vertices, each reachable from `u`,
   * and every vertex in it has finished in the sense of `Finished`.
   */
  method DfsOrder(u: int, g: GraphView, visited: array<bool>, order: seq<int>, ghost S: set<int>)
    returns (out: seq<int>)
    requires g.Wf() && visited.Length == g.n && 0 <= u < g.n && !visited[u]
    requires forall x :: x in S ==> Reachable(g, x, u)
    requires Arranged(g, visited[..], order, S) && Closed(g, visited[..], S)
    modifies visited
    ensures Arranged(g, visited[..], out, S) && Closed(g, visited[..], S)
    ensures visited[u] && Grows(old(visited[..]), visited[..])
    ensures |out| > |order| && out[..|order|] == order && out[|out| - 1] == u
    ensures Unmarked(visited[..]) + |out| == Unmarked(old(visited[..])) + |order|
    ensures FinishedFrom(g, out, S, |order|) && ReachedFrom(g, u, out, |order|)
    decreases Unmarked(visited[..])
  {
    ghost var entry := visited[..];
    visited[u] := true;
    ghost var S' := S + {u};
    MarkArranged(g, entry, visited[..], order, S, u);
    MarkKeepsClosed(g, entry, visited[..], u, S);
    UnmarkedMark(entry, u);
    out := order;
    var row := g.adj[u];
    var k := 0;
    while k < |row|
      invariant 0 <= k <= |row|
      invariant Arranged(g, visited[..], out, S') && Closed(g, visited[..], S')
      invariant visited[u] && Grows(entry, visited[..])
      invariant |out| >= |order| && out[..|order|] == order
      invariant Unmarked(visited[..]) + |out| + 1 == Unmarked(entry) + |order|
      invariant FinishedFrom(g, out, S', |order|) && ReachedFrom(g, u, out, |order|)
      invariant EntriesMarked(visited[..], row, k)
    {
      var v := row[k].to;
      ghost var before := visited[..];
      if !visited[v] {
        LinkedEntry(g, u, k);
        AncestorsReach(g, S, u, v);
        var out' := DfsOrder(v, g, visited, out, S');
        ChildFinished(g, u, v, |order|, out, out', S');
        out := out';
      }
      EntriesStep(before, visited[..], row, k);
      k := k + 1;
    }
    SelfFinished(g, visited[..], order, out, S, u);
    out := out + [u];
  }

  /** Lines 39-47: the first pass over every vertex in index order. */
  method FinishOrder(g: GraphView, visited: array<bool>) returns (order: seq<int>)
    requires g.Wf() && visited.Length == g.n
    requires forall x :: 0 <= x < g.n ==> !visited[x]
    modifies visited
    ensures Ordering(order, g.n)
    ensures FinishedFrom(g, order, {}, 0)
  {
    order := [];
    UnmarkedNone(visited[..]);
    var i := 0;
    while i < g.n
      invariant 0 <= i <= g.n
      invariant Arranged(g, visited[..], order, {}) && Closed(g, visited[..], {})
      invariant forall x :: 0 <= x < i ==> visited[x]
      invariant Unmarked(visited[..]) + |order| == g.n
      invariant FinishedFrom(g, order, {}, 0)
    {
      if !visited[i] {
        var order' := DfsOrder(i, g, visited, order, {});
        BlocksExtend(g, order, order', {}, {}, 0);
        order := order';
      }
      i := i + 1;
    }
    UnmarkedAll(visited[..]);
  }

  /**
   * Consequence of the finishing order: if `order[k]` reaches a vertex `z`
   * that finishes later, some vertex of the component of `order[k]`
   * finishes no earlier than `z`.
   */
  lemma {:induction false} ChainUp(g: GraphView, order: seq<int>, k: int, z: int)
    requires Ordering(order, g.n)
    requires FinishedFrom(g, order, {}, 0)
    requires 0 <= k < |order| && Reachable(g, order[k], z) && z !in order[..k + 1]
    ensures exists j :: k < j < |order| && z in order[..j + 1] && Equiv(g, order[j], order[k])
    decreases |order| - k
  {
    assert Finished(g, order, {}, k);
    var y :| y in order[k + 1..] && Equiv(g, order[k], y) && Reachable(g, y, z);
    var j := SliceIndex(order, k + 1, y);
    if z !in order[..j + 1] {
      ChainUp(g, order, j, z);
      var j' :| j < j' < |order| && z in order[..j' + 1] && Equiv(g, order[j'], order[j]);
      EquivTrans(g, order[j'], order[j], order[k]);
    }
  }

  /** An entry a -> b of the transpose comes from an entry b -> a of `g`, and back. */
  lemma TransposedLinked(g: GraphView, a: int, b: int)
    requires g.Wf() && g.directed && 0 <= a < g.n && 0 <= b < g.n
    ensures Linked(ReversedView(g), a, b) <==> Linked(g, b, a)
  {
    var t: seq<seq<Edge>> := Transpose(g.adj);
    assert ReversedView(g).adj == t;
    TransposeShape(g.adj);
    if k: int :| 0 <= k < |t[a]| && t[a][k].to == b {
      var w := t[a][k].weight;
      TransposeCount(g.adj, b, a, w);
      assert t[a][k] in t[a];
      var i :| 0 <= i < |g.adj[b]| && g.adj[b][i] == Edge(a, w);
    }
    if k: int :| 0 <= k < |g.adj[b]| && g.adj[b][k].to == a {
      var w := g.adj[b][k].weight;
      TransposeCount(g.adj, b, a, w);
      assert g.adj[b][k] in g.adj[b];
      var i :| 0 <= i < |t[a]| && t[a][i] == Edge(b, w);
    }
  }

  /** Reachability in the reversed graph is reachability in `g` read backwards. */
  lemma ReversedReverses(g: GraphView)
    requires g.Wf() && (!g.directed ==> g.Symmetric())
    ensures ReversedView(g).Wf()
    ensures Reverses(g, ReversedView(g)) && Reverses(ReversedView(g), g)
  {
    var rev := ReversedView(g);
    ReversedCorrect(g);
    if g.directed {
      forall a, b | Linked(rev, a, b) ensures Linked(g, b, a) {
        TransposedLinked(g, a, b);
      }
      forall a, b | Linked(g, a, b) ensures Linked(rev, b, a) {
        TransposedLinked(g, b, a);
      }
    } else {
      forall a, b | Linked(g, a, b) ensures Linked(g, b, a) {
        LinkedSym(g, a, b);
      }
    }
  }

  /** The second-pass marking: marked exactly when in the component of a root found so far. */
  ghost predicate Covered(g: GraphView, visited: seq<bool>, roots: seq<int>) {
    |visited| == g.n &&
    forall x :: 0 <= x < g.n ==> (visited[x] <==> InComponentOf(g, roots, x))
  }

  /** In a list without repetitions, `s[i]` occurs among the first `j + 1` elements exactly when i <= j. */
  lemma PrefixHas(s: seq<int>, i: int, j: int)
    requires Distinct(s) && 0 <= i < |s| && 0 <= j < |s|
    ensures s[i] in s[..j + 1] <==> i <= j
  {
    if i <= j {
      assert s[..j + 1][i] == s[i];
    } else {
      assert forall q :: 0 <= q < j + 1 ==> s[..j + 1][q] == s[q] && s[q] != s[i];
    }
  }

  /** Components are closed under `Equiv`. */
  lemma ComponentSpreads(g: GraphView, roots: seq<int>, a: int, b: int)
    ensures Equiv(g, a, b) && InComponentOf(g, roots, a) ==> InComponentOf(g, roots, b)
  {
    if Equiv(g, a, b) && InComponentOf(g, roots, a) {
      var k :| 0 <= k < |roots| && Equiv(g, a, roots[k]);
      EquivTrans(g, b, a, roots[k]);
    }
  }

  /**
   * A vertex newly marked by the second-pass search from `order[i]` lies in
   * the component of `order[i]`: it reaches `order[i]`, and the finishing
   * order rules out its not being reached back.
   */
  lemma NewlyInComponent(g: GraphView, order: seq<int>, i: int, roots: seq<int>, before: seq<bool>, x: int)
    requires Ordering(order, g.n) && FinishedFrom(g, order, {}, 0)
    requires 0 <= i < |order| && Covered(g, before, roots)
    requires forall j :: i < j < |order| ==> before[order[j]]
    requires 0 <= x < g.n && !before[x] && Reachable(g, x, order[i])
    ensures Equiv(g, x, order[i])
  {
    var u := order[i];
    var p := SliceIndex(order, 0, x);
    PrefixHas(order, i, p);
    if p == i {
      ReachRefl(g, u);
    } else {
      ChainUp(g, order, p, u);
      var j :| p < j < |order| && u in order[..j + 1] && Equiv(g, order[j], order[p]);
      PrefixHas(order, i, j);
      ComponentSpreads(g, roots, order[j], x);
      assert !InComponentOf(g, roots, x);
      assert !before[order[j]];
      assert j == i;
    }
  }

  /**
   * The second pass before position `i`: the marking is closed in the
   * reversed graph, holds every later vertex of `order`, and consists of the
   * components of the roots found so far, which are pairwise distinct.
   */
  ghost predicate SecondPass(g: GraphView, rev: GraphView, order: seq<int>, i: int, visited: seq<bool>, roots: seq<int>) {
    && -1 <= i < |order|
    && Closed(rev, visited, {}) && Covered(g, visited, roots)
    && (forall j :: i < j < |order| ==> 0 <= order[j] < |visited| && visited[order[j]])
    && (forall k :: 0 <= k < |roots| ==> 0 <= roots[k] < g.n)
    && (forall j, k :: 0 <= j < k < |roots| ==> !Equiv(g, roots[j], roots[k]))
  }

  lemma SecondPassStart(g: GraphView, rev: GraphView, order: seq<int>, visited: seq<bool>)
    requires |visited| == g.n && forall x :: 0 <= x < g.n ==> !visited[x]
    ensures SecondPass(g, rev, order, |order| - 1, visited, [])
  {
  }

  /** A vertex already marked starts no search. */
  lemma SecondPassSkip(g: GraphView, rev: GraphView, order: seq<int>, i: int, visited: seq<bool>, roots: seq<int>)
    requires SecondPass(g, rev, order, i, visited, roots) && 0 <= i && 0 <= order[i] < |visited| && visited[order[i]]
    ensures SecondPass(g, rev, order, i - 1, visited, roots)
  {
  }

  /** An unmarked vertex becomes a root: its search marks exactly its component. */
  lemma SecondPassRoot(g: GraphView, rev: GraphView, order: seq<int>, i: int, roots: seq<int>, before: seq<bool>, after: seq<bool>)
    requires g.Wf() && rev.Wf() && Reverses(g, rev) && Reverses(rev, g)
    requires Ordering(order, g.n) && FinishedFrom(g, order, {}, 0)
    requires SecondPass(g, rev, order, i, before, roots) && 0 <= i && !before[order[i]]
    requires Grows(before, after) && after[order[i]]
    requires NewlyReachable(rev, order[i], before, after) && Closed(rev, after, {})
    ensures SecondPass(g, rev, order, i - 1, after, roots + [order[i]])
  {
    var u := order[i];
    var roots' := roots + [u];
    assert !InComponentOf(g, roots, u);
    forall x | 0 <= x < g.n && after[x] ensures InComponentOf(g, roots', x) {
      if before[x] {
        var r :| 0 <= r < |roots| && Equiv(g, x, roots[r]);
        assert roots'[r] == roots[r];
      } else {
        ReachReversed(g, rev, u, x);
        NewlyInComponent(g, order, i, roots, before, x);
        assert roots'[|roots|] == u;
      }
    }
    forall x, k | 0 <= x < g.n && 0 <= k < |roots'| && Equiv(g, x, roots'[k]) ensures after[x] {
      if k < |roots| {
        assert roots'[k] == roots[k];
        assert InComponentOf(g, roots, x);
      } else {
        ReachReversed(rev, g, x, u);
        ClosedHoldsReachable(rev, after, u, x);
      }
    }
    assert Covered(g, after, roots');
    forall j, k | 0 <= j < k < |roots'| ensures !Equiv(g, roots'[j], roots'[k]) {
      if k == |roots| {
        assert roots'[j] == roots[j];
      } else {
        assert roots'[j] == roots[j] && roots'[k] == roots[k];
      }
    }
  }

  /** After the last position every vertex is marked, so the roots represent every component. */
  lemma SecondPassDone(g: GraphView, rev: GraphView, order: seq<int>, visited: seq<bool>, roots: seq<int>)
    requires Ordering(order, g.n) && SecondPass(g, rev, order, -1, visited, roots)
    ensures Representatives(g, roots)
  {
    forall x | 0 <= x < g.n ensures InComponentOf(g, roots, x) {
      var p := SliceIndex(order, 0, x);
      assert visited[order[p]];
    }
  }

  /**
   * Lines 49-59: clears the marks, then searches the reversed graph from
   * every still unmarked vertex, last finished first, counting the searches.
   */
  method CountComponents(g: GraphView, rev: GraphView, order: seq<int>, visited: array<bool>)
    returns (count: int, ghost roots: seq<int>)
    requires g.Wf() && (!g.directed ==> g.Symmetric()) && rev == ReversedView(g)
    requires visited.Length == g.n && Ordering(order, g.n)
    requires FinishedFrom(g, order, {}, 0)
    modifies visited
    ensures Representatives(g, roots) && count == |roots|
    ensures 0 <= count <= g.n && (g.n > 0 ==> count >= 1)
  {
    var j := 0;
    while j < visited.Length
      invariant 0 <= j <= visited.Length
      invariant forall x :: 0 <= x < j ==> !visited[x]
    {
      visited[j] := false;
      j := j + 1;
    }
    ReversedReverses(g);
    count := 0;
    roots := [];
    var i := |order| - 1;
    SecondPassStart(g, rev, order, visited[..]);
    while i >= 0
      invariant SecondPass(g, rev, order, i, visited[..], roots)
      invariant count == |roots| <= |order| - 1 - i
      invariant i < |order| - 1 ==> count >= 1
    {
      var u := order[i];
      ghost var before := visited[..];
      if !visited[u] {
        Dfs(u, rev, visited, {});
        SecondPassRoot(g, rev, order, i, roots, before, visited[..]);
        roots := roots + [u];
        count := count + 1;
      } else {
        SecondPassSkip(g, rev, order, i, before, roots);
      }
      i := i - 1;
    }
    SecondPassDone(g, rev, order, visited[..], roots);
  }

  /**
   * The count of the two passes: one root per strongly connected component,
   * none for an empty graph and at most one per vertex.
   */
  method Kosaraju(graph: Graph) returns (count: int, ghost roots: seq<int>)
    requires graph.Valid() && (!graph.directed ==> graph.View().Symmetric())
    ensures Representatives(graph.View(), roots) && count == |roots|
    ensures 0 <= count <= graph.vertices && (count == 0 <==> graph.vertices == 0)
  {
    var g := graph.View();
    var visited := new bool[g.n](_ => false);
    var order := FinishOrder(g, visited);
    var rev := graph.Reversed();
    count, roots := CountComponents(g, rev.View(), order, visited);
  }

  const CountText := "Number of strongly connected components: "

  /** `SCCAlgorithm::run`: the message with the number of strongly connected components. */
  method Run(graph: Graph) returns (text: string)
    requires graph.Valid() && (!graph.directed ==> graph.View().Symmetric())
    ensures exists roots :: Representatives(graph.View(), roots) && text == CountText + IntToString(|roots|)
  {
    var count;
    ghost var roots;
    count, roots := Kosaraju(graph);
    text := CountText + IntToString(count);
  }
}
