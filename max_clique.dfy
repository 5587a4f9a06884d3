/**
 * The maximum-clique algorithm (MaxCliqueAlgorithm): the graph becomes a
 * symmetric boolean matrix, and Bron–Kerbosch with a pivot grows a clique R
 * from the candidates P while X holds the vertices already explored.
 *
 * The ordered sets P and X are `set<int>` over the vertices 0..n-1; a loop
 * over such a set in ascending order is a loop over 0..n-1 that skips the
 * vertices outside it. The out-parameters `bestSize` and `bestClique` are
 * passed in and returned; `R`, which the source pushes to and pops from
 * around each recursive call, is passed by value.
 */
module MaxClique {
  import opened Text
  import opened Graphs

  const EmptyText := "Graph is empty; maximum clique size is 0."
  const SizeText := "Maximum clique size: "
  const NodesText := " (nodes: "

  type Matrix = seq<seq<bool>>

  predicate Square(adj: Matrix) {
    forall u :: 0 <= u < |adj| ==> |adj[u]| == |adj|
  }

  predicate Symmetric(adj: Matrix)
    requires Square(adj)
  {
    forall a, b :: 0 <= a < |adj| && 0 <= b < |adj| ==> adj[a][b] == adj[b][a]
  }

  predicate Loopless(adj: Matrix)
    requires Square(adj)
  {
    forall a :: 0 <= a < |adj| ==> !adj[a][a]
  }

  predicate InRange(s: set<int>, n: int) {
    forall w :: w in s ==> 0 <= w < n
  }

  // ---------------------------------------------------------------------
  // The adjacency matrix (lines 18-34)
  // ---------------------------------------------------------------------

  /** Entry k of the list of x is an edge between a and b, in one direction or the other. */
  predicate Lists(g: GraphView, x: int, k: int, a: int, b: int)
    requires g.Wf()
  {
    0 <= x < g.n && 0 <= k < |g.adj[x]| && ((x == a && g.adj[x][k].to == b) || (x == b && g.adj[x][k].to == a))
  }

  /** Some entry before entry k of the list of u (counting the lists in order) joins a and b. */
  ghost predicate ListedBefore(g: GraphView, u: int, k: int, a: int, b: int)
    requires g.Wf()
  {
    exists x, j :: Lists(g, x, j, a, b) && (x < u || (x == u && j < k))
  }

  /** Some entry of some list joins a and b: an edge in either direction. */
  ghost predicate Touching(g: GraphView, a: int, b: int)
    requires g.Wf()
  {
    exists x, j :: Lists(g, x, j, a, b)
  }

  lemma ListedStep(g: GraphView, u: int, k: int)
    requires g.Wf() && 0 <= u < g.n && 0 <= k < |g.adj[u]|
    ensures forall a, b :: (ListedBefore(g, u, k + 1, a, b) ==
      (ListedBefore(g, u, k, a, b) || (a == u && b == g.adj[u][k].to) || (a == g.adj[u][k].to && b == u)))
  {
    forall a, b ensures ListedBefore(g, u, k + 1, a, b) ==
      (ListedBefore(g, u, k, a, b) || (a == u && b == g.adj[u][k].to) || (a == g.adj[u][k].to && b == u))
    {
      if (a == u && b == g.adj[u][k].to) || (a == g.adj[u][k].to && b == u) {
        assert Lists(g, u, k, a, b);
      }
    }
  }

  lemma ListedRow(g: GraphView, u: int)
    requires g.Wf() && 0 <= u < g.n
    ensures forall a, b :: ListedBefore(g, u, |g.adj[u]|, a, b) == ListedBefore(g, u + 1, 0, a, b)
  {}

  lemma ListedEnds(g: GraphView)
    requires g.Wf()
    ensures forall a, b :: !ListedBefore(g, 0, 0, a, b)
    ensures forall a, b :: ListedBefore(g, g.n, 0, a, b) == Touching(g, a, b)
  {}

  /** An edge joins b and a exactly when it joins a and b. */
  lemma TouchingSymmetric(g: GraphView, a: int, b: int)
    requires g.Wf() && Touching(g, a, b)
    ensures Touching(g, b, a)
  {
    var x, j :| Lists(g, x, j, a, b);
    assert Lists(g, x, j, b, a);
  }

  function Blank(n: nat): (m: Matrix)
    ensures |m| == n && Square(m)
    ensures forall a, b :: 0 <= a < n && 0 <= b < n ==> !m[a][b]
  {
    seq(n, _ => seq(n, _ => false))
  }

  /** Lines 24-30: set the entry (u, v) and its mirror (v, u). */
  method Mark(m: Matrix, u: int, v: int) returns (m': Matrix)
    requires Square(m) && 0 <= u < |m| && 0 <= v < |m|
    ensures |m'| == |m| && Square(m')
    ensures forall a, b :: 0 <= a < |m| && 0 <= b < |m| ==> m'[a][b] == (m[a][b] || (a == u && b == v) || (a == v && b == u))
  {
    m' := m[u := m[u][v := true]];
    m' := m'[v := m'[v][u := true]];
  }

  /**
   * `buildAdjacencyMatrix` as written: every entry (u, v) sets both (u, v)
   * and (v, u) (the two branches of the direction test do the same), so a
   * self-loop sets the diagonal.
   */
  method BuildAdjacencyAsWritten(g: GraphView) returns (adj: Matrix)
    requires g.Wf()
    ensures |adj| == g.n && Square(adj) && Symmetric(adj)
    ensures forall a, b :: 0 <= a < g.n && 0 <= b < g.n ==> adj[a][b] == Touching(g, a, b)
  {
    ListedEnds(g);
    adj := Blank(g.n);
    for u := 0 to g.n
      invariant |adj| == g.n && Square(adj)
      invariant forall a, b :: 0 <= a < g.n && 0 <= b < g.n ==> adj[a][b] == ListedBefore(g, u, 0, a, b)
    {
      var row := g.adj[u];
      for k := 0 to |row|
        invariant |adj| == g.n && Square(adj)
        invariant forall a, b :: 0 <= a < g.n && 0 <= b < g.n ==> adj[a][b] == ListedBefore(g, u, k, a, b)
      {
        ListedStep(g, u, k);
        ghost var before := adj;
        adj := Mark(adj, u, row[k].to);
        forall a, b | 0 <= a < g.n && 0 <= b < g.n ensures adj[a][b] == ListedBefore(g, u, k + 1, a, b) {
          assert adj[a][b] == (before[a][b] || (a == u && b == row[k].to) || (a == row[k].to && b == u));
          assert before[a][b] == ListedBefore(g, u, k, a, b);
        }
      }
      ListedRow(g, u);
    }
    forall a, b | 0 <= a < g.n && 0 <= b < g.n && adj[a][b] ensures adj[b][a] {
      TouchingSymmetric(g, a, b);
    }
  }

  /** The matrix with self-loops left out: what a clique needs, since a vertex is never its own neighbour in one. */
  method BuildAdjacency(g: GraphView) returns (adj: Matrix)
    requires g.Wf()
    ensures |adj| == g.n && Square(adj) && Symmetric(adj) && Loopless(adj)
    ensures forall a, b :: 0 <= a < g.n && 0 <= b < g.n ==> adj[a][b] == (a != b && Touching(g, a, b))
  {
    ListedEnds(g);
    adj := Blank(g.n);
    for u := 0 to g.n
      invariant |adj| == g.n && Square(adj)
      invariant forall a, b :: 0 <= a < g.n && 0 <= b < g.n ==> adj[a][b] == (a != b && ListedBefore(g, u, 0, a, b))
    {
      var row := g.adj[u];
      for k := 0 to |row|
        invariant |adj| == g.n && Square(adj)
        invariant forall a, b :: 0 <= a < g.n && 0 <= b < g.n ==> adj[a][b] == (a != b && ListedBefore(g, u, k, a, b))
      {
        ListedStep(g, u, k);
        ghost var before := adj;
        if row[k].to != u {
          adj := Mark(adj, u, row[k].to);
        }
        forall a, b | 0 <= a < g.n && 0 <= b < g.n ensures adj[a][b] == (a != b && ListedBefore(g, u, k + 1, a, b)) {
          assert before[a][b] == (a != b && ListedBefore(g, u, k, a, b));
        }
      }
      ListedRow(g, u);
    }
    forall a, b | 0 <= a < g.n && 0 <= b < g.n && adj[a][b] ensures adj[b][a] {
      TouchingSymmetric(g, a, b);
    }
  }

  // ---------------------------------------------------------------------
  // Neighbours, degrees and the pivot (lines 46-68)
  // ---------------------------------------------------------------------

  /** The neighbours of v in s below i. */
  function AmongBelow(adj: Matrix, s: set<int>, v: int, i: int): set<int>
    requires Square(adj) && 0 <= v < |adj|
  {
    set w | w in s && 0 <= w < i && w < |adj| && adj[v][w]
  }

  /** The neighbours of v in s. */
  function Among(adj: Matrix, s: set<int>, v: int): set<int>
    requires Square(adj) && 0 <= v < |adj|
  {
    AmongBelow(adj, s, v, |adj|)
  }

  /** The degree of v into s: how many of its neighbours lie in s. */
  function Deg(adj: Matrix, s: set<int>, v: int): nat
    requires Square(adj) && 0 <= v < |adj|
  {
    |Among(adj, s, v)|
  }

  lemma AmongStep(adj: Matrix, s: set<int>, v: int, i: int)
    requires Square(adj) && 0 <= v < |adj| && 0 <= i < |adj|
    ensures AmongBelow(adj, s, v, i + 1) == AmongBelow(adj, s, v, i) + (if i in s && adj[v][i] then {i} else {})
  {}

  /** Lines 53-56: count the neighbours of v in `p`. */
  method Degree(adj: Matrix, p: set<int>, v: int) returns (deg: int)
    requires Square(adj) && 0 <= v < |adj|
    ensures deg == Deg(adj, p, v)
  {
    deg := 0;
    for w := 0 to |adj|
      invariant deg == |AmongBelow(adj, p, v, w)|
    {
      AmongStep(adj, p, v, w);
      if w in p && adj[v][w] {
        deg := deg + 1;
      }
    }
  }

  /** Lines 72-79: collect the neighbours of v in `s`. */
  method Neighbours(adj: Matrix, s: set<int>, v: int) returns (t: set<int>)
    requires Square(adj) && 0 <= v < |adj|
    ensures t == Among(adj, s, v)
  {
    t := {};
    for w := 0 to |adj|
      invariant t == AmongBelow(adj, s, v, w)
    {
      AmongStep(adj, s, v, w);
      if w in s && adj[v][w] {
        t := t + {w};
      }
    }
  }

  /**
   * A pivot of P ∪ X (here `union`): -1 when the union is empty, otherwise
   * a vertex of the union with the largest degree into P, the first such
   * vertex in ascending order.
   */
  ghost predicate IsPivot(adj: Matrix, p: set<int>, union: set<int>, u: int)
    requires Square(adj) && InRange(union, |adj|)
  {
    if union == {} then u == -1
    else
      && u in union && 0 <= u < |adj|
      && forall w :: w in union ==> Deg(adj, p, w) <= Deg(adj, p, u) && (w < u ==> Deg(adj, p, w) < Deg(adj, p, u))
  }

  /** Lines 47-61: choose the pivot. */
  method Pivot(adj: Matrix, p: set<int>, x: set<int>) returns (u: int)
    requires Square(adj) && InRange(p, |adj|) && InRange(x, |adj|)
    ensures IsPivot(adj, p, p + x, u)
  {
    u := -1;
    var maxDeg := -1;
    var union := p + x;
    for v := 0 to |adj|
      invariant u == -1 ==> maxDeg == -1 && forall w :: w in union ==> w >= v
      invariant u != -1 ==> 0 <= u < v && u in union && maxDeg == Deg(adj, p, u)
      invariant forall w :: w in union && w < v ==> Deg(adj, p, w) <= maxDeg
      invariant forall w :: w in union && w < u ==> Deg(adj, p, w) < maxDeg
    {
      if v in union {
        var deg := Degree(adj, p, v);
        if deg > maxDeg {
          maxDeg := deg;
          u := v;
        }
      }
    }
  }

  /** The vertices of `p` below i that the pivot u does not reach. */
  function OutsideBelow(adj: Matrix, p: set<int>, u: int, i: int): set<int>
    requires Square(adj) && -1 <= u < |adj| && i <= |adj|
  {
    set v | v in p && 0 <= v < i && (u < 0 || !adj[u][v])
  }

  /** The branch set P \ N(u). */
  function Outside(adj: Matrix, p: set<int>, u: int): set<int>
    requires Square(adj) && -1 <= u < |adj|
  {
    OutsideBelow(adj, p, u, |adj|)
  }

  lemma OutsideStep(adj: Matrix, p: set<int>, u: int, i: int)
    requires Square(adj) && -1 <= u < |adj| && 0 <= i < |adj|
    ensures OutsideBelow(adj, p, u, i + 1) == OutsideBelow(adj, p, u, i) + (if i in p && (u < 0 || !adj[u][i]) then {i} else {})
  {}

  /** Lines 63-68: the candidates to branch on. */
  method Candidates(adj: Matrix, p: set<int>, u: int) returns (c: set<int>)
    requires Square(adj) && -1 <= u < |adj|
    ensures c == Outside(adj, p, u)
  {
    c := {};
    for v := 0 to |adj|
      invariant c == OutsideBelow(adj, p, u, v)
    {
      OutsideStep(adj, p, u, v);
      if v in p && (u < 0 || !adj[u][v]) {
        c := c + {v};
      }
    }
  }

  // ---------------------------------------------------------------------
  // Cardinalities
  // ---------------------------------------------------------------------

  lemma SubsetCard(a: set<int>, b: set<int>)
    requires a <= b
    ensures |a| <= |b|
  {
    assert b == a + (b - a) && a * (b - a) == {};
  }

  /** A subset that misses an element of the larger set is strictly smaller. */
  lemma StrictSubsetCard(a: set<int>, b: set<int>, y: int)
    requires a <= b && y in b && y !in a
    ensures |a| < |b|
  {
    assert b == a + (b - a) && a * (b - a) == {};
    assert y in b - a;
  }

  /** A set whose elements all occur in `r` has at most |r| elements. */
  lemma {:induction false} FewerThanSeq(k: set<int>, r: seq<int>)
    requires forall w :: w in k ==> w in r
    ensures |k| <= |r|
  {
    if r == [] {
      assert forall w :: w in k <==> w in {};
      assert k == {};
    } else {
      var k' := k - {r[0]};
      forall w | w in k' ensures w in r[1..] {
        var i :| 0 <= i < |r| && r[i] == w;
        assert r[1..][i - 1] == w;
      }
      FewerThanSeq(k', r[1..]);
      if r[0] in k {
        assert |k'| == |k| - 1;
      } else {
        assert k' == k;
      }
    }
  }

  // ---------------------------------------------------------------------
  // Cliques and the invariants of `bronk` (lines 36-86)
  // ---------------------------------------------------------------------

  /** A sequence of distinct vertices, each two of them adjacent. */
  ghost predicate CliqueSeq(adj: Matrix, c: seq<int>)
    requires Square(adj)
  {
    && (forall i :: 0 <= i < |c| ==> 0 <= c[i] < |adj|)
    && (forall i, j :: 0 <= i < |c| && 0 <= j < |c| && i != j ==> c[i] != c[j] && adj[c[i]][c[j]])
  }

  /** A set of vertices, each two of them adjacent. */
  ghost predicate CliqueSet(adj: Matrix, k: set<int>)
    requires Square(adj)
  {
    InRange(k, |adj|) && forall a, b :: a in k && b in k && a != b ==> adj[a][b]
  }

  /** `k` holds all of `r` and otherwise only vertices of `s`. */
  ghost predicate Between(r: seq<int>, k: set<int>, s: set<int>) {
    (forall i :: 0 <= i < |r| ==> r[i] in k) && (forall w :: w in k ==> w in s || w in r)
  }

  ghost predicate Meets(k: set<int>, x: set<int>) {
    exists w :: w in k && w in x
  }

  /**
   * What holds of every call for a matrix without self-loops: R is a
   * clique, P and X are disjoint, and every vertex of P ∪ X is adjacent to
   * every vertex of R.
   */
  ghost predicate Inv(adj: Matrix, r: seq<int>, p: set<int>, x: set<int>)
    requires Square(adj)
  {
    && CliqueSeq(adj, r) && InRange(p, |adj|) && InRange(x, |adj|) && p * x == {}
    && forall w, i :: (w in p || w in x) && 0 <= i < |r| ==> adj[w][r[i]]
  }

  /** Every clique that extends R within `s` and meets X is no larger than `best`: X holds explored vertices. */
  ghost predicate Covered(adj: Matrix, r: seq<int>, s: set<int>, x: set<int>, best: int)
    requires Square(adj)
  {
    forall k :: CliqueSet(adj, k) && Between(r, k, s) && Meets(k, x) ==> |k| <= best
  }

  /** Every clique that extends R within `s` is no larger than `best`. */
  ghost predicate Complete(adj: Matrix, r: seq<int>, s: set<int>, best: int)
    requires Square(adj)
  {
    forall k :: CliqueSet(adj, k) && Between(r, k, s) ==> |k| <= best
  }

  /** Some vertex of P ∪ X is adjacent to all of P: the pivot then leaves nothing to branch on. */
  ghost predicate Dominated(adj: Matrix, p: set<int>, x: set<int>)
    requires Square(adj)
  {
    exists w :: (w in p || w in x) && 0 <= w < |adj| && forall v :: v in p && 0 <= v < |adj| ==> adj[w][v]
  }

  /** With P and X empty, a clique extending R is R itself. */
  lemma BaseComplete(adj: Matrix, r: seq<int>, best: int)
    requires Square(adj) && |r| <= best
    ensures Complete(adj, r, {}, best)
  {
    forall k | CliqueSet(adj, k) && Between(r, k, {}) ensures |k| <= best {
      FewerThanSeq(k, r);
    }
  }

  /** The pivot has the largest degree, and some candidate v misses it, so v has fewer than |P| neighbours in P. */
  lemma Shrinks(adj: Matrix, p: set<int>, x: set<int>, u: int, v: int, p': set<int>)
    requires Square(adj) && InRange(p, |adj|) && InRange(x, |adj|) && IsPivot(adj, p, p + x, u)
    requires v in Outside(adj, p, u) && p' <= p
    ensures |Among(adj, p', v)| < |p|
  {
    assert v in p + x;
    assert Among(adj, p', v) <= Among(adj, p, v);
    SubsetCard(Among(adj, p', v), Among(adj, p, v));
    StrictSubsetCard(Among(adj, p, u), p, v);
  }

  /** A dominated call has no candidates. */
  lemma DominatedNoCandidates(adj: Matrix, p: set<int>, x: set<int>, u: int)
    requires Square(adj) && InRange(p, |adj|) && InRange(x, |adj|) && IsPivot(adj, p, p + x, u)
    requires Dominated(adj, p, x)
    ensures Outside(adj, p, u) == {}
  {
    var w :| (w in p || w in x) && 0 <= w < |adj| && forall v :: v in p && 0 <= v < |adj| ==> adj[w][v];
    assert Among(adj, p, w) == p;
    assert Deg(adj, p, u) >= |p|;
    if v :| v in Outside(adj, p, u) {
      StrictSubsetCard(Among(adj, p, u), p, v);
      assert false;
    }
  }

  /** Branching on a candidate with a self-loop leaves it in the new P, where it dominates. */
  lemma SelfLoopDominated(adj: Matrix, p: set<int>, x: set<int>, v: int)
    requires Square(adj) && 0 <= v < |adj| && v in p && adj[v][v]
    ensures Dominated(adj, Among(adj, p, v), Among(adj, x, v))
  {
    assert v in Among(adj, p, v);
  }

  /** Lines 70-79: the recursive call on R + [v] keeps `Inv`. */
  lemma PushInv(adj: Matrix, r: seq<int>, p: set<int>, x: set<int>, v: int)
    requires Square(adj) && Symmetric(adj) && Inv(adj, r, p, x) && v in p && !adj[v][v]
    ensures Inv(adj, r + [v], Among(adj, p, v), Among(adj, x, v))
  {
    var r' := r + [v];
    forall i, j | 0 <= i < |r'| && 0 <= j < |r'| && i != j ensures r'[i] != r'[j] && adj[r'[i]][r'[j]] {
      if i == |r| {
        assert adj[v][r[j]];
      } else if j == |r| {
        assert adj[v][r[i]];
      }
    }
  }

  /** The recursive call on R + [v] starts `Covered`: its X lies inside the current X. */
  lemma PushCovered(adj: Matrix, r: seq<int>, p: set<int>, x: set<int>, s: set<int>, v: int, best: int)
    requires Square(adj) && 0 <= v < |adj| && v in p && p + x == s && Covered(adj, r, s, x, best)
    ensures Covered(adj, r + [v], Among(adj, p, v) + Among(adj, x, v), Among(adj, x, v), best)
  {
    var s' := Among(adj, p, v) + Among(adj, x, v);
    forall k | CliqueSet(adj, k) && Between(r + [v], k, s') && Meets(k, Among(adj, x, v)) ensures |k| <= best {
      assert (r + [v])[|r|] == v;
      forall i | 0 <= i < |r| ensures r[i] in k {
        assert (r + [v])[i] == r[i];
      }
      forall w | w in k ensures w in s || w in r {
        if w !in s' {
          var i :| 0 <= i < |r + [v]| && (r + [v])[i] == w;
          if i < |r| {
            assert r[i] == w;
          }
        }
      }
      var w :| w in k && w in Among(adj, x, v);
      assert Between(r, k, s) && Meets(k, x);
    }
  }

  /** Lines 80-84: after the call on R + [v], cliques through v are counted too, so v may join X. */
  lemma PopCovered(adj: Matrix, r: seq<int>, p: set<int>, x: set<int>, s: set<int>, v: int, best: int, best': int)
    requires Square(adj) && 0 <= v < |adj| && InRange(s, |adj|) && p + x == s && best <= best'
    requires Covered(adj, r, s, x, best) && Complete(adj, r + [v], Among(adj, p, v) + Among(adj, x, v), best')
    ensures Covered(adj, r, s, x + {v}, best')
  {
    var s' := Among(adj, p, v) + Among(adj, x, v);
    forall k | CliqueSet(adj, k) && Between(r, k, s) && Meets(k, x + {v}) ensures |k| <= best' {
      if !Meets(k, x) {
        assert v in k;
        forall i | 0 <= i < |r + [v]| ensures (r + [v])[i] in k {
          if i < |r| {
            assert (r + [v])[i] == r[i];
          }
        }
        forall w | w in k ensures w in s' || w in r + [v] {
          if w == v {
            assert (r + [v])[|r|] == v;
          } else if w !in r {
            assert adj[v][w];
          } else {
            var i :| 0 <= i < |r| && r[i] == w;
            assert (r + [v])[i] == w;
          }
        }
        assert Between(r + [v], k, s');
      }
    }
  }

  /** The pivot is adjacent to every vertex of a clique that extends R by non-candidates of P. */
  lemma PivotJoins(adj: Matrix, r: seq<int>, p: set<int>, x: set<int>, u: int, k: set<int>)
    requires Square(adj) && Symmetric(adj) && Inv(adj, r, p, x) && 0 <= u < |adj| && (u in p || u in x)
    requires CliqueSet(adj, k) && Between(r, k, p + x)
    requires forall w :: w in k && w !in r ==> w in p && w !in Outside(adj, p, u)
    ensures CliqueSet(adj, k + {u})
  {
    forall c | c in k && c != u ensures adj[u][c] && adj[c][u] {
      if c in r {
        var i :| 0 <= i < |r| && r[i] == c;
        assert adj[u][r[i]];
      } else {
        assert c in p && c !in Outside(adj, p, u);
      }
    }
  }

  /** A clique that meets no explored vertex grows by the pivot into one that does. */
  lemma PivotExtends(adj: Matrix, r: seq<int>, p: set<int>, x: set<int>, u: int, x': set<int>, k: set<int>)
    requires Square(adj) && Symmetric(adj) && Loopless(adj) && Inv(adj, r, p, x)
    requires u in p + x && 0 <= u < |adj| && x' == x + Outside(adj, p, u) && u in x'
    requires CliqueSet(adj, k) && Between(r, k, p + x) && !Meets(k, x')
    ensures CliqueSet(adj, k + {u}) && Between(r, k + {u}, p + x) && Meets(k + {u}, x') && |k + {u}| == |k| + 1
  {
    forall w | w in k && w !in r ensures w in p && w !in Outside(adj, p, u) {
      assert w !in x';
    }
    PivotJoins(adj, r, p, x, u, k);
    assert u !in k;
  }

  /**
   * Lines 69-85 done: a clique that meets no explored vertex lies, beyond
   * R, among the neighbours of the pivot, so adding the pivot gives a
   * larger clique that does meet one.
   */
  lemma CloseByPivot(adj: Matrix, r: seq<int>, p: set<int>, x: set<int>, u: int, x': set<int>, best: int)
    requires Square(adj) && Symmetric(adj) && Loopless(adj) && Inv(adj, r, p, x)
    requires p + x != {} && IsPivot(adj, p, p + x, u) && x' == x + Outside(adj, p, u)
    requires Covered(adj, r, p + x, x', best)
    ensures Complete(adj, r, p + x, best)
  {
    PivotExplored(adj, p, x, u, x');
    CloseBy(adj, r, p, x, u, x', best);
  }

  /** Without self-loops the pivot is explored once its non-neighbours are: it is in X or is one of them. */
  lemma PivotExplored(adj: Matrix, p: set<int>, x: set<int>, u: int, x': set<int>)
    requires Square(adj) && Loopless(adj) && InRange(p, |adj|) && InRange(x, |adj|)
    requires p + x != {} && IsPivot(adj, p, p + x, u) && x' == x + Outside(adj, p, u)
    ensures u in p + x && 0 <= u < |adj| && u in x'
  {
    assert !adj[u][u];
  }

  /** `CloseByPivot` for any explored vertex `u` of P ∪ X adjacent to every vertex of P it leaves unexplored. */
  lemma CloseBy(adj: Matrix, r: seq<int>, p: set<int>, x: set<int>, u: int, x': set<int>, best: int)
    requires Square(adj) && Symmetric(adj) && Loopless(adj) && Inv(adj, r, p, x)
    requires u in p + x && 0 <= u < |adj| && x' == x + Outside(adj, p, u) && u in x'
    requires Covered(adj, r, p + x, x', best)
    ensures Complete(adj, r, p + x, best)
  {
    forall k | CliqueSet(adj, k) && Between(r, k, p + x) ensures |k| <= best {
      if !Meets(k, x') {
        PivotExtends(adj, r, p, x, u, x', k);
        assert |k + {u}| <= best;
      }
    }
  }

  // ---------------------------------------------------------------------
  // The recursion (lines 36-86)
  // ---------------------------------------------------------------------

  /**
   * `bronk(R, P, X, adj, bestSize, bestClique)`. The best size never falls,
   * stays the length of the best clique, and a dominated call reports
   * nothing. The ghost flag `clean` says the call keeps `Inv`; then a new
   * best is a clique. The ghost flag `counted` says the matrix has no
   * self-loops and every clique through X is already counted; then, with
   * `clean`, every clique extending R within P ∪ X is counted afterwards.
   */
  method Bronk(adj: Matrix, r: seq<int>, p: set<int>, x: set<int>, best: int, clique: seq<int>, ghost clean: bool, ghost counted: bool)
      returns (best': int, clique': seq<int>)
    requires Square(adj) && Symmetric(adj) && InRange(p, |adj|) && InRange(x, |adj|)
    requires clean ==> Inv(adj, r, p, x)
    requires counted ==> Loopless(adj)
    requires clean && counted ==> Covered(adj, r, p + x, x, best)
    ensures best' >= best
    ensures best' == best ==> clique' == clique
    ensures best' > best ==> best' == |clique'|
    ensures Dominated(adj, p, x) ==> best' == best
    ensures clean && best' > best ==> CliqueSeq(adj, clique')
    ensures clean && counted ==> Complete(adj, r, p + x, best')
    decreases |p|, 2
  {
    if p == {} && x == {} {
      if |r| > best {
        best', clique' := |r|, r;
      } else {
        best', clique' := best, clique;
      }
      BaseComplete(adj, r, best');
      return;
    }
    var u := Pivot(adj, p, x);
    var cand := Candidates(adj, p, u);
    if Dominated(adj, p, x) {
      DominatedNoCandidates(adj, p, x, u);
    }
    best', clique' := Branches(adj, r, p, x, u, cand, best, clique, clean, counted);
  }

  /** Lines 69-85: branch on every candidate in ascending order, moving each from P to X afterwards. */
  method Branches(adj: Matrix, r: seq<int>, p: set<int>, x: set<int>, u: int, cand: set<int>,
                  best: int, clique: seq<int>, ghost clean: bool, ghost counted: bool)
      returns (best': int, clique': seq<int>)
    requires Square(adj) && Symmetric(adj) && InRange(p, |adj|) && InRange(x, |adj|)
    requires p + x != {} && IsPivot(adj, p, p + x, u) && cand == Outside(adj, p, u)
    requires clean ==> Inv(adj, r, p, x)
    requires counted ==> Loopless(adj)
    requires clean && counted ==> Covered(adj, r, p + x, x, best)
    ensures best' >= best
    ensures best' == best ==> clique' == clique
    ensures best' > best ==> best' == |clique'|
    ensures cand == {} ==> best' == best
    ensures clean && best' > best ==> CliqueSeq(adj, clique')
    ensures clean && counted ==> Complete(adj, r, p + x, best')
    decreases |p|, 1
  {
    ghost var s := p + x;
    best', clique' := best, clique;
    var p', x' := p, x;
    for v := 0 to |adj|
      invariant p' == p - OutsideBelow(adj, p, u, v) && x' == x + OutsideBelow(adj, p, u, v)
      invariant p' <= p && InRange(x', |adj|) && p' + x' == s
      invariant best' >= best && (best' == best ==> clique' == clique) && (best' > best ==> best' == |clique'|)
      invariant cand == {} ==> best' == best
      invariant clean ==> Inv(adj, r, p', x')
      invariant clean && best' > best ==> CliqueSeq(adj, clique')
      invariant clean && counted ==> Covered(adj, r, s, x', best')
    {
      OutsideStep(adj, p, u, v);
      if v in cand {
        best', clique' := Branch(adj, r, p, x, u, p', x', v, best', clique', clean, counted);
        p' := p' - {v};
        x' := x' + {v};
      }
    }
    if clean && counted {
      assert x' == x + cand;
      CloseByPivot(adj, r, p, x, u, x', best');
    }
  }

  /** What the recursive call on R + [v] is owed, in the terms of its own requires. */
  lemma EnterBranch(adj: Matrix, r: seq<int>, p: set<int>, x: set<int>, s: set<int>, v: int, best: int,
                    clean: bool, counted: bool)
    requires Square(adj) && Symmetric(adj) && 0 <= v < |adj| && v in p && p + x == s
    requires clean ==> Inv(adj, r, p, x)
    requires counted ==> Loopless(adj)
    requires clean && counted ==> Covered(adj, r, s, x, best)
    ensures clean && !adj[v][v] ==> Inv(adj, r + [v], Among(adj, p, v), Among(adj, x, v))
    ensures clean && !adj[v][v] && counted ==>
      Covered(adj, r + [v], Among(adj, p, v) + Among(adj, x, v), Among(adj, x, v), best)
  {
    if clean && !adj[v][v] {
      PushInv(adj, r, p, x, v);
      if counted {
        PushCovered(adj, r, p, x, s, v, best);
      }
    }
  }

  /** What the return from R + [v] leaves: v moves from P to X with every clique through it counted. */
  lemma LeaveBranch(adj: Matrix, r: seq<int>, p: set<int>, x: set<int>, s: set<int>, v: int, best: int, best': int,
                    clean: bool, counted: bool)
    requires Square(adj) && 0 <= v < |adj| && v in p && p + x == s && InRange(s, |adj|) && best <= best'
    requires clean ==> Inv(adj, r, p, x)
    requires counted ==> Loopless(adj)
    requires clean && counted ==> Covered(adj, r, s, x, best)
    requires clean && !adj[v][v] && counted ==> Complete(adj, r + [v], Among(adj, p, v) + Among(adj, x, v), best')
    ensures clean ==> Inv(adj, r, p - {v}, x + {v})
    ensures clean && counted ==> Covered(adj, r, s, x + {v}, best')
  {
    if clean && counted {
      assert !adj[v][v];
      PopCovered(adj, r, p, x, s, v, best, best');
    }
  }

  /** Lines 70-84: branch on the candidate v with the current P (`p'`) and X (`x'`). */
  method Branch(adj: Matrix, r: seq<int>, p: set<int>, x: set<int>, u: int, p': set<int>, x': set<int>, v: int,
                best: int, clique: seq<int>, ghost clean: bool, ghost counted: bool)
      returns (best': int, clique': seq<int>)
    requires Square(adj) && Symmetric(adj) && InRange(p, |adj|) && InRange(x, |adj|) && InRange(x', |adj|)
    requires IsPivot(adj, p, p + x, u) && v in Outside(adj, p, u) && v in p' && p' <= p && p' + x' == p + x
    requires clean ==> Inv(adj, r, p', x')
    requires counted ==> Loopless(adj)
    requires clean && counted ==> Covered(adj, r, p + x, x', best)
    ensures best' >= best
    ensures best' == best ==> clique' == clique
    ensures best' > best ==> best' == |clique'|
    ensures clean && best' > best ==> CliqueSeq(adj, clique')
    ensures clean ==> Inv(adj, r, p' - {v}, x' + {v})
    ensures clean && counted ==> Covered(adj, r, p + x, x' + {v}, best')
    decreases |p|, 0
  {
    assert v in p && 0 <= v < |adj|;
    var newP := Neighbours(adj, p', v);
    var newX := Neighbours(adj, x', v);
    Shrinks(adj, p, x, u, v, p');
    EnterBranch(adj, r, p', x', p + x, v, best, clean, counted);
    best', clique' := Bronk(adj, r + [v], newP, newX, best, clique, clean && !adj[v][v], counted);
    LeaveBranch(adj, r, p', x', p + x, v, best, best', clean, counted);
  }

  // ---------------------------------------------------------------------
  // The algorithm (lines 90-114)
  // ---------------------------------------------------------------------

  /** Vertices each two of which are joined by an edge, in one direction or the other. */
  ghost predicate IsClique(g: GraphView, k: set<int>)
    requires g.Wf()
  {
    InRange(k, g.n) && forall a, b :: a in k && b in k && a != b ==> Touching(g, a, b)
  }

  /** `c` lists a clique of `g` without repeats. */
  ghost predicate CliqueList(g: GraphView, c: seq<int>)
    requires g.Wf()
  {
    && (forall i :: 0 <= i < |c| ==> 0 <= c[i] < g.n)
    && (forall i, j :: 0 <= i < |c| && 0 <= j < |c| && i != j ==> c[i] != c[j] && Touching(g, c[i], c[j]))
  }

  /** `c` lists a clique of `g` without repeats, and no clique of `g` is larger. */
  ghost predicate MaximumClique(g: GraphView, c: seq<int>)
    requires g.Wf()
  {
    CliqueList(g, c) && forall k :: IsClique(g, k) ==> |k| <= |c|
  }

  /** No vertex of `g` lists an edge to itself. */
  ghost predicate NoSelfLoops(g: GraphView)
    requires g.Wf()
  {
    forall a :: 0 <= a < g.n ==> !Touching(g, a, a)
  }

  /** Off the diagonal, `adj` is the graph's matrix: true exactly for pairs joined in either direction. */
  ghost predicate Joins(g: GraphView, adj: Matrix)
    requires g.Wf()
  {
    |adj| == g.n && Square(adj) && forall a, b :: 0 <= a < g.n && 0 <= b < g.n && a != b ==> adj[a][b] == Touching(g, a, b)
  }

  /**
   * Without self-loops the matrix as written is the loop-free one: it has
   * no diagonal entry and is true exactly for distinct pairs joined by an edge.
   */
  lemma AsWrittenLoopless(g: GraphView, adj: Matrix)
    requires g.Wf() && |adj| == g.n && Square(adj) && NoSelfLoops(g)
    requires forall a, b :: 0 <= a < g.n && 0 <= b < g.n ==> adj[a][b] == Touching(g, a, b)
    ensures Loopless(adj)
    ensures forall a, b :: 0 <= a < g.n && 0 <= b < g.n ==> adj[a][b] == (a != b && Touching(g, a, b))
  {
    forall a | 0 <= a < g.n ensures !adj[a][a] {
      assert !Touching(g, a, a);
    }
  }

  /** A clique of the graph is a clique of a loop-free matrix that joins its pairs. */
  lemma CliqueOfGraph(g: GraphView, adj: Matrix, k: set<int>)
    requires g.Wf() && Joins(g, adj)
    requires IsClique(g, k)
    ensures CliqueSet(adj, k)
  {}

  /** What the top-level call leaves on a loop-free matrix: a largest clique, and one of at least one vertex. */
  lemma ReportedIsMaximum(g: GraphView, adj: Matrix, s: set<int>, best: int, clique: seq<int>)
    requires g.Wf() && g.n > 0 && Joins(g, adj) && Loopless(adj)
    requires forall j :: 0 <= j < g.n ==> j in s
    requires Complete(adj, [], s, best)
    requires best > 0 ==> best == |clique| && CliqueSeq(adj, clique)
    ensures best >= 1 && best == |clique| && MaximumClique(g, clique)
  {
    assert CliqueSet(adj, {0}) && Between([], {0}, s);
    forall k | IsClique(g, k) ensures |k| <= best {
      CliqueOfGraph(g, adj, k);
      assert Between([], k, s);
    }
  }

  /** The text of lines 103-113 for a best clique `c`: its size, and its nodes unless there are none. */
  function Report(c: seq<int>): string {
    SizeText + IntToString(|c|) + if c == [] then "" else NodesText + Join(c, ", ") + ")"
  }

  /**
   * Lines 96-113 on the matrix `adj`: search from P = all vertices and
   * X = R = empty, and print the best clique. That clique is always a
   * clique of the graph; when `adj` is loop-free (`loopless`) it is also a
   * largest one and has at least one vertex.
   */
  method Search(g: GraphView, adj: Matrix, ghost loopless: bool) returns (text: string)
    requires g.Wf() && g.n > 0 && Joins(g, adj) && Symmetric(adj)
    requires loopless ==> Loopless(adj)
    ensures exists c :: CliqueList(g, c) && text == Report(c)
    ensures loopless ==> exists c :: MaximumClique(g, c) && |c| >= 1 && text == Report(c)
  {
    var p: set<int> := {};
    for i := 0 to g.n
      invariant InRange(p, i) && forall j :: 0 <= j < i ==> j in p
    {
      p := p + {i};
    }
    assert Covered(adj, [], p, {}, 0);
    var best, clique := Bronk(adj, [], p, {}, 0, [], true, loopless);
    FoundIsClique(g, adj, best, clique);
    if loopless {
      ReportedIsMaximum(g, adj, p + {}, best, clique);
    }
    text := Print(best, clique);
  }

  /** The clique the search found, as a clique of the graph. */
  lemma FoundIsClique(g: GraphView, adj: Matrix, best: int, clique: seq<int>)
    requires g.Wf() && Joins(g, adj)
    requires best >= 0 && (best == 0 ==> clique == []) && (best > 0 ==> best == |clique| && CliqueSeq(adj, clique))
    ensures best == |clique| && CliqueList(g, clique)
  {}

  /** Lines 103-113: the size, then the nodes separated by ", " when there are any. */
  method Print(best: int, clique: seq<int>) returns (text: string)
    requires best == |clique|
    ensures text == Report(clique)
  {
    text := SizeText + IntToString(best);
    if clique != [] {
      text := AppendJoined(text + NodesText, clique, ", ");
      text := text + ")";
    }
  }

  /**
   * `MaxCliqueAlgorithm::run`: the empty graph has its own message;
   * otherwise the search runs on the matrix as written and prints a clique
   * of the graph, which is a largest clique whenever the graph has no
   * self-loop.
   */
  method Run(g: GraphView) returns (text: string)
    requires g.Wf()
    ensures g.n == 0 ==> text == EmptyText
    ensures g.n > 0 ==> exists c :: CliqueList(g, c) && text == Report(c)
    ensures g.n > 0 && NoSelfLoops(g) ==> exists c :: MaximumClique(g, c) && |c| >= 1 && text == Report(c)
  {
    if g.n == 0 {
      return EmptyText;
    }
    var adj := BuildAdjacencyAsWritten(g);
    if NoSelfLoops(g) {
      AsWrittenLoopless(g, adj);
    }
    text := Search(g, adj, NoSelfLoops(g));
  }

  /** `run` on the corrected matrix: for every non-empty graph, self-loops or not, a largest clique. */
  method RunLoopFree(g: GraphView) returns (text: string)
    requires g.Wf()
    ensures g.n == 0 ==> text == EmptyText
    ensures g.n > 0 ==> exists c :: MaximumClique(g, c) && |c| >= 1 && text == Report(c)
  {
    if g.n == 0 {
      return EmptyText;
    }
    var adj := BuildAdjacency(g);
    text := Search(g, adj, true);
  }

  lemma LoneLoopDominated(adj: Matrix)
    requires |adj| == 1 && Square(adj) && adj[0][0]
    ensures Dominated(adj, {0}, {})
  {
    assert forall v :: v in {0} && 0 <= v < |adj| ==> adj[0][v];
  }

  /**
   * With the matrix as written, a lone vertex with a self-loop is its own
   * pivot and a neighbour of all of P, so no branch is taken and the size
   * reported is 0, although the vertex alone is a clique.
   */
  method SelfLoopHidesVertex() returns (g: GraphView, best: int)
    ensures g.Wf() && g.n == 1 && IsClique(g, {0}) && best == 0
  {
    g := GraphView(1, true, [[Edge(0, 1)]]);
    var adj := BuildAdjacencyAsWritten(g);
    assert Lists(g, 0, 0, 0, 0);
    LoneLoopDominated(adj);
    var clique;
    best, clique := Bronk(adj, [], {0}, {}, 0, [], false, false);
  }
}
