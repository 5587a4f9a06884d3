/**
 * `generateRandomGraph(vertices, edges, directed, minWeight, maxWeight, seed)`:
 * validate the request, then keep drawing vertex pairs, skipping loops and
 * pairs already used, until `edges` distinct pairs have been added with a
 * drawn weight each.
 *
 * The generator and its two distributions are replaced by a supplied
 * sequence of draws: each vertex draw `d` becomes `d % vertices` and each
 * weight draw becomes `minWeight + d % (maxWeight - minWeight + 1)`, so
 * every drawn value lies in the distribution's range. A finite supply can
 * run out, which the source cannot: that ends the run with `DrawsExhausted`.
 */
module RandomGraph {
  import opened Text
  import opened Graphs

  /** How a call ends: the two `std::invalid_argument` throws, a run out of draws, or a graph. */
  datatype Status = NegativeArgument | TooManyEdges | DrawsExhausted | Generated

  type Key = (int, int)

  // ---------------------------------------------------------------------
  // Validation (lines 16-32)
  // ---------------------------------------------------------------------

  /** The bound on line 20-29 as written: it counts the n self-loops, which the loop never adds. */
  function MaxEdgesAsWritten(n: int, directed: bool): int {
    if directed then n * n else n * (n + 1) / 2
  }

  /** The number of distinct loop-free pairs the loop can add. */
  function MaxEdges(n: int, directed: bool): int {
    if directed then n * (n - 1) else n * (n - 1) / 2
  }

  /** What validation decides, given the bound it uses; `Generated` means "go on". */
  function Validate(vertices: int, edges: int, bound: int): (s: Status)
    ensures s == NegativeArgument <==> vertices < 0 || edges < 0
    ensures s == TooManyEdges <==> vertices >= 0 && edges >= 0 && edges > bound
    ensures s == Generated <==> vertices >= 0 && 0 <= edges <= bound
  {
    if vertices < 0 || edges < 0 then NegativeArgument
    else if edges > bound then TooManyEdges
    else Generated
  }

  // ---------------------------------------------------------------------
  // The draws (lines 34-36, 40-41, 53)
  // ---------------------------------------------------------------------

  /** `vertexDist(rng)`: a vertex in [0, n). */
  function Vertex(n: int, d: int): (v: int)
    requires n > 0
    ensures 0 <= v < n
    ensures 0 <= d < n ==> v == d
  {
    d % n
  }

  /** `weightDist(rng)`: a weight in [lo, hi]. */
  function Weight(lo: int, hi: int, d: int): (w: int)
    requires lo <= hi
    ensures lo <= w <= hi
    ensures d == 0 ==> w == lo
  {
    lo + d % (hi - lo + 1)
  }

  /** Lines 44-49: the pair as drawn when directed, smaller end first otherwise. */
  function KeyOf(directed: bool, u: int, v: int): (k: Key)
    ensures directed ==> k == (u, v)
    ensures !directed ==> k.0 <= k.1 && {k.0, k.1} == {u, v}
  {
    if directed || u <= v then (u, v) else (v, u)
  }

  /**
   * Lines 39-55, from a given state: `used` holds the keys so far and `g` the
   * graph so far. None when the draws run out before `edges` keys are used.
   */
  function Fill(n: int, directed: bool, lo: int, hi: int, edges: int, draws: seq<int>, used: set<Key>, g: GraphView)
    : Option<(GraphView, set<Key>)>
    requires lo <= hi && g.Wf() && g.n == n
    requires n > 0 || |used| >= edges
    decreases |draws|
  {
    if |used| >= edges then Some((g, used))
    else if |draws| < 2 then None
    else
      var u := Vertex(n, draws[0]);
      var v := Vertex(n, draws[1]);
      if u == v then Fill(n, directed, lo, hi, edges, draws[2..], used, g)
      else
        var key := KeyOf(directed, u, v);
        if key in used then Fill(n, directed, lo, hi, edges, draws[2..], used, g)
        else if |draws| < 3 then None
        else Fill(n, directed, lo, hi, edges, draws[3..], used + {key}, WithEdge(g, u, v, Weight(lo, hi, draws[2])))
  }

  // ---------------------------------------------------------------------
  // What the loop keeps true
  // ---------------------------------------------------------------------

  /** Every key names two different vertices, the smaller first when undirected. */
  predicate KeysOk(used: set<Key>, n: int, directed: bool) {
    forall k :: k in used ==> 0 <= k.0 < n && 0 <= k.1 < n && k.0 != k.1 && (directed || k.0 < k.1)
  }

  /**
   * The graph holds exactly one entry from a to b for every used key joining
   * them and none otherwise: no self-loop and no repeated edge.
   */
  predicate Simple(g: GraphView, used: set<Key>)
    requires g.Wf()
  {
    forall a, b :: 0 <= a < g.n && 0 <= b < g.n ==>
      |WeightsTo(g.adj[a], b)| == if KeyOf(g.directed, a, b) in used then 1 else 0
  }

  /** Every weight lies in [lo, hi]. */
  predicate WeightsIn(g: GraphView, lo: int, hi: int) {
    forall a, j :: 0 <= a < |g.adj| && 0 <= j < |g.adj[a]| ==> lo <= g.adj[a][j].weight <= hi
  }

  /** The fresh graph meets all three with no keys used. */
  lemma EmptyStart(n: nat, directed: bool, lo: int, hi: int)
    ensures Simple(Empty(n, directed), {}) && WeightsIn(Empty(n, directed), lo, hi) && KeysOk({}, n, directed)
  {
    var g := Empty(n, directed);
    forall a, b | 0 <= a < n && 0 <= b < n ensures |WeightsTo(g.adj[a], b)| == 0 {
      EmptiesHaveNoWeights(n, a, b);
    }
  }

  /** Adding the edge of a fresh loop-free key keeps the graph simple for the enlarged key set. */
  lemma SimpleStep(g: GraphView, used: set<Key>, u: int, v: int, w: int)
    requires g.Wf() && 0 <= u < g.n && 0 <= v < g.n && u != v
    requires KeyOf(g.directed, u, v) !in used && Simple(g, used)
    ensures Simple(WithEdge(g, u, v, w), used + {KeyOf(g.directed, u, v)})
  {
    var r := WithEdge(g, u, v, w);
    var key := KeyOf(g.directed, u, v);
    WithEdgeRows(g, u, v, w);
    forall a, b | 0 <= a < g.n && 0 <= b < g.n
      ensures |WeightsTo(r.adj[a], b)| == if KeyOf(g.directed, a, b) in used + {key} then 1 else 0
    {
      if a == u {
        WeightsToSnoc(g.adj[u], Edge(v, w), b);
      } else if a == v && !g.directed {
        WeightsToSnoc(g.adj[v], Edge(u, w), b);
      }
      assert KeyOf(g.directed, a, b) == key <==> (a == u && b == v) || (!g.directed && a == v && b == u);
    }
  }

  /** Adding an edge with a weight in range keeps every weight in range. */
  lemma WeightsStep(g: GraphView, u: int, v: int, w: int, lo: int, hi: int)
    requires g.Wf() && 0 <= u < g.n && 0 <= v < g.n && u != v && lo <= w <= hi && WeightsIn(g, lo, hi)
    ensures WeightsIn(WithEdge(g, u, v, w), lo, hi)
  {
    var r := WithEdge(g, u, v, w);
    WithEdgeRows(g, u, v, w);
    forall a, j | 0 <= a < |r.adj| && 0 <= j < |r.adj[a]| ensures lo <= r.adj[a][j].weight <= hi {
      if j < |g.adj[a]| {
        assert r.adj[a][j] == g.adj[a][j];
      }
    }
  }

  /**
   * What a run that ends with a graph `h` and keys `k` has done, starting from
   * `used` and a graph of `total` entries: exactly `edges` loop-free keys, one
   * edge added per new key (one entry directed, two undirected), the graph
   * kept simple and every weight drawn in [lo, hi].
   */
  ghost predicate Filled(r: Option<(GraphView, set<Key>)>, n: int, directed: bool, lo: int, hi: int, edges: int,
                         used: set<Key>, total: int)
  {
    r.Some? ==>
      var (h, k) := r.value;
      && h.Wf() && h.n == n && h.directed == directed
      && used <= k && (edges < 0 ==> k == used) && (edges >= 0 ==> |k| == edges)
      && KeysOk(k, n, directed) && Simple(h, k) && WeightsIn(h, lo, hi)
      && TotalEdges(h.adj) == total + (if directed then 1 else 2) * (|k| - |used|)
  }

  /** Every run of the loop from a simple state that ends with a graph has done what `Filled` says. */
  lemma {:induction false} FillFacts(n: int, directed: bool, lo: int, hi: int, edges: int, draws: seq<int>,
                                     used: set<Key>, g: GraphView)
    requires lo <= hi && g.Wf() && g.n == n && g.directed == directed && (n > 0 || |used| >= edges)
    requires |used| <= edges || edges < 0
    requires KeysOk(used, n, directed) && Simple(g, used) && WeightsIn(g, lo, hi)
    ensures Filled(Fill(n, directed, lo, hi, edges, draws, used, g), n, directed, lo, hi, edges, used, TotalEdges(g.adj))
    decreases |draws|
  {
    if |used| >= edges || |draws| < 2 {
      return;
    }
    var u := Vertex(n, draws[0]);
    var v := Vertex(n, draws[1]);
    if u == v || KeyOf(directed, u, v) in used {
      assert Fill(n, directed, lo, hi, edges, draws, used, g) == Fill(n, directed, lo, hi, edges, draws[2..], used, g);
      FillFacts(n, directed, lo, hi, edges, draws[2..], used, g);
    } else if |draws| >= 3 {
      var key := KeyOf(directed, u, v);
      var w := Weight(lo, hi, draws[2]);
      var g' := WithEdge(g, u, v, w);
      SimpleStep(g, used, u, v, w);
      WeightsStep(g, u, v, w, lo, hi);
      WithEdgeCount(g, u, v, w);
      assert KeysOk(used + {key}, n, directed);
      assert Fill(n, directed, lo, hi, edges, draws, used, g) == Fill(n, directed, lo, hi, edges, draws[3..], used + {key}, g');
      FillFacts(n, directed, lo, hi, edges, draws[3..], used + {key}, g');
      FilledGrow(Fill(n, directed, lo, hi, edges, draws[3..], used + {key}, g'), n, directed, lo, hi, edges, used, key,
                 TotalEdges(g.adj), TotalEdges(g'.adj));
    }
  }

  /** One more key, one more edge: what holds from after the step holds from before it. */
  lemma FilledGrow(r: Option<(GraphView, set<Key>)>, n: int, directed: bool, lo: int, hi: int, edges: int,
                   used: set<Key>, key: Key, total: int, total': int)
    requires key !in used && |used| < edges && total' == total + (if directed then 1 else 2)
    requires Filled(r, n, directed, lo, hi, edges, used + {key}, total')
    ensures Filled(r, n, directed, lo, hi, edges, used, total)
  {
    assert |used + {key}| == |used| + 1;
  }

  /** In a simple graph the entries from a to b number one or none, and there is no self-loop. */
  lemma SimpleMeansNoRepeats(g: GraphView, used: set<Key>, a: int, b: int)
    requires g.Wf() && Simple(g, used) && KeysOk(used, g.n, g.directed) && 0 <= a < g.n && 0 <= b < g.n
    ensures |WeightsTo(g.adj[a], b)| <= 1
    ensures a == b ==> WeightsTo(g.adj[a], b) == []
    ensures !g.directed ==> |WeightsTo(g.adj[a], b)| == |WeightsTo(g.adj[b], a)|
  {
    if a == b {
      assert KeyOf(g.directed, a, b) !in used;
    }
    if !g.directed {
      assert KeyOf(g.directed, a, b) == KeyOf(g.directed, b, a);
    }
  }

  // ---------------------------------------------------------------------
  // The generator
  // ---------------------------------------------------------------------

  /** The result of the whole call on a supplied draw sequence, once validation as written has passed. */
  function Generate(vertices: int, edges: int, directed: bool, lo: int, hi: int, draws: seq<int>)
    : Option<(GraphView, set<Key>)>
    requires lo <= hi && Validate(vertices, edges, MaxEdgesAsWritten(vertices, directed)) == Generated
  {
    Fill(vertices, directed, lo, hi, edges, draws, {}, Empty(vertices, directed))
  }

  /**
   * `generateRandomGraph`: throws become the two error statuses, with the
   * bound as written; otherwise the loop grows `used` and calls `addEdge`
   * once per key. A request above the loop-free bound passes validation but
   * never yields a graph: the source loops for ever, and the model uses up
   * whatever draws it is given.
   */
  method GenerateRandomGraph(vertices: int, edges: int, directed: bool, minWeight: int, maxWeight: int, draws: seq<int>)
      returns (status: Status, g: Graph?)
    requires minWeight <= maxWeight
    ensures status == Validate(vertices, edges, MaxEdgesAsWritten(vertices, directed)) || status == DrawsExhausted
    ensures status == NegativeArgument <==> vertices < 0 || edges < 0
    ensures status == TooManyEdges <==> vertices >= 0 && edges >= 0 && edges > MaxEdgesAsWritten(vertices, directed)
    ensures status == DrawsExhausted <==>
      Validate(vertices, edges, MaxEdgesAsWritten(vertices, directed)) == Generated
      && Generate(vertices, edges, directed, minWeight, maxWeight, draws).None?
    ensures vertices >= 0 && MaxEdges(vertices, directed) < edges <= MaxEdgesAsWritten(vertices, directed) ==>
      status == DrawsExhausted
    ensures status == Generated <==> g != null
    ensures g != null ==> (fresh(g) && g.Valid()
      && exists k :: Generate(vertices, edges, directed, minWeight, maxWeight, draws) == Some((g.View(), k)))
  {
    status := Validate(vertices, edges, MaxEdgesAsWritten(vertices, directed));
    g := null;
    if status != Generated {
      return;
    }
    if edges > MaxEdges(vertices, directed) {
      BeyondReachNeverFills(vertices, edges, directed, minWeight, maxWeight, draws);
    }
    var h := new Graph(vertices, directed);
    var used: set<Key> := {};
    var i := 0;
    while |used| < edges
      invariant 0 <= i <= |draws| && h.Valid() && h.vertices == vertices && h.directed == directed
      invariant vertices > 0 || |used| >= edges
      invariant Generate(vertices, edges, directed, minWeight, maxWeight, draws)
             == Fill(vertices, directed, minWeight, maxWeight, edges, draws[i..], used, h.View())
      decreases |draws| - i
    {
      var exhausted;
      i, used, exhausted := Draw(h, minWeight, maxWeight, edges, draws, i, used);
      if exhausted {
        status := DrawsExhausted;
        return;
      }
    }
    g := h;
  }

  /**
   * One pass of the loop body (lines 40-54): two vertex draws, then either a
   * skip or a new key, a weight draw and `addEdge`. `exhausted` when the
   * draws run out first.
   */
  method Draw(h: Graph, lo: int, hi: int, edges: int, draws: seq<int>, i: int, used: set<Key>)
      returns (i': int, used': set<Key>, exhausted: bool)
    requires h.Valid() && h.vertices > 0 && lo <= hi && 0 <= i <= |draws| && |used| < edges
    modifies h
    ensures h.Valid() && h.vertices == old(h.vertices) && h.directed == old(h.directed)
    ensures exhausted ==> Fill(h.vertices, h.directed, lo, hi, edges, draws[i..], used, old(h.View())) == None
    ensures !exhausted ==> (i < i' <= |draws| &&
      Fill(h.vertices, h.directed, lo, hi, edges, draws[i..], used, old(h.View()))
      == Fill(h.vertices, h.directed, lo, hi, edges, draws[i'..], used', h.View()))
  {
    used', exhausted := used, false;
    if i + 2 > |draws| {
      return i, used, true;
    }
    var u := Vertex(h.vertices, draws[i]);
    var v := Vertex(h.vertices, draws[i + 1]);
    assert draws[i..][2..] == draws[i + 2..];
    i' := i + 2;
    if u == v {
      return;
    }
    var key := KeyOf(h.directed, u, v);
    if key in used {
      return;
    }
    if i' + 1 > |draws| {
      return i', used, true;
    }
    used' := used + {key};
    var w := Weight(lo, hi, draws[i']);
    assert draws[i..][3..] == draws[i + 3..];
    i' := i' + 1;
    var ok := h.AddEdge(u, v, w);
  }

  /**
   * A generated graph has the requested vertex count and direction, exactly
   * `edges` keys each added once, no self-loop, no repeated edge and all
   * weights in [lo, hi].
   */
  lemma GeneratedFacts(vertices: int, edges: int, directed: bool, lo: int, hi: int, draws: seq<int>)
    requires lo <= hi && Validate(vertices, edges, MaxEdgesAsWritten(vertices, directed)) == Generated
    ensures Generate(vertices, edges, directed, lo, hi, draws).Some? ==>
      var (h, k) := Generate(vertices, edges, directed, lo, hi, draws).value;
      && h.Wf() && h.n == vertices && h.directed == directed && |k| == edges
      && KeysOk(k, vertices, directed) && Simple(h, k) && WeightsIn(h, lo, hi)
      && TotalEdges(h.adj) == (if directed then edges else 2 * edges)
  {
    EmptyStart(vertices, directed, lo, hi);
    FillFacts(vertices, directed, lo, hi, edges, draws, {}, Empty(vertices, directed));
  }

  // ---------------------------------------------------------------------
  // The bound: what the loop can reach
  // ---------------------------------------------------------------------

  /** a comes before b, first by source and then by target. */
  predicate Before(a: Key, b: Key) {
    a.0 < b.0 || (a.0 == b.0 && a.1 < b.1)
  }

  predicate Increasing(ps: seq<Key>) {
    forall i, j :: 0 <= i < j < |ps| ==> Before(ps[i], ps[j])
  }

  /** A pair the loop can add: two different vertices, the smaller first when undirected. */
  predicate Addable(p: Key, n: int, directed: bool) {
    0 <= p.0 < n && 0 <= p.1 < n && p.0 != p.1 && (directed || p.0 < p.1)
  }

  /** The addable pairs (u, b) with b >= v, in order. */
  function RowPairs(n: int, directed: bool, u: int, v: int): seq<Key>
    decreases n - v
  {
    if v >= n then []
    else (if v != u && (directed || u < v) then [(u, v)] else []) + RowPairs(n, directed, u, v + 1)
  }

  /** All addable pairs with source at least u, in order. */
  function AllPairs(n: int, directed: bool, u: int): seq<Key>
    decreases n - u
  {
    if u >= n || u < 0 then [] else RowPairs(n, directed, u, 0) + AllPairs(n, directed, u + 1)
  }

  /** The set of the elements of a sequence of keys. */
  function Elems(ps: seq<Key>): set<Key> {
    if ps == [] then {} else {ps[0]} + Elems(ps[1..])
  }

  lemma {:induction false} RowPairsFacts(n: int, directed: bool, u: int, v: int)
    requires 0 <= u < n && 0 <= v
    ensures var r := RowPairs(n, directed, u, v);
      && Increasing(r)
      && (forall i :: 0 <= i < |r| ==> r[i].0 == u && v <= r[i].1 && Addable(r[i], n, directed))
      && (forall b :: Addable((u, b), n, directed) && v <= b ==> (u, b) in r)
      && (directed && v <= n ==> |r| == n - v - (if v <= u then 1 else 0))
      && (!directed && v <= n ==> |r| == n - (if v > u then v else u + 1))
    decreases n - v
  {
    if v < n {
      RowPairsFacts(n, directed, u, v + 1);
    }
  }

  /** The pairs with source at least u are addable and in order. */
  lemma {:induction false} AllPairsOrdered(n: int, directed: bool, u: int)
    requires 0 <= u <= n
    ensures var r := AllPairs(n, directed, u);
      && Increasing(r) && forall i :: 0 <= i < |r| ==> u <= r[i].0 && Addable(r[i], n, directed)
    decreases n - u
  {
    if u < n {
      var row := RowPairs(n, directed, u, 0);
      var rest := AllPairs(n, directed, u + 1);
      RowPairsFacts(n, directed, u, 0);
      AllPairsOrdered(n, directed, u + 1);
      var r := row + rest;
      forall i | 0 <= i < |r| ensures u <= r[i].0 && Addable(r[i], n, directed) {
        if i < |row| {
          assert r[i] == row[i];
        } else {
          assert r[i] == rest[i - |row|];
        }
      }
      forall i, j | 0 <= i < j < |r| ensures Before(r[i], r[j]) {
        if j < |row| {
          assert r[i] == row[i] && r[j] == row[j];
        } else if i >= |row| {
          assert r[i] == rest[i - |row|] && r[j] == rest[j - |row|];
        } else {
          assert r[i] == row[i] && r[j] == rest[j - |row|];
        }
      }
    }
  }

  /** Every addable pair with source at least u is listed. */
  lemma {:induction false} AllPairsComplete(n: int, directed: bool, u: int)
    requires 0 <= u <= n
    ensures forall p :: Addable(p, n, directed) && u <= p.0 ==> p in AllPairs(n, directed, u)
    decreases n - u
  {
    if u < n {
      var row := RowPairs(n, directed, u, 0);
      var rest := AllPairs(n, directed, u + 1);
      RowPairsFacts(n, directed, u, 0);
      AllPairsComplete(n, directed, u + 1);
      forall p | Addable(p, n, directed) && u <= p.0 ensures p in row + rest {
        if p.0 == u {
          assert (u, p.1) in row;
        } else {
          assert p in rest;
        }
      }
    }
  }

  /** How many pairs have source at least u. */
  lemma {:induction false} AllPairsLength(n: int, directed: bool, u: int)
    requires 0 <= u <= n
    ensures directed ==> |AllPairs(n, directed, u)| == (n - u) * (n - 1)
    ensures !directed ==> 2 * |AllPairs(n, directed, u)| == (n - u) * (n - u - 1)
    decreases n - u
  {
    if u < n {
      var row := RowPairs(n, directed, u, 0);
      var rest := AllPairs(n, directed, u + 1);
      RowPairsFacts(n, directed, u, 0);
      AllPairsLength(n, directed, u + 1);
      assert |AllPairs(n, directed, u)| == |row| + |rest|;
      var m := n - u;
      if directed {
        assert |row| == n - 1;
        ProductStep(m, n - 1);
      } else {
        assert |row| == m - 1;
        ProductStep(m - 1, m);
      }
    }
  }

  /** One more row of c: (m-1)*c + c == m*c. */
  lemma ProductStep(m: int, c: int)
    ensures (m - 1) * c + c == m * c
  {
  }

  lemma {:induction false} ElemsOfIncreasing(ps: seq<Key>)
    requires Increasing(ps)
    ensures |Elems(ps)| == |ps|
    ensures forall p :: p in Elems(ps) <==> p in ps
  {
    if ps != [] {
      ElemsOfIncreasing(ps[1..]);
      assert ps[0] !in ps[1..] by {
        forall j | 0 <= j < |ps[1..]| ensures ps[1..][j] != ps[0] {
          assert Before(ps[0], ps[j + 1]);
        }
      }
      forall p ensures p in Elems(ps) <==> p in ps {
        assert p in ps <==> p == ps[0] || p in ps[1..];
      }
    }
  }

  /** The number of addable pairs is the loop-free bound. */
  lemma AddableCount(n: int, directed: bool)
    requires n >= 0
    ensures |Elems(AllPairs(n, directed, 0))| == MaxEdges(n, directed)
    ensures forall p :: Addable(p, n, directed) <==> p in Elems(AllPairs(n, directed, 0))
  {
    AllPairsOrdered(n, directed, 0);
    AllPairsComplete(n, directed, 0);
    AllPairsLength(n, directed, 0);
    ElemsOfIncreasing(AllPairs(n, directed, 0));
  }

  /** No run ever holds more keys than there are addable pairs. */
  lemma KeysWithinBound(k: set<Key>, n: int, directed: bool)
    requires n >= 0 && KeysOk(k, n, directed)
    ensures |k| <= MaxEdges(n, directed)
  {
    var all := Elems(AllPairs(n, directed, 0));
    AddableCount(n, directed);
    assert k <= all;
    assert all == k + (all - k) && k * (all - k) == {};
  }

  /** Draws that name the pairs of `ps` in turn, each with the weight draw 0. */
  function Script(ps: seq<Key>): (d: seq<int>)
    ensures |d| == 3 * |ps|
  {
    if ps == [] then [] else [ps[0].0, ps[0].1, 0] + Script(ps[1..])
  }

  /** Naming fresh addable pairs, enough of them, always reaches `edges` keys. */
  lemma {:induction false} ScriptFills(n: int, directed: bool, lo: int, hi: int, edges: int, ps: seq<Key>,
                                       used: set<Key>, g: GraphView)
    requires lo <= hi && n > 0 && g.Wf() && g.n == n && Increasing(ps)
    requires forall i :: 0 <= i < |ps| ==> Addable(ps[i], n, directed) && ps[i] !in used
    requires |used| + |ps| >= edges
    ensures Fill(n, directed, lo, hi, edges, Script(ps), used, g).Some?
    decreases |ps|
  {
    if |used| < edges {
      var p := ps[0];
      var d := Script(ps);
      assert d[0] == p.0 && d[1] == p.1 && d[2] == 0 && d[3..] == Script(ps[1..]);
      assert KeyOf(directed, p.0, p.1) == p;
      var g' := WithEdge(g, p.0, p.1, Weight(lo, hi, 0));
      assert Fill(n, directed, lo, hi, edges, d, used, g) == Fill(n, directed, lo, hi, edges, Script(ps[1..]), used + {p}, g');
      forall i | 0 <= i < |ps[1..]| ensures Addable(ps[1..][i], n, directed) && ps[1..][i] !in used + {p} {
        assert Before(p, ps[i + 1]);
      }
      ScriptFills(n, directed, lo, hi, edges, ps[1..], used + {p}, g');
    }
  }

  /**
   * With the loop-free bound, validation accepts a request exactly when some
   * draws make the loop finish: every accepted request can be met, and no
   * draws ever meet a larger one.
   */
  lemma AcceptedExactlyWhenReachable(vertices: int, edges: int, directed: bool, lo: int, hi: int)
    requires lo <= hi && vertices >= 0 && edges >= 0
    ensures Validate(vertices, edges, MaxEdges(vertices, directed)) == Generated ==>
      Fill(vertices, directed, lo, hi, edges, Script(AllPairs(vertices, directed, 0)), {}, Empty(vertices, directed)).Some?
    ensures forall draws ::
      ((vertices > 0 || edges == 0) && Fill(vertices, directed, lo, hi, edges, draws, {}, Empty(vertices, directed)).Some?) ==>
      Validate(vertices, edges, MaxEdges(vertices, directed)) == Generated
  {
    var g := Empty(vertices, directed);
    EmptyStart(vertices, directed, lo, hi);
    AllPairsOrdered(vertices, directed, 0);
    AllPairsLength(vertices, directed, 0);
    AddableCount(vertices, directed);
    if Validate(vertices, edges, MaxEdges(vertices, directed)) == Generated && vertices > 0 {
      ScriptFills(vertices, directed, lo, hi, edges, AllPairs(vertices, directed, 0), {}, g);
    }
    forall draws | (vertices > 0 || edges == 0) && Fill(vertices, directed, lo, hi, edges, draws, {}, g).Some?
      ensures edges <= MaxEdges(vertices, directed)
    {
      FillFacts(vertices, directed, lo, hi, edges, draws, {}, g);
      KeysWithinBound(Fill(vertices, directed, lo, hi, edges, draws, {}, g).value.1, vertices, directed);
    }
  }

  /**
   * Lines 20-32 and 39-55 as written: a request that passes validation but
   * asks for more edges than there are loop-free pairs is never completed,
   * whatever the draws.
   */
  lemma BeyondReachNeverFills(vertices: int, edges: int, directed: bool, lo: int, hi: int, draws: seq<int>)
    requires lo <= hi && Validate(vertices, edges, MaxEdgesAsWritten(vertices, directed)) == Generated
    requires edges > MaxEdges(vertices, directed)
    ensures Generate(vertices, edges, directed, lo, hi, draws).None?
  {
    var g := Empty(vertices, directed);
    EmptyStart(vertices, directed, lo, hi);
    FillFacts(vertices, directed, lo, hi, edges, draws, {}, g);
    var r := Fill(vertices, directed, lo, hi, edges, draws, {}, g);
    if r.Some? {
      KeysWithinBound(r.value.1, vertices, directed);
    }
  }

  /** The bound as written exceeds the reachable one by exactly the n self-loops. */
  lemma AsWrittenCountsLoops(n: int, directed: bool)
    ensures MaxEdgesAsWritten(n, directed) == MaxEdges(n, directed) + n
  {
    if !directed {
      assert n * (n + 1) == n * (n - 1) + 2 * n;
    }
  }

  /**
   * Lines 20-32 and 39-42 as written: one vertex and one edge pass validation,
   * yet every draw names the vertex twice, so no draws ever end the loop.
   */
  lemma {:induction false} SelfLoopBudgetNeverMet(directed: bool, lo: int, hi: int, draws: seq<int>)
    requires lo <= hi
    ensures Validate(1, 1, MaxEdgesAsWritten(1, directed)) == Generated
    ensures Fill(1, directed, lo, hi, 1, draws, {}, Empty(1, directed)) == None
    decreases |draws|
  {
    if |draws| >= 2 {
      assert Vertex(1, draws[0]) == Vertex(1, draws[1]) == 0;
      SelfLoopBudgetNeverMet(directed, lo, hi, draws[2..]);
    }
  }
}
