/**
 * `EulerAlgorithm::run`: the checks on an undirected graph (degree parity,
 * edges present, connectivity of the vertices that have edges) and
 * Hierholzer's stack-based construction of the circuit over numbered edges.
 */
module Euler {
  import opened Text
  import opened Graphs
  import opened Reach
  import opened EulerEdges

  /** An entry of the numbered adjacency: the neighbour and the number of the edge. */
  datatype AdjEdge = AdjEdge(to: int, id: int)

  /** Each entry of the list of `x` names an edge between `x` and its neighbour. */
  predicate EntriesHonest(es: seq<EdgeRec>, adj: seq<seq<AdjEdge>>) {
    forall x, k :: 0 <= x < |adj| && 0 <= k < |adj[x]| ==>
      0 <= adj[x][k].id < |es| && Joins(es[adj[x][k].id], x, adj[x][k].to)
  }

  /** Every edge not yet used is still listed at both of its ends. */
  predicate UnusedListed(es: seq<EdgeRec>, adj: seq<seq<AdjEdge>>, used: seq<bool>) {
    |used| == |es| &&
    forall id :: 0 <= id < |es| && !used[id] ==>
      0 <= es[id].u < |adj| && 0 <= es[id].v < |adj| &&
      AdjEdge(es[id].v, id) in adj[es[id].u] && AdjEdge(es[id].u, id) in adj[es[id].v]
  }

  /** `walk` goes along the edges `ids`: the i-th edge joins walk[i] and walk[i + 1]. */
  predicate Trail(es: seq<EdgeRec>, ids: seq<int>, walk: seq<int>) {
    |ids| == |walk| - 1 &&
    forall i :: 0 <= i < |ids| ==> 0 <= ids[i] < |es| && Joins(es[ids[i]], walk[i], walk[i + 1])
  }

  function Rev(s: seq<int>): seq<int> {
    if s == [] then [] else [s[|s| - 1]] + Rev(s[..|s| - 1])
  }

  lemma {:induction false} RevSnoc(s: seq<int>, x: int)
    ensures Rev(s + [x]) == [x] + Rev(s)
  {
    assert (s + [x])[..|s|] == s;
  }

  lemma {:induction false} RevElements(s: seq<int>)
    ensures |Rev(s)| == |s| && forall x :: x in Rev(s) <==> x in s
  {
    if s != [] {
      RevElements(s[..|s| - 1]);
      assert s == s[..|s| - 1] + [s[|s| - 1]];
    }
  }

  /** A value not in a distinct sequence can be inserted anywhere and keep it distinct. */
  lemma DistinctInsert(p: seq<int>, x: int, q: seq<int>)
    requires Distinct(p + q) && x !in p + q
    ensures Distinct(p + [x] + q)
  {
    var s := p + [x] + q;
    forall i, j | 0 <= i < j < |s| ensures s[i] != s[j] {
      if i < |p| && j == |p| {
        assert s[i] == (p + q)[i];
      } else if i == |p| {
        assert s[j] == (p + q)[j - 1];
      } else {
        var i' := if i < |p| then i else i - 1;
        var j' := if j < |p| then j else j - 1;
        assert s[i] == (p + q)[i'] && s[j] == (p + q)[j'];
      }
    }
  }

  /** Whether an odd number of the first `m` edges are unused, not loops, and end at `x`. */
  function OddRemaining(es: seq<EdgeRec>, used: seq<bool>, x: int, m: nat): bool
    requires m <= |es| == |used|
  {
    if m == 0 then false
    else OddRemaining(es, used, x, m - 1) != (!used[m - 1] && Incident(es[m - 1], x))
  }

  /** Using edge `i` flips the parity at its two ends, unless it is a loop. */
  lemma {:induction false} OddRemainingMark(es: seq<EdgeRec>, used: seq<bool>, x: int, m: nat, i: int)
    requires m <= |es| == |used| && 0 <= i < |es| && !used[i]
    ensures OddRemaining(es, used[i := true], x, m) ==
      (OddRemaining(es, used, x, m) != (i < m && Incident(es[i], x)))
  {
    if m > 0 {
      OddRemainingMark(es, used, x, m - 1, i);
    }
  }

  lemma {:induction false} OddRemainingNone(es: seq<EdgeRec>, used: seq<bool>, x: int, m: nat)
    requires m <= |es| == |used|
    requires forall id :: 0 <= id < m && !used[id] ==> !Incident(es[id], x)
    ensures !OddRemaining(es, used, x, m)
  {
    if m > 0 {
      OddRemainingNone(es, used, x, m - 1);
    }
  }

  lemma {:induction false} OddRemainingStart(es: seq<EdgeRec>, used: seq<bool>, x: int, m: nat)
    requires m <= |es| == |used| && forall id :: 0 <= id < |used| ==> !used[id]
    ensures OddRemaining(es, used, x, m) == (NonLoopCount(es[..m], x) % 2 == 1)
  {
    if m > 0 {
      OddRemainingStart(es, used, x, m - 1);
      assert es[..m][..m - 1] == es[..m - 1];
    }
  }

  /** The numbered lists are honest and still hold every unused edge. */
  predicate Frame(es: seq<EdgeRec>, n: int, adj: seq<seq<AdjEdge>>, used: seq<bool>) {
    RecordsBounded(es, n) && |adj| == n && EntriesHonest(es, adj) && UnusedListed(es, adj, used)
  }

  /** The stack is a walk from `start` along the edges `T`; `m` indexes it. */
  predicate OnStack(es: seq<EdgeRec>, n: int, start: int, st: seq<int>, T: seq<int>, m: int) {
    && (forall i :: 0 <= i < |st| ==> 0 <= st[i] < n)
    && (st != [] ==> st[0] == start && 0 <= m < |st| && Trail(es, T, st))
    && (st == [] ==> T == [])
  }

  /**
   * The part written out is a walk from `start` along the edges `C`, and
   * the edge `J` joins its last vertex to `st[m]`, where the excursion on
   * the stack above `m` started.
   */
  predicate WrittenOut(es: seq<EdgeRec>, start: int, st: seq<int>, circuit: seq<int>, C: seq<int>, J: int, m: int) {
    && (st == [] ==> circuit != [] && circuit[|circuit| - 1] == start)
    && (circuit == [] ==> C == [] && m == 0 && st != [])
    && (circuit != [] ==> circuit[0] == start && Trail(es, C, circuit))
    && (circuit != [] && st != [] ==> 0 <= J < |es| && 0 <= m < |st| && Joins(es[J], circuit[|circuit| - 1], st[m]))
  }

  /** The used edges in the order of the closed walk being built. */
  function UsedOrder(st: seq<int>, circuit: seq<int>, T: seq<int>, C: seq<int>, J: int): seq<int> {
    C + (if circuit != [] && st != [] then [J] else []) + Rev(T)
  }

  /** `W` lists each used edge exactly once. */
  predicate Ledger(es: seq<EdgeRec>, used: seq<bool>, W: seq<int>) {
    && |used| == |es| && Distinct(W)
    && (forall id :: 0 <= id < |es| ==> (used[id] <==> id in W))
    && (forall k :: 0 <= k < |W| ==> 0 <= W[k] < |es|)
    && Unmarked(used) == |es| - |W|
  }

  /**
   * A vertex has an odd number of unused non-loop edges exactly when it is
   * one of `st[m]` and the top of the stack, and these differ.
   */
  predicate Parity(es: seq<EdgeRec>, used: seq<bool>, n: int, st: seq<int>, m: int) {
    |used| == |es| &&
    (st != [] ==> 0 <= m < |st| && forall x :: 0 <= x < n ==>
       OddRemaining(es, used, x, |es|) == ((x == st[m]) != (x == st[|st| - 1])))
  }

  lemma WalkingStarts(es: seq<EdgeRec>, n: int, start: int, adj: seq<seq<AdjEdge>>, used: seq<bool>)
    requires 0 <= start < n && Frame(es, n, adj, used)
    requires forall id :: 0 <= id < |used| ==> !used[id]
    requires forall x :: 0 <= x < n ==> NonLoopCount(es, x) % 2 == 0
    ensures Frame(es, n, adj, used)
    ensures OnStack(es, n, start, [start], [], 0)
    ensures WrittenOut(es, start, [start], [], [], 0, 0)
    ensures [] == UsedOrder([start], [], [], [], 0)
    ensures Ledger(es, used, [])
    ensures Parity(es, used, n, [start], 0)
  {
    UnmarkedNone(used);
    forall x | 0 <= x < n ensures !OddRemaining(es, used, x, |es|) {
      OddRemainingStart(es, used, x, |es|);
      assert es[..|es|] == es;
    }
  }

  /** Dropping a used entry from the end of a list keeps every unused edge listed. */
  lemma DropUsed(es: seq<EdgeRec>, n: int, adj: seq<seq<AdjEdge>>, used: seq<bool>, u: int)
    requires Frame(es, n, adj, used)
    requires 0 <= u < n && adj[u] != [] && used[adj[u][|adj[u]| - 1].id]
    ensures Frame(es, n, adj[u := adj[u][..|adj[u]| - 1]], used)
  {
    var adj' := adj[u := adj[u][..|adj[u]| - 1]];
    var last := adj[u][|adj[u]| - 1];
    forall id | 0 <= id < |es| && !used[id]
      ensures AdjEdge(es[id].v, id) in adj'[es[id].u] && AdjEdge(es[id].u, id) in adj'[es[id].v]
    {
      assert AdjEdge(es[id].v, id) != last && AdjEdge(es[id].u, id) != last;
      assert adj[u] == adj'[u] + [last];
    }
  }

  lemma AdvanceStack(es: seq<EdgeRec>, n: int, start: int, st: seq<int>, T: seq<int>, m: int, v: int, id: int)
    requires OnStack(es, n, start, st, T, m) && st != []
    requires 0 <= v < n && 0 <= id < |es| && Joins(es[id], st[|st| - 1], v)
    ensures OnStack(es, n, start, st + [v], T + [id], m)
  {
    var st' := st + [v];
    forall i | 0 <= i < |T| + 1 ensures Joins(es[(T + [id])[i]], st'[i], st'[i + 1]) {
      if i < |T| {
        assert st'[i] == st[i] && st'[i + 1] == st[i + 1];
      }
    }
  }

  lemma AdvanceLedger(es: seq<EdgeRec>, used: seq<bool>, pre: seq<int>, post: seq<int>, id: int)
    requires Ledger(es, used, pre + post) && 0 <= id < |es| && !used[id]
    ensures Ledger(es, used[id := true], pre + [id] + post)
  {
    var W := pre + post;
    var W' := pre + [id] + post;
    DistinctInsert(pre, id, post);
    UnmarkedMark(used, id);
    forall k | 0 <= k < |W'| ensures 0 <= W'[k] < |es| {
      if k < |pre| {
        assert W'[k] == W[k];
      } else if k > |pre| {
        assert W'[k] == W[k - 1];
      }
    }
    forall x ensures x in W' <==> x in W || x == id {
      assert W' == pre + ([id] + post);
    }
  }

  lemma AdvanceParity(es: seq<EdgeRec>, used: seq<bool>, n: int, st: seq<int>, m: int, v: int, id: int)
    requires Parity(es, used, n, st, m) && st != []
    requires 0 <= id < |es| && !used[id] && Joins(es[id], st[|st| - 1], v)
    ensures Parity(es, used[id := true], n, st + [v], m)
  {
    var st' := st + [v];
    var used' := used[id := true];
    assert st'[m] == st[m];
    forall x | 0 <= x < n
      ensures OddRemaining(es, used', x, |es|) == ((x == st'[m]) != (x == v))
    {
      OddRemainingMark(es, used, x, |es|, id);
    }
  }

  /** Using an edge keeps the frame: the lists only need to hold the unused edges. */
  lemma FrameUse(es: seq<EdgeRec>, n: int, adj: seq<seq<AdjEdge>>, used: seq<bool>, id: int)
    requires Frame(es, n, adj, used) && 0 <= id < |used|
    ensures Frame(es, n, adj, used[id := true])
  {
  }

  /** The new edge goes between the edges written out and the reversed trail. */
  lemma AdvanceOrder(st: seq<int>, circuit: seq<int>, T: seq<int>, C: seq<int>, J: int, v: int, id: int)
    returns (pre: seq<int>)
    requires st != []
    ensures UsedOrder(st, circuit, T, C, J) == pre + Rev(T)
    ensures UsedOrder(st + [v], circuit, T + [id], C, J) == pre + [id] + Rev(T)
  {
    pre := C + (if circuit != [] then [J] else []);
    RevSnoc(T, id);
  }

  /** Taking the unused edge `id` from the top of the stack to `v`. */
  lemma Advance(es: seq<EdgeRec>, n: int, start: int, adj: seq<seq<AdjEdge>>, used: seq<bool>,
                st: seq<int>, circuit: seq<int>, T: seq<int>, C: seq<int>, J: int, m: int, W: seq<int>,
                v: int, id: int)
    returns (W': seq<int>)
    requires Frame(es, n, adj, used)
    requires OnStack(es, n, start, st, T, m)
    requires WrittenOut(es, start, st, circuit, C, J, m)
    requires W == UsedOrder(st, circuit, T, C, J)
    requires Ledger(es, used, W)
    requires Parity(es, used, n, st, m)
    requires st != []
    requires 0 <= id < |es| && !used[id] && Joins(es[id], st[|st| - 1], v)
    ensures Frame(es, n, adj, used[id := true])
    ensures OnStack(es, n, start, st + [v], T + [id], m)
    ensures WrittenOut(es, start, st + [v], circuit, C, J, m)
    ensures W' == UsedOrder(st + [v], circuit, T + [id], C, J)
    ensures Ledger(es, used[id := true], W')
    ensures Parity(es, used[id := true], n, st + [v], m)
    ensures |W'| == |W| + 1
  {
    assert 0 <= v < n by {
      assert RecordsBounded(es, n);
    }
    W' := UsedOrder(st + [v], circuit, T + [id], C, J);
    var pre := AdvanceOrder(st, circuit, T, C, J, v, id);
    FrameUse(es, n, adj, used, id);
    AdvanceStack(es, n, start, st, T, m, v, id);
    AdvanceLedger(es, used, pre, Rev(T), id);
    AdvanceParity(es, used, n, st, m, v, id);
    assert (st + [v])[m] == st[m];
  }

  /** A vertex whose list has run out has no unused edge left. */
  lemma Exhausted(es: seq<EdgeRec>, n: int, adj: seq<seq<AdjEdge>>, used: seq<bool>, u: int)
    requires Frame(es, n, adj, used) && 0 <= u < n && adj[u] == []
    ensures !OddRemaining(es, used, u, |es|)
  {
    forall id | 0 <= id < |es| && !used[id] ensures !Incident(es[id], u) {
      assert AdjEdge(es[id].v, id) in adj[es[id].u] && AdjEdge(es[id].u, id) in adj[es[id].v];
    }
    OddRemainingNone(es, used, u, |es|);
  }

  lemma RetreatStack(es: seq<EdgeRec>, n: int, start: int, st: seq<int>, T: seq<int>, m: int)
    returns (T': seq<int>, J': int, m': int)
    requires OnStack(es, n, start, st, T, m) && st != []
    ensures OnStack(es, n, start, st[..|st| - 1], T', m')
    ensures |st| == 1 ==> T == [] && T' == []
    ensures |st| > 1 ==>
      Rev(T) == [J'] + Rev(T') && m' == |st| - 2 && 0 <= J' < |es| && Joins(es[J'], st[|st| - 1], st[|st| - 2])
  {
    var top := |st| - 1;
    var st' := st[..top];
    if top == 0 {
      T', J', m' := [], 0, 0;
    } else {
      T', J', m' := T[..top - 1], T[top - 1], top - 1;
      assert T == T' + [J'];
      forall i | 0 <= i < |T'| ensures Joins(es[T'[i]], st'[i], st'[i + 1]) {
        assert T'[i] == T[i] && st'[i] == st[i] && st'[i + 1] == st[i + 1];
      }
    }
  }

  lemma RetreatWritten(es: seq<EdgeRec>, start: int, st: seq<int>, circuit: seq<int>, C: seq<int>, J: int, m: int,
                       J': int, m': int) returns (C': seq<int>)
    requires WrittenOut(es, start, st, circuit, C, J, m) && st != [] && st[0] == start
    requires st[m] == st[|st| - 1]
    requires |st| > 1 ==> m' == |st| - 2 && 0 <= J' < |es| && Joins(es[J'], st[|st| - 1], st[|st| - 2])
    ensures WrittenOut(es, start, st[..|st| - 1], circuit + [st[|st| - 1]], C', J', m')
    ensures C' == C + (if circuit != [] then [J] else [])
  {
    var u := st[|st| - 1];
    var circuit' := circuit + [u];
    C' := if circuit == [] then [] else C + [J];
    if circuit != [] {
      forall i | 0 <= i < |C'| ensures Joins(es[C'[i]], circuit'[i], circuit'[i + 1]) {
        if i < |C| {
          assert circuit'[i] == circuit[i] && circuit'[i + 1] == circuit[i + 1];
        }
      }
    }
    if |st| > 1 {
      assert st[..|st| - 1][m'] == st[|st| - 2];
    }
  }

  /** Writing out the top moves the edge below it, or the junction, to the written part. */
  lemma RetreatOrder(st: seq<int>, circuit: seq<int>, T: seq<int>, C: seq<int>, J: int,
                     T': seq<int>, C': seq<int>, J': int)
    requires st != [] && C' == C + (if circuit != [] then [J] else [])
    requires |st| == 1 ==> T == [] && T' == []
    requires |st| > 1 ==> Rev(T) == [J'] + Rev(T')
    ensures UsedOrder(st[..|st| - 1], circuit + [st[|st| - 1]], T', C', J') == UsedOrder(st, circuit, T, C, J)
  {
  }

  /** Pops the used edges off the end of the list of `u`, as the inner loop of `run` does. */
  method SkipUsed(es: seq<EdgeRec>, n: int, adj: seq<seq<AdjEdge>>, used: seq<bool>, u: int)
    returns (adj': seq<seq<AdjEdge>>)
    requires Frame(es, n, adj, used) && 0 <= u < n
    ensures Frame(es, n, adj', used)
    ensures adj'[u] == [] || !used[adj'[u][|adj'[u]| - 1].id]
    ensures forall x :: 0 <= x < n && x != u ==> adj'[x] == adj[x]
    ensures |adj'[u]| <= |adj[u]| && adj'[u] == adj[u][..|adj'[u]|]
  {
    adj' := adj;
    while adj'[u] != [] && used[adj'[u][|adj'[u]| - 1].id]
      invariant Frame(es, n, adj', used)
      invariant forall x :: 0 <= x < n && x != u ==> adj'[x] == adj[x]
      invariant |adj'[u]| <= |adj[u]| && adj'[u] == adj[u][..|adj'[u]|]
      decreases |adj'[u]|
    {
      DropUsed(es, n, adj', used, u);
      adj' := adj'[u := adj'[u][..|adj'[u]| - 1]];
    }
  }

  /** With the top equal to `st[m]`, no vertex has odd parity, before or after the pop. */
  lemma RetreatParity(es: seq<EdgeRec>, used: seq<bool>, n: int, st: seq<int>, m: int, m': int)
    requires Parity(es, used, n, st, m) && st != [] && st[m] == st[|st| - 1]
    requires |st| > 1 ==> m' == |st| - 2
    ensures Parity(es, used, n, st[..|st| - 1], m')
  {
    var st' := st[..|st| - 1];
    if st' != [] {
      assert st'[m'] == st'[|st'| - 1];
      forall x | 0 <= x < n ensures !OddRemaining(es, used, x, |es|) {
      }
    }
  }

  /**
   * The top of the stack has no unused edge left: by parity it is the vertex
   * its excursion started from, so writing it out continues the circuit.
   */
  lemma Retreat(es: seq<EdgeRec>, n: int, start: int, adj: seq<seq<AdjEdge>>, used: seq<bool>,
                st: seq<int>, circuit: seq<int>, T: seq<int>, C: seq<int>, J: int, m: int, W: seq<int>)
    returns (T': seq<int>, C': seq<int>, J': int, m': int)
    requires Frame(es, n, adj, used)
    requires OnStack(es, n, start, st, T, m)
    requires WrittenOut(es, start, st, circuit, C, J, m)
    requires W == UsedOrder(st, circuit, T, C, J)
    requires Ledger(es, used, W)
    requires Parity(es, used, n, st, m)
    requires st != []
    requires adj[st[|st| - 1]] == []
    ensures Frame(es, n, adj, used)
    ensures OnStack(es, n, start, st[..|st| - 1], T', m')
    ensures WrittenOut(es, start, st[..|st| - 1], circuit + [st[|st| - 1]], C', J', m')
    ensures W == UsedOrder(st[..|st| - 1], circuit + [st[|st| - 1]], T', C', J')
    ensures Ledger(es, used, W)
    ensures Parity(es, used, n, st[..|st| - 1], m')
  {
    var top := |st| - 1;
    var u := st[top];
    Exhausted(es, n, adj, used, u);
    assert u == st[m];
    T', J', m' := RetreatStack(es, n, start, st, T, m);
    C' := RetreatWritten(es, start, st, circuit, C, J, m, J', m');
    RetreatOrder(st, circuit, T, C, J, T', C', J');
    RetreatParity(es, used, n, st, m, m');
  }

  /** `e` has `x` as an end. */
  predicate Touches(e: EdgeRec, x: int) {
    e.u == x || e.v == x
  }

  /** No unused edge has an end among the vertices written out. */
  predicate Cleared(es: seq<EdgeRec>, used: seq<bool>, circuit: seq<int>) {
    |used| == |es| &&
    forall i, id :: 0 <= i < |circuit| && 0 <= id < |es| && !used[id] ==> !Touches(es[id], circuit[i])
  }

  lemma ClearedUse(es: seq<EdgeRec>, used: seq<bool>, circuit: seq<int>, id: int)
    requires Cleared(es, used, circuit) && 0 <= id < |es|
    ensures Cleared(es, used[id := true], circuit)
  {
  }

  /** A vertex is written out only once its list, and so its unused edges, have run out. */
  lemma ClearedRetreat(es: seq<EdgeRec>, n: int, adj: seq<seq<AdjEdge>>, used: seq<bool>, circuit: seq<int>, u: int)
    requires Frame(es, n, adj, used) && Cleared(es, used, circuit) && 0 <= u < n && adj[u] == []
    ensures Cleared(es, used, circuit + [u])
  {
    var c := circuit + [u];
    forall i, id | 0 <= i < |c| && 0 <= id < |es| && !used[id] ensures !Touches(es[id], c[i]) {
      if i == |circuit| {
        assert AdjEdge(es[id].v, id) in adj[es[id].u] && AdjEdge(es[id].u, id) in adj[es[id].v];
      } else {
        assert c[i] == circuit[i];
      }
    }
  }

  /**
   * The stack loop of Hierholzer's algorithm from `start` over the numbered
   * edges `es`.  When every vertex has an even number of non-loop edges,
   * the result is a closed walk from `start` that uses each edge at most
   * once, and every edge with an end on the walk is one it uses.
   */
  method Hierholzer(es: seq<EdgeRec>, n: int, start: int, adj0: seq<seq<AdjEdge>>)
    returns (circuit: seq<int>, ghost ids: seq<int>)
    requires 0 <= start < n && RecordsBounded(es, n)
    requires |adj0| == n && EntriesHonest(es, adj0) && UnusedListed(es, adj0, seq(|es|, _ => false))
    requires forall x :: 0 <= x < n ==> NonLoopCount(es, x) % 2 == 0
    ensures |circuit| >= 1 && circuit[0] == start && circuit[|circuit| - 1] == start
    ensures Trail(es, ids, circuit) && Distinct(ids)
    ensures forall i, id :: 0 <= i < |circuit| && 0 <= id < |es| && id !in ids ==> !Touches(es[id], circuit[i])
    ensures (forall id :: 0 <= id < |es| ==> id in ids) ==> |ids| == |es|
  {
    var adj := adj0;
    var used: seq<bool> := seq(|es|, _ => false);
    var st := [start];
    circuit := [];
    ghost var T: seq<int>, C: seq<int>, J, m, W: seq<int> := [], [], 0, 0, [];
    WalkingStarts(es, n, start, adj, used);
    while st != []
      invariant Frame(es, n, adj, used)
      invariant OnStack(es, n, start, st, T, m)
      invariant WrittenOut(es, start, st, circuit, C, J, m)
      invariant W == UsedOrder(st, circuit, T, C, J)
      invariant Ledger(es, used, W)
      invariant Parity(es, used, n, st, m)
      invariant Cleared(es, used, circuit)
      decreases Unmarked(used), |st|
    {
      var u := st[|st| - 1];
      adj := SkipUsed(es, n, adj, used, u);
      if adj[u] != [] {
        var e := adj[u][|adj[u]| - 1];
        W := Advance(es, n, start, adj, used, st, circuit, T, C, J, m, W, e.to, e.id);
        ClearedUse(es, used, circuit, e.id);
        used := used[e.id := true];
        st := st + [e.to];
        T := T + [e.id];
      } else {
        T, C, J, m := Retreat(es, n, start, adj, used, st, circuit, T, C, J, m, W);
        ClearedRetreat(es, n, adj, used, circuit, u);
        circuit := circuit + [u];
        st := st[..|st| - 1];
      }
    }
    ids := C;
    assert W == C;
    if forall id :: 0 <= id < |es| ==> id in ids {
      UnmarkedAll(used);
    }
  }

  /** Appends the records of the list of `u`: its entries (v, w) with u <= v. */
  method RowEdges(edges: seq<EdgeRec>, u: int, row: seq<Edge>) returns (out: seq<EdgeRec>)
    ensures out == edges + RowRecords(u, row)
  {
    out := edges;
    var k := 0;
    while k < |row|
      invariant 0 <= k <= |row|
      invariant out == edges + RowRecords(u, row[..k])
    {
      assert row[..k + 1][..k] == row[..k];
      if u <= row[k].to {
        out := out + [EdgeRec(u, row[k].to, row[k].weight)];
      }
      k := k + 1;
    }
    assert row[..k] == row;
  }

  /** The `edges` vector: every undirected edge once, vertex by vertex. */
  method CollectEdges(g: GraphView) returns (edges: seq<EdgeRec>)
    requires g.Wf()
    ensures edges == EdgeList(g.adj)
  {
    edges := [];
    var u := 0;
    while u < g.n
      invariant 0 <= u <= g.n
      invariant edges == EdgeList(g.adj[..u])
    {
      assert g.adj[..u + 1][..u] == g.adj[..u];
      edges := RowEdges(edges, u, g.adj[u]);
      u := u + 1;
    }
    assert g.adj[..u] == g.adj;
  }

  /**
   * The numbered lists: edge `id` = (u, v) is listed as (v, id) at `u` and,
   * unless it is a loop, as (u, id) at `v`.
   */
  method NumberedLists(es: seq<EdgeRec>, n: int) returns (adj: seq<seq<AdjEdge>>)
    requires n >= 0 && RecordsBounded(es, n)
    ensures Frame(es, n, adj, seq(|es|, _ => false))
  {
    adj := seq(n, _ => []);
    var id := 0;
    while id < |es|
      invariant 0 <= id <= |es| && |adj| == n
      invariant EntriesHonest(es, adj)
      invariant forall j :: 0 <= j < id ==> Listed(es, adj, j)
    {
      var e := es[id];
      ghost var before := adj;
      adj := adj[e.u := adj[e.u] + [AdjEdge(e.v, id)]];
      if e.u != e.v {
        adj := adj[e.v := adj[e.v] + [AdjEdge(e.u, id)]];
      }
      forall j | 0 <= j <= id ensures Listed(es, adj, j) {
        if j < id {
          ListedGrows(es, before, adj, j);
        }
      }
      id := id + 1;
    }
    ghost var used: seq<bool> := seq(|es|, _ => false);
    assert UnusedListed(es, adj, used) by {
      forall j | 0 <= j < |es| && !used[j]
        ensures AdjEdge(es[j].v, j) in adj[es[j].u] && AdjEdge(es[j].u, j) in adj[es[j].v]
      {
        assert Listed(es, adj, j);
      }
    }
  }

  /** Edge `id` is listed at both of its ends. */
  predicate Listed(es: seq<EdgeRec>, adj: seq<seq<AdjEdge>>, id: int) {
    0 <= id < |es| && 0 <= es[id].u < |adj| && 0 <= es[id].v < |adj| &&
    AdjEdge(es[id].v, id) in adj[es[id].u] && AdjEdge(es[id].u, id) in adj[es[id].v]
  }

  lemma ListedGrows(es: seq<EdgeRec>, a: seq<seq<AdjEdge>>, b: seq<seq<AdjEdge>>, id: int)
    requires Listed(es, a, id) && |a| == |b|
    requires forall x :: 0 <= x < |a| ==> |a[x]| <= |b[x]| && b[x][..|a[x]|] == a[x]
    ensures Listed(es, b, id)
  {
    var e := es[id];
    var p := a[e.u];
    var q := a[e.v];
    assert forall t :: t in p ==> t in b[e.u][..|p|];
    assert forall t :: t in q ==> t in b[e.v][..|q|];
  }

  /** Every vertex has an even number of entries. */
  predicate AllEven(g: GraphView) {
    forall x :: 0 <= x < |g.adj| ==> |g.adj[x]| % 2 == 0
  }

  predicate HasNoEdges(g: GraphView) {
    forall x :: 0 <= x < |g.adj| ==> g.adj[x] == []
  }

  /** The vertices that have edges are reachable from one another. */
  ghost predicate Connected(g: GraphView) {
    forall a, b :: 0 <= a < |g.adj| && 0 <= b < |g.adj| && g.adj[a] != [] && g.adj[b] != [] ==> Reachable(g, a, b)
  }

  /** `s` is the first vertex with a non-empty list. */
  predicate FirstWithEdges(g: GraphView, s: int) {
    0 <= s < |g.adj| && g.adj[s] != [] && forall x :: 0 <= x < s ==> g.adj[x] == []
  }

  /** `c` is a closed walk through every edge of the edge list exactly once. */
  ghost predicate EulerCircuit(g: GraphView, c: seq<int>) {
    |c| >= 1 && c[0] == c[|c| - 1] &&
    exists ids :: |ids| == |EdgeList(g.adj)| && Distinct(ids) && Trail(EdgeList(g.adj), ids, c)
  }

  /** In a symmetric graph, reaching every vertex with edges from one of them is connectivity. */
  lemma ConnectedFromStart(g: GraphView, s: int)
    requires g.Wf() && g.Symmetric() && 0 <= s < g.n
    requires forall x :: 0 <= x < g.n && g.adj[x] != [] ==> Reachable(g, s, x)
    ensures Connected(g)
  {
    forall a, b | 0 <= a < g.n && 0 <= b < g.n && g.adj[a] != [] && g.adj[b] != [] ensures Reachable(g, a, b) {
      ReachBack(g, s, a);
      ReachTrans(g, a, s, b);
    }
  }

  /**
   * A walk along recorded edges that uses every recorded edge with an end on
   * it contains every vertex reachable from one of its vertices.
   */
  lemma WalkCoversReachable(g: GraphView, es: seq<EdgeRec>, circuit: seq<int>, ids: seq<int>, s: int, t: int)
    requires g.Wf() && g.Symmetric() && es == EdgeList(g.adj)
    requires Trail(es, ids, circuit) && s in circuit
    requires forall i, id :: 0 <= i < |circuit| && 0 <= id < |es| && id !in ids ==> !Touches(es[id], circuit[i])
    requires Reachable(g, s, t)
    ensures t in circuit
  {
    var p :| IsPath(g, p) && p[0] == s && p[|p| - 1] == t;
    var i := 0;
    while i < |p| - 1
      invariant 0 <= i <= |p| - 1 && p[i] in circuit
    {
      assert Linked(g, p[i], p[i + 1]);
      var k :| 0 <= k < |g.adj[p[i]]| && g.adj[p[i]][k].to == p[i + 1];
      var id := EntryRecorded(g, p[i], k);
      var j :| 0 <= j < |circuit| && circuit[j] == p[i];
      assert Touches(es[id], circuit[j]);
      var q :| 0 <= q < |ids| && ids[q] == id;
      assert Joins(es[id], circuit[q], circuit[q + 1]);
      i := i + 1;
    }
  }

  /** In a connected even symmetric graph the walk Hierholzer's loop builds uses every edge. */
  lemma AllEdgesUsed(g: GraphView, es: seq<EdgeRec>, circuit: seq<int>, ids: seq<int>)
    requires g.Wf() && g.Symmetric() && Connected(g) && es == EdgeList(g.adj)
    requires |circuit| >= 1 && 0 <= circuit[0] < g.n && g.adj[circuit[0]] != [] && Trail(es, ids, circuit)
    requires forall i, id :: 0 <= i < |circuit| && 0 <= id < |es| && id !in ids ==> !Touches(es[id], circuit[i])
    ensures forall id :: 0 <= id < |es| ==> id in ids
  {
    EdgeListFromRows(g.adj, g.n);
    var s := circuit[0];
    forall id | 0 <= id < |es| ensures id in ids {
      var e := es[id];
      assert EdgeFrom(g.adj, e);
      assert g.adj[e.u] != [];
      WalkCoversReachable(g, es, circuit, ids, s, e.u);
      var j :| 0 <= j < |circuit| && circuit[j] == e.u;
      assert Touches(es[id], circuit[j]);
    }
  }

  /**
   * The edge list, the numbered lists and the stack loop, from the first
   * vertex with edges: in a connected graph of even degrees the result is an
   * Euler circuit, with as many vertices as edges plus one.
   */
  method FindCircuit(g: GraphView, start: int) returns (circuit: seq<int>, edgeCount: int)
    requires g.Wf() && g.Symmetric() && AllEven(g) && Connected(g) && FirstWithEdges(g, start)
    ensures edgeCount == |EdgeList(g.adj)| && |circuit| == edgeCount + 1
    ensures EulerCircuit(g, circuit) && circuit[0] == start
  {
    var es := CollectEdges(g);
    EdgeListFromRows(g.adj, g.n);
    var adj := NumberedLists(es, g.n);
    forall x | 0 <= x < g.n ensures NonLoopCount(es, x) % 2 == 0 {
      EdgeListParity(g, x);
    }
    ghost var ids;
    circuit, ids := Hierholzer(es, g.n, start, adj);
    AllEdgesUsed(g, es, circuit, ids);
    edgeCount := |es|;
  }

  /**
   * The first loop of `run`: counts the vertices of odd degree and finds the
   * first vertex with edges, or -1.
   */
  method ScanDegrees(g: GraphView) returns (oddCount: int, start: int)
    requires g.Wf()
    ensures oddCount >= 0 && (oddCount == 0 <==> AllEven(g))
    ensures start == -1 <==> HasNoEdges(g)
    ensures start != -1 ==> FirstWithEdges(g, start)
  {
    start := -1;
    oddCount := 0;
    var i := 0;
    while i < g.n
      invariant 0 <= i <= g.n
      invariant oddCount >= 0 && (oddCount == 0 <==> forall x :: 0 <= x < i ==> |g.adj[x]| % 2 == 0)
      invariant start == -1 ==> forall x :: 0 <= x < i ==> g.adj[x] == []
      invariant start != -1 ==> start < i && FirstWithEdges(g, start)
    {
      var deg := |g.adj[i]|;
      if deg % 2 != 0 {
        oddCount := oddCount + 1;
      }
      if deg > 0 && start == -1 {
        start := i;
      }
      i := i + 1;
    }
  }

  /**
   * The connectivity check of `run`: a search from `start`, then a scan for
   * a vertex with edges that the search did not mark.
   */
  method ReachesAllWithEdges(g: GraphView, start: int) returns (connected: bool)
    requires g.Wf() && 0 <= start < g.n
    ensures connected <==> forall x :: 0 <= x < g.n && g.adj[x] != [] ==> Reachable(g, start, x)
  {
    var visited := new bool[g.n](_ => false);
    ghost var before := visited[..];
    Dfs(start, g, visited, {});
    MarkedIsReachable(g, before, visited[..], start);
    var i := 0;
    while i < g.n
      invariant 0 <= i <= g.n
      invariant forall x :: 0 <= x < i && g.adj[x] != [] ==> Reachable(g, start, x)
    {
      if |g.adj[i]| > 0 && !visited[i] {
        return false;
      }
      i := i + 1;
    }
    return true;
  }

  const DirectedText := "Error: Euler circuit algorithm expects an undirected graph."
  const OddText := "No Euler circuit: graph contains vertices of odd degree."
  const EdgelessText := "Graph has no edges; trivial Euler circuit: 0"
  const DisconnectedText := "No Euler circuit: graph is not connected."
  const IncompleteText := "No Euler circuit: failed to traverse all edges."
  const CircuitText := "Euler circuit: "

  /**
   * `EulerAlgorithm::run`. The checks come in order: direction, degree
   * parity, some edge present, connectivity of the vertices with edges; a
   * graph that passes them all gets an Euler circuit from its first vertex
   * with edges, written with " -> " between vertices.
   */
  method Run(g: GraphView) returns (text: string)
    requires g.Wf() && (!g.directed ==> g.Symmetric())
    ensures g.directed ==> text == DirectedText
    ensures !g.directed && !AllEven(g) ==> text == OddText
    ensures !g.directed && AllEven(g) && HasNoEdges(g) ==> text == EdgelessText
    ensures !g.directed && AllEven(g) && !HasNoEdges(g) && !Connected(g) ==> text == DisconnectedText
    ensures !g.directed && AllEven(g) && !HasNoEdges(g) && Connected(g) ==>
      exists c :: EulerCircuit(g, c) && FirstWithEdges(g, c[0]) && text == CircuitText + Join(c, " -> ")
  {
    if g.directed {
      return DirectedText;
    }
    var oddCount, start := ScanDegrees(g);
    if oddCount != 0 {
      return OddText;
    }
    if start == -1 {
      return EdgelessText;
    }
    var connected := ReachesAllWithEdges(g, start);
    if !connected {
      return DisconnectedText;
    }
    ConnectedFromStart(g, start);
    var circuit, edgeCount := FindCircuit(g, start);
    if |circuit| != edgeCount + 1 {
      return IncompleteText;
    }
    text := AppendJoined(CircuitText, circuit, " -> ");
  }
}
