/**
 * The edge list that the Euler circuit search walks: every undirected edge
 * once, as the entry (v, w) of the list of u with u <= v, numbered by its
 * position; and the parity of the number of edges at each vertex.
 */
module EulerEdges {
  import opened Graphs

  /** An edge of the list, `(u, v, w)` with u <= v. */
  datatype EdgeRec = EdgeRec(u: int, v: int, w: int)

  /** The records the list `row` of vertex `u` contributes, in order. */
  function RowRecords(u: int, row: seq<Edge>): seq<EdgeRec> {
    if row == [] then []
    else
      var e := row[|row| - 1];
      RowRecords(u, row[..|row| - 1]) + (if u <= e.to then [EdgeRec(u, e.to, e.weight)] else [])
  }

  /** The records of vertices 0 .. |rows| - 1, vertex by vertex. */
  function EdgeList(rows: seq<seq<Edge>>): seq<EdgeRec> {
    if rows == [] then [] else EdgeList(rows[..|rows| - 1]) + RowRecords(|rows| - 1, rows[|rows| - 1])
  }

  /** Every record joins two vertices of [0, n). */
  predicate RecordsBounded(es: seq<EdgeRec>, n: int) {
    forall i :: 0 <= i < |es| ==> 0 <= es[i].u < n && 0 <= es[i].v < n
  }

  /** `e` joins `a` and `b`, in either direction. */
  predicate Joins(e: EdgeRec, a: int, b: int) {
    (e.u == a && e.v == b) || (e.u == b && e.v == a)
  }

  /** `e` is not a self-loop and has `x` as an end. */
  predicate Incident(e: EdgeRec, x: int) {
    e.u != e.v && (e.u == x || e.v == x)
  }

  /** Number of records that are not self-loops and have `x` as an end. */
  function NonLoopCount(es: seq<EdgeRec>, x: int): nat {
    if es == [] then 0 else NonLoopCount(es[..|es| - 1], x) + (if Incident(es[|es| - 1], x) then 1 else 0)
  }

  lemma {:induction false} NonLoopCountAppend(a: seq<EdgeRec>, b: seq<EdgeRec>, x: int)
    ensures NonLoopCount(a + b, x) == NonLoopCount(a, x) + NonLoopCount(b, x)
    decreases |b|
  {
    if b == [] {
      assert a + b == a;
    } else {
      var m := |b| - 1;
      assert (a + b)[..|a + b| - 1] == a + b[..m];
      NonLoopCountAppend(a, b[..m], x);
    }
  }

  /** Entries of `row` that lead to `x`, above `x`, and below `x`. */
  function Links(row: seq<Edge>, x: int): nat {
    if row == [] then 0 else Links(row[..|row| - 1], x) + (if row[|row| - 1].to == x then 1 else 0)
  }

  function Above(row: seq<Edge>, x: int): nat {
    if row == [] then 0 else Above(row[..|row| - 1], x) + (if row[|row| - 1].to > x then 1 else 0)
  }

  function Below(row: seq<Edge>, x: int): nat {
    if row == [] then 0 else Below(row[..|row| - 1], x) + (if row[|row| - 1].to < x then 1 else 0)
  }

  lemma {:induction false} RowSplit(row: seq<Edge>, x: int)
    ensures |row| == Below(row, x) + Links(row, x) + Above(row, x)
  {
    if row != [] {
      RowSplit(row[..|row| - 1], x);
    }
  }

  lemma {:induction false} LinksAreWeights(row: seq<Edge>, x: int)
    ensures Links(row, x) == |WeightsTo(row, x)|
  {
    if row != [] {
      LinksAreWeights(row[..|row| - 1], x);
    }
  }

  /** The records of one row: those at `x` that are not loops. */
  lemma {:induction false} RowRecordsCount(u: int, row: seq<Edge>, x: int)
    ensures NonLoopCount(RowRecords(u, row), x) ==
      if u == x then Above(row, x) else if u < x then Links(row, x) else 0
  {
    if row != [] {
      var init := row[..|row| - 1];
      var e := row[|row| - 1];
      RowRecordsCount(u, init, x);
      var tail: seq<EdgeRec> := if u <= e.to then [EdgeRec(u, e.to, e.weight)] else [];
      NonLoopCountAppend(RowRecords(u, init), tail, x);
      if tail != [] {
        assert tail[..0] == [];
      }
    }
  }

  /** Entries leading to `x` in the lists of the vertices below `k`. */
  function LinksInto(rows: seq<seq<Edge>>, x: int, k: nat): nat
    requires k <= |rows|
  {
    if k == 0 then 0 else LinksInto(rows, x, k - 1) + Links(rows[k - 1], x)
  }

  /** Entries of `row` leading to the vertices below `k`. */
  function LinksOutTo(row: seq<Edge>, k: nat): nat {
    if k == 0 then 0 else LinksOutTo(row, k - 1) + Links(row, k - 1)
  }

  lemma {:induction false} BelowStep(row: seq<Edge>, k: int)
    ensures Below(row, k + 1) == Below(row, k) + Links(row, k)
  {
    if row != [] {
      BelowStep(row[..|row| - 1], k);
    }
  }

  lemma {:induction false} BelowIsLinksOut(row: seq<Edge>, k: nat)
    ensures Below(row, k) == LinksOutTo(row, k) + Below(row, 0)
    decreases k
  {
    if k > 0 {
      BelowIsLinksOut(row, k - 1);
      BelowStep(row, k - 1);
    }
  }

  lemma {:induction false} BoundedNotBelowZero(row: seq<Edge>)
    requires forall j :: 0 <= j < |row| ==> row[j].to >= 0
    ensures Below(row, 0) == 0
  {
    if row != [] {
      BoundedNotBelowZero(row[..|row| - 1]);
    }
  }

  /** The edges of the first `m` vertices that are not loops and end at `x`. */
  lemma {:induction false} EdgeListCount(rows: seq<seq<Edge>>, x: int)
    requires 0 <= x
    ensures NonLoopCount(EdgeList(rows), x) ==
      (if x < |rows| then Above(rows[x], x) + LinksInto(rows, x, x) else LinksInto(rows, x, |rows|))
    decreases |rows|
  {
    if rows != [] {
      var m := |rows| - 1;
      var init := rows[..m];
      EdgeListCount(init, x);
      NonLoopCountAppend(EdgeList(init), RowRecords(m, rows[m]), x);
      RowRecordsCount(m, rows[m], x);
      LinksIntoPrefix(rows, x, if x < m then x else m);
    }
  }

  lemma {:induction false} LinksIntoPrefix(rows: seq<seq<Edge>>, x: int, k: nat)
    requires 0 < |rows| && k <= |rows| - 1
    ensures LinksInto(rows[..|rows| - 1], x, k) == LinksInto(rows, x, k)
  {
    if k > 0 {
      LinksIntoPrefix(rows, x, k - 1);
    }
  }

  /** By symmetry, counting entries into `x` from below is counting entries of `x` that go below. */
  lemma {:induction false} LinksIntoSymmetric(g: GraphView, x: int, k: nat)
    requires g.Wf() && g.Symmetric() && 0 <= x < g.n && k <= x
    ensures LinksInto(g.adj, x, k) == LinksOutTo(g.adj[x], k)
  {
    if k > 0 {
      LinksIntoSymmetric(g, x, k - 1);
      var u := k - 1;
      LinksAreWeights(g.adj[u], x);
      LinksAreWeights(g.adj[x], u);
      assert WeightsTo(g.adj[u], x) == WeightsTo(g.adj[x], u);
    }
  }

  /**
   * In a symmetric graph the edges of the list that end at `x` and are not
   * loops are as many as the entries of `x`'s list, less its loop entries,
   * which come in pairs: the two numbers have the same parity.
   */
  lemma EdgeListParity(g: GraphView, x: int)
    requires g.Wf() && g.Symmetric() && 0 <= x < g.n
    ensures NonLoopCount(EdgeList(g.adj), x) % 2 == |g.adj[x]| % 2
  {
    var row := g.adj[x];
    EdgeListCount(g.adj, x);
    LinksIntoSymmetric(g, x, x);
    BelowIsLinksOut(row, x);
    BoundedNotBelowZero(row);
    RowSplit(row, x);
    LinksAreWeights(row, x);
    var loops := Links(row, x);
    assert NonLoopCount(EdgeList(g.adj), x) + loops == |row|;
    assert loops % 2 == 0 by {
      assert Paired(WeightsTo(row, x));
    }
    EvenDifference(|row|, loops);
  }

  lemma EvenDifference(a: int, b: int)
    requires b % 2 == 0
    ensures (a - b) % 2 == a % 2
  {
  }

  /** Every record joins two vertices, lower first. */
  lemma {:induction false} RowRecordsBounded(u: int, row: seq<Edge>, n: int)
    requires 0 <= u < n && forall j :: 0 <= j < |row| ==> 0 <= row[j].to < n
    ensures forall i :: 0 <= i < |RowRecords(u, row)| ==>
      RowRecords(u, row)[i].u == u && u <= RowRecords(u, row)[i].v < n
      && Edge(RowRecords(u, row)[i].v, RowRecords(u, row)[i].w) in row
  {
    if row != [] {
      var init := row[..|row| - 1];
      RowRecordsBounded(u, init, n);
      assert forall e :: e in init ==> e in row;
    }
  }

  /** Every record of the edge list is an entry (v, w) of the list of u, with u <= v. */
  lemma {:induction false} EdgeListFromRows(rows: seq<seq<Edge>>, n: int)
    requires |rows| <= n && RowsBounded(rows, n)
    ensures RecordsBounded(EdgeList(rows), n)
    ensures forall i :: 0 <= i < |EdgeList(rows)| ==> EdgeFrom(rows, EdgeList(rows)[i])
    decreases |rows|
  {
    if rows != [] {
      var m := |rows| - 1;
      var init := rows[..m];
      EdgeListFromRows(init, n);
      RowRecordsBounded(m, rows[m], n);
      var a := EdgeList(init);
      var b := RowRecords(m, rows[m]);
      forall i | 0 <= i < |a + b| ensures EdgeFrom(rows, (a + b)[i]) {
        if i < |a| {
          assert EdgeFrom(init, a[i]);
        } else {
          assert (a + b)[i] == b[i - |a|];
        }
      }
    }
  }

  /** `e` is the entry (e.v, e.w) of the list of e.u, and e.u <= e.v. */
  predicate EdgeFrom(rows: seq<seq<Edge>>, e: EdgeRec) {
    0 <= e.u < |rows| && e.u <= e.v && Edge(e.v, e.w) in rows[e.u]
  }

  /** An entry (v, w) of the list of u with u <= v gives the record (u, v, w). */
  lemma {:induction false} RowRecordsHas(u: int, row: seq<Edge>, k: int)
    requires 0 <= k < |row| && u <= row[k].to
    ensures EdgeRec(u, row[k].to, row[k].weight) in RowRecords(u, row)
  {
    if k < |row| - 1 {
      RowRecordsHas(u, row[..|row| - 1], k);
    }
  }

  lemma {:induction false} EdgeListHas(rows: seq<seq<Edge>>, u: int, r: EdgeRec)
    requires 0 <= u < |rows| && r in RowRecords(u, rows[u])
    ensures r in EdgeList(rows)
  {
    var m := |rows| - 1;
    if u < m {
      assert rows[..m][u] == rows[u];
      EdgeListHas(rows[..m], u, r);
    }
  }

  /**
   * In a symmetric graph each adjacency entry x -> y is recorded: some record
   * of the edge list joins x and y.
   */
  lemma EntryRecorded(g: GraphView, x: int, k: int) returns (id: int)
    requires g.Wf() && g.Symmetric() && 0 <= x < g.n && 0 <= k < |g.adj[x]|
    ensures 0 <= id < |EdgeList(g.adj)| && Joins(EdgeList(g.adj)[id], x, g.adj[x][k].to)
  {
    var y := g.adj[x][k].to;
    var r: EdgeRec;
    if x <= y {
      RowRecordsHas(x, g.adj[x], k);
      r := EdgeRec(x, y, g.adj[x][k].weight);
      EdgeListHas(g.adj, x, r);
    } else {
      WeightsToHas(g.adj[x], k, y);
      assert WeightsTo(g.adj[x], y) == WeightsTo(g.adj[y], x);
      var j := WeightsToWitness(g.adj[y], x);
      RowRecordsHas(y, g.adj[y], j);
      r := EdgeRec(y, x, g.adj[y][j].weight);
      EdgeListHas(g.adj, y, r);
    }
    id :| 0 <= id < |EdgeList(g.adj)| && EdgeList(g.adj)[id] == r;
  }
}
