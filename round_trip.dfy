/**
 * What `from_string(to_string(g))` gives back.  The header always reads
 * back; each vertex's line is then read with `getline(in >> std::ws, line)`,
 * which skips the empty line of a vertex without entries, and every entry is
 * re-added through `addEdge`.  So the text reads back as the same graph
 * exactly when the graph is directed and every vertex has an entry; a vertex
 * without entries makes the reader run out of lines, and on an undirected
 * graph every stored entry comes back with its reciprocal a second time.
 */
module RoundTrip {
  import opened Text
  import opened Graphs
  import opened GraphText

  /** Number of rows that hold at least one entry. */
  function Filled(rows: seq<seq<Edge>>): (c: nat)
    ensures c <= |rows|
  {
    if rows == [] then 0 else (if rows[0] == [] then 0 else 1) + Filled(rows[1..])
  }

  /** A row without entries leaves fewer filled rows than rows. */
  lemma {:induction false} FilledBelow(rows: seq<seq<Edge>>, i: nat)
    requires i < |rows| && rows[i] == []
    ensures Filled(rows) < |rows|
  {
    if i > 0 {
      FilledBelow(rows[1..], i - 1);
    }
  }

  /** Counting entries from the front. */
  lemma {:induction false} TotalEdgesFront(rows: seq<seq<Edge>>)
    requires rows != []
    ensures TotalEdges(rows) == |rows[0]| + TotalEdges(rows[1..])
    decreases |rows|
  {
    var last := |rows| - 1;
    if last > 0 {
      assert rows[..last][1..] == rows[1..][..last - 1];
      assert rows[..last][0] == rows[0];
      TotalEdgesFront(rows[..last]);
      assert rows[1..][|rows[1..]| - 1] == rows[last];
    } else {
      assert rows[..last] == [];
      assert rows[1..] == [];
    }
  }

  /** Replaying a row on a directed graph appends it to the vertex's list. */
  lemma {:induction false} ReplayDirected(g: GraphView, u: int, row: seq<Edge>)
    requires g.Wf() && g.directed && 0 <= u < g.n && EntriesBounded(row, g.n)
    ensures ReplayRow(g, u, row) == GraphView(g.n, true, g.adj[u := g.adj[u] + row])
    decreases |row|
  {
    if row == [] {
      assert g.adj[u] + row == g.adj[u];
      assert g.adj[u := g.adj[u] + row] == g.adj;
    } else {
      var e := row[0];
      var g1 := WithEdge(g, u, e.to, e.weight);
      assert g1.adj == g.adj[u := g.adj[u] + [e]];
      ReplayDirected(g1, u, row[1..]);
      assert (g.adj[u] + [e]) + row[1..] == g.adj[u] + row;
      assert g1.adj[u := g1.adj[u] + row[1..]] == g.adj[u := g.adj[u] + row];
    }
  }

  /** Replaying a row adds one entry per entry on a directed graph, two on an undirected one. */
  lemma {:induction false} ReplayCount(g: GraphView, u: int, row: seq<Edge>)
    requires g.Wf() && 0 <= u < g.n && EntriesBounded(row, g.n)
    ensures TotalEdges(ReplayRow(g, u, row).adj) == TotalEdges(g.adj) + (if g.directed then 1 else 2) * |row|
    decreases |row|
  {
    if row != [] {
      var g1 := WithEdge(g, u, row[0].to, row[0].weight);
      WithEdgeCount(g, u, row[0].to, row[0].weight);
      ReplayCount(g1, u, row[1..]);
    }
  }

  /**
   * Directed, with the lists of `u..n-1` still empty and one filled row per
   * remaining vertex: the rows become those lists.
   */
  lemma {:induction false} ReadBackDirected(g: GraphView, u: nat, rows: seq<seq<Edge>>, want: seq<seq<Edge>>)
    requires g.Wf() && g.directed && u <= g.n && RowsBounded(rows, g.n)
    requires |rows| == g.n - u && forall i :: 0 <= i < |rows| ==> rows[i] != []
    requires forall x :: u <= x < g.n ==> g.adj[x] == []
    requires want == g.adj[..u] + rows
    ensures ReadBack(g, u, rows) == Ok(GraphView(g.n, true, want))
    decreases |rows|
  {
    if u == g.n {
      assert want == g.adj;
    } else {
      var row := rows[0];
      assert RowsBounded(rows[1..], g.n);
      ReplayDirected(g, u, row);
      var g1 := ReplayRow(g, u, row);
      assert g.adj[u] + row == row;
      PrefixStep(g.adj, u, rows);
      ReadBackDirected(g1, u + 1, rows[1..], want);
    }
  }

  /** Writing the first of `rows` into list `u` moves it from the rows into the prefix. */
  lemma PrefixStep(adj: seq<seq<Edge>>, u: nat, rows: seq<seq<Edge>>)
    requires u < |adj| && rows != []
    ensures adj[..u] + rows == adj[u := rows[0]][..u + 1] + rows[1..]
  {
    assert adj[u := rows[0]][..u + 1] == adj[..u] + [rows[0]];
    assert rows == [rows[0]] + rows[1..];
  }

  /** Fewer filled rows than vertices still to read: the reader runs out of lines. */
  lemma {:induction false} ReadBackShort(g: GraphView, u: nat, rows: seq<seq<Edge>>)
    requires g.Wf() && u <= g.n && RowsBounded(rows, g.n) && Filled(rows) < g.n - u
    ensures ReadBack(g, u, rows) == Err(MissingAdjacencyList)
    decreases |rows|
  {
    if rows != [] {
      assert RowsBounded(rows[1..], g.n);
      if rows[0] == [] {
        ReadBackShort(g, u, rows[1..]);
      } else {
        ReadBackShort(ReplayRow(g, u, rows[0]), u + 1, rows[1..]);
      }
    }
  }

  /** One filled row per remaining vertex: reading succeeds and adds every entry once or twice. */
  lemma {:induction false} ReadBackCount(g: GraphView, u: nat, rows: seq<seq<Edge>>)
    requires g.Wf() && u <= g.n && RowsBounded(rows, g.n)
    requires |rows| == g.n - u && forall i :: 0 <= i < |rows| ==> rows[i] != []
    ensures ReadBack(g, u, rows).Ok?
    ensures var h := ReadBack(g, u, rows).graph;
      h.n == g.n && h.directed == g.directed
      && TotalEdges(h.adj) == TotalEdges(g.adj) + (if g.directed then 1 else 2) * TotalEdges(rows)
    decreases |rows|
  {
    if u == g.n {
      assert rows == [];
    } else {
      var row := rows[0];
      assert RowsBounded(rows[1..], g.n);
      ReplayCount(g, u, row);
      ReadBackCount(ReplayRow(g, u, row), u + 1, rows[1..]);
      TotalEdgesFront(rows);
    }
  }

  /** The header "n d" reads back as `n` and then `d` as 0 or 1; the rows follow its line break. */
  lemma ReadHeader(g: GraphView) returns (p1: nat, p2: nat)
    requires g.Wf()
    ensures ReadInt(Render(g), 0) == Read(g.n, p1)
    ensures ReadInt(Render(g), p1) == Read(if g.directed then 1 else 0, p2)
    ensures p2 < |Render(g)| && Render(g)[p2..] == "\n" + RowsText(g.adj)
  {
    var s := Render(g);
    var n := IntToString(g.n);
    var d: int := if g.directed then 1 else 0;
    var b := BoolText(g.directed);
    var rows := RowsText(g.adj);
    assert b == IntToString(d);
    var r1 := " " + (b + ("\n" + rows));
    assert s == n + r1 by {
      Assoc(n, " ", b);
      Assoc(n, " " + b, "\n");
      Assoc(n, (" " + b) + "\n", rows);
      Assoc(" ", b, "\n");
      Assoc(" ", b + "\n", rows);
      Assoc(b, "\n", rows);
    }
    assert s[0..] == [] + (n + r1);
    p1 := ReadField(s, 0, [], g.n, r1);
    p2 := ReadField(s, p1, " ", d, "\n" + rows);
  }

  /** `from_string(to_string(g))` is the read-back of the rendered rows into a fresh graph. */
  lemma RenderParse(g: GraphView)
    requires g.Wf()
    ensures Parse(Render(g)) == ReadBack(Empty(g.n, g.directed), 0, g.adj)
  {
    var p1, p2 := ReadHeader(g);
    HeaderParsed(Render(g), p1, p2, g.n, g.directed);
    RowsAfterHeader(Render(g), p2, Empty(g.n, g.directed), g.adj);
  }

  /** A header "n d" with `n >= 0` and `d` in {0, 1} starts the reading of the lines of an empty graph. */
  lemma HeaderParsed(s: string, p1: nat, p2: nat, n: nat, directed: bool)
    requires p1 <= |s| && p2 <= |s|
    requires ReadInt(s, 0) == Read(n, p1) && ReadInt(s, p1) == Read(if directed then 1 else 0, p2)
    ensures Parse(s) == ParseLines(s, p2, 0, Empty(n, directed))
  {
  }

  /** The line break after the header is skipped, then the rows are read. */
  lemma RowsAfterHeader(s: string, p: nat, e: GraphView, adj: seq<seq<Edge>>)
    requires p < |s| && s[p..] == "\n" + RowsText(adj)
    requires e.Wf() && RowsBounded(adj, e.n)
    ensures ParseLines(s, p, 0, e) == ReadBack(e, 0, adj)
  {
    assert s[p] == '\n';
    ParseLinesSkip(s, p, 0, e);
    assert s[p + 1..] == RowsText(adj) by {
      assert s[p + 1..] == s[p..][1..];
    }
    ParseRows(s, p + 1, 0, e, adj);
  }

  /** The round trip: a directed graph in which every vertex has an entry reads back as itself. */
  lemma RoundTripDirected(g: GraphView)
    requires g.Wf() && g.directed && forall u :: 0 <= u < g.n ==> g.adj[u] != []
    ensures Parse(Render(g)) == Ok(g)
  {
    RenderParse(g);
    var e := Empty(g.n, true);
    assert e.adj[..0] + g.adj == g.adj;
    ReadBackDirected(e, 0, g.adj, g.adj);
  }

  /** A vertex without entries renders as a blank line, which the reader skips, so it runs out of lines. */
  lemma RoundTripBlankLine(g: GraphView, u: int)
    requires g.Wf() && 0 <= u < g.n && g.adj[u] == []
    ensures Parse(Render(g)) == Err(MissingAdjacencyList)
  {
    RenderParse(g);
    FilledBelow(g.adj, u);
    ReadBackShort(Empty(g.n, g.directed), 0, g.adj);
  }

  /** An undirected graph in which every vertex has an entry reads back with twice its entries. */
  lemma RoundTripUndirected(g: GraphView)
    requires g.Wf() && !g.directed && forall u :: 0 <= u < g.n ==> g.adj[u] != []
    ensures Parse(Render(g)).Ok?
    ensures var h := Parse(Render(g)).graph;
      h.n == g.n && !h.directed && TotalEdges(h.adj) == 2 * TotalEdges(g.adj)
    ensures g.n > 0 ==> Parse(Render(g)) != Ok(g)
  {
    RenderParse(g);
    ReadBackCount(Empty(g.n, false), 0, g.adj);
    if g.n > 0 {
      TotalEdgesFront(g.adj);
    }
  }

  /** The round trip exactly: `from_string(to_string(g))` gives `g` back iff `g` is directed or has no vertices, and every vertex has an entry. */
  lemma RoundTripExactly(g: GraphView)
    requires g.Wf()
    ensures Parse(Render(g)) == Ok(g) <==> (g.directed || g.n == 0) && forall u :: 0 <= u < g.n ==> g.adj[u] != []
  {
    if exists u :: 0 <= u < g.n && g.adj[u] == [] {
      var u :| 0 <= u < g.n && g.adj[u] == [];
      RoundTripBlankLine(g, u);
    } else if g.directed {
      RoundTripDirected(g);
    } else if g.n == 0 {
      RenderParse(g);
      assert g.adj == [];
    } else {
      RoundTripUndirected(g);
    }
  }

  /** The same, through the methods: `from_string(to_string(g))`. */
  method ToStringFromString(g: Graph) returns (res: Loaded)
    requires g.Valid()
    ensures res.Loaded? ==> fresh(res.graph) && (res.graph.View() == g.View() <==>
      (g.directed || g.vertices == 0) && forall u :: 0 <= u < g.vertices ==> g.adj[u] != [])
    ensures (exists u :: 0 <= u < g.vertices && g.adj[u] == []) ==> res == LoadFailed(MissingAdjacencyList)
    ensures (forall u :: 0 <= u < g.vertices ==> g.adj[u] != []) ==> res.Loaded?
  {
    var text := ToString(g);
    res := FromString(text);
    RoundTripExactly(g.View());
    if exists u :: 0 <= u < g.vertices && g.adj[u] == [] {
      var u :| 0 <= u < g.vertices && g.adj[u] == [];
      RoundTripBlankLine(g.View(), u);
    } else if g.directed {
      RoundTripDirected(g.View());
    } else {
      RoundTripUndirected(g.View());
    }
  }
}
