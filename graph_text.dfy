/**
 * The text form of a graph written by `to_string` and read by `from_string`:
 * a header line "n d" (d is 1 for directed, 0 otherwise) followed by one line
 * per vertex listing " v w" for each of its entries in stored order.
 *
 * Reading skips white space before each adjacency line (`in >> std::ws`),
 * so the empty line of a vertex without entries is never read as that
 * vertex's line, and it re-adds every entry through `addEdge`, which on an
 * undirected graph adds the reciprocal entry a second time.
 */
module GraphText {
  import opened Text
  import opened Graphs

  function BoolText(b: bool): string {
    if b then "1" else "0"
  }

  /** `s << ' ' << v << ' ' << w` for one entry (v, w). */
  function EntryText(e: Edge): string {
    " " + (IntToString(e.to) + (" " + IntToString(e.weight)))
  }

  /** The entries of one adjacency list, in stored order. */
  function EntriesText(row: seq<Edge>): string {
    Concat(row, EntryText)
  }

  /** The line of one vertex, `std::endl` included. */
  function RowLine(row: seq<Edge>): string {
    EntriesText(row) + "\n"
  }

  function RowsText(adj: seq<seq<Edge>>): string {
    Concat(adj, RowLine)
  }

  function Header(g: GraphView): string {
    IntToString(g.n) + " " + BoolText(g.directed) + "\n"
  }

  /** The text `to_string` emits. */
  function Render(g: GraphView): string {
    Header(g) + RowsText(g.adj)
  }

  lemma Assoc(a: string, b: string, c: string)
    ensures (a + b) + c == a + (b + c)
  {
  }

  /**
   * `to_string(g)`: header, then one line per vertex in stored order. The
   * text ends at the last line break; the source's unterminated
   * `ostrstream` buffer, read past that point, is not modelled.
   */
  method ToString(g: Graph) returns (text: string)
    requires g.Valid()
    ensures text == Render(g.View())
  {
    text := IntToString(g.NumVertices()) + " " + BoolText(g.IsDirected()) + "\n";
    ghost var header := text;
    var u := 0;
    while u < g.NumVertices()
      invariant 0 <= u <= g.vertices
      invariant text == header + RowsText(g.adj[..u])
    {
      var row := g.Neighbours(u);
      ghost var prefix := text;
      text := WriteEntries(text, row);
      ConcatSnoc(g.adj, RowLine, u);
      ghost var done := RowsText(g.adj[..u]);
      Assoc(prefix, EntriesText(row), "\n");
      Assoc(header, done, RowLine(row));
      text := text + "\n";
      u := u + 1;
    }
    assert g.adj[..u] == g.adj;
  }

  /** The inner loop of `to_string`: `os << " " << v << " " << w` for every entry of a row. */
  method WriteEntries(text: string, row: seq<Edge>) returns (out: string)
    ensures out == text + EntriesText(row)
  {
    out := text;
    var k := 0;
    while k < |row|
      invariant 0 <= k <= |row|
      invariant out == text + EntriesText(row[..k])
    {
      ConcatSnoc(row, EntryText, k);
      Assoc(text, EntriesText(row[..k]), EntryText(row[k]));
      out := out + EntryText(row[k]);
      k := k + 1;
    }
    assert row[..k] == row;
  }

  /** Every line of the rendering has as many lines as vertices, one per vertex. */
  lemma {:induction false} RowsTextLines(adj: seq<seq<Edge>>)
    ensures Newlines(RowsText(adj)) == |adj|
  {
    if adj != [] {
      var e := EntriesText(adj[0]);
      var rest := RowsText(adj[1..]);
      RowsTextLines(adj[1..]);
      EntriesTextHasNoNewline(adj[0]);
      Assoc(e, "\n", rest);
      NewlinesConcat(e, "\n" + rest);
      assert ("\n" + rest)[1..] == rest;
    }
  }

  /** Number of line breaks in a text. */
  function Newlines(s: string): nat {
    if s == [] then 0 else (if s[0] == '\n' then 1 else 0) + Newlines(s[1..])
  }

  lemma {:induction false} NewlinesConcat(a: string, b: string)
    ensures Newlines(a + b) == Newlines(a) + Newlines(b)
  {
    if a == [] {
      assert a + b == b;
    } else {
      assert (a + b)[0] == a[0];
      assert (a + b)[1..] == a[1..] + b;
      NewlinesConcat(a[1..], b);
    }
  }

  predicate NoNewline(s: string) {
    forall i :: 0 <= i < |s| ==> s[i] != '\n'
  }

  lemma NoNewlineCount(s: string)
    requires NoNewline(s)
    ensures Newlines(s) == 0
  {
    if s != [] {
      NoNewlineCount(s[1..]);
    }
  }

  lemma {:induction false} EntriesTextHasNoNewline(row: seq<Edge>)
    ensures NoNewline(EntriesText(row)) && Newlines(EntriesText(row)) == 0
  {
    if row != [] {
      EntriesTextHasNoNewline(row[1..]);
      var a := IntToString(row[0].to);
      var b := IntToString(row[0].weight);
      IntToStringForm(row[0].to);
      IntToStringForm(row[0].weight);
      assert NoNewline(a) && NoNewline(b);
    }
    NoNewlineCount(EntriesText(row));
  }

  /** The three ways `from_string` throws, and the out-of-range test of `addEdge`. */
  datatype ParseError =
    | MissingHeader          // runtime_error "missing header"
    | NegativeVertexCount    // the vector constructor's length_error
    | MissingAdjacencyList   // runtime_error "missing adjacency list"
    | BadAdjacencyEntry      // runtime_error "bad adjacency entry"
    | VertexOutOfRange       // out_of_range from addEdge

  datatype ParseResult = Ok(graph: GraphView) | Err(error: ParseError)

  /** First line break at or after `j`, or the end of the text. */
  function LineEnd(s: string, j: nat): (k: nat)
    requires j <= |s|
    ensures j <= k <= |s| && (k < |s| ==> s[k] == '\n') && NoNewline(s[j..k])
    decreases |s| - j
  {
    if j < |s| && s[j] != '\n' then LineEnd(s, j + 1) else j
  }

  /** Where `getline` leaves the stream: after the line break, if there is one. */
  function AfterLine(s: string, k: nat): nat
    requires k <= |s|
  {
    if k < |s| then k + 1 else k
  }

  /**
   * `while (lin >> v >> w) graph.addEdge(u, v, w);` followed by the check
   * `if (!lin.eof())`: stop quietly when a read runs into the end of the line.
   */
  function ParseEntries(line: string, p: nat, u: int, g: GraphView): (r: ParseResult)
    requires p <= |line| && g.Wf() && 0 <= u < g.n
    ensures r.Ok? ==> r.graph.Wf() && r.graph.n == g.n && r.graph.directed == g.directed
    decreases |line| - p
  {
    match ReadInt(line, p)
    case Failed(atEnd) => if atEnd then Ok(g) else Err(BadAdjacencyEntry)
    case Read(v, p1) =>
      match ReadInt(line, p1)
      case Failed(atEnd) => if atEnd then Ok(g) else Err(BadAdjacencyEntry)
      case Read(w, p2) =>
        if 0 <= v < g.n then ParseEntries(line, p2, u, WithEdge(g, u, v, w))
        else Err(VertexOutOfRange)
  }

  /** The adjacency lines of vertices `u..n-1`, read from position `pos`. */
  function ParseLines(s: string, pos: nat, u: nat, g: GraphView): (r: ParseResult)
    requires pos <= |s| && g.Wf() && u <= g.n
    ensures r.Ok? ==> r.graph.Wf() && r.graph.n == g.n && r.graph.directed == g.directed
    decreases g.n - u
  {
    if u == g.n then Ok(g)
    else
      var j := SkipWs(s, pos);
      if j == |s| then Err(MissingAdjacencyList)
      else
        var k := LineEnd(s, j);
        match ParseEntries(s[j..k], 0, u, g)
        case Err(e) => Err(e)
        case Ok(g') => ParseLines(s, AfterLine(s, k), u + 1, g')
  }

  /** What `from_string` computes: the graph, or which exception it throws. */
  function Parse(s: string): (r: ParseResult)
    ensures r.Ok? ==> r.graph.Wf()
  {
    match ReadInt(s, 0)
    case Failed(_) => Err(MissingHeader)
    case Read(n, p1) =>
      match ReadInt(s, p1)
      case Failed(_) => Err(MissingHeader)
      case Read(d, p2) =>
        if d != 0 && d != 1 then Err(MissingHeader)
        else if n < 0 then Err(NegativeVertexCount)
        else ParseLines(s, p2, 0, Empty(n, d == 1))
  }

  /** `from_string(str)`: a new graph, or the error it throws. */
  datatype Loaded = Loaded(graph: Graph) | LoadFailed(error: ParseError)

  method FromString(s: string) returns (res: Loaded)
    ensures res.Loaded? ==> fresh(res.graph) && res.graph.Valid() && Parse(s) == Ok(res.graph.View())
    ensures res.LoadFailed? ==> Parse(s) == Err(res.error)
  {
    var h1 := ReadInt(s, 0);
    if h1.Failed? {
      return LoadFailed(MissingHeader);
    }
    var h2 := ReadInt(s, h1.next);
    if h2.Failed? || (h2.value != 0 && h2.value != 1) {
      return LoadFailed(MissingHeader);
    }
    if h1.value < 0 {
      return LoadFailed(NegativeVertexCount);
    }
    var vertices := h1.value;
    var graph := new Graph(vertices, h2.value == 1);
    var pos: nat := h2.next;
    var u: nat := 0;
    while u < vertices
      invariant 0 <= u <= vertices && pos <= |s|
      invariant graph.Valid() && graph.vertices == vertices
      invariant fresh(graph)
      invariant Parse(s) == ParseLines(s, pos, u, graph.View())
    {
      var j := SkipWs(s, pos);
      if j == |s| {
        return LoadFailed(MissingAdjacencyList);
      }
      var k := LineEnd(s, j);
      var failure := ReadLine(graph, s[j..k], u);
      if failure.Some? {
        return LoadFailed(failure.value);
      }
      pos := AfterLine(s, k);
      u := u + 1;
    }
    return Loaded(graph);
  }

  /**
   * The body of `from_string`'s loop for vertex `u` once `getline` has
   * produced `line`: add its entries, or report the error it throws.
   */
  method ReadLine(graph: Graph, line: string, u: int) returns (failure: Option<ParseError>)
    requires graph.Valid() && 0 <= u < graph.vertices
    modifies graph
    ensures graph.Valid() && graph.vertices == old(graph.vertices) && graph.directed == old(graph.directed)
    ensures ParseEntries(line, 0, u, old(graph.View())) ==
      if failure.None? then Ok(graph.View()) else Err(failure.value)
  {
    var p := 0;
    while true
      invariant p <= |line|
      invariant graph.Valid() && graph.vertices == old(graph.vertices) && graph.directed == old(graph.directed)
      invariant ParseEntries(line, 0, u, old(graph.View())) == ParseEntries(line, p, u, graph.View())
      decreases |line| - p
    {
      var rv := ReadInt(line, p);
      if rv.Failed? {
        return if rv.atEnd then None else Some(BadAdjacencyEntry);
      }
      var rw := ReadInt(line, rv.next);
      if rw.Failed? {
        return if rw.atEnd then None else Some(BadAdjacencyEntry);
      }
      var ok := graph.AddEdge(u, rv.value, rw.value);
      if !ok {
        return Some(VertexOutOfRange);
      }
      p := rw.next;
    }
  }

  /*
   * Reading back a rendering.  `from_string` reads one line per vertex, but a
   * vertex without entries renders as an empty line, which `in >> std::ws`
   * skips; `ReadBack` states the effect: the lines actually read are the
   * non-empty rendered rows, in order, and each is replayed through `addEdge`.
   */

  predicate EntriesBounded(row: seq<Edge>, n: int) {
    forall k :: 0 <= k < |row| ==> 0 <= row[k].to < n
  }

  /** `addEdge(u, v, w)` for every entry (v, w) of `row`, in order. */
  function ReplayRow(g: GraphView, u: int, row: seq<Edge>): (r: GraphView)
    requires g.Wf() && 0 <= u < g.n && EntriesBounded(row, g.n)
    ensures r.Wf() && r.n == g.n && r.directed == g.directed
    decreases |row|
  {
    if row == [] then g else ReplayRow(WithEdge(g, u, row[0].to, row[0].weight), u, row[1..])
  }

  /** The graph built from rendered rows `rows` when vertex `u` is the next one to read. */
  function ReadBack(g: GraphView, u: nat, rows: seq<seq<Edge>>): (r: ParseResult)
    requires g.Wf() && u <= g.n && RowsBounded(rows, g.n)
    decreases |rows|
  {
    if u == g.n then Ok(g)
    else if rows == [] then Err(MissingAdjacencyList)
    else if rows[0] == [] then ReadBack(g, u, rows[1..])
    else ReadBack(ReplayRow(g, u, rows[0]), u + 1, rows[1..])
  }

  lemma Split(s: string, i: nat, a: string, b: string)
    requires i <= |s| && s[i..] == a + b
    ensures i + |a| <= |s| && s[i..i + |a|] == a && s[i + |a|..] == b
  {
    assert s[i..i + |a|] == (a + b)[..|a|];
    assert s[i + |a|..] == (a + b)[|a|..];
  }

  /** One `>> x` over an optional blank and the rendering of `x`; the scan stops at `next`. */
  lemma ReadField(s: string, i: nat, lead: string, x: int, rest: string) returns (next: nat)
    requires lead == [] || lead == " "
    requires i <= |s| && s[i..] == lead + (IntToString(x) + rest)
    requires rest != [] ==> !IsDigit(rest[0])
    ensures next == i + |lead| + |IntToString(x)| && next <= |s|
    ensures ReadInt(s, i) == Read(x, next) && s[next..] == rest
  {
    var j := i + |lead|;
    Split(s, i, lead, IntToString(x) + rest);
    if lead == " " {
      assert s[i] == ' ';
      assert SkipWs(s, i) == SkipWs(s, j);
      assert ReadInt(s, i) == ReadInt(s, j);
    }
    next := ReadUnpadded(s, j, x, rest);
  }

  /** `ReadField` without the blank in front. */
  lemma ReadUnpadded(s: string, j: nat, x: int, rest: string) returns (next: nat)
    requires j <= |s| && s[j..] == IntToString(x) + rest
    requires rest != [] ==> !IsDigit(rest[0])
    ensures next == j + |IntToString(x)| && next <= |s|
    ensures ReadInt(s, j) == Read(x, next) && s[next..] == rest
  {
    var t := IntToString(x);
    Split(s, j, t, rest);
    next := j + |t|;
    if next < |s| {
      assert s[next] == rest[0];
    }
    ReadIntRendered(s, j, x);
  }

  lemma EntriesTextStart(row: seq<Edge>)
    requires row != []
    ensures EntriesText(row)[0] == ' '
  {
  }

  /** The text of one entry, right-associated for reading it field by field. */
  lemma EntryTextShape(e: Edge, t: string)
    ensures EntryText(e) + t == " " + (IntToString(e.to) + (" " + (IntToString(e.weight) + t)))
  {
    var a := IntToString(e.to);
    var b := IntToString(e.weight);
    Assoc(" ", a + (" " + b), t);
    Assoc(a, " " + b, t);
    Assoc(" ", b, t);
  }

  /** The two `>>` of one rendered entry, its first blank already skipped (`d == 1`) or not. */
  lemma ReadEntry(line: string, p: nat, d: nat, e: Edge, t: string) returns (q: nat, r: nat)
    requires d <= 1 && p <= |line|
    requires |EntryText(e) + t| >= d && line[p..] == (EntryText(e) + t)[d..]
    requires t != [] ==> t[0] == ' '
    ensures ReadInt(line, p) == Read(e.to, q) && ReadInt(line, q) == Read(e.weight, r)
    ensures r == p + |EntryText(e)| - d && r <= |line| && line[r..] == t
  {
    var a := IntToString(e.to);
    var b := IntToString(e.weight);
    EntryTextShape(e, t);
    var lead: string := if d == 0 then " " else [];
    assert line[p..] == lead + (a + (" " + (b + t))) by {
      if d == 1 {
        assert (EntryText(e) + t)[1..] == a + (" " + (b + t));
      }
    }
    q, r := ReadTwoFields(line, p, lead, e.to, e.weight, t);
    assert |EntryText(e)| == |a| + |b| + 2;
  }

  /** Reading `v` and then `w` from `lead v w t`; `q` and `r` are the positions after each. */
  lemma ReadTwoFields(line: string, p: nat, lead: string, v: int, w: int, t: string) returns (q: nat, r: nat)
    requires lead == [] || lead == " "
    requires p <= |line| && line[p..] == lead + (IntToString(v) + (" " + (IntToString(w) + t)))
    requires t != [] ==> t[0] == ' '
    ensures q == p + |lead| + |IntToString(v)| && r == q + 1 + |IntToString(w)|
    ensures ReadInt(line, p) == Read(v, q) && ReadInt(line, q) == Read(w, r)
    ensures r <= |line| && line[r..] == t
  {
    var rest := " " + (IntToString(w) + t);
    q := ReadField(line, p, lead, v, rest);
    assert rest[0] == ' ';
    r := ReadField(line, q, " ", w, t);
  }

  /** A rendered row, with its first blank already skipped (`d == 1`) or not, parses to its replay. */
  lemma {:induction false} ParseRow(line: string, p: nat, d: nat, u: int, g: GraphView, row: seq<Edge>)
    requires d <= 1 && (d == 1 ==> row != [])
    requires p <= |line| && g.Wf() && 0 <= u < g.n && EntriesBounded(row, g.n)
    requires |EntriesText(row)| >= d && line[p..] == EntriesText(row)[d..]
    ensures ParseEntries(line, p, u, g) == Ok(ReplayRow(g, u, row))
    decreases |row|
  {
    if row == [] {
      assert p == |line|;
    } else {
      var t := EntriesText(row[1..]);
      assert EntriesText(row) == EntryText(row[0]) + t;
      if row[1..] != [] {
        EntriesTextStart(row[1..]);
      }
      var q, p2 := ReadEntry(line, p, d, row[0], t);
      assert line[p2..] == EntriesText(row[1..])[0..];
      ParseRow(line, p2, 0, u, WithEdge(g, u, row[0].to, row[0].weight), row[1..]);
    }
  }

  /** `LineEnd` finds the first line break. */
  lemma {:induction false} LineEndAt(s: string, j: nat, k: nat)
    requires j <= k <= |s| && NoNewline(s[j..k]) && (k < |s| ==> s[k] == '\n')
    ensures LineEnd(s, j) == k
    decreases k - j
  {
    if j < k {
      assert s[j] == s[j..k][0];
      assert s[j + 1..k] == s[j..k][1..];
      LineEndAt(s, j + 1, k);
    }
  }

  /** Reading lines depends on the position only up to leading white space. */
  lemma ParseLinesSkip(s: string, pos: nat, u: nat, g: GraphView)
    requires pos < |s| && IsSpace(s[pos]) && g.Wf() && u <= g.n
    ensures ParseLines(s, pos, u, g) == ParseLines(s, pos + 1, u, g)
  {
    assert SkipWs(s, pos) == SkipWs(s, pos + 1);
  }

  /** Parsing the rendered rows `rows` from `pos` is `ReadBack`. */
  lemma ParseRows(s: string, pos: nat, u: nat, g: GraphView, rows: seq<seq<Edge>>)
    requires pos <= |s| && g.Wf() && u <= g.n && RowsBounded(rows, g.n)
    requires s[pos..] == RowsText(rows)
    ensures ParseLines(s, pos, u, g) == ReadBack(g, u, rows)
  {
    ParseRowsAs(s, pos, u, g, rows, ReadBack(g, u, rows));
  }

  /** `ParseRows`, with the expected outcome `r` named. */
  lemma {:induction false} ParseRowsAs(s: string, pos: nat, u: nat, g: GraphView, rows: seq<seq<Edge>>, r: ParseResult)
    requires pos <= |s| && g.Wf() && u <= g.n && RowsBounded(rows, g.n)
    requires s[pos..] == RowsText(rows) && ReadBack(g, u, rows) == r
    ensures ParseLines(s, pos, u, g) == r
    decreases |rows|, 1
  {
    if u == g.n || rows == [] {
      ParseNoRows(s, pos, u, g, rows);
    } else if rows[0] == [] {
      ParseEmptyRowAs(s, pos, u, g, rows, r);
    } else {
      ParseFullRowAs(s, pos, u, g, rows, r);
    }
  }

  lemma {:induction false} ParseEmptyRowAs(s: string, pos: nat, u: nat, g: GraphView, rows: seq<seq<Edge>>, r: ParseResult)
    requires pos <= |s| && g.Wf() && u < g.n && RowsBounded(rows, g.n)
    requires rows != [] && rows[0] == [] && s[pos..] == RowsText(rows) && ReadBack(g, u, rows) == r
    ensures ParseLines(s, pos, u, g) == r
    decreases |rows|, 0
  {
    var next := SkipEmptyRow(s, pos, u, g, rows);
    ParseRowsAs(s, next, u, g, rows[1..], r);
  }

  lemma {:induction false} ParseFullRowAs(s: string, pos: nat, u: nat, g: GraphView, rows: seq<seq<Edge>>, r: ParseResult)
    requires pos <= |s| && g.Wf() && u < g.n && RowsBounded(rows, g.n)
    requires rows != [] && rows[0] != [] && s[pos..] == RowsText(rows) && ReadBack(g, u, rows) == r
    ensures ParseLines(s, pos, u, g) == r
    decreases |rows|, 0
  {
    var next, g' := ReadFullRow(s, pos, u, g, rows);
    ParseRowsAs(s, next, u + 1, g', rows[1..], r);
  }

  lemma ParseNoRows(s: string, pos: nat, u: nat, g: GraphView, rows: seq<seq<Edge>>)
    requires pos <= |s| && g.Wf() && u <= g.n && RowsBounded(rows, g.n)
    requires s[pos..] == RowsText(rows) && (u == g.n || rows == [])
    ensures ParseLines(s, pos, u, g) == ReadBack(g, u, rows)
  {
    if u < g.n {
      assert pos == |s|;
    }
  }

  /** The rest of the text after the first rendered row is the rendering of the other rows. */
  lemma RowsTextSplit(s: string, pos: nat, rows: seq<seq<Edge>>) returns (next: nat)
    requires pos <= |s| && rows != [] && s[pos..] == RowsText(rows)
    ensures next == pos + |RowLine(rows[0])| && next <= |s|
    ensures s[pos..] == RowLine(rows[0]) + RowsText(rows[1..]) && s[next..] == RowsText(rows[1..])
  {
    next := pos + |RowLine(rows[0])|;
    Split(s, pos, RowLine(rows[0]), RowsText(rows[1..]));
  }

  /** The line of a vertex without entries is skipped as white space. */
  lemma SkipEmptyRow(s: string, pos: nat, u: nat, g: GraphView, rows: seq<seq<Edge>>) returns (next: nat)
    requires pos <= |s| && g.Wf() && u < g.n && RowsBounded(rows, g.n)
    requires rows != [] && rows[0] == [] && s[pos..] == RowsText(rows)
    ensures next <= |s| && s[next..] == RowsText(rows[1..]) && RowsBounded(rows[1..], g.n)
    ensures ParseLines(s, pos, u, g) == ParseLines(s, next, u, g)
    ensures ReadBack(g, u, rows) == ReadBack(g, u, rows[1..])
  {
    next := RowsTextSplit(s, pos, rows);
    var next' := LineOfRow(s, pos, rows[0], RowsText(rows[1..]));
    ParseLinesSkip(s, pos, u, g);
  }

  /** The line of a vertex with entries is read as that vertex's adjacency list. */
  lemma ReadFullRow(s: string, pos: nat, u: nat, g: GraphView, rows: seq<seq<Edge>>) returns (next: nat, g': GraphView)
    requires pos <= |s| && g.Wf() && u < g.n && RowsBounded(rows, g.n)
    requires rows != [] && rows[0] != [] && s[pos..] == RowsText(rows)
    ensures next <= |s| && s[next..] == RowsText(rows[1..]) && RowsBounded(rows[1..], g.n)
    ensures g'.Wf() && g'.n == g.n && u + 1 <= g'.n
    ensures ParseLines(s, pos, u, g) == ParseLines(s, next, u + 1, g')
    ensures ReadBack(g, u, rows) == ReadBack(g', u + 1, rows[1..])
  {
    next := RowsTextSplit(s, pos, rows);
    g' := ReplayRow(g, u, rows[0]);
    var j, k := LineOfFullRow(s, pos, next, rows[0], RowsText(rows[1..]));
    var line := s[j..k];
    assert line[0..] == line;
    ParseRow(line, 0, 1, u, g, rows[0]);
    ParseLinesAt(s, pos, u, g, j, k, g');
  }

  /** Reading a line with entries moves on to the next vertex. */
  lemma ParseLinesAt(s: string, pos: nat, u: nat, g: GraphView, j: nat, k: nat, g': GraphView)
    requires pos <= |s| && g.Wf() && u < g.n
    requires SkipWs(s, pos) == j && j < |s| && LineEnd(s, j) == k
    requires ParseEntries(s[j..k], 0, u, g) == Ok(g')
    ensures g'.Wf() && g'.n == g.n
    ensures ParseLines(s, pos, u, g) == ParseLines(s, AfterLine(s, k), u + 1, g')
  {
  }

  /**
   * Where the rendered line of a row with entries lies: `in >> std::ws`
   * stops at `j`, just after its first blank, and `getline` reads up to the
   * line break at `k`.
   */
  lemma LineOfFullRow(s: string, pos: nat, next: nat, row: seq<Edge>, rest: string) returns (j: nat, k: nat)
    requires row != [] && pos <= |s| && s[pos..] == RowLine(row) + rest && next == pos + |RowLine(row)|
    ensures j == pos + 1 && k + 1 == next && j <= k < |s|
    ensures SkipWs(s, pos) == j && LineEnd(s, j) == k && AfterLine(s, k) == next
    ensures s[j..k] == EntriesText(row)[1..]
  {
    var next' := LineOfRow(s, pos, row, rest);
    j := pos + 1;
    k := next - 1;
  }

  /**
   * Where the rendered line of `row` lies: an empty row is a bare line break;
   * otherwise `in >> std::ws` stops just after its first blank and `getline`
   * reads up to the line break, ending at `next - 1`.
   */
  lemma LineOfRow(s: string, pos: nat, row: seq<Edge>, rest: string) returns (next: nat)
    requires pos <= |s| && s[pos..] == RowLine(row) + rest
    ensures next == pos + |RowLine(row)| && next <= |s| && s[next..] == rest
    ensures row == [] ==> next == pos + 1 && s[pos] == '\n'
    ensures row != [] ==> pos + 1 < next && SkipWs(s, pos) == pos + 1 && LineEnd(s, pos + 1) == next - 1
    ensures row != [] ==> AfterLine(s, next - 1) == next && s[pos + 1..next - 1] == EntriesText(row)[1..]
  {
    var e := EntriesText(row);
    Assoc(e, "\n", rest);
    Split(s, pos, e, "\n" + rest);
    var k := pos + |e|;
    next := k + 1;
    assert s[k] == '\n';
    assert s[k + 1..] == rest;
    if row != [] {
      EntriesLineAt(s, pos, k, row);
    }
  }

  /** A rendered row with entries, ended by a line break at `k`, is read after its first blank. */
  lemma EntriesLineAt(s: string, pos: nat, k: nat, row: seq<Edge>)
    requires row != [] && pos <= k < |s| && s[pos..k] == EntriesText(row) && s[k] == '\n'
    ensures SkipWs(s, pos) == pos + 1 && pos + 1 <= k && LineEnd(s, pos + 1) == k
    ensures s[pos + 1..k] == EntriesText(row)[1..]
  {
    var e := EntriesText(row);
    EntriesTextStart(row);
    assert s[pos] == ' ';
    assert s[pos + 1] == IntToString(row[0].to)[0];
    IntToStringForm(row[0].to);
    assert SkipWs(s, pos) == pos + 1;
    EntriesTextHasNoNewline(row);
    assert s[pos + 1..k] == e[1..];
    LineEndAt(s, pos + 1, k);
  }
}
