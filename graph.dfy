/**
 * The graph store (graph.h, graph.c): an undirected simple graph kept both as
 * adjacency lists and as a dense n x n matrix, and the loader that builds one
 * from the integers of an input stream.
 *
 * The input stream is modelled as the sequence of integers it holds; reading
 * past its end is the failing `fscanf`. A load starts at a position of that
 * sequence and, on success, also yields the position just after the graph, so
 * that two graphs can be read one after the other.
 */
module Graphs {
  import opened Wrappers

  /**
   * A graph as graph.h declares it: `n` vertices `0..n-1`, `m` edges,
   * the adjacency lists `adj` (the C field `adjSize[i]` is `|adj[i]|`) and the
   * adjacency matrix.
   */
  datatype Graph = Graph(n: nat, m: nat, adj: seq<seq<int>>, matrix: seq<seq<int>>)

  predicate IsSquare(mat: seq<seq<int>>, n: nat) {
    |mat| == n && forall i :: 0 <= i < n ==> |mat[i]| == n
  }

  ghost predicate Symmetric(mat: seq<seq<int>>, n: nat)
    requires IsSquare(mat, n)
  {
    forall i, j :: 0 <= i < n && 0 <= j < n ==> mat[i][j] == mat[j][i]
  }

  ghost predicate ZeroDiagonal(mat: seq<seq<int>>, n: nat)
    requires IsSquare(mat, n)
  {
    forall i :: 0 <= i < n ==> mat[i][i] == 0
  }

  /** Every entry is 0 or 1 (the format the matrix is meant to hold). */
  ghost predicate Binary(mat: seq<seq<int>>, n: nat)
    requires IsSquare(mat, n)
  {
    forall i, j :: 0 <= i < n && 0 <= j < n ==> mat[i][j] == 0 || mat[i][j] == 1
  }

  /** The edges the loader counts: the pairs i < j of the upper triangle with a positive entry. */
  ghost function UpperEdges(mat: seq<seq<int>>, n: nat): set<(int, int)>
    requires IsSquare(mat, n)
  {
    set i, j | 0 <= i < j < n && mat[i][j] > 0 :: (i, j)
  }

  ghost predicate Distinct(s: seq<int>) {
    forall a, b :: 0 <= a < b < |s| ==> s[a] != s[b]
  }

  /** What the search code needs in order to read a graph without leaving its arrays. */
  ghost predicate WellShaped(g: Graph) {
    && IsSquare(g.matrix, g.n)
    && |g.adj| == g.n
    && forall u, k :: 0 <= u < g.n && 0 <= k < |g.adj[u]| ==> 0 <= g.adj[u][k] < g.n
  }

  /**
   * A simple undirected graph: 0/1 symmetric matrix with a zero diagonal,
   * adjacency lists without repetitions holding exactly the matrix neighbours
   * (in any order), and `m` the number of edges.
   */
  ghost predicate ValidGraph(g: Graph) {
    && WellShaped(g)
    && Binary(g.matrix, g.n)
    && Symmetric(g.matrix, g.n)
    && ZeroDiagonal(g.matrix, g.n)
    && (forall u :: 0 <= u < g.n ==> Distinct(g.adj[u]))
    && (forall u, v :: 0 <= u < g.n && 0 <= v < g.n ==> (v in g.adj[u] <==> g.matrix[u][v] != 0))
    && g.m == |UpperEdges(g.matrix, g.n)|
  }

  /** The number of entries of a vertex map that are assigned (not -1). */
  function Assigned(s: seq<int>): (c: nat)
    ensures c <= |s|
  {
    if s == [] then 0 else Assigned(s[..|s| - 1]) + (if s[|s| - 1] != -1 then 1 else 0)
  }

  /** Assigning one unassigned entry raises the count by exactly one. */
  lemma {:induction false} AssignedUpdate(s: seq<int>, i: int, v: int)
    requires 0 <= i < |s| && s[i] == -1 && v != -1
    ensures Assigned(s[i := v]) == Assigned(s) + 1
  {
    var t := s[i := v];
    if i == |s| - 1 {
      assert t[..|t| - 1] == s[..|s| - 1];
    } else {
      assert t[..|t| - 1] == s[..|s| - 1][i := v];
      AssignedUpdate(s[..|s| - 1], i, v);
    }
  }

  /** When every entry counts as assigned, no entry is -1. */
  lemma {:induction false} AssignedFull(s: seq<int>)
    requires Assigned(s) == |s|
    ensures forall i :: 0 <= i < |s| ==> s[i] != -1
  {
    if s != [] {
      AssignedFull(s[..|s| - 1]);
      forall i | 0 <= i < |s| ensures s[i] != -1 {
        if i < |s| - 1 { assert s[i] == s[..|s| - 1][i]; }
      }
    }
  }

  /**
   * allocMatrix (graph.c) and alloc_matrix (graphgen.c): a fresh n x n matrix
   * of zeros. Allocation is taken to succeed.
   */
  method AllocMatrix(n: nat) returns (mat: array2<int>)
    ensures fresh(mat) && mat.Length0 == n && mat.Length1 == n
    ensures forall i, j :: 0 <= i < n && 0 <= j < n ==> mat[i, j] == 0
  {
    mat := new int[n, n]((i, j) => 0);
  }

  // ---------------------------------------------------------------------
  // Loading (loadGraphFromFile, loadBothGraphs)
  // ---------------------------------------------------------------------

  /**
   * `r` rows of `n` integers each, read from position `p` of `tokens` on, and
   * the position after them; nothing if the integers run out first.
   */
  ghost function ReadRows(tokens: seq<int>, p: nat, n: nat, r: nat): (res: Option<(seq<seq<int>>, nat)>)
    ensures res.Some? ==> |res.value.0| == r && res.value.1 <= |tokens|
    ensures res.Some? ==> forall i :: 0 <= i < r ==> |res.value.0[i]| == n
    decreases r
  {
    if r == 0 then (if p <= |tokens| then Some(([], p)) else None)
    else if |tokens| < p + n then None
    else Prefixed(tokens[p..p + n], ReadRows(tokens, p + n, n, r - 1))
  }

  /** Puts `row` in front of the rows of a read, if the read succeeded. */
  ghost function Prefixed(row: seq<int>, res: Option<(seq<seq<int>>, nat)>): Option<(seq<seq<int>>, nat)> {
    match res
    case None => None
    case Some((rows, next)) => Some(([row] + rows, next))
  }

  /** Reading one more row appends the next n integers, if there are that many. */
  lemma {:induction false} ReadRowsStep(tokens: seq<int>, p: nat, n: nat, r: nat, rows: seq<seq<int>>, q: nat)
    requires ReadRows(tokens, p, n, r) == Some((rows, q))
    ensures ReadRows(tokens, p, n, r + 1)
         == if q + n <= |tokens| then Some((rows + [tokens[q..q + n]], q + n)) else None
    decreases r
  {
    if r == 0 {
      assert rows == [] && q == p;
      if q + n <= |tokens| {
        var row := tokens[p..p + n];
        assert ReadRows(tokens, p, n, 1) == Prefixed(row, ReadRows(tokens, p + n, n, 0));
        assert [row] + [] == rows + [row];
      }
    } else {
      var rest := ReadRows(tokens, p + n, n, r - 1);
      assert rest == Some((rows[1..], q));
      ReadRowsStep(tokens, p + n, n, r - 1, rows[1..], q);
      if q + n <= |tokens| {
        assert [rows[0]] + (rows[1..] + [tokens[q..q + n]]) == rows + [tokens[q..q + n]];
      }
    }
  }

  /** A read of `k` rows succeeds whenever a longer read does. */
  lemma {:induction false} ReadRowsPrefix(tokens: seq<int>, p: nat, n: nat, k: nat, r: nat)
    requires k <= r && ReadRows(tokens, p, n, r).Some?
    ensures ReadRows(tokens, p, n, k).Some?
    decreases k
  {
    if k > 0 {
      ReadRowsPrefix(tokens, p + n, n, k - 1, r - 1);
    }
  }

  /**
   * The adjacency list the loader builds for a row: the columns below `k`
   * whose entry is positive, in increasing order.
   */
  function Positives(row: seq<int>, k: nat): (r: seq<int>)
    requires k <= |row|
    ensures forall v :: v in r <==> 0 <= v < k && row[v] > 0
    ensures forall a, b :: 0 <= a < b < |r| ==> r[a] < r[b]
  {
    if k == 0 then []
    else
      var prev := Positives(row, k - 1);
      assert forall a :: 0 <= a < |prev| ==> prev[a] < k - 1 by {
        forall a | 0 <= a < |prev| ensures prev[a] < k - 1 { assert prev[a] in prev; }
      }
      prev + (if row[k - 1] > 0 then [k - 1] else [])
  }

  /**
   * What loadGraphFromFile yields for the integers from `start` on: nothing
   * when the vertex count is missing or negative, when fewer than n*n matrix
   * entries follow, when a diagonal entry is non-zero or when the matrix is
   * not symmetric; otherwise the graph and the position after its last entry.
   */
  ghost function Load(tokens: seq<int>, start: nat): Option<(Graph, nat)>
  {
    if start >= |tokens| || tokens[start] < 0 then None
    else
      var n: nat := tokens[start];
      match ReadRows(tokens, start + 1, n, n)
      case None => None
      case Some((mat, next)) =>
        if !(ZeroDiagonal(mat, n) && Symmetric(mat, n)) then None
        else
          var adj := seq(n, i requires 0 <= i < n => Positives(mat[i], n));
          Some((Graph(n, |UpperEdges(mat, n)|, adj, mat), next))
  }

  /** The shape of a loaded graph: a valid graph whose lists are sorted, up to 0/1 entries. */
  ghost predicate Loaded(g: Graph) {
    && IsSquare(g.matrix, g.n)
    && |g.adj| == g.n
    && Symmetric(g.matrix, g.n)
    && ZeroDiagonal(g.matrix, g.n)
    && (forall u :: 0 <= u < g.n ==> g.adj[u] == Positives(g.matrix[u], g.n))
    && g.m == |UpperEdges(g.matrix, g.n)|
  }

  /** The positive entries of row `a` right of the diagonal: the edges the loader counts in that row. */
  ghost function RowEdges(row: seq<int>, a: int): nat {
    if row == [] then 0
    else RowEdges(row[..|row| - 1], a) + (if a < |row| - 1 && row[|row| - 1] > 0 then 1 else 0)
  }

  /** The loader's running edge count after the full rows `rows`. */
  ghost function EdgeCount(rows: seq<seq<int>>): nat {
    if rows == [] then 0
    else EdgeCount(rows[..|rows| - 1]) + RowEdges(rows[|rows| - 1], |rows| - 1)
  }

  ghost function RowSet(row: seq<int>, a: int): set<(int, int)> {
    set b | 0 <= b < |row| && a < b && row[b] > 0 :: (a, b)
  }

  ghost function RowsSet(rows: seq<seq<int>>): set<(int, int)> {
    set a, b | 0 <= a < |rows| && 0 <= b < |rows[a]| && a < b && rows[a][b] > 0 :: (a, b)
  }

  lemma {:induction false} RowEdgesCard(row: seq<int>, a: int)
    ensures RowEdges(row, a) == |RowSet(row, a)|
  {
    if row == [] {
      assert RowSet(row, a) == {};
    } else {
      var init := row[..|row| - 1];
      RowEdgesCard(init, a);
      var last: set<(int, int)> := if a < |init| && row[|init|] > 0 then {(a, |init|)} else {};
      assert RowSet(row, a) == RowSet(init, a) + last;
      assert (a, |init|) !in RowSet(init, a);
    }
  }

  lemma {:induction false} EdgeCountCard(rows: seq<seq<int>>)
    ensures EdgeCount(rows) == |RowsSet(rows)|
  {
    if rows != [] {
      var init := rows[..|rows| - 1];
      var r := |init|;
      EdgeCountCard(init);
      RowEdgesCard(rows[r], r);
      assert RowsSet(rows) == RowsSet(init) + RowSet(rows[r], r);
      assert RowsSet(init) * RowSet(rows[r], r) == {};
    }
  }

  /** The count the loader keeps is the number of edges of the matrix it read. */
  lemma EdgeCountIsUpper(mat: seq<seq<int>>, n: nat)
    requires IsSquare(mat, n)
    ensures EdgeCount(mat) == |UpperEdges(mat, n)|
  {
    EdgeCountCard(mat);
    assert RowsSet(mat) == UpperEdges(mat, n);
  }

  /**
   * loadGraphFromFile over the integer stream: reads n, then the n*n entries,
   * then checks the diagonal and the symmetry, then fills the adjacency lists.
   */
  method LoadGraphFromTokens(tokens: seq<int>, start: nat) returns (r: Option<(Graph, nat)>)
    ensures r == Load(tokens, start)
  {
    if start >= |tokens| || tokens[start] < 0 {
      return None;
    }
    var n: nat := tokens[start];
    var read := ReadMatrix(tokens, start + 1, n);
    if read.None? {
      return None;
    }
    var (matrix, next, edgeCount) := read.value;
    var simple := IsSimple(matrix, n);
    if !simple {
      return None;
    }
    var adj := BuildAdjacency(matrix, n);
    assert adj == seq(n, i requires 0 <= i < n => Positives(matrix[i], n));
    return Some((Graph(n, edgeCount, adj, matrix), next));
  }

  /**
   * The reading loop of loadGraphFromFile: n rows of n entries from position
   * `start` on, counting as it goes the positive entries above the diagonal.
   * Fails as soon as an entry is missing.
   */
  method ReadMatrix(tokens: seq<int>, start: nat, n: nat) returns (r: Option<(seq<seq<int>>, nat, nat)>)
    requires start <= |tokens|
    ensures r.None? <==> ReadRows(tokens, start, n, n).None?
    ensures r.Some? ==> ReadRows(tokens, start, n, n) == Some((r.value.0, r.value.1))
    ensures r.Some? ==> IsSquare(r.value.0, n) && r.value.2 == |UpperEdges(r.value.0, n)|
  {
    var q := start;
    var matrix: seq<seq<int>> := [];
    var edgeCount := 0;
    for i := 0 to n
      invariant ReadRows(tokens, start, n, i) == Some((matrix, q))
      invariant |matrix| == i && q <= |tokens|
      invariant edgeCount == EdgeCount(matrix)
    {
      ReadRowsStep(tokens, start, n, i, matrix, q);
      if |tokens| < q + n {
        if ReadRows(tokens, start, n, n).Some? {
          ReadRowsPrefix(tokens, start, n, i + 1, n);
        }
        return None;
      }
      var row;
      row, edgeCount := ReadRow(tokens, q, n, i, matrix, edgeCount);
      matrix := matrix + [row];
      q := q + n;
    }
    EdgeCountIsUpper(matrix, n);
    return Some((matrix, q, edgeCount));
  }

  /**
   * One row of the reading loop: the n entries from position `p` on, with the
   * running edge count raised by the positive entries right of the diagonal.
   */
  method ReadRow(tokens: seq<int>, p: nat, n: nat, i: nat, ghost rows: seq<seq<int>>, count: nat)
    returns (row: seq<int>, count': nat)
    requires p + n <= |tokens| && i == |rows|
    requires count == EdgeCount(rows)
    ensures row == tokens[p..p + n]
    ensures count' == EdgeCount(rows + [row])
  {
    row := [];
    count' := count;
    for j := 0 to n
      invariant row == tokens[p..p + j]
      invariant count' == count + RowEdges(row, i)
    {
      assert (row + [tokens[p + j]])[..j] == row;
      if i < j && tokens[p + j] > 0 {
        count' := count' + 1;
      }
      row := row + [tokens[p + j]];
    }
    assert (rows + [row])[..i] == rows;
  }

  /** The validation loop of loadGraphFromFile: no self-loop and a symmetric matrix. */
  method IsSimple(matrix: seq<seq<int>>, n: nat) returns (ok: bool)
    requires IsSquare(matrix, n)
    ensures ok == (ZeroDiagonal(matrix, n) && Symmetric(matrix, n))
  {
    for i := 0 to n
      invariant forall a :: 0 <= a < i ==> matrix[a][a] == 0
      invariant forall a, b :: 0 <= a < i && a < b < n ==> matrix[a][b] == matrix[b][a]
    {
      if matrix[i][i] != 0 {
        return false;
      }
      for j := i + 1 to n
        invariant forall b :: i < b < j ==> matrix[i][b] == matrix[b][i]
      {
        if matrix[i][j] != matrix[j][i] {
          return false;
        }
      }
    }
    assert Symmetric(matrix, n) by {
      forall a, b | 0 <= a < n && 0 <= b < n ensures matrix[a][b] == matrix[b][a] {
        if a > b { assert matrix[b][a] == matrix[a][b]; }
      }
    }
    return true;
  }

  /** The list-filling loop of loadGraphFromFile: row i's positive columns, in increasing order. */
  method BuildAdjacency(matrix: seq<seq<int>>, n: nat) returns (adj: seq<seq<int>>)
    requires IsSquare(matrix, n)
    ensures |adj| == n
    ensures forall u :: 0 <= u < n ==> adj[u] == Positives(matrix[u], n)
  {
    adj := [];
    for i := 0 to n
      invariant |adj| == i
      invariant forall a :: 0 <= a < i ==> adj[a] == Positives(matrix[a], n)
    {
      var list := BuildRow(matrix[i], n);
      adj := adj + [list];
    }
  }

  /** The inner loop of the adjacency pass: the columns of one row with a positive entry, in order. */
  method BuildRow(row: seq<int>, n: nat) returns (list: seq<int>)
    requires |row| == n
    ensures list == Positives(row, n)
  {
    list := [];
    for j := 0 to n
      invariant list == Positives(row, j)
    {
      if row[j] > 0 {
        list := list + [j];
      }
    }
  }

  /**
   * loadBothGraphs over one integer stream: G from the start, H right after
   * it. The code is 0 when both load and -1 otherwise; when H fails, G is
   * released and reset to NULL.
   */
  method LoadBothGraphs(tokens: seq<int>) returns (code: int, G: Option<Graph>, H: Option<Graph>)
    ensures code == 0 || code == -1
    ensures code == 0 <==> Load(tokens, 0).Some? && Load(tokens, Load(tokens, 0).value.1).Some?
    ensures code == 0 ==>
              && G == Some(Load(tokens, 0).value.0)
              && H == Some(Load(tokens, Load(tokens, 0).value.1).value.0)
    ensures code == -1 ==> G == None
  {
    var rg := LoadGraphFromTokens(tokens, 0);
    if rg.None? {
      return -1, None, None;
    }
    var rh := LoadGraphFromTokens(tokens, rg.value.1);
    if rh.None? {
      return -1, None, None;
    }
    return 0, Some(rg.value.0), Some(rh.value.0);
  }

  /** A loaded graph whose entries are 0/1 is a valid graph: the sorted lists hold each neighbour once. */
  lemma LoadedBinaryIsValid(g: Graph)
    requires Loaded(g) && Binary(g.matrix, g.n)
    ensures ValidGraph(g)
  {
    forall u | 0 <= u < g.n ensures Distinct(g.adj[u]) {
      var l := g.adj[u];
      assert forall a, b :: 0 <= a < b < |l| ==> l[a] < l[b];
    }
    forall u, k | 0 <= u < g.n && 0 <= k < |g.adj[u]| ensures 0 <= g.adj[u][k] < g.n {
      assert g.adj[u][k] in g.adj[u];
    }
  }

  /**
   * What the loader yields has the loaded shape and lies within the stream:
   * the next graph starts after this one's vertex count.
   */
  lemma LoadIsLoaded(tokens: seq<int>, start: nat)
    requires Load(tokens, start).Some?
    ensures Loaded(Load(tokens, start).value.0)
    ensures start < Load(tokens, start).value.1 <= |tokens|
  {
    var n: nat := tokens[start];
    ReadRowsAdvance(tokens, start + 1, n, n);
  }

  /** A successful read never moves backwards. */
  lemma {:induction false} ReadRowsAdvance(tokens: seq<int>, p: nat, n: nat, r: nat)
    requires ReadRows(tokens, p, n, r).Some?
    ensures p <= ReadRows(tokens, p, n, r).value.1
    decreases r
  {
    if r > 0 {
      ReadRowsAdvance(tokens, p + n, n, r - 1);
    }
  }

  // ---------------------------------------------------------------------
  // How much input a graph takes, and the degree sum
  // ---------------------------------------------------------------------

  /** A successful read of r rows of n integers ends r*n integers further on. */
  lemma {:induction false} ReadRowsExtent(tokens: seq<int>, p: nat, n: nat, r: nat)
    requires ReadRows(tokens, p, n, r).Some?
    ensures ReadRows(tokens, p, n, r).value.1 == p + r * n
    decreases r
  {
    if r > 0 {
      ReadRowsExtent(tokens, p + n, n, r - 1);
      assert p + n + (r - 1) * n == p + r * n;
    }
  }

  /** A loaded graph takes its vertex count n and then exactly n*n entries of the stream. */
  lemma LoadExtent(tokens: seq<int>, start: nat)
    requires Load(tokens, start).Some?
    ensures Load(tokens, start).value.0.n == tokens[start]
    ensures Load(tokens, start).value.1 == start + 1 + tokens[start] * tokens[start]
  {
    var n: nat := tokens[start];
    ReadRowsExtent(tokens, start + 1, n, n);
  }

  /** A stream holding fewer than 1 + n*n integers from `start` on yields no graph. */
  lemma LoadRejectsShort(tokens: seq<int>, start: nat)
    requires start < |tokens| && tokens[start] >= 0
    requires |tokens| < start + 1 + tokens[start] * tokens[start]
    ensures Load(tokens, start).None?
  {
    if Load(tokens, start).Some? {
      LoadExtent(tokens, start);
      LoadIsLoaded(tokens, start);
    }
  }

  /** The total length of the lists: the sum of adjSize over all vertices. */
  ghost function DegreeSum(adj: seq<seq<int>>): nat {
    if adj == [] then 0 else DegreeSum(adj[..|adj| - 1]) + |adj[|adj| - 1]|
  }

  /** The cells (a, j), j < k, of row `row` of vertex a that hold a positive entry. */
  ghost function RowCells(row: seq<int>, a: int, k: nat): set<(int, int)>
    requires k <= |row|
  {
    set j | 0 <= j < k && row[j] > 0 :: (a, j)
  }

  /** The cells of the first r rows that hold a positive entry. */
  ghost function PositiveCells(mat: seq<seq<int>>, n: nat, r: nat): set<(int, int)>
    requires IsSquare(mat, n) && r <= n
  {
    set i, j | 0 <= i < r && 0 <= j < n && mat[i][j] > 0 :: (i, j)
  }

  /** The pairs of S with their two vertices exchanged. */
  ghost function Swapped(S: set<(int, int)>): set<(int, int)> {
    set p | p in S :: (p.1, p.0)
  }

  /** The pairs (a, v) for the entries v of a list. */
  ghost function PairsOf(s: seq<int>, a: int): set<(int, int)> {
    set v | v in s :: (a, v)
  }

  /** A list without repetitions has as many entries as it gives pairs. */
  lemma {:induction false} PairsOfCard(s: seq<int>, a: int)
    requires Distinct(s)
    ensures |PairsOf(s, a)| == |s|
  {
    if s == [] {
      assert PairsOf(s, a) == {};
    } else {
      var init := s[..|s| - 1];
      var last := s[|s| - 1];
      assert Distinct(init) by {
        forall x, y | 0 <= x < y < |init| ensures init[x] != init[y] { assert init[x] == s[x] && init[y] == s[y]; }
      }
      PairsOfCard(init, a);
      assert s == init + [last];
      assert PairsOf(s, a) == PairsOf(init, a) + {(a, last)};
      assert last !in init by {
        forall t | 0 <= t < |init| ensures init[t] != last { assert init[t] == s[t]; }
      }
    }
  }

  /** The loader's list for a row has one entry per positive cell of the row. */
  lemma PositivesCard(row: seq<int>, a: int, k: nat)
    requires k <= |row|
    ensures |Positives(row, k)| == |RowCells(row, a, k)|
  {
    var p := Positives(row, k);
    assert Distinct(p);
    PairsOfCard(p, a);
    assert PairsOf(p, a) == RowCells(row, a, k);
  }

  /** The first r lists, when they are the positive columns of their rows, hold as many entries as those rows have positive cells. */
  lemma {:induction false} DegreeSumCells(mat: seq<seq<int>>, n: nat, adj: seq<seq<int>>)
    requires IsSquare(mat, n) && |adj| <= n
    requires forall u :: 0 <= u < |adj| ==> adj[u] == Positives(mat[u], n)
    ensures DegreeSum(adj) == |PositiveCells(mat, n, |adj|)|
  {
    var r := |adj|;
    if r > 0 {
      var init := adj[..r - 1];
      assert forall u :: 0 <= u < |init| ==> init[u] == adj[u];
      DegreeSumCells(mat, n, init);
      PositivesCard(mat[r - 1], r - 1, n);
      PositiveCellsStep(mat, n, r);
    }
  }

  lemma PositiveCellsStep(mat: seq<seq<int>>, n: nat, r: nat)
    requires IsSquare(mat, n) && 0 < r <= n
    ensures |PositiveCells(mat, n, r)| == |PositiveCells(mat, n, r - 1)| + |RowCells(mat[r - 1], r - 1, n)|
  {
    assert PositiveCells(mat, n, r) == PositiveCells(mat, n, r - 1) + RowCells(mat[r - 1], r - 1, n);
    assert PositiveCells(mat, n, r - 1) * RowCells(mat[r - 1], r - 1, n) == {};
  }

  lemma {:induction false} SwappedCard(S: set<(int, int)>)
    ensures |Swapped(S)| == |S|
  {
    if S != {} {
      var x :| x in S;
      var rest := S - {x};
      SwappedCard(rest);
      assert Swapped(S) == Swapped(rest) + {(x.1, x.0)};
      assert (x.1, x.0) !in Swapped(rest);
    }
  }

  /** In a symmetric matrix with a zero diagonal the positive cells are the edges and their mirror images. */
  lemma CellsSplit(mat: seq<seq<int>>, n: nat)
    requires IsSquare(mat, n) && Symmetric(mat, n) && ZeroDiagonal(mat, n)
    ensures PositiveCells(mat, n, n) == UpperEdges(mat, n) + Swapped(UpperEdges(mat, n))
    ensures UpperEdges(mat, n) * Swapped(UpperEdges(mat, n)) == {}
  {
    var U := UpperEdges(mat, n);
    forall p | p in PositiveCells(mat, n, n) ensures p in U + Swapped(U) {
      if p.1 < p.0 {
        assert mat[p.1][p.0] == mat[p.0][p.1];
        assert (p.1, p.0) in U;
      }
    }
  }

  /** Each edge sits in two lists: the adjSize values of a loaded graph sum to 2m. */
  lemma DegreeSumIsTwiceEdges(g: Graph)
    requires Loaded(g)
    ensures DegreeSum(g.adj) == 2 * g.m
  {
    DegreeSumCells(g.matrix, g.n, g.adj);
    CellsSplit(g.matrix, g.n);
    SwappedCard(UpperEdges(g.matrix, g.n));
  }
}
