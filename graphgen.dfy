/**
 * The test-graph generator (graphgen.c): builders for the path, cycle and
 * complete graphs on n vertices, the deterministic tree phase of the random
 * builder and its edge-count guard, the row-major writer of the input
 * format, the argument parser of the "combined" mode and the edge count the
 * "single" mode reports.
 *
 * Each builder fills a fresh n x n matrix of zeros in place; its contract ties
 * the filled matrix to a specification matrix (`PathMatrix`, `CycleMatrix`,
 * `CompleteMatrix`, `TreeMatrix`), and the shape and the edge count of those
 * are proved as lemmas. The writer is a token sequence, proved to load back
 * through the loader of graph.c.
 */
module GraphGen {
  import opened Wrappers
  import opened Graphs

  // ---------------------------------------------------------------------
  // Specification matrices
  // ---------------------------------------------------------------------

  /** The n x n matrix whose entry (i, j) is e(i, j). */
  function Tabulate(n: nat, e: (nat, nat) -> int): (mat: seq<seq<int>>)
    ensures IsSquare(mat, n)
    ensures forall i, j :: 0 <= i < n && 0 <= j < n ==> mat[i][j] == e(i, j)
  {
    seq(n, i requires 0 <= i < n => seq(n, j requires 0 <= j < n => e(i, j)))
  }

  /** The path 0 - 1 - ... - (n-1): i and j are adjacent when they are consecutive. */
  function PathMatrix(n: nat): seq<seq<int>> {
    Tabulate(n, (i: nat, j: nat) => if j == i + 1 || i == j + 1 then 1 else 0)
  }

  /** The successor of i on the cycle: (i + 1) mod n. */
  function Next(i: nat, n: nat): nat
    requires i < n
  {
    if i + 1 == n then 0 else i + 1
  }

  /** Next is the C expression (i + 1) % n. */
  lemma NextIsMod(i: nat, n: nat)
    requires i < n
    ensures Next(i, n) == (i + 1) % n
  {
  }

  /** The cycle 0 - 1 - ... - (n-1) - 0: i and j are adjacent when one is the successor of the other. */
  function CycleMatrix(n: nat): seq<seq<int>> {
    Tabulate(n, (i: nat, j: nat) => if i < n && j < n && (j == Next(i, n) || i == Next(j, n)) then 1 else 0)
  }

  /** The complete graph K_n: every two distinct vertices are adjacent. */
  function CompleteMatrix(n: nat): seq<seq<int>> {
    Tabulate(n, (i: nat, j: nat) => if i != j then 1 else 0)
  }

  /** The vertex the tree phase joins vertex i (1 <= i) to: rand() % i, for the i-th random draw. */
  function Parent(draws: seq<nat>, i: nat): nat
    requires 1 <= i <= |draws|
  {
    draws[i - 1] % i
  }

  /** The tree phase: each vertex i >= 1 is joined to its parent. */
  function TreeMatrix(n: nat, draws: seq<nat>): seq<seq<int>>
    requires n <= |draws| + 1
  {
    Tabulate(n, (i: nat, j: nat) =>
      if (1 <= j < n && j <= |draws| && i == Parent(draws, j)) || (1 <= i < n && i <= |draws| && j == Parent(draws, i))
      then 1 else 0)
  }

  /** The matrices the loader accepts and the search code expects: symmetric, zero diagonal, 0/1 entries. */
  ghost predicate SimpleMatrix(mat: seq<seq<int>>, n: nat) {
    IsSquare(mat, n) && Symmetric(mat, n) && ZeroDiagonal(mat, n) && Binary(mat, n)
  }

  /** The neighbours of i in a matrix: the columns with a positive entry in row i. */
  ghost function Neighbours(mat: seq<seq<int>>, n: nat, i: nat): set<int>
    requires IsSquare(mat, n) && i < n
  {
    set j | 0 <= j < n && mat[i][j] > 0
  }

  // ---------------------------------------------------------------------
  // Edge sets and their sizes
  // ---------------------------------------------------------------------

  /** The pairs (i, i+1) for i < k. */
  ghost function Consecutive(k: nat): set<(int, int)> {
    set i, j | 0 <= i < k && j == i + 1 :: (i, j)
  }

  lemma {:induction false} ConsecutiveCard(k: nat)
    ensures |Consecutive(k)| == k
  {
    if k > 0 {
      ConsecutiveCard(k - 1);
      assert Consecutive(k) == Consecutive(k - 1) + {(k - 1, k)};
    }
  }

  /** The pairs (i, c) for i < c. */
  ghost function Column(c: nat): set<(int, int)> {
    set i | 0 <= i < c :: (i, c)
  }

  lemma {:induction false} ColumnCard(c: nat, k: nat)
    requires k <= c
    ensures |set i | 0 <= i < k :: (i, c)| == k
  {
    if k > 0 {
      ColumnCard(c, k - 1);
      assert (set i | 0 <= i < k :: (i, c)) == (set i | 0 <= i < k - 1 :: (i, c)) + {(k - 1, c)};
    }
  }

  /** All pairs i < j < n. */
  ghost function AllPairs(n: nat): set<(int, int)> {
    set i, j | 0 <= i < j < n :: (i, j)
  }

  lemma {:induction false} AllPairsCard(n: nat)
    ensures 2 * |AllPairs(n)| == n * (n - 1)
  {
    if n > 0 {
      AllPairsCard(n - 1);
      ColumnCard(n - 1, n - 1);
      assert AllPairs(n) == AllPairs(n - 1) + Column(n - 1);
      assert AllPairs(n - 1) * Column(n - 1) == {};
      assert (n - 1) * (n - 2) + 2 * (n - 1) == n * (n - 1);
    }
  }

  /** The tree edges (Parent(i), i) for 1 <= i < k. */
  ghost function TreeEdges(draws: seq<nat>, k: nat): set<(int, int)>
    requires k <= |draws| + 1
  {
    set i | 1 <= i < k :: (Parent(draws, i), i)
  }

  lemma {:induction false} TreeEdgesCard(draws: seq<nat>, k: nat)
    requires 1 <= k <= |draws| + 1
    ensures |TreeEdges(draws, k)| == k - 1
  {
    if k > 1 {
      TreeEdgesCard(draws, k - 1);
      assert TreeEdges(draws, k) == TreeEdges(draws, k - 1) + {(Parent(draws, k - 1), k - 1)};
      assert (Parent(draws, k - 1), k - 1) !in TreeEdges(draws, k - 1);
    }
  }

  // ---------------------------------------------------------------------
  // What the generated matrices are
  // ---------------------------------------------------------------------

  /** The path matrix is simple and its edges are the n-1 pairs (i, i+1). */
  lemma PathFacts(n: nat)
    requires n >= 1
    ensures SimpleMatrix(PathMatrix(n), n)
    ensures UpperEdges(PathMatrix(n), n) == Consecutive(n - 1)
    ensures |UpperEdges(PathMatrix(n), n)| == n - 1
  {
    var mat := PathMatrix(n);
    forall p | p in UpperEdges(mat, n) ensures p in Consecutive(n - 1) {
      var i, j :| 0 <= i < j < n && mat[i][j] > 0 && p == (i, j);
    }
    forall p | p in Consecutive(n - 1) ensures p in UpperEdges(mat, n) {
      var i, j :| 0 <= i < n - 1 && j == i + 1 && p == (i, j);
      assert mat[i][j] > 0;
    }
    ConsecutiveCard(n - 1);
  }

  /** The complete matrix is simple and its edges are all n(n-1)/2 pairs i < j. */
  lemma CompleteFacts(n: nat)
    ensures SimpleMatrix(CompleteMatrix(n), n)
    ensures UpperEdges(CompleteMatrix(n), n) == AllPairs(n)
    ensures |UpperEdges(CompleteMatrix(n), n)| == n * (n - 1) / 2
  {
    var mat := CompleteMatrix(n);
    forall p | p in AllPairs(n) ensures p in UpperEdges(mat, n) {
      var i, j :| 0 <= i < j < n && p == (i, j);
      assert mat[i][j] > 0;
    }
    AllPairsCard(n);
  }

  /** The predecessor of i on the cycle. */
  function Prev(i: nat, n: nat): nat
    requires i < n
  {
    if i == 0 then n - 1 else i - 1
  }

  /** The cycle matrix on at least two vertices is simple. */
  lemma CycleSimple(n: nat)
    requires n >= 2
    ensures SimpleMatrix(CycleMatrix(n), n)
  {
    var mat := CycleMatrix(n);
    forall i | 0 <= i < n ensures mat[i][i] == 0 {
      assert Next(i, n) != i;
    }
  }

  /**
   * From three vertices on, the edges of the cycle matrix are the n-1 pairs
   * (i, i+1) and the closing pair (0, n-1), n in all.
   */
  lemma CycleEdges(n: nat)
    requires n >= 3
    ensures UpperEdges(CycleMatrix(n), n) == Consecutive(n - 1) + {(0, n - 1)}
    ensures |UpperEdges(CycleMatrix(n), n)| == n
  {
    CycleEdgesWithin(n);
    CycleEdgesPresent(n);
    ConsecutiveCard(n - 1);
    assert (0, n - 1) !in Consecutive(n - 1);
  }

  lemma CycleEdgesWithin(n: nat)
    requires n >= 3
    ensures UpperEdges(CycleMatrix(n), n) <= Consecutive(n - 1) + {(0, n - 1)}
  {
    var mat := CycleMatrix(n);
    forall p | p in UpperEdges(mat, n) ensures p in Consecutive(n - 1) + {(0, n - 1)} {
      var i, j :| 0 <= i < j < n && mat[i][j] > 0 && p == (i, j);
      if j != i + 1 {
        assert i == Next(j, n);
      }
    }
  }

  lemma CycleEdgesPresent(n: nat)
    requires n >= 3
    ensures Consecutive(n - 1) + {(0, n - 1)} <= UpperEdges(CycleMatrix(n), n)
  {
    var mat := CycleMatrix(n);
    forall p | p in Consecutive(n - 1) + {(0, n - 1)} ensures p in UpperEdges(mat, n) {
      if p != (0, n - 1) {
        var i, j :| 0 <= i < n - 1 && j == i + 1 && p == (i, j);
        assert mat[i][j] > 0;
      } else {
        assert mat[0][n - 1] > 0;
      }
    }
  }

  /** From three vertices on, every vertex of the cycle has exactly the two neighbours Next(i) and Prev(i). */
  lemma CycleDegree(n: nat, i: nat)
    requires n >= 3 && i < n
    ensures Neighbours(CycleMatrix(n), n, i) == {Next(i, n), Prev(i, n)}
    ensures |Neighbours(CycleMatrix(n), n, i)| == 2
  {
    var mat := CycleMatrix(n);
    assert mat[i][Next(i, n)] > 0 && mat[i][Prev(i, n)] > 0;
    forall j | j in Neighbours(mat, n, i) ensures j == Next(i, n) || j == Prev(i, n) {
      assert mat[i][j] > 0;
    }
    assert Next(i, n) != Prev(i, n);
  }

  /** For two vertices the cycle matrix holds the single edge (0, 1). */
  lemma CycleOfTwo()
    ensures SimpleMatrix(CycleMatrix(2), 2)
    ensures UpperEdges(CycleMatrix(2), 2) == {(0, 1)}
    ensures |UpperEdges(CycleMatrix(2), 2)| == 1
  {
    assert CycleMatrix(2)[0][1] == 1;
  }

  /** The tree phase yields a simple matrix; each parent lies below its child. */
  lemma TreeSimple(n: nat, draws: seq<nat>)
    requires 1 <= n <= |draws| + 1
    ensures SimpleMatrix(TreeMatrix(n, draws), n)
    ensures forall i :: 1 <= i < n ==> Parent(draws, i) < i && TreeMatrix(n, draws)[Parent(draws, i)][i] == 1
  {
  }

  /**
   * The edges of the tree phase are the n-1 pairs (Parent(i), i), so every
   * vertex is linked to vertex 0 through its ancestors.
   */
  lemma TreeEdgeSet(n: nat, draws: seq<nat>)
    requires 1 <= n <= |draws| + 1
    ensures UpperEdges(TreeMatrix(n, draws), n) == TreeEdges(draws, n)
    ensures |UpperEdges(TreeMatrix(n, draws), n)| == n - 1
  {
    TreeEdgesWithin(n, draws);
    TreeEdgesPresent(n, draws);
    TreeEdgesCard(draws, n);
  }

  lemma TreeEdgesWithin(n: nat, draws: seq<nat>)
    requires 1 <= n <= |draws| + 1
    ensures UpperEdges(TreeMatrix(n, draws), n) <= TreeEdges(draws, n)
  {
    var mat := TreeMatrix(n, draws);
    forall p | p in UpperEdges(mat, n) ensures p in TreeEdges(draws, n) {
      var i, j :| 0 <= i < j < n && mat[i][j] > 0 && p == (i, j);
      assert i == Parent(draws, j);
    }
  }

  lemma TreeEdgesPresent(n: nat, draws: seq<nat>)
    requires 1 <= n <= |draws| + 1
    ensures TreeEdges(draws, n) <= UpperEdges(TreeMatrix(n, draws), n)
  {
    var mat := TreeMatrix(n, draws);
    forall p | p in TreeEdges(draws, n) ensures p in UpperEdges(mat, n) {
      var j :| 1 <= j < n && p == (Parent(draws, j), j);
      assert mat[Parent(draws, j)][j] > 0;
    }
  }

  // ---------------------------------------------------------------------
  // The builders
  // ---------------------------------------------------------------------

  /** generate_path_matrix: sets (i, i+1) and (i+1, i) for i = 0 .. n-2. */
  method GeneratePathMatrix(n: nat) returns (mat: array2<int>)
    ensures fresh(mat) && mat.Length0 == n && mat.Length1 == n
    ensures forall i, j :: 0 <= i < n && 0 <= j < n ==> mat[i, j] == PathMatrix(n)[i][j]
  {
    mat := AllocMatrix(n);
    var i := 0;
    while i < n - 1
      invariant 0 <= i <= if n == 0 then 0 else n - 1
      invariant forall a, b :: 0 <= a < n && 0 <= b < n ==>
                  mat[a, b] == if (a < i && b == a + 1) || (b < i && a == b + 1) then 1 else 0
    {
      mat[i, i + 1] := 1;
      mat[i + 1, i] := 1;
      i := i + 1;
    }
  }

  /** generate_cycle_matrix: sets (i, (i+1) % n) and ((i+1) % n, i) for i = 0 .. n-1. */
  method GenerateCycleMatrix(n: nat) returns (mat: array2<int>)
    ensures fresh(mat) && mat.Length0 == n && mat.Length1 == n
    ensures forall i, j :: 0 <= i < n && 0 <= j < n ==> mat[i, j] == CycleMatrix(n)[i][j]
  {
    mat := AllocMatrix(n);
    for i := 0 to n
      invariant forall a, b :: 0 <= a < n && 0 <= b < n ==>
                  mat[a, b] == if (a < i && b == Next(a, n)) || (b < i && a == Next(b, n)) then 1 else 0
    {
      var next := (i + 1) % n;
      NextIsMod(i, n);
      mat[i, next] := 1;
      mat[next, i] := 1;
    }
  }

  /** generate_complete_matrix: sets (i, j) and (j, i) for every i < j. */
  method GenerateCompleteMatrix(n: nat) returns (mat: array2<int>)
    ensures fresh(mat) && mat.Length0 == n && mat.Length1 == n
    ensures forall i, j :: 0 <= i < n && 0 <= j < n ==> mat[i, j] == CompleteMatrix(n)[i][j]
  {
    mat := AllocMatrix(n);
    for i := 0 to n
      invariant forall a, b :: 0 <= a < n && 0 <= b < n ==>
                  mat[a, b] == if a != b && (a < i || b < i) then 1 else 0
    {
      for j := i + 1 to n
        invariant forall a, b :: 0 <= a < n && 0 <= b < n ==>
                    mat[a, b] == if a != b && (a < i || b < i || (a == i && b < j) || (b == i && a < j)) then 1 else 0
      {
        mat[i, j] := 1;
        mat[j, i] := 1;
      }
    }
  }

  /**
   * The tree phase of generate_random_matrix: vertex i = 1 .. n-1 is joined
   * to rand() % i, where `draws` holds the values rand() returns, in order.
   * Every step adds one edge.
   */
  method RandomTree(n: nat, draws: seq<nat>) returns (mat: array2<int>, edgesAdded: nat)
    requires n <= |draws| + 1
    ensures fresh(mat) && mat.Length0 == n && mat.Length1 == n
    ensures forall i, j :: 0 <= i < n && 0 <= j < n ==> mat[i, j] == TreeMatrix(n, draws)[i][j]
    ensures edgesAdded == if n == 0 then 0 else n - 1
  {
    mat := AllocMatrix(n);
    edgesAdded := 0;
    var i := 1;
    while i < n
      invariant 1 <= i <= if n == 0 then 1 else n
      invariant edgesAdded == i - 1
      invariant forall a, b :: 0 <= a < n && 0 <= b < n ==>
                  mat[a, b] == if (1 <= b < i && a == Parent(draws, b)) || (1 <= a < i && b == Parent(draws, a)) then 1 else 0
    {
      var parent := draws[i - 1] % i;
      assert parent == Parent(draws, i) && parent < i;
      mat[parent, i] := 1;
      mat[i, parent] := 1;
      edgesAdded := edgesAdded + 1;
      i := i + 1;
    }
  }

  // ---------------------------------------------------------------------
  // The edge-count guard of generate_random_matrix
  // ---------------------------------------------------------------------

  /** generate_random_matrix goes on (rather than exit) exactly when n-1 <= k <= n(n-1)/2. */
  function RandomCountAccepted(n: int, k: int): (ok: bool)
    ensures ok <==> n - 1 <= k && 2 * k <= n * (n - 1)
  {
    assert n * (n - 1) >= 0 by {
      if n < 0 {
        assert n * (n - 1) == (-n) * (1 - n);
      }
    }
    !(k < n - 1 || k > (n * (n - 1)) / 2)
  }

  /**
   * An accepted k lies between the edges of the tree phase and the edges of
   * the complete graph: phase 2 starts at or below k and there are enough
   * free pairs to reach k.
   */
  lemma RandomCountRoom(n: nat, k: int, draws: seq<nat>)
    requires 1 <= n <= |draws| + 1 && RandomCountAccepted(n, k)
    ensures |UpperEdges(TreeMatrix(n, draws), n)| <= k <= |UpperEdges(CompleteMatrix(n), n)|
  {
    TreeEdgeSet(n, draws);
    CompleteFacts(n);
    AllPairsCard(n);
  }

  // ---------------------------------------------------------------------
  // write_adjacency_matrix
  // ---------------------------------------------------------------------

  /** The rows of a matrix one after the other. */
  function Flatten(rows: seq<seq<int>>): seq<int> {
    if rows == [] then [] else rows[0] + Flatten(rows[1..])
  }

  /** Every row has n entries. */
  ghost predicate RowsOf(rows: seq<seq<int>>, n: nat) {
    forall i :: 0 <= i < |rows| ==> |rows[i]| == n
  }

  /** i*n + j < r*n for i < r and j < n. */
  lemma {:induction false} RowMajorBound(i: nat, j: nat, n: nat, r: nat)
    requires i < r && j < n
    ensures i * n + j < r * n
    decreases r
  {
    if i < r - 1 {
      RowMajorBound(i, j, n, r - 1);
    }
    assert r * n == (r - 1) * n + n;
  }

  /** The position of entry (i, j) of a matrix with rows of n entries, laid out row by row. */
  function RowMajor(i: nat, j: nat, n: nat, r: nat): (p: nat)
    requires i < r && j < n
    ensures p < r * n
  {
    RowMajorBound(i, j, n, r);
    i * n + j
  }

  /** Flattening rows of n entries gives |rows| * n integers. */
  lemma {:induction false} FlattenLength(rows: seq<seq<int>>, n: nat)
    requires RowsOf(rows, n)
    ensures |Flatten(rows)| == |rows| * n
  {
    if rows != [] {
      FlattenLength(rows[1..], n);
      assert |rows| * n == n + |rows[1..]| * n;
    }
  }

  /** Flattening rows of n entries puts entry (i, j) at position i*n + j. */
  lemma {:induction false} FlattenAt(rows: seq<seq<int>>, n: nat, i: nat, j: nat)
    requires RowsOf(rows, n) && i < |rows| && j < n
    ensures RowMajor(i, j, n, |rows|) < |Flatten(rows)|
    ensures Flatten(rows)[RowMajor(i, j, n, |rows|)] == rows[i][j]
  {
    FlattenLength(rows, n);
    if i > 0 {
      var rest := rows[1..];
      FlattenAt(rest, n, i - 1, j);
      assert RowMajor(i, j, n, |rows|) == n + RowMajor(i - 1, j, n, |rest|);
      assert Flatten(rows) == rows[0] + Flatten(rest);
    }
  }

  /** write_adjacency_matrix as the integers it writes: n, then the entries row by row. */
  function WriteMatrix(mat: seq<seq<int>>, n: nat): (tokens: seq<int>)
    requires IsSquare(mat, n)
  {
    [n] + Flatten(mat)
  }

  /** The written stream holds n, then entry (i, j) at position 1 + i*n + j, and nothing else. */
  lemma WriteLayout(mat: seq<seq<int>>, n: nat)
    requires IsSquare(mat, n)
    ensures |WriteMatrix(mat, n)| == 1 + n * n
    ensures WriteMatrix(mat, n)[0] == n
    ensures forall i, j :: 0 <= i < n && 0 <= j < n ==> WriteMatrix(mat, n)[1 + RowMajor(i, j, n, n)] == mat[i][j]
  {
    FlattenLength(mat, n);
    forall i, j | 0 <= i < n && 0 <= j < n ensures WriteMatrix(mat, n)[1 + RowMajor(i, j, n, n)] == mat[i][j] {
      FlattenAt(mat, n, i, j);
    }
  }

  /** Reading r rows of n integers from where the flattened rows start gives the rows back. */
  lemma {:induction false} ReadFlattened(pre: seq<int>, rows: seq<seq<int>>, n: nat, post: seq<int>)
    requires RowsOf(rows, n)
    ensures ReadRows(pre + Flatten(rows) + post, |pre|, n, |rows|) == Some((rows, |pre| + |Flatten(rows)|))
    decreases |rows|
  {
    var tokens := pre + Flatten(rows) + post;
    if rows != [] {
      var pre' := pre + rows[0];
      assert tokens == pre' + Flatten(rows[1..]) + post;
      ReadFlattened(pre', rows[1..], n, post);
      assert tokens[|pre|..|pre| + n] == rows[0];
      assert [rows[0]] + rows[1..] == rows;
    }
  }

  /**
   * What the writer emits loads back: wherever the written graph sits in the
   * stream, the loader of graph.c reads the same n and the same matrix,
   * counts its upper-triangle edges and stops right after the last entry.
   */
  lemma WriteLoad(pre: seq<int>, mat: seq<seq<int>>, n: nat, post: seq<int>)
    requires IsSquare(mat, n) && Symmetric(mat, n) && ZeroDiagonal(mat, n)
    ensures Load(pre + WriteMatrix(mat, n) + post, |pre|).Some?
    ensures var (g, next) := Load(pre + WriteMatrix(mat, n) + post, |pre|).value;
            g.n == n && g.matrix == mat && g.m == |UpperEdges(mat, n)| && next == |pre| + |WriteMatrix(mat, n)|
  {
    var tokens := pre + WriteMatrix(mat, n) + post;
    assert tokens == (pre + [n]) + Flatten(mat) + post;
    ReadFlattened(pre + [n], mat, n, post);
  }

  /**
   * generate_combined_input writes G and then H into one stream; loading
   * from the start reads G back and stops where H begins, and loading from
   * there reads H back, as loadBothGraphs does.
   */
  lemma CombinedLoad(matG: seq<seq<int>>, nG: nat, matH: seq<seq<int>>, nH: nat)
    requires IsSquare(matG, nG) && Symmetric(matG, nG) && ZeroDiagonal(matG, nG)
    requires IsSquare(matH, nH) && Symmetric(matH, nH) && ZeroDiagonal(matH, nH)
    ensures var tokens := WriteMatrix(matG, nG) + WriteMatrix(matH, nH);
            && Load(tokens, 0).Some?
            && Load(tokens, 0).value.0.matrix == matG
            && Load(tokens, 0).value.1 == |WriteMatrix(matG, nG)|
            && Load(tokens, |WriteMatrix(matG, nG)|).Some?
            && Load(tokens, |WriteMatrix(matG, nG)|).value.0.matrix == matH
  {
    var wg := WriteMatrix(matG, nG);
    var wh := WriteMatrix(matH, nH);
    WriteLoad([], matG, nG, wh);
    assert [] + wg + wh == wg + wh;
    WriteLoad(wg, matH, nH, []);
    assert wg + wh + [] == wg + wh;
  }

  // ---------------------------------------------------------------------
  // parse_graph_args
  // ---------------------------------------------------------------------

  /** The graph types the generator knows. */
  datatype Kind = Path | Cycle | Complete | Random

  /** The type named on the command line, if it is one of the four names. */
  function KindOf(name: string): Option<Kind> {
    if name == "path" then Some(Path)
    else if name == "cycle" then Some(Cycle)
    else if name == "complete" then Some(Complete)
    else if name == "random" then Some(Random)
    else None
  }

  /** The name of a type on the command line. */
  function KindName(kind: Kind): (name: string)
    ensures KindOf(name) == Some(kind)
  {
    match kind
    case Path => "path"
    case Cycle => "cycle"
    case Complete => "complete"
    case Random => "random"
  }

  /** One graph of the command line: its type, n and k. */
  datatype GraphArgs = GraphArgs(kind: Kind, n: int, k: int)

  /**
   * parse_graph_args on argv from position `start`, with `atoi` the numeric
   * conversion. None is the return value -1: no type, an unknown type, no n,
   * n <= 1, or a random graph without k. Otherwise the arguments read and the
   * number consumed: 3 for a random graph (type, n, k), 2 for the other types
   * (type, n), whose k is 0.
   */
  function ParseGraphArgs(argv: seq<string>, start: nat, atoi: string -> int): (r: Option<(GraphArgs, nat)>)
    ensures r.None? <==>
              || start >= |argv|
              || KindOf(argv[start]).None?
              || start + 1 >= |argv|
              || atoi(argv[start + 1]) <= 1
              || (KindOf(argv[start]) == Some(Random) && start + 2 >= |argv|)
    ensures r.Some? ==> start + r.value.1 <= |argv|
    ensures r.Some? ==> Some(r.value.0.kind) == KindOf(argv[start]) && r.value.0.n == atoi(argv[start + 1]) >= 2
    ensures r.Some? && r.value.0.kind == Random ==> r.value.1 == 3 && r.value.0.k == atoi(argv[start + 2])
    ensures r.Some? && r.value.0.kind != Random ==> r.value.1 == 2 && r.value.0.k == 0
  {
    if start >= |argv| then None
    else
      match KindOf(argv[start])
      case None => None
      case Some(kind) =>
        if start + 1 >= |argv| then None
        else
          var n := atoi(argv[start + 1]);
          if n <= 1 then None
          else if kind == Random then
            if start + 2 >= |argv| then None
            else Some((GraphArgs(kind, n, atoi(argv[start + 2])), 3))
          else Some((GraphArgs(kind, n, 0), 2))
  }

  /** The command-line words of one graph: type, n and, for a random graph, k. */
  function ArgWords(a: GraphArgs, itoa: int -> string): seq<string> {
    [KindName(a.kind), itoa(a.n)] + (if a.kind == Random then [itoa(a.k)] else [])
  }

  /**
   * Parsing the words of a graph gives the graph back and consumes exactly
   * those words, whatever precedes or follows them, for any n >= 2 (and k = 0
   * for a type other than random), when atoi reads back what itoa writes.
   */
  lemma ParseArgWords(pre: seq<string>, a: GraphArgs, post: seq<string>, atoi: string -> int, itoa: int -> string)
    requires forall x :: atoi(itoa(x)) == x
    requires a.n >= 2 && (a.kind != Random ==> a.k == 0)
    ensures ParseGraphArgs(pre + ArgWords(a, itoa) + post, |pre|, atoi) == Some((a, |ArgWords(a, itoa)|))
  {
    var argv := pre + ArgWords(a, itoa) + post;
    assert argv[|pre|] == KindName(a.kind);
    assert argv[|pre| + 1] == itoa(a.n);
    if a.kind == Random {
      assert argv[|pre| + 2] == itoa(a.k);
    }
  }

  /**
   * The "combined" mode parses G's words from position 3 and H's words right
   * after them: writing both after the mode and the file name parses back to
   * the same two graphs.
   */
  lemma ParseCombined(head: seq<string>, g: GraphArgs, h: GraphArgs, atoi: string -> int, itoa: int -> string)
    requires |head| == 3 && forall x :: atoi(itoa(x)) == x
    requires g.n >= 2 && (g.kind != Random ==> g.k == 0)
    requires h.n >= 2 && (h.kind != Random ==> h.k == 0)
    ensures var argv := head + ArgWords(g, itoa) + ArgWords(h, itoa);
            && ParseGraphArgs(argv, 3, atoi) == Some((g, |ArgWords(g, itoa)|))
            && ParseGraphArgs(argv, 3 + |ArgWords(g, itoa)|, atoi) == Some((h, |ArgWords(h, itoa)|))
  {
    var wg := ArgWords(g, itoa);
    var wh := ArgWords(h, itoa);
    ParseArgWords(head, g, wh, atoi, itoa);
    ParseArgWords(head + wg, h, [], atoi, itoa);
    assert head + wg + wh + [] == head + wg + wh;
  }

  // ---------------------------------------------------------------------
  // The edge count the generator reports
  // ---------------------------------------------------------------------

  /** The matrix generate_single_graph builds for a type other than random. */
  function Generated(kind: Kind, n: nat): seq<seq<int>>
    requires kind != Random
  {
    match kind
    case Path => PathMatrix(n)
    case Cycle => CycleMatrix(n)
    case Complete => CompleteMatrix(n)
  }

  /** The edge count main prints after generating a graph, as written. */
  function ReportedEdges(kind: Kind, n: int, k: int): int {
    match kind
    case Path => n - 1
    case Cycle => n
    case Complete => n * (n - 1) / 2
    case Random => k
  }

  /** As written, the count printed for the cycle on two vertices is 2, but that matrix holds one edge. */
  lemma ReportedCycleOfTwo()
    ensures ReportedEdges(Cycle, 2, 0) == 2
    ensures |UpperEdges(Generated(Cycle, 2), 2)| == 1
  {
    CycleOfTwo();
  }

  /** The edge count of a generated graph: as reported, except 1 for the cycle on two vertices. */
  function EdgeTotal(kind: Kind, n: int, k: int): int {
    if kind == Cycle && n == 2 then 1 else ReportedEdges(kind, n, k)
  }

  /**
   * For every n >= 2 and every type other than random the corrected count
   * is the number of edges of the generated matrix, and the matrix is simple.
   */
  lemma EdgeTotalCorrect(kind: Kind, n: nat)
    requires kind != Random && n >= 2
    ensures SimpleMatrix(Generated(kind, n), n)
    ensures EdgeTotal(kind, n, 0) == |UpperEdges(Generated(kind, n), n)|
  {
    match kind
    case Path => PathFacts(n);
    case Cycle =>
      CycleSimple(n);
      if n == 2 { CycleOfTwo(); } else { CycleEdges(n); }
    case Complete => CompleteFacts(n);
  }
}
