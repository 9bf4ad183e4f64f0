/**
 * The exact extension search (exact_extension.c, exact_extension.h): the
 * cheapest way, counted in added vertices plus added edges, to grow the host
 * graph H until the oracle of subiso.c accepts the pattern G in it.
 *
 * For a budget k the search tries every split k = kv + ke (kv new vertices,
 * ke new edges) with at least as many new vertices as G has more vertices
 * than H; for each split it enumerates, in lexicographic order, every set of
 * ke vertex pairs that are not yet H-edges, and asks the oracle about H grown
 * by those vertices and edges. Budgets 0 .. G.n + G.m are tried in turn.
 *
 * The graphs built along the way (the clone of H and the edges added to it)
 * are modelled as values: the clone is owned by one attempt only, so nothing
 * else observes its in-place updates.
 */
module ExactExtension {
  import opened Wrappers
  import opened Graphs
  import opened SubIsoSearch

  /**
   * An extension as exact_extension.h records it: the new vertices and the new
   * edges (the counts `newVertexCount` and `newEdgeCount` are the lengths).
   */
  datatype Extension = Extension(newVertices: seq<int>, newEdges: seq<(int, int)>)

  // ---------------------------------------------------------------------
  // Growing a graph: cloneGraphWithExtraVertices, addEdgesToGraph
  // ---------------------------------------------------------------------

  function Zeros(k: nat): (s: seq<int>)
    ensures |s| == k && forall i :: 0 <= i < k ==> s[i] == 0
  {
    seq(k, _ => 0)
  }

  /** H with `kv` extra isolated vertices H.n .. H.n+kv-1. */
  function Clone(H: Graph, kv: nat): (g: Graph)
    requires WellShaped(H)
    ensures WellShaped(g)
  {
    var N := H.n + kv;
    var adj := seq(N, i requires 0 <= i < N => if i < H.n then H.adj[i] else []);
    var matrix := seq(N, i requires 0 <= i < N => if i < H.n then H.matrix[i] + Zeros(kv) else Zeros(N));
    assert IsSquare(matrix, N) by {
      forall i | 0 <= i < N ensures |matrix[i]| == N {
        if i < H.n {
          assert matrix[i] == H.matrix[i] + Zeros(kv) && |H.matrix[i]| == H.n;
        } else {
          assert matrix[i] == Zeros(N);
        }
      }
    }
    assert forall u, k :: 0 <= u < N && 0 <= k < |adj[u]| ==> 0 <= adj[u][k] < N by {
      forall u, k | 0 <= u < N && 0 <= k < |adj[u]| ensures 0 <= adj[u][k] < N {
        assert u < H.n && adj[u][k] == H.adj[u][k];
      }
    }
    Graph(N, H.m, adj, matrix)
  }

  /**
   * The clone has H.n + kv vertices and H's edge count, keeps H's lists and
   * matrix on the old vertices, has no edge at a new vertex, and is a valid
   * (undirected) graph whenever H is.
   */
  lemma CloneFacts(H: Graph, kv: nat)
    requires WellShaped(H)
    ensures var g := Clone(H, kv);
            && g.n == H.n + kv && g.m == H.m
            && (forall u :: 0 <= u < H.n ==> g.adj[u] == H.adj[u])
            && (forall u :: H.n <= u < g.n ==> g.adj[u] == [])
            && (forall i, j :: 0 <= i < g.n && 0 <= j < g.n ==>
                  g.matrix[i][j] == if i < H.n && j < H.n then H.matrix[i][j] else 0)
    ensures Undirected(H) ==> Undirected(Clone(H, kv))
    ensures ValidGraph(H) ==> ValidGraph(Clone(H, kv))
  {
    var g := Clone(H, kv);
    forall i, j | 0 <= i < g.n && 0 <= j < g.n
      ensures g.matrix[i][j] == if i < H.n && j < H.n then H.matrix[i][j] else 0
    {
      if i < H.n {
        assert g.matrix[i] == H.matrix[i] + Zeros(kv);
      } else {
        assert g.matrix[i] == Zeros(g.n);
      }
    }
    if ValidGraph(H) {
      assert UpperEdges(g.matrix, g.n) == UpperEdges(H.matrix, H.n);
      forall u, v | 0 <= u < g.n && 0 <= v < g.n ensures v in g.adj[u] <==> g.matrix[u][v] != 0 {
        if u < H.n && v >= H.n {
          assert v !in H.adj[u] by {
            forall k | 0 <= k < |H.adj[u]| ensures H.adj[u][k] != v {
              assert H.adj[u][k] < H.n;
            }
          }
        }
      }
    }
  }

  /** cloneGraphWithExtraVertices: a zeroed matrix of the new size, H's rows and lists copied in. */
  method CloneGraphWithExtraVertices(H: Graph, kv: nat) returns (g: Graph)
    requires WellShaped(H)
    ensures g == Clone(H, kv)
  {
    var newN := H.n + kv;
    var adj: seq<seq<int>> := [];
    var matrix: seq<seq<int>> := [];
    for i := 0 to H.n
      invariant |adj| == i && |matrix| == i
      invariant forall k :: 0 <= k < i ==> adj[k] == H.adj[k] && matrix[k] == H.matrix[k] + Zeros(kv)
    {
      adj := adj + [H.adj[i]];
      matrix := matrix + [H.matrix[i] + Zeros(kv)];
    }
    for i := H.n to newN
      invariant |adj| == i && |matrix| == i
      invariant forall k :: 0 <= k < H.n ==> adj[k] == H.adj[k] && matrix[k] == H.matrix[k] + Zeros(kv)
      invariant forall k :: H.n <= k < i ==> adj[k] == [] && matrix[k] == Zeros(newN)
    {
      adj := adj + [[]];
      matrix := matrix + [Zeros(newN)];
    }
    g := Graph(newN, H.m, adj, matrix);
  }

  /**
   * One pair of addEdgesToGraph: skipped when out of range or already
   * adjacent, otherwise both matrix entries become 1, each endpoint is
   * appended to the other's list and the edge count goes up by one.
   */
  function AddEdge(g: Graph, e: (int, int)): (g': Graph)
    requires WellShaped(g)
    ensures WellShaped(g') && g'.n == g.n
  {
    var (u, v) := e;
    if u < 0 || v < 0 || u >= g.n || v >= g.n then g
    else if g.matrix[u][v] != 0 then g
    else
      var mat := g.matrix[v := g.matrix[v][u := 1]];
      var mat' := mat[u := mat[u][v := 1]];
      var adj := g.adj[u := g.adj[u] + [v]];
      var adj' := adj[v := adj[v] + [u]];
      Graph(g.n, g.m + 1, adj', mat')
  }

  /** The pairs `es` added one after the other, as the loop of addEdgesToGraph does. */
  function AddAll(g: Graph, es: seq<(int, int)>): (g': Graph)
    requires WellShaped(g)
    ensures WellShaped(g') && g'.n == g.n
  {
    if es == [] then g else AddEdge(AddAll(g, es[..|es| - 1]), es[|es| - 1])
  }

  /** addEdgesToGraph: adds the first `ke` pairs of `edgeSet` (none when ke <= 0). */
  method AddEdgesToGraph(g: Graph, edgeSet: seq<(int, int)>, ke: int) returns (g': Graph)
    requires WellShaped(g) && ke <= |edgeSet|
    ensures g' == AddAll(g, edgeSet[..if ke <= 0 then 0 else ke])
  {
    g' := g;
    if ke <= 0 {
      return;
    }
    for i := 0 to ke
      invariant WellShaped(g') && g' == AddAll(g, edgeSet[..i])
    {
      assert edgeSet[..i + 1][..i] == edgeSet[..i];
      g' := AddOne(g', edgeSet[i]);
    }
  }

  /** One pass of the loop of addEdgesToGraph, on the graph value. */
  method AddOne(g: Graph, e: (int, int)) returns (g': Graph)
    requires WellShaped(g)
    ensures g' == AddEdge(g, e)
  {
    g' := g;
    var (u, v) := e;
    if u < 0 || v < 0 || u >= g.n || v >= g.n {
      return;
    }
    if g.matrix[u][v] != 0 {
      return;
    }
    var matrix := g.matrix[v := g.matrix[v][u := 1]];
    matrix := matrix[u := matrix[u][v := 1]];
    var adj := g.adj[u := g.adj[u] + [v]];
    adj := adj[v := adj[v] + [u]];
    g' := Graph(g.n, g.m + 1, adj, matrix);
  }

  /** Adding a pair a second time changes nothing. */
  lemma AddEdgeIdempotent(g: Graph, e: (int, int))
    requires WellShaped(g)
    ensures AddEdge(AddEdge(g, e), e) == AddEdge(g, e)
  {
  }

  /** The upper-triangle pair of an unordered pair. */
  function Ordered(u: int, v: int): (int, int) {
    if u < v then (u, v) else (v, u)
  }

  /** What adding a new edge u != v does to the matrix, the lists and the count. */
  lemma AddEdgeEffect(g: Graph, u: int, v: int)
    requires WellShaped(g) && 0 <= u < g.n && 0 <= v < g.n && u != v && g.matrix[u][v] == 0
    ensures var g' := AddEdge(g, (u, v));
            && g'.m == g.m + 1
            && (forall a, b :: 0 <= a < g.n && 0 <= b < g.n ==>
                  g'.matrix[a][b] == if (a == u && b == v) || (a == v && b == u) then 1 else g.matrix[a][b])
            && (forall w :: 0 <= w < g.n ==>
                  g'.adj[w] == if w == u then g.adj[u] + [v] else if w == v then g.adj[v] + [u] else g.adj[w])
  {
  }

  /** Setting the entries (u, v) and (v, u) of a matrix where they were 0 adds one upper-triangle edge. */
  lemma UpperEdgesAdd(mat: seq<seq<int>>, mat': seq<seq<int>>, n: nat, u: int, v: int)
    requires IsSquare(mat, n) && IsSquare(mat', n)
    requires 0 <= u < n && 0 <= v < n && u != v && mat[u][v] == 0 && mat[v][u] == 0
    requires forall a, b :: 0 <= a < n && 0 <= b < n ==>
               mat'[a][b] == if (a == u && b == v) || (a == v && b == u) then 1 else mat[a][b]
    ensures UpperEdges(mat', n) == UpperEdges(mat, n) + {Ordered(u, v)}
    ensures Ordered(u, v) !in UpperEdges(mat, n)
  {
    var o := Ordered(u, v);
    assert o in UpperEdges(mat', n) by { assert mat'[o.0][o.1] == 1; }
  }

  /** A set sandwiched between two others splits their difference. */
  lemma DifferenceSplit<T>(A: set<T>, B: set<T>, C: set<T>)
    requires A <= B <= C
    ensures |C - A| == |B - A| + |C - B|
  {
    assert C - A == (B - A) + (C - B);
    assert (B - A) * (C - B) == {};
  }

  /** The matrix half of AddEdgeValid: 0/1, symmetric and loop-free stay so. */
  lemma AddEdgeMatrix(g: Graph, u: int, v: int)
    requires WellShaped(g) && 0 <= u < g.n && 0 <= v < g.n && u != v && g.matrix[u][v] == 0
    requires Binary(g.matrix, g.n) && Symmetric(g.matrix, g.n) && ZeroDiagonal(g.matrix, g.n)
    ensures var g' := AddEdge(g, (u, v));
            && g'.m == g.m + 1
            && Binary(g'.matrix, g.n) && Symmetric(g'.matrix, g.n) && ZeroDiagonal(g'.matrix, g.n)
            && UpperEdges(g'.matrix, g.n) == UpperEdges(g.matrix, g.n) + {Ordered(u, v)}
            && Ordered(u, v) !in UpperEdges(g.matrix, g.n)
  {
    var g' := AddEdge(g, (u, v));
    AddEdgeEffect(g, u, v);
    assert g.matrix[v][u] == 0;
    UpperEdgesAdd(g.matrix, g'.matrix, g.n, u, v);
  }

  /** The list half of AddEdgeValid: the lists stay repetition-free and agree with the matrix. */
  lemma AddEdgeLists(g: Graph, u: int, v: int)
    requires WellShaped(g) && 0 <= u < g.n && 0 <= v < g.n && u != v && g.matrix[u][v] == 0
    requires Symmetric(g.matrix, g.n)
    requires forall w :: 0 <= w < g.n ==> Distinct(g.adj[w])
    requires forall w, x :: 0 <= w < g.n && 0 <= x < g.n ==> (x in g.adj[w] <==> g.matrix[w][x] != 0)
    ensures var g' := AddEdge(g, (u, v));
            && (forall w :: 0 <= w < g.n ==> Distinct(g'.adj[w]))
            && (forall w, x :: 0 <= w < g.n && 0 <= x < g.n ==> (x in g'.adj[w] <==> g'.matrix[w][x] != 0))
  {
    var g' := AddEdge(g, (u, v));
    AddEdgeEffect(g, u, v);
    assert v !in g.adj[u];
    assert u !in g.adj[v] by { assert g.matrix[v][u] == 0; }
    forall w | 0 <= w < g.n ensures Distinct(g'.adj[w]) {
      if w == u || w == v {
        var l := g'.adj[w];
        assert l == g.adj[w] + [if w == u then v else u];
      }
    }
  }

  /**
   * Adding a pair u != v to a valid graph gives a valid graph; when the pair
   * is in range and not yet an edge, it is exactly one new edge.
   */
  lemma AddEdgeValid(g: Graph, u: int, v: int)
    requires ValidGraph(g) && u != v
    ensures ValidGraph(AddEdge(g, (u, v)))
    ensures 0 <= u < g.n && 0 <= v < g.n && g.matrix[u][v] == 0 ==>
              && UpperEdges(AddEdge(g, (u, v)).matrix, g.n) == UpperEdges(g.matrix, g.n) + {Ordered(u, v)}
              && Ordered(u, v) !in UpperEdges(g.matrix, g.n)
  {
    if 0 <= u < g.n && 0 <= v < g.n && g.matrix[u][v] == 0 {
      AddEdgeMatrix(g, u, v);
      AddEdgeLists(g, u, v);
      var g' := AddEdge(g, (u, v));
      var S, S' := UpperEdges(g.matrix, g.n), UpperEdges(g'.matrix, g.n);
      CardAddOne(S, Ordered(u, v));
    } else {
      assert AddEdge(g, (u, v)) == g;
    }
  }

  lemma CardAddOne<T>(S: set<T>, o: T)
    requires o !in S
    ensures |S + {o}| == |S| + 1
  {
  }

  /** No pair joins a vertex to itself. */
  ghost predicate NoLoops(es: seq<(int, int)>) {
    forall t :: 0 <= t < |es| ==> es[t].0 != es[t].1
  }

  lemma NoLoopsPrefix(es: seq<(int, int)>)
    requires NoLoops(es) && es != []
    ensures NoLoops(es[..|es| - 1]) && es[|es| - 1].0 != es[|es| - 1].1
  {
    var init := es[..|es| - 1];
    forall t | 0 <= t < |init| ensures init[t].0 != init[t].1 { assert init[t] == es[t]; }
  }

  /** Adding loop-free pairs to a valid graph gives a valid graph. */
  lemma {:induction false} AddAllValid(g: Graph, es: seq<(int, int)>)
    requires ValidGraph(g) && NoLoops(es)
    ensures ValidGraph(AddAll(g, es))
  {
    if es != [] {
      NoLoopsPrefix(es);
      AddAllValid(g, es[..|es| - 1]);
      AddEdgeValid(AddAll(g, es[..|es| - 1]), es[|es| - 1].0, es[|es| - 1].1);
    }
  }

  /** Adding one pair keeps every edge and counts exactly the edges that are new. */
  lemma AddEdgeCount(g: Graph, u: int, v: int)
    requires ValidGraph(g) && u != v
    ensures UpperEdges(g.matrix, g.n) <= UpperEdges(AddEdge(g, (u, v)).matrix, g.n)
    ensures AddEdge(g, (u, v)).m == g.m + |UpperEdges(AddEdge(g, (u, v)).matrix, g.n) - UpperEdges(g.matrix, g.n)|
  {
    var g' := AddEdge(g, (u, v));
    if 0 <= u < g.n && 0 <= v < g.n && g.matrix[u][v] == 0 {
      AddEdgeMatrix(g, u, v);
      OneMore(UpperEdges(g.matrix, g.n), UpperEdges(g'.matrix, g.n), Ordered(u, v));
    } else {
      assert g' == g;
    }
  }

  /** A set grown by one new element differs from the old one in that element alone. */
  lemma OneMore<T>(S: set<T>, S': set<T>, o: T)
    requires S' == S + {o} && o !in S
    ensures S <= S' && S' - S == {o}
  {
  }

  /**
   * Adding loop-free pairs to a valid graph keeps every old edge, and the edge
   * count grows by exactly the number of edges that were not there before.
   */
  lemma {:induction false} AddAllCount(g: Graph, es: seq<(int, int)>)
    requires ValidGraph(g) && NoLoops(es)
    ensures UpperEdges(g.matrix, g.n) <= UpperEdges(AddAll(g, es).matrix, g.n)
    ensures AddAll(g, es).m == g.m + |UpperEdges(AddAll(g, es).matrix, g.n) - UpperEdges(g.matrix, g.n)|
  {
    if es != [] {
      var init := es[..|es| - 1];
      var (u, v) := es[|es| - 1];
      NoLoopsPrefix(es);
      AddAllCount(g, init);
      AddAllValid(g, init);
      var h := AddAll(g, init);
      AddEdgeCount(h, u, v);
      var h' := AddEdge(h, (u, v));
      DifferenceSplit(UpperEdges(g.matrix, g.n), UpperEdges(h.matrix, g.n), UpperEdges(h'.matrix, g.n));
    }
  }

  /**
   * The edges after adding loop-free pairs: those of the graph before, and
   * the pairs added (in either orientation), on the vertices of the graph.
   */
  lemma {:induction false} AddAllEdges(g: Graph, es: seq<(int, int)>)
    requires ValidGraph(g) && NoLoops(es)
    ensures forall a, b :: 0 <= a < g.n && 0 <= b < g.n ==>
              (AddAll(g, es).matrix[a][b] != 0 <==> g.matrix[a][b] != 0 || (a, b) in es || (b, a) in es)
  {
    if es != [] {
      var init := es[..|es| - 1];
      var (u, v) := es[|es| - 1];
      NoLoopsPrefix(es);
      AddAllEdges(g, init);
      AddAllValid(g, init);
      var h := AddAll(g, init);
      var h' := AddEdge(h, (u, v));
      assert es == init + [(u, v)];
      forall a, b | 0 <= a < g.n && 0 <= b < g.n
        ensures h'.matrix[a][b] != 0 <==> g.matrix[a][b] != 0 || (a, b) in es || (b, a) in es
      {
        AddEdgeEntry(h, u, v, a, b);
        assert (a, b) in es <==> (a, b) in init || (a, b) == (u, v);
        assert (b, a) in es <==> (b, a) in init || (b, a) == (u, v);
      }
    }
  }

  /** One entry of the matrix after adding the pair (u, v), u != v, to a valid graph. */
  lemma AddEdgeEntry(h: Graph, u: int, v: int, a: int, b: int)
    requires ValidGraph(h) && u != v && 0 <= a < h.n && 0 <= b < h.n
    ensures AddEdge(h, (u, v)).matrix[a][b] != 0 <==> h.matrix[a][b] != 0 || (a, b) == (u, v) || (b, a) == (u, v)
  {
    if 0 <= u < h.n && 0 <= v < h.n && h.matrix[u][v] == 0 {
      AddEdgeEffect(h, u, v);
    } else if 0 <= u < h.n && 0 <= v < h.n {
      assert h.matrix[v][u] != 0;
    }
  }

  // ---------------------------------------------------------------------
  // buildExtension, tryExtension
  // ---------------------------------------------------------------------

  /** H grown by `kv` vertices and the pairs `es`: the graph tryExtension hands to the oracle. */
  function Candidate(H: Graph, kv: nat, es: seq<(int, int)>): (g: Graph)
    requires WellShaped(H)
    ensures WellShaped(g) && g.n == H.n + kv
  {
    AddAll(Clone(H, kv), es)
  }

  /** buildExtension: the first `kv` new vertices and the first `ke` pairs, copied. */
  function BuildExtension(newVertices: seq<int>, kv: nat, edgeSet: seq<(int, int)>, ke: nat): (e: Extension)
    requires kv <= |newVertices| && ke <= |edgeSet|
    ensures |e.newVertices| == kv && |e.newEdges| == ke
    ensures forall i :: 0 <= i < kv ==> e.newVertices[i] == newVertices[i]
    ensures forall i :: 0 <= i < ke ==> e.newEdges[i] == edgeSet[i]
  {
    Extension(newVertices[..kv], edgeSet[..ke])
  }

  /**
   * tryExtension: clones H with `kv` extra vertices, adds the first `ke`
   * pairs, and yields the extension exactly when the oracle accepts G in the
   * result.
   */
  method TryExtension(G: Graph, H: Graph, newVertices: seq<int>, kv: nat, edgeSet: seq<(int, int)>, ke: nat)
    returns (ext: Option<Extension>)
    requires WellShaped(G) && WellShaped(H) && kv <= |newVertices| && ke <= |edgeSet|
    ensures ext.Some? <==> SubIso(G, Candidate(H, kv, edgeSet[..ke]))
    ensures ext.Some? ==> ext.value == Extension(newVertices[..kv], edgeSet[..ke])
  {
    var hPrime := CloneGraphWithExtraVertices(H, kv);
    hPrime := AddEdgesToGraph(hPrime, edgeSet, ke);
    var iso := IsSubgraphIsomorphic(G, hPrime);
    ext := None;
    if iso {
      ext := Some(BuildExtension(newVertices, kv, edgeSet, ke));
    }
  }

  // ---------------------------------------------------------------------
  // generateAllPairs
  // ---------------------------------------------------------------------

  /** The vertices 0 .. t-1, as tryKVKE lists them in allVertices. */
  function Range(t: nat): (s: seq<int>)
    ensures |s| == t && forall i :: 0 <= i < t ==> s[i] == i
  {
    seq(t, i => i)
  }

  /** The new vertices H.n .. H.n+kv-1. */
  function NewVertices(hn: nat, kv: nat): (s: seq<int>)
    ensures |s| == kv && forall i :: 0 <= i < kv ==> s[i] == hn + i
  {
    seq(kv, i => hn + i)
  }

  /** u and v are both H-vertices and adjacent in H. */
  ghost predicate IsHEdge(H: Graph, u: int, v: int)
    requires WellShaped(H)
  {
    0 <= u < H.n && 0 <= v < H.n && H.matrix[u][v] != 0
  }

  /** The pairs (vs[i], vs[j]) for j from `j` on that are not H-edges, in order. */
  ghost function PairRow(H: Graph, vs: seq<int>, i: nat, j: nat): seq<(int, int)>
    requires WellShaped(H) && i < |vs| && j <= |vs|
    decreases |vs| - j
  {
    if j == |vs| then []
    else (if IsHEdge(H, vs[i], vs[j]) then [] else [(vs[i], vs[j])]) + PairRow(H, vs, i, j + 1)
  }

  /** The pairs generateAllPairs emits for the rows i, i+1, .. of its double loop. */
  ghost function PairsFrom(H: Graph, vs: seq<int>, i: nat): seq<(int, int)>
    requires WellShaped(H) && i <= |vs|
    decreases |vs| - i
  {
    if i == |vs| then [] else PairRow(H, vs, i, i + 1) + PairsFrom(H, vs, i + 1)
  }

  /** generateAllPairs: every pair i < j of the listed vertices that is not already an H-edge. */
  method GenerateAllPairs(H: Graph, vertices: seq<int>, total: nat) returns (edges: seq<(int, int)>, idx: nat)
    requires WellShaped(H) && total == |vertices|
    requires forall k :: 0 <= k < total ==> vertices[k] >= 0
    ensures edges == PairsFrom(H, vertices, 0) && idx == |edges|
  {
    edges := [];
    idx := 0;
    for i := 0 to total
      invariant edges + PairsFrom(H, vertices, i) == PairsFrom(H, vertices, 0) && idx == |edges|
    {
      var row := GenerateRow(H, vertices, total, i);
      assert edges + PairsFrom(H, vertices, i) == (edges + row) + PairsFrom(H, vertices, i + 1);
      edges := edges + row;
      idx := idx + |row|;
    }
  }

  /** The inner loop of generateAllPairs, for row i. */
  method GenerateRow(H: Graph, vertices: seq<int>, total: nat, i: nat) returns (row: seq<(int, int)>)
    requires WellShaped(H) && total == |vertices| && i < total
    requires forall k :: 0 <= k < total ==> vertices[k] >= 0
    ensures row == PairRow(H, vertices, i, i + 1)
  {
    row := [];
    for j := i + 1 to total
      invariant row + PairRow(H, vertices, i, j) == PairRow(H, vertices, i, i + 1)
    {
      var u := vertices[i];
      var v := vertices[j];
      ghost var rest := PairRow(H, vertices, i, j + 1);
      if u < H.n && v < H.n && H.matrix[u][v] != 0 {
        assert PairRow(H, vertices, i, j) == rest;
        continue;
      }
      assert PairRow(H, vertices, i, j) == [(u, v)] + rest;
      assert row + ([(u, v)] + rest) == (row + [(u, v)]) + rest;
      row := row + [(u, v)];
    }
  }

  /** The candidate pairs of tryKVKE for `kv` new vertices. */
  ghost function CandidatePairs(H: Graph, kv: nat): seq<(int, int)>
    requires WellShaped(H)
  {
    PairsFrom(H, Range(H.n + kv), 0)
  }

  /** No element occurs twice. */
  ghost predicate NoDup<T>(s: seq<T>) {
    forall a, b :: 0 <= a < b < |s| ==> s[a] != s[b]
  }

  lemma NoDupAppend<T>(x: seq<T>, y: seq<T>)
    requires NoDup(x) && NoDup(y) && forall e :: e in x ==> e !in y
    ensures NoDup(x + y)
  {
    var z := x + y;
    forall a, b | 0 <= a < b < |z| ensures z[a] != z[b] {
      if a < |x| && b >= |x| {
        assert z[a] in x && z[b] == y[b - |x|];
      }
    }
  }

  /**
   * Row i of the pairs over 0 .. t-1 from column j on: the pairs (i, v),
   * j <= v < t, that are not H-edges, with v increasing.
   */
  lemma {:induction false} PairRowFacts(H: Graph, t: nat, i: nat, j: nat)
    requires WellShaped(H) && i < j <= t
    ensures forall p :: p in PairRow(H, Range(t), i, j) <==> p.0 == i && j <= p.1 < t && !IsHEdge(H, i, p.1)
    ensures var row := PairRow(H, Range(t), i, j);
            forall a, b :: 0 <= a < b < |row| ==> row[a].1 < row[b].1
    ensures |PairRow(H, Range(t), i, j)| <= t - j
  {
    PairRowMembers(H, t, i, j);
    PairRowIncreasing(H, t, i, j);
    var row := PairRow(H, Range(t), i, j);
    assert SecondIncreasing(row);
  }

  /** The first and the last two ensures of PairRowFacts: which pairs a row holds, and how many. */
  lemma {:induction false} PairRowMembers(H: Graph, t: nat, i: nat, j: nat)
    requires WellShaped(H) && i < j <= t
    ensures forall p :: p in PairRow(H, Range(t), i, j) <==> p.0 == i && j <= p.1 < t && !IsHEdge(H, i, p.1)
    ensures |PairRow(H, Range(t), i, j)| <= t - j
    decreases t - j
  {
    if j < t {
      PairRowMembers(H, t, i, j + 1);
      PairRowSplit(H, t, i, j);
    }
  }

  /** One step of PairRow over 0 .. t-1: the pair (i, j) unless it is an H-edge, then the rest. */
  lemma PairRowSplit(H: Graph, t: nat, i: nat, j: nat)
    requires WellShaped(H) && i < j < t
    ensures IsHEdge(H, i, j) ==> PairRow(H, Range(t), i, j) == PairRow(H, Range(t), i, j + 1)
    ensures !IsHEdge(H, i, j) ==> PairRow(H, Range(t), i, j) == [(i, j)] + PairRow(H, Range(t), i, j + 1)
  {
    if IsHEdge(H, i, j) {
      assert [] + PairRow(H, Range(t), i, j + 1) == PairRow(H, Range(t), i, j + 1);
    }
  }

  /** The second coordinates of `row` increase strictly. */
  ghost predicate SecondIncreasing(row: seq<(int, int)>) {
    forall a, b :: 0 <= a < b < |row| ==> row[a].1 < row[b].1
  }

  /** A pair placed before an increasing row whose second coordinates all exceed its own. */
  lemma SecondIncreasingCons(x: (int, int), tail: seq<(int, int)>)
    requires SecondIncreasing(tail) && forall q :: q in tail ==> x.1 < q.1
    ensures SecondIncreasing([x] + tail)
  {
    var row := [x] + tail;
    forall a, b | 0 <= a < b < |row| ensures row[a].1 < row[b].1 {
      assert row[b] == tail[b - 1];
      if a > 0 {
        assert row[a] == tail[a - 1];
      } else {
        assert tail[b - 1] in tail;
      }
    }
  }

  /** Every pair in row i of PairRow over 0 .. t-1 from column j on has its second coordinate at least j. */
  lemma PairRowAbove(H: Graph, t: nat, i: nat, j: nat)
    requires WellShaped(H) && i < j <= t
    ensures forall q :: q in PairRow(H, Range(t), i, j) ==> j <= q.1
  {
    PairRowMembers(H, t, i, j);
  }

  /** A row of PairRow over 0 .. t-1 lists its second coordinates in increasing order. */
  lemma {:induction false} PairRowIncreasing(H: Graph, t: nat, i: nat, j: nat)
    requires WellShaped(H) && i < j <= t
    ensures SecondIncreasing(PairRow(H, Range(t), i, j))
    decreases t - j
  {
    if j < t {
      var tail := PairRow(H, Range(t), i, j + 1);
      PairRowIncreasing(H, t, i, j + 1);
      PairRowSplit(H, t, i, j);
      if !IsHEdge(H, i, j) {
        PairRowAbove(H, t, i, j + 1);
        SecondIncreasingCons((i, j), tail);
      }
    }
  }

  /**
   * The pairs generateAllPairs emits over the vertices 0 .. t-1 from row i
   * on: exactly the pairs u < v, u >= i, that are not H-edges.
   */
  lemma {:induction false} PairsFromMembers(H: Graph, t: nat, i: nat)
    requires WellShaped(H) && i <= t
    ensures forall p :: p in PairsFrom(H, Range(t), i) <==> i <= p.0 < p.1 < t && !IsHEdge(H, p.0, p.1)
    decreases t - i
  {
    if i < t {
      PairsFromMembers(H, t, i + 1);
      PairRowMembers(H, t, i, i + 1);
    }
  }

  /** Each of those pairs is emitted once. */
  lemma {:induction false} PairsFromNoDup(H: Graph, t: nat, i: nat)
    requires WellShaped(H) && i <= t
    ensures NoDup(PairsFrom(H, Range(t), i))
    decreases t - i
  {
    if i < t {
      PairsFromNoDup(H, t, i + 1);
      PairsFromMembers(H, t, i + 1);
      PairRowFacts(H, t, i, i + 1);
      NoDupAppend(PairRow(H, Range(t), i, i + 1), PairsFrom(H, Range(t), i + 1));
    }
  }

  /** There are at most (t-i)(t-i-1)/2 of them. */
  lemma {:induction false} PairsFromCount(H: Graph, t: nat, i: nat)
    requires WellShaped(H) && i <= t
    ensures 2 * |PairsFrom(H, Range(t), i)| <= (t - i) * (t - i - 1)
    decreases t - i
  {
    if i < t {
      PairsFromCount(H, t, i + 1);
      PairRowMembers(H, t, i, i + 1);
      TriangleStep(|PairRow(H, Range(t), i, i + 1)|, |PairsFrom(H, Range(t), i + 1)|, t - i - 1);
    }
  }

  /** A row of at most k pairs on top of at most k(k-1)/2 pairs stays within (k+1)k/2. */
  lemma TriangleStep(a: nat, b: nat, k: nat)
    requires a <= k && 2 * b <= k * (k - 1)
    ensures 2 * (a + b) <= (k + 1) * k
  {
    assert (k + 1) * k == 2 * k + k * (k - 1);
  }

  /**
   * The candidate pairs for kv new vertices: exactly the pairs u < v of
   * vertices of the grown graph that are not H-edges, each listed once, no
   * more of them than total(total-1)/2 for total = H.n + kv.
   */
  lemma CandidatePairsFacts(H: Graph, kv: nat)
    requires WellShaped(H)
    ensures forall p :: p in CandidatePairs(H, kv) <==> 0 <= p.0 < p.1 < H.n + kv && !IsHEdge(H, p.0, p.1)
    ensures NoDup(CandidatePairs(H, kv)) && NoLoops(CandidatePairs(H, kv))
    ensures 2 * |CandidatePairs(H, kv)| <= (H.n + kv) * (H.n + kv - 1)
  {
    PairsFromMembers(H, H.n + kv, 0);
    PairsFromNoDup(H, H.n + kv, 0);
    PairsFromCount(H, H.n + kv, 0);
    var P := CandidatePairs(H, kv);
    forall t | 0 <= t < |P| ensures P[t].0 != P[t].1 {
      assert P[t] in P;
    }
  }

  // ---------------------------------------------------------------------
  // combEdges
  // ---------------------------------------------------------------------

  /** Strictly increasing indices. */
  ghost predicate Increasing(c: seq<int>) {
    forall a, b :: 0 <= a < b < |c| ==> c[a] < c[b]
  }

  /** `c` picks `k` indices of [s, n) in increasing order: one size-k subset. */
  ghost predicate IsComb(c: seq<int>, n: nat, k: nat, s: nat) {
    |c| == k && Increasing(c) && forall t :: 0 <= t < |c| ==> s <= c[t] < n
  }

  ghost function Prepend(i: int, cs: seq<seq<int>>): seq<seq<int>> {
    seq(|cs|, t requires 0 <= t < |cs| => [i] + cs[t])
  }

  /**
   * The index sequences combEdges visits for `k` more picks from [s, n), in
   * the order it visits them.
   */
  ghost function Combs(n: nat, k: nat, s: nat): seq<seq<int>>
    requires s <= n
    decreases k, n - s + 1
  {
    if k == 0 then [[]] else CombsFrom(n, k, s)
  }

  /** The part of Combs(n, k, _) whose first pick is `i` or later. */
  ghost function CombsFrom(n: nat, k: nat, i: nat): seq<seq<int>>
    requires 0 < k && i <= n
    decreases k, n - i
  {
    if i == n then [] else Prepend(i, Combs(n, k - 1, i + 1)) + CombsFrom(n, k, i + 1)
  }

  /** combEdges only visits size-k subsets of [s, n), each as its increasing list of indices. */
  lemma {:induction false} CombsSound(n: nat, k: nat, s: nat)
    requires s <= n
    ensures forall c :: c in Combs(n, k, s) ==> IsComb(c, n, k, s)
    decreases k, n - s + 1
  {
    if k > 0 {
      CombsFromSound(n, k, s);
    }
  }

  lemma {:induction false} CombsFromSound(n: nat, k: nat, i: nat)
    requires 0 < k && i <= n
    ensures forall c :: c in CombsFrom(n, k, i) ==> IsComb(c, n, k, i)
    decreases k, n - i
  {
    if i < n {
      var first := Combs(n, k - 1, i + 1);
      var here := Prepend(i, first);
      var rest := CombsFrom(n, k, i + 1);
      CombsSound(n, k - 1, i + 1);
      CombsFromSound(n, k, i + 1);
      forall c | c in here + rest ensures IsComb(c, n, k, i) {
        if c in here {
          var t :| 0 <= t < |here| && here[t] == c;
          assert first[t] in first;
        } else {
          assert IsComb(c, n, k, i + 1);
        }
      }
    }
  }

  /** combEdges visits every size-k subset: each increasing choice of k indices is among its visits. */
  lemma {:induction false} CombsComplete(n: nat, k: nat, s: nat, c: seq<int>)
    requires s <= n && IsComb(c, n, k, s)
    ensures c in Combs(n, k, s)
    decreases k, n - s + 1
  {
    if k > 0 {
      CombsFromComplete(n, k, s, c);
    }
  }

  lemma {:induction false} CombsFromComplete(n: nat, k: nat, i: nat, c: seq<int>)
    requires 0 < k && i <= n && IsComb(c, n, k, i)
    ensures c in CombsFrom(n, k, i)
    decreases k, n - i
  {
    if c[0] == i {
      var c' := c[1..];
      assert IsComb(c', n, k - 1, i + 1);
      CombsComplete(n, k - 1, i + 1, c');
      var first := Combs(n, k - 1, i + 1);
      var t :| 0 <= t < |first| && first[t] == c';
      assert c == [i] + c';
      assert Prepend(i, first)[t] == c;
    } else {
      assert IsComb(c, n, k, i + 1);
      CombsFromComplete(n, k, i + 1, c);
    }
  }

  /** combEdges visits each subset only once. */
  lemma {:induction false} CombsNoDup(n: nat, k: nat, s: nat)
    requires s <= n
    ensures NoDup(Combs(n, k, s))
    decreases k, n - s + 1
  {
    if k > 0 {
      CombsFromNoDup(n, k, s);
    }
  }

  lemma {:induction false} CombsFromNoDup(n: nat, k: nat, i: nat)
    requires 0 < k && i <= n
    ensures NoDup(CombsFrom(n, k, i))
    decreases k, n - i
  {
    if i < n {
      var first := Combs(n, k - 1, i + 1);
      var here := Prepend(i, first);
      var rest := CombsFrom(n, k, i + 1);
      CombsNoDup(n, k - 1, i + 1);
      CombsFromNoDup(n, k, i + 1);
      CombsFromSound(n, k, i + 1);
      forall a, b | 0 <= a < b < |here| ensures here[a] != here[b] {
        assert here[a][1..] == first[a] && here[b][1..] == first[b];
      }
      forall c | c in here ensures c !in rest {
        var t :| 0 <= t < |here| && here[t] == c;
        assert c[0] == i;
      }
      NoDupAppend(here, rest);
    }
  }

  /** No increasing choice of more indices than the range holds. */
  lemma {:induction false} CombsTooMany(n: nat, k: nat, s: nat, c: seq<int>)
    requires s <= n && IsComb(c, n, k, s)
    ensures k <= n - s
    decreases k
  {
    if k > 0 {
      assert IsComb(c[1..], n, k - 1, c[0] + 1);
      CombsTooMany(n, k - 1, c[0] + 1, c[1..]);
    }
  }

  /** The pairs at the chosen indices. */
  ghost function Pick(edges: seq<(int, int)>, c: seq<int>): seq<(int, int)>
    requires forall t :: 0 <= t < |c| ==> 0 <= c[t] < |edges|
  {
    seq(|c|, t requires 0 <= t < |c| => edges[c[t]])
  }

  ghost function Cons(p: (int, int), ess: seq<seq<(int, int)>>): seq<seq<(int, int)>> {
    seq(|ess|, t requires 0 <= t < |ess| => [p] + ess[t])
  }

  /**
   * The pair lists combEdges writes into curr for `k` more picks among
   * edges[s..n], in the order it tries them.
   */
  ghost function Choices(edges: seq<(int, int)>, n: nat, k: nat, s: nat): seq<seq<(int, int)>>
    requires s <= n <= |edges|
    decreases k, n - s + 1
  {
    if k == 0 then [[]] else ChoicesFrom(edges, n, k, s)
  }

  /** The part of Choices(edges, n, k, _) whose first pick is edges[i] or later. */
  ghost function ChoicesFrom(edges: seq<(int, int)>, n: nat, k: nat, i: nat): seq<seq<(int, int)>>
    requires 0 < k && i <= n <= |edges|
    decreases k, n - i
  {
    if i == n then [] else Cons(edges[i], Choices(edges, n, k - 1, i + 1)) + ChoicesFrom(edges, n, k, i + 1)
  }

  /** `e` is the list of the pairs at the indices `c`. */
  ghost predicate PicksAt(edges: seq<(int, int)>, e: seq<(int, int)>, c: seq<int>) {
    && (forall u :: 0 <= u < |c| ==> 0 <= c[u] < |edges|)
    && e == Pick(edges, c)
  }

  /** Each pair list of E is the list of the pairs at the matching index choice of C. */
  ghost predicate Picks(edges: seq<(int, int)>, E: seq<seq<(int, int)>>, C: seq<seq<int>>) {
    |E| == |C| && forall t :: 0 <= t < |C| ==> PicksAt(edges, E[t], C[t])
  }

  lemma PicksAppend(edges: seq<(int, int)>, E1: seq<seq<(int, int)>>, C1: seq<seq<int>>,
                    E2: seq<seq<(int, int)>>, C2: seq<seq<int>>)
    requires Picks(edges, E1, C1) && Picks(edges, E2, C2)
    ensures Picks(edges, E1 + E2, C1 + C2)
  {
    var E := E1 + E2;
    var C := C1 + C2;
    forall t | 0 <= t < |C| ensures PicksAt(edges, E[t], C[t]) {
      if t >= |C1| {
        assert PicksAt(edges, E2[t - |C1|], C2[t - |C1|]);
      }
    }
  }

  lemma PicksCons(edges: seq<(int, int)>, i: nat, E: seq<seq<(int, int)>>, C: seq<seq<int>>)
    requires i < |edges| && Picks(edges, E, C)
    ensures Picks(edges, Cons(edges[i], E), Prepend(i, C))
  {
    forall t | 0 <= t < |C| ensures PicksAt(edges, Cons(edges[i], E)[t], Prepend(i, C)[t]) {
      assert PicksAt(edges, E[t], C[t]);
      assert Cons(edges[i], E)[t] == [edges[i]] + E[t];
      assert Prepend(i, C)[t] == [i] + C[t];
    }
  }

  /** The pair lists combEdges tries are the pairs at the index choices of Combs, in the same order. */
  lemma {:induction false} ChoicesArePicks(edges: seq<(int, int)>, n: nat, k: nat, s: nat)
    requires s <= n <= |edges|
    ensures Picks(edges, Choices(edges, n, k, s), Combs(n, k, s))
    decreases k, n - s + 1
  {
    if k == 0 {
      assert PicksAt(edges, [], []);
    } else {
      ChoicesFromArePicks(edges, n, k, s);
    }
  }

  lemma {:induction false} ChoicesFromArePicks(edges: seq<(int, int)>, n: nat, k: nat, i: nat)
    requires 0 < k && i <= n <= |edges|
    ensures Picks(edges, ChoicesFrom(edges, n, k, i), CombsFrom(n, k, i))
    decreases k, n - i
  {
    if i < n {
      ChoicesArePicks(edges, n, k - 1, i + 1);
      ChoicesFromArePicks(edges, n, k, i + 1);
      PicksCons(edges, i, Choices(edges, n, k - 1, i + 1), Combs(n, k - 1, i + 1));
      PicksAppend(edges, Cons(edges[i], Choices(edges, n, k - 1, i + 1)), Prepend(i, Combs(n, k - 1, i + 1)),
                  ChoicesFrom(edges, n, k, i + 1), CombsFrom(n, k, i + 1));
    }
  }

  /**
   * The first pair list in `cs` (after the pairs `prefix` already chosen)
   * for which the oracle accepts G in the grown H, as the extension combEdges
   * returns; nothing if the oracle rejects them all.
   */
  ghost function FirstWith(G: Graph, H: Graph, kv: nat, newV: seq<int>,
                           prefix: seq<(int, int)>, cs: seq<seq<(int, int)>>): Option<Extension>
    requires WellShaped(G) && WellShaped(H)
    decreases |cs|
  {
    if cs == [] then None
    else
      var es := prefix + cs[0];
      if SubIso(G, Candidate(H, kv, es)) then Some(Extension(newV, es))
      else FirstWith(G, H, kv, newV, prefix, cs[1..])
  }

  lemma {:induction false} FirstWithAppend(G: Graph, H: Graph, kv: nat, newV: seq<int>,
                                           prefix: seq<(int, int)>, x: seq<seq<(int, int)>>, y: seq<seq<(int, int)>>)
    requires WellShaped(G) && WellShaped(H)
    ensures FirstWith(G, H, kv, newV, prefix, x + y)
         == match FirstWith(G, H, kv, newV, prefix, x)
            case Some(e) => Some(e)
            case None => FirstWith(G, H, kv, newV, prefix, y)
    decreases |x|
  {
    if x != [] {
      assert (x + y)[0] == x[0] && (x + y)[1..] == x[1..] + y;
      FirstWithAppend(G, H, kv, newV, prefix, x[1..], y);
    } else {
      assert x + y == y;
    }
  }

  lemma {:induction false} FirstWithCons(G: Graph, H: Graph, kv: nat, newV: seq<int>,
                                         prefix: seq<(int, int)>, p: (int, int), cs: seq<seq<(int, int)>>)
    requires WellShaped(G) && WellShaped(H)
    ensures FirstWith(G, H, kv, newV, prefix, Cons(p, cs)) == FirstWith(G, H, kv, newV, prefix + [p], cs)
    decreases |cs|
  {
    if cs != [] {
      var P := Cons(p, cs);
      assert P[1..] == Cons(p, cs[1..]);
      assert prefix + P[0] == (prefix + [p]) + cs[0];
      FirstWithCons(G, H, kv, newV, prefix, p, cs[1..]);
    }
  }

  /** A found extension comes from one of the pair lists, which the oracle accepts. */
  lemma {:induction false} FirstWithSome(G: Graph, H: Graph, kv: nat, newV: seq<int>,
                                         prefix: seq<(int, int)>, cs: seq<seq<(int, int)>>)
    requires WellShaped(G) && WellShaped(H) && FirstWith(G, H, kv, newV, prefix, cs).Some?
    ensures exists es :: es in cs
              && FirstWith(G, H, kv, newV, prefix, cs).value == Extension(newV, prefix + es)
              && SubIso(G, Candidate(H, kv, prefix + es))
    decreases |cs|
  {
    if !SubIso(G, Candidate(H, kv, prefix + cs[0])) {
      FirstWithSome(G, H, kv, newV, prefix, cs[1..]);
      var es :| es in cs[1..]
              && FirstWith(G, H, kv, newV, prefix, cs[1..]).value == Extension(newV, prefix + es)
              && SubIso(G, Candidate(H, kv, prefix + es));
      assert es in cs;
    } else {
      assert cs[0] in cs;
    }
  }

  /** When nothing is found, the oracle rejected every pair list. */
  lemma {:induction false} FirstWithNone(G: Graph, H: Graph, kv: nat, newV: seq<int>,
                                         prefix: seq<(int, int)>, cs: seq<seq<(int, int)>>, es: seq<(int, int)>)
    requires WellShaped(G) && WellShaped(H)
    requires FirstWith(G, H, kv, newV, prefix, cs).None? && es in cs
    ensures !SubIso(G, Candidate(H, kv, prefix + es))
    decreases |cs|
  {
    if es != cs[0] {
      assert es in cs[1..];
      FirstWithNone(G, H, kv, newV, prefix, cs[1..], es);
    }
  }

  /**
   * The choices from edges[i] on: those starting with edges[i] first, then
   * the rest. `r` is what the first group yields.
   */
  lemma FirstWithStep(G: Graph, H: Graph, kv: nat, newV: seq<int>, edges: seq<(int, int)>,
                      prefix: seq<(int, int)>, n: nat, k: nat, i: nat, r: Option<Extension>)
    requires WellShaped(G) && WellShaped(H) && 0 < k && i < n <= |edges|
    requires r == FirstWith(G, H, kv, newV, prefix + [edges[i]], Choices(edges, n, k - 1, i + 1))
    ensures r.Some? ==> FirstWith(G, H, kv, newV, prefix, ChoicesFrom(edges, n, k, i)) == r
    ensures r.None? ==>
              FirstWith(G, H, kv, newV, prefix, ChoicesFrom(edges, n, k, i))
              == FirstWith(G, H, kv, newV, prefix, ChoicesFrom(edges, n, k, i + 1))
  {
    var first := Choices(edges, n, k - 1, i + 1);
    FirstWithCons(G, H, kv, newV, prefix, edges[i], first);
    FirstWithAppend(G, H, kv, newV, prefix, Cons(edges[i], first), ChoicesFrom(edges, n, k, i + 1));
  }

  /** With nothing left to choose, the only choice is the empty one. */
  lemma FirstWithLeaf(G: Graph, H: Graph, kv: nat, newV: seq<int>, edges: seq<(int, int)>,
                      prefix: seq<(int, int)>, n: nat, s: nat)
    requires WellShaped(G) && WellShaped(H) && s <= n <= |edges|
    ensures FirstWith(G, H, kv, newV, prefix, Choices(edges, n, 0, s))
         == if SubIso(G, Candidate(H, kv, prefix)) then Some(Extension(newV, prefix)) else None
  {
    var cs := Choices(edges, n, 0, s);
    assert cs == [[]] && cs[0] == [] && cs[1..] == [];
    assert prefix + cs[0] == prefix;
  }

  /** Past the last index there is nothing to choose. */
  lemma FirstWithEnd(G: Graph, H: Graph, kv: nat, newV: seq<int>, edges: seq<(int, int)>,
                     prefix: seq<(int, int)>, n: nat, k: nat)
    requires WellShaped(G) && WellShaped(H) && 0 < k && n <= |edges|
    ensures FirstWith(G, H, kv, newV, prefix, ChoicesFrom(edges, n, k, n)) == None
  {
  }

  /**
   * combEdges: extends the `depth` pairs chosen so far by every increasing
   * choice of the remaining k - depth indices from `start` on, and stops at
   * the first choice the oracle accepts.
   */
  method CombEdges(G: Graph, H: Graph, edges: seq<(int, int)>, n: nat, k: nat, start: nat, depth: nat,
                   curr: seq<(int, int)>, newVertices: seq<int>, kv: nat) returns (result: Option<Extension>)
    requires WellShaped(G) && WellShaped(H)
    requires n <= |edges| && start <= n && depth <= k && |curr| == depth && kv <= |newVertices|
    ensures result == FirstWith(G, H, kv, newVertices[..kv], curr, Choices(edges, n, k - depth, start))
    decreases k - depth
  {
    ghost var newV := newVertices[..kv];
    if depth == k {
      result := TryExtension(G, H, newVertices, kv, curr, k);
      assert curr[..k] == curr;
      FirstWithLeaf(G, H, kv, newV, edges, curr, n, start);
      return;
    }
    ghost var rest := k - depth;
    ghost var all := FirstWith(G, H, kv, newV, curr, ChoicesFrom(edges, n, rest, start));
    assert all == FirstWith(G, H, kv, newV, curr, Choices(edges, n, rest, start));
    result := None;
    for i := start to n
      invariant result == None
      invariant all == FirstWith(G, H, kv, newV, curr, ChoicesFrom(edges, n, rest, i))
    {
      var next := curr + [edges[i]];
      result := CombEdges(G, H, edges, n, k, i + 1, depth + 1, next, newVertices, kv);
      assert k - (depth + 1) == rest - 1;
      FirstWithStep(G, H, kv, newV, edges, curr, n, rest, i, result);
      if result.Some? {
        return;
      }
    }
    FirstWithEnd(G, H, kv, newV, edges, curr, n, rest);
  }

  // ---------------------------------------------------------------------
  // tryKVKE, findExtension, exactMinimalExtension
  // ---------------------------------------------------------------------

  /**
   * What tryKVKE yields for kv new vertices and ke new edges: nothing when ke
   * exceeds G's edge count; for ke = 0 the plain clone, if the oracle accepts
   * it; otherwise the first accepted choice of ke candidate pairs, or nothing
   * when there are fewer than ke candidate pairs.
   */
  ghost function KVKE(G: Graph, H: Graph, kv: nat, ke: nat): Option<Extension>
    requires WellShaped(G) && WellShaped(H)
  {
    if ke > G.m then None
    else
      var newV := NewVertices(H.n, kv);
      var pairs := CandidatePairs(H, kv);
      if ke == 0 then (if SubIso(G, Candidate(H, kv, [])) then Some(Extension(newV, [])) else None)
      else if ke <= |pairs| then FirstWith(G, H, kv, newV, [], Choices(pairs, |pairs|, ke, 0))
      else None
  }

  /**
   * The two vertex lists of tryKVKE: the new vertices hn .. hn+kv-1, and all
   * the vertices 0 .. hn+kv-1 of the grown graph.
   */
  method VertexLists(hn: nat, kv: nat) returns (newVertices: seq<int>, allVertices: seq<int>)
    ensures newVertices == NewVertices(hn, kv) && allVertices == Range(hn + kv)
  {
    newVertices := [];
    for i := 0 to kv
      invariant newVertices == NewVertices(hn, i)
    {
      newVertices := newVertices + [hn + i];
    }
    allVertices := [];
    for i := 0 to hn
      invariant allVertices == Range(i)
    {
      allVertices := allVertices + [i];
    }
    for i := 0 to kv
      invariant allVertices == Range(hn + i)
    {
      allVertices := allVertices + [hn + i];
    }
  }

  /** tryKVKE: the search for an extension with exactly kv new vertices and ke new edges. */
  method TryKVKE(G: Graph, H: Graph, kv: nat, ke: nat) returns (result: Option<Extension>)
    requires WellShaped(G) && WellShaped(H)
    ensures result == KVKE(G, H, kv, ke)
  {
    if ke > G.m {
      return None;
    }
    var newVertices, allVertices := VertexLists(H.n, kv);
    var totalV := H.n + kv;
    var edges, edgeCount := GenerateAllPairs(H, allVertices, totalV);
    assert newVertices[..kv] == newVertices;
    if ke == 0 {
      result := TryExtension(G, H, newVertices, kv, [], 0);
      assert [][..0] == [] + Pick(edges, []);
    } else if ke <= edgeCount {
      result := CombEdges(G, H, edges, edgeCount, ke, 0, 0, [], newVertices, kv);
    } else {
      result := None;
    }
  }

  /** The fewest new vertices findExtension tries: how many more vertices G has than H. */
  function MinNew(G: Graph, H: Graph): (k: nat)
    ensures H.n + k >= G.n
  {
    if G.n > H.n then G.n - H.n else 0
  }

  /** The loop of findExtension from kv on, for a total budget `maxSize`. */
  ghost function FindFrom(G: Graph, H: Graph, maxSize: nat, kv: nat): Option<Extension>
    requires WellShaped(G) && WellShaped(H)
    decreases if kv <= maxSize then maxSize - kv + 1 else 0
  {
    if kv > maxSize then None
    else
      match KVKE(G, H, kv, maxSize - kv)
      case Some(e) => Some(e)
      case None => FindFrom(G, H, maxSize, kv + 1)
  }

  /** What findExtension yields for the budget `maxSize`. */
  ghost function Find(G: Graph, H: Graph, maxSize: nat): Option<Extension>
    requires WellShaped(G) && WellShaped(H)
  {
    FindFrom(G, H, maxSize, MinNew(G, H))
  }

  /** findExtension: kv from the minimum up to the budget, ke the rest of the budget. */
  method FindExtension(G: Graph, H: Graph, maxSize: nat) returns (ext: Option<Extension>)
    requires WellShaped(G) && WellShaped(H)
    ensures ext == Find(G, H, maxSize)
  {
    var kv := MinNew(G, H);
    while kv <= maxSize
      invariant MinNew(G, H) <= kv
      invariant Find(G, H, maxSize) == FindFrom(G, H, maxSize, kv)
      decreases maxSize - kv + 1
    {
      var ke := maxSize - kv;
      ext := TryKVKE(G, H, kv, ke);
      if ext.Some? {
        return;
      }
      kv := kv + 1;
    }
    return None;
  }

  /** The size of an extension: new vertices plus new edges. */
  function Size(e: Extension): nat {
    |e.newVertices| + |e.newEdges|
  }

  /**
   * exactMinimalExtension: tries the budgets 0 .. G.n + G.m in increasing
   * order and returns the first extension found. So the result has the least
   * budget for which findExtension succeeds, and nothing is returned only
   * when every budget in that range fails.
   */
  method ExactMinimalExtension(G: Graph, H: Graph) returns (ext: Option<Extension>)
    requires WellShaped(G) && WellShaped(H)
    ensures ext.None? <==> forall k :: 0 <= k <= G.n + G.m ==> Find(G, H, k).None?
    ensures ext.Some? ==>
              && Size(ext.value) <= G.n + G.m
              && ext == Find(G, H, Size(ext.value))
              && forall k :: 0 <= k < Size(ext.value) ==> Find(G, H, k).None?
  {
    var maxSize := G.n + G.m;
    for k := 0 to maxSize + 1
      invariant forall k' :: 0 <= k' < k ==> Find(G, H, k').None?
    {
      ext := FindExtension(G, H, k);
      if ext.Some? {
        FindShape(G, H, k, MinNew(G, H));
        return;
      }
    }
    return None;
  }

  // ---------------------------------------------------------------------
  // What a returned extension looks like
  // ---------------------------------------------------------------------

  /**
   * An extension tryKVKE returns: its new vertices are H.n .. H.n+kv-1, it
   * has ke new edges, ke is at most G's edge count, the new edges are
   * distinct pairs u < v of the grown graph that are not H-edges, and the
   * oracle accepts G in H grown by them.
   */
  lemma KVKEShape(G: Graph, H: Graph, kv: nat, ke: nat)
    requires WellShaped(G) && WellShaped(H) && KVKE(G, H, kv, ke).Some?
    ensures var e := KVKE(G, H, kv, ke).value;
            && e.newVertices == NewVertices(H.n, kv)
            && |e.newEdges| == ke && ke <= G.m
            && NoDup(e.newEdges)
            && (forall p :: p in e.newEdges ==> 0 <= p.0 < p.1 < H.n + kv && !IsHEdge(H, p.0, p.1))
            && SubIso(G, Candidate(H, kv, e.newEdges))
  {
    var pairs := CandidatePairs(H, kv);
    var newV := NewVertices(H.n, kv);
    if ke > 0 {
      var cs := Choices(pairs, |pairs|, ke, 0);
      FirstWithSome(G, H, kv, newV, [], cs);
      var es :| es in cs
              && KVKE(G, H, kv, ke).value == Extension(newV, [] + es)
              && SubIso(G, Candidate(H, kv, [] + es));
      assert [] + es == es;
      PickedShape(H, kv, ke, es);
    }
  }

  /** A pair list tryKVKE tries: ke distinct candidate pairs. */
  lemma PickedShape(H: Graph, kv: nat, ke: nat, es: seq<(int, int)>)
    requires WellShaped(H) && ke <= |CandidatePairs(H, kv)|
    requires es in Choices(CandidatePairs(H, kv), |CandidatePairs(H, kv)|, ke, 0)
    ensures |es| == ke && NoDup(es)
    ensures forall p :: p in es ==> 0 <= p.0 < p.1 < H.n + kv && !IsHEdge(H, p.0, p.1)
  {
    var pairs := CandidatePairs(H, kv);
    var cs := Choices(pairs, |pairs|, ke, 0);
    ChoicesArePicks(pairs, |pairs|, ke, 0);
    CombsSound(|pairs|, ke, 0);
    CandidatePairsFacts(H, kv);
    var t :| 0 <= t < |cs| && cs[t] == es;
    var c := Combs(|pairs|, ke, 0)[t];
    assert c in Combs(|pairs|, ke, 0);
    assert PicksAt(pairs, es, c);
    forall p | p in es ensures 0 <= p.0 < p.1 < H.n + kv && !IsHEdge(H, p.0, p.1) {
      var u :| 0 <= u < |es| && es[u] == p;
      assert pairs[c[u]] in pairs;
    }
    forall a, b | 0 <= a < b < |es| ensures es[a] != es[b] {
      assert c[a] < c[b];
    }
  }

  /**
   * An extension findExtension returns for the budget maxSize uses exactly
   * that budget, with at least the minimum number of new vertices, and is
   * what tryKVKE returns for its own split.
   */
  lemma {:induction false} FindShape(G: Graph, H: Graph, maxSize: nat, kv: nat)
    requires WellShaped(G) && WellShaped(H) && FindFrom(G, H, maxSize, kv).Some?
    ensures var e := FindFrom(G, H, maxSize, kv).value;
            && Size(e) == maxSize
            && kv <= |e.newVertices|
            && KVKE(G, H, |e.newVertices|, |e.newEdges|) == Some(e)
    decreases if kv <= maxSize then maxSize - kv + 1 else 0
  {
    if KVKE(G, H, kv, maxSize - kv).Some? {
      KVKEShape(G, H, kv, maxSize - kv);
    } else {
      FindShape(G, H, maxSize, kv + 1);
    }
  }

  /**
   * Minimality relative to the oracle: when findExtension fails for a budget,
   * the oracle rejects every way of spending it, that is, every split with at
   * least the minimum number of new vertices and at most G.m new edges, and
   * every choice of that many candidate pairs.
   */
  lemma BudgetRejected(G: Graph, H: Graph, kv: nat, ke: nat, c: seq<int>)
    requires WellShaped(G) && WellShaped(H)
    requires Find(G, H, kv + ke).None? && MinNew(G, H) <= kv && ke <= G.m
    requires c in Combs(|CandidatePairs(H, kv)|, ke, 0)
    ensures forall t :: 0 <= t < |c| ==> 0 <= c[t] < |CandidatePairs(H, kv)|
    ensures !SubIso(G, Candidate(H, kv, Pick(CandidatePairs(H, kv), c)))
  {
    FindFromNone(G, H, kv + ke, MinNew(G, H), kv);
    KVKERejects(G, H, kv, ke, c);
  }

  /** When tryKVKE fails, the oracle rejected every choice of ke candidate pairs. */
  lemma KVKERejects(G: Graph, H: Graph, kv: nat, ke: nat, c: seq<int>)
    requires WellShaped(G) && WellShaped(H)
    requires KVKE(G, H, kv, ke).None? && ke <= G.m
    requires c in Combs(|CandidatePairs(H, kv)|, ke, 0)
    ensures forall t :: 0 <= t < |c| ==> 0 <= c[t] < |CandidatePairs(H, kv)|
    ensures !SubIso(G, Candidate(H, kv, Pick(CandidatePairs(H, kv), c)))
  {
    var pairs := CandidatePairs(H, kv);
    CombsSound(|pairs|, ke, 0);
    assert IsComb(c, |pairs|, ke, 0);
    if ke == 0 {
      assert c == [] && Pick(pairs, c) == [];
    } else if ke <= |pairs| {
      var cs := Choices(pairs, |pairs|, ke, 0);
      ChoicesArePicks(pairs, |pairs|, ke, 0);
      var t :| 0 <= t < |Combs(|pairs|, ke, 0)| && Combs(|pairs|, ke, 0)[t] == c;
      assert PicksAt(pairs, cs[t], c);
      assert cs[t] in cs;
      FirstWithNone(G, H, kv, NewVertices(H.n, kv), [], cs, cs[t]);
      assert [] + cs[t] == Pick(pairs, c);
    } else {
      CombsTooMany(|pairs|, ke, 0, c);
    }
  }

  /** A failed findExtension loop failed for every split it tried. */
  lemma {:induction false} FindFromNone(G: Graph, H: Graph, maxSize: nat, kv: nat, kv': nat)
    requires WellShaped(G) && WellShaped(H)
    requires FindFrom(G, H, maxSize, kv).None? && kv <= kv' <= maxSize
    ensures KVKE(G, H, kv', maxSize - kv').None?
    decreases kv' - kv
  {
    if kv < kv' {
      FindFromNone(G, H, maxSize, kv + 1, kv');
    }
  }
}
