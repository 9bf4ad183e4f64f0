/**
 * The greedy extension heuristic (gmext.c): maps the vertices of the pattern
 * G, in non-increasing degree order, one by one onto the unused H-vertex with
 * the best score, or onto a new vertex H.n, H.n+1, ... once H is exhausted,
 * and then counts the G-edges whose images are not H-edges. The cost is the
 * number of new vertices plus the number of such edges.
 *
 * The heuristic is specified by `Run`, which replays the mapping phase on
 * values for a given processing order; the imperative `GreedyExtension`
 * sorts, maps and counts over arrays and is proved to agree with it. The
 * properties of the mapping (injective, images used exactly once, new
 * vertices only after H is exhausted) are proved about `Run`.
 */
module Greedy {
  import opened Graphs

  // ---------------------------------------------------------------------
  // compareVertices
  // ---------------------------------------------------------------------

  /** One entry of sorted_G: a G-vertex and its degree. */
  datatype VertexInfo = VertexInfo(id: int, degree: int)

  /**
   * compareVertices: negative when `a` has the larger degree, so that the
   * sort puts higher degrees first.
   */
  function Compare(a: VertexInfo, b: VertexInfo): (r: int)
    ensures r < 0 <==> a.degree > b.degree
    ensures r == 0 <==> a.degree == b.degree
    ensures r > 0 <==> a.degree < b.degree
  {
    b.degree - a.degree
  }

  // ---------------------------------------------------------------------
  // Phase 1: sorting the G-vertices by degree
  // ---------------------------------------------------------------------

  /** sorted_G before the sort: entry i is vertex i with its degree. */
  function Infos(G: Graph): (s: seq<VertexInfo>)
    requires |G.adj| == G.n
    ensures |s| == G.n
    ensures forall i :: 0 <= i < G.n ==> s[i] == VertexInfo(i, |G.adj[i]|)
  {
    seq(G.n, i requires 0 <= i < G.n => VertexInfo(i, |G.adj[i]|))
  }

  /** The ids of a sequence of entries, in order. */
  function Ids(s: seq<VertexInfo>): (ids: seq<int>)
    ensures |ids| == |s|
    ensures forall k :: 0 <= k < |s| ==> ids[k] == s[k].id
  {
    if s == [] then [] else Ids(s[..|s| - 1]) + [s[|s| - 1].id]
  }

  /** No entry has a smaller degree than an entry after it. */
  ghost predicate DegreesDescending(s: seq<VertexInfo>) {
    forall x, y :: 0 <= x < y < |s| ==> s[x].degree >= s[y].degree
  }

  /**
   * qsort(sorted_G, G->n, sizeof(VertexInfo), compareVertices), as an
   * insertion sort driven by the same comparator: the entries are permuted
   * into non-increasing degree order.
   */
  method SortByDegree(a: array<VertexInfo>)
    modifies a
    ensures DegreesDescending(a[..])
    ensures multiset(a[..]) == multiset(old(a[..]))
  {
    for i := 0 to a.Length
      invariant forall x, y :: 0 <= x < y < i ==> a[x].degree >= a[y].degree
      invariant multiset(a[..]) == multiset(old(a[..]))
    {
      Insert(a, i);
    }
  }

  /**
   * One pass of the sort: moves a[i] left past every entry of smaller degree,
   * so that a[..i+1] is in non-increasing degree order when a[..i] was.
   */
  method Insert(a: array<VertexInfo>, i: nat)
    requires i < a.Length
    requires forall x, y :: 0 <= x < y < i ==> a[x].degree >= a[y].degree
    modifies a
    ensures forall x, y :: 0 <= x < y <= i ==> a[x].degree >= a[y].degree
    ensures multiset(a[..]) == multiset(old(a[..]))
  {
    var j := i;
    while j > 0 && Compare(a[j - 1], a[j]) > 0
      invariant 0 <= j <= i
      invariant SortedBut(a[..], i, j) && Larger(a[..], i, j)
      invariant multiset(a[..]) == multiset(old(a[..]))
    {
      ghost var s := a[..];
      a[j - 1], a[j] := a[j], a[j - 1];
      assert a[..] == s[j - 1 := s[j]][j := s[j - 1]];
      SwapDown(s, i, j);
      j := j - 1;
    }
    InsertDone(a[..], i, j);
  }

  /** Apart from position j, s[..i+1] is in non-increasing degree order. */
  ghost predicate SortedBut(s: seq<VertexInfo>, i: nat, j: nat)
    requires i < |s|
  {
    forall x, y :: 0 <= x < y <= i && x != j && y != j ==> s[x].degree >= s[y].degree
  }

  /** The entry at j has a larger degree than every entry after it up to i. */
  ghost predicate Larger(s: seq<VertexInfo>, i: nat, j: nat)
    requires j <= i < |s|
  {
    forall y :: j < y <= i ==> s[j].degree > s[y].degree
  }

  /** Swapping the moving entry with a smaller left neighbour keeps the pass invariant. */
  lemma SwapDown(s: seq<VertexInfo>, i: nat, j: nat)
    requires 0 < j <= i < |s| && SortedBut(s, i, j) && Larger(s, i, j)
    requires s[j - 1].degree < s[j].degree
    ensures var t := s[j - 1 := s[j]][j := s[j - 1]];
            SortedBut(t, i, j - 1) && Larger(t, i, j - 1) && multiset(t) == multiset(s)
  {
  }

  /** When the moving entry stops, s[..i+1] is in order. */
  lemma InsertDone(s: seq<VertexInfo>, i: nat, j: nat)
    requires j <= i < |s| && SortedBut(s, i, j) && Larger(s, i, j)
    requires j == 0 || s[j - 1].degree >= s[j].degree
    ensures forall x, y :: 0 <= x < y <= i ==> s[x].degree >= s[y].degree
  {
  }

  /** An entry that occurs at two positions occurs at least twice in the multiset. */
  lemma Twice<T>(s: seq<T>, a: nat, b: nat)
    requires a < b < |s| && s[a] == s[b]
    ensures multiset(s)[s[a]] >= 2
  {
    assert s == s[..b] + s[b..];
    assert s[a] in s[..b];
    assert s[b] == s[b..][0];
  }

  /** In a sequence without repeated entries every entry occurs at most once. */
  lemma {:induction false} AtMostOnce<T>(s: seq<T>, v: T)
    requires forall a, b :: 0 <= a < b < |s| ==> s[a] != s[b]
    ensures multiset(s)[v] <= 1
  {
    if s != [] {
      var init := s[..|s| - 1];
      assert s == init + [s[|s| - 1]];
      AtMostOnce(init, v);
      if v == s[|s| - 1] {
        assert v !in init;
      }
    }
  }

  /** Every entry of a permutation of Infos(G) is some vertex with its own degree. */
  lemma EntryOf(G: Graph, s: seq<VertexInfo>, k: nat)
    requires |G.adj| == G.n && multiset(s) == multiset(Infos(G)) && k < |s|
    ensures 0 <= s[k].id < G.n && s[k].degree == |G.adj[s[k].id]|
  {
    assert s[k] in multiset(s);
    assert s[k] in Infos(G);
  }

  /**
   * Sorting sorted_G yields a degree order: the ids of a degree-descending
   * permutation of Infos(G) list every G-vertex exactly once, higher degrees first.
   */
  lemma SortedIsDegreeOrder(G: Graph, s: seq<VertexInfo>)
    requires |G.adj| == G.n && multiset(s) == multiset(Infos(G)) && DegreesDescending(s)
    ensures IsDegreeOrder(G, Ids(s))
  {
    var order := Ids(s);
    assert |s| == |multiset(s)| == |Infos(G)| == G.n;
    forall k | 0 <= k < |s| ensures 0 <= order[k] < G.n && s[k].degree == |G.adj[order[k]]| {
      EntryOf(G, s, k);
    }
    forall x | 0 <= x < G.n ensures x in order {
      var e := Infos(G)[x];
      assert e in multiset(Infos(G));
      assert e in s;
      var k :| 0 <= k < |s| && s[k] == e;
      assert order[k] == x;
    }
    forall a, b | 0 <= a < b < |order| ensures order[a] != order[b] {
      if order[a] == order[b] {
        Twice(s, a, b);
        AtMostOnce(Infos(G), s[a]);
      }
    }
  }

  // ---------------------------------------------------------------------
  // compute_extension_score
  // ---------------------------------------------------------------------

  /** Every entry of a mapping is -1 (unmapped) or a vertex index. */
  ghost predicate MapValues(mp: seq<int>) {
    forall x :: 0 <= x < |mp| ==> mp[x] >= -1
  }

  /** How many fewer neighbours v_h has than v_g, or 0. */
  function Deficit(G: Graph, H: Graph, vg: nat, vh: nat): (d: int)
    requires |G.adj| == G.n && |H.adj| == H.n && vg < G.n && vh < H.n
    ensures d >= 0
    ensures d == 0 <==> |G.adj[vg]| <= |H.adj[vh]|
    ensures d > 0 ==> d == |G.adj[vg]| - |H.adj[vh]|
  {
    if |G.adj[vg]| > |H.adj[vh]| then |G.adj[vg]| - |H.adj[vh]| else 0
  }

  /** The image of a mapped G-vertex is an existing H-vertex adjacent to v_h. */
  ghost predicate Rewarded(H: Graph, vh: nat, t: int)
    requires WellShaped(H) && vh < H.n
  {
    0 <= t < H.n && H.matrix[vh][t] != 0
  }

  /**
   * The neighbour part of the score over the first k entries of adj[v_g]:
   * +10 for a mapped neighbour whose image is rewarded, -10 for any other
   * mapped neighbour, nothing for an unmapped one.
   */
  ghost function NeighbourScore(G: Graph, H: Graph, mp: seq<int>, vg: nat, vh: nat, k: nat): int
    requires WellShaped(G) && WellShaped(H) && |mp| == G.n && vg < G.n && vh < H.n
    requires k <= |G.adj[vg]|
  {
    if k == 0 then 0
    else
      var t := mp[G.adj[vg][k - 1]];
      NeighbourScore(G, H, mp, vg, vh, k - 1)
        + (if t == -1 then 0 else if Rewarded(H, vh, t) then 10 else -10)
  }

  /** compute_extension_score: minus the deficit, plus the neighbour part. */
  ghost function Score(G: Graph, H: Graph, mp: seq<int>, vg: nat, vh: nat): int
    requires WellShaped(G) && WellShaped(H) && |mp| == G.n && vg < G.n && vh < H.n
  {
    -Deficit(G, H, vg, vh) + NeighbourScore(G, H, mp, vg, vh, |G.adj[vg]|)
  }

  /** The positions among the first k of adj[v_g] holding a mapped neighbour with a rewarded image. */
  ghost function Rewards(G: Graph, H: Graph, mp: seq<int>, vg: nat, vh: nat, k: nat): set<nat>
    requires WellShaped(G) && WellShaped(H) && |mp| == G.n && vg < G.n && vh < H.n
    requires k <= |G.adj[vg]|
  {
    set i: nat | i < k && mp[G.adj[vg][i]] != -1 && Rewarded(H, vh, mp[G.adj[vg][i]])
  }

  /** The positions among the first k of adj[v_g] holding a mapped neighbour without a rewarded image. */
  ghost function Penalties(G: Graph, H: Graph, mp: seq<int>, vg: nat, vh: nat, k: nat): set<nat>
    requires WellShaped(G) && WellShaped(H) && |mp| == G.n && vg < G.n && vh < H.n
    requires k <= |G.adj[vg]|
  {
    set i: nat | i < k && mp[G.adj[vg][i]] != -1 && !Rewarded(H, vh, mp[G.adj[vg][i]])
  }

  /** The neighbour part is ten times the rewarded minus ten times the penalised neighbours. */
  lemma {:induction false} NeighbourScoreParts(G: Graph, H: Graph, mp: seq<int>, vg: nat, vh: nat, k: nat)
    requires WellShaped(G) && WellShaped(H) && |mp| == G.n && vg < G.n && vh < H.n
    requires k <= |G.adj[vg]|
    ensures NeighbourScore(G, H, mp, vg, vh, k)
         == 10 * |Rewards(G, H, mp, vg, vh, k)| - 10 * |Penalties(G, H, mp, vg, vh, k)|
    ensures |Rewards(G, H, mp, vg, vh, k)| + |Penalties(G, H, mp, vg, vh, k)| <= k
  {
    if k > 0 {
      NeighbourScoreParts(G, H, mp, vg, vh, k - 1);
      var R := Rewards(G, H, mp, vg, vh, k - 1);
      var P := Penalties(G, H, mp, vg, vh, k - 1);
      var t := mp[G.adj[vg][k - 1]];
      var j: nat := k - 1;
      assert j !in R && j !in P;
      if t == -1 {
        assert Rewards(G, H, mp, vg, vh, k) == R;
        assert Penalties(G, H, mp, vg, vh, k) == P;
      } else if Rewarded(H, vh, t) {
        assert Rewards(G, H, mp, vg, vh, k) == R + {j};
        assert Penalties(G, H, mp, vg, vh, k) == P;
      } else {
        assert Rewards(G, H, mp, vg, vh, k) == R;
        assert Penalties(G, H, mp, vg, vh, k) == P + {j};
      }
    }
  }

  /**
   * The score of placing v_g on v_h: minus the degree deficit, +10 per mapped
   * G-neighbour whose image is an existing H-vertex adjacent to v_h, -10 per
   * other mapped G-neighbour; so it lies between -deficit - 10 deg(v_g) and
   * 10 deg(v_g), and is minus the deficit when no neighbour is mapped yet.
   */
  lemma ScoreParts(G: Graph, H: Graph, mp: seq<int>, vg: nat, vh: nat)
    requires WellShaped(G) && WellShaped(H) && |mp| == G.n && vg < G.n && vh < H.n
    ensures Score(G, H, mp, vg, vh)
         == -Deficit(G, H, vg, vh)
            + 10 * |Rewards(G, H, mp, vg, vh, |G.adj[vg]|)| - 10 * |Penalties(G, H, mp, vg, vh, |G.adj[vg]|)|
    ensures -Deficit(G, H, vg, vh) - 10 * |G.adj[vg]| <= Score(G, H, mp, vg, vh) <= 10 * |G.adj[vg]|
    ensures (forall k :: 0 <= k < |G.adj[vg]| ==> mp[G.adj[vg][k]] == -1) ==> Score(G, H, mp, vg, vh) == -Deficit(G, H, vg, vh)
  {
    var k := |G.adj[vg]|;
    NeighbourScoreParts(G, H, mp, vg, vh, k);
    if forall i :: 0 <= i < k ==> mp[G.adj[vg][i]] == -1 {
      assert Rewards(G, H, mp, vg, vh, k) == {};
      assert Penalties(G, H, mp, vg, vh, k) == {};
    }
  }

  /** compute_extension_score. */
  method ComputeExtensionScore(vg: nat, vh: nat, G: Graph, H: Graph, mapping: array<int>) returns (score: int)
    requires WellShaped(G) && WellShaped(H) && mapping.Length == G.n && vg < G.n && vh < H.n
    requires MapValues(mapping[..])
    ensures score == Score(G, H, mapping[..], vg, vh)
  {
    score := 0;
    var degG := |G.adj[vg]|;
    var degH := |H.adj[vh]|;
    var deficit := if degG > degH then degG - degH else 0;
    score := score - deficit;
    for i := 0 to |G.adj[vg]|
      invariant score == -deficit + NeighbourScore(G, H, mapping[..], vg, vh, i)
    {
      var neighbourG := G.adj[vg][i];
      if mapping[neighbourG] != -1 {
        var mappedTarget := mapping[neighbourG];
        assert mappedTarget == mapping[..][neighbourG];
        var edgeExists := 0;
        if mappedTarget < H.n {
          edgeExists := H.matrix[vh][mappedTarget];
        }
        if edgeExists != 0 {
          score := score + 10;
        } else {
          score := score - 10;
        }
      }
    }
  }

  // ---------------------------------------------------------------------
  // Choosing the image of one G-vertex
  // ---------------------------------------------------------------------

  /**
   * The H-vertex the scan over v_h = 0 .. j-1 keeps: the first unused vertex
   * with a strictly higher score than every unused one before it, or -1.
   */
  ghost function Best(G: Graph, H: Graph, mp: seq<int>, used: seq<bool>, vg: nat, j: nat): (b: int)
    requires WellShaped(G) && WellShaped(H) && |mp| == G.n && |used| == H.n && vg < G.n && j <= H.n
    ensures -1 <= b < j
  {
    if j == 0 then -1
    else
      var b := Best(G, H, mp, used, vg, j - 1);
      if used[j - 1] then b
      else if b == -1 || Score(G, H, mp, vg, j - 1) > Score(G, H, mp, vg, b) then j - 1
      else b
  }

  /**
   * The kept vertex is -1 exactly when every H-vertex scanned is used;
   * otherwise it is unused, no unused vertex scores higher, and every unused
   * vertex below it scores strictly lower (ties go to the lowest index).
   */
  lemma {:induction false} BestSpec(G: Graph, H: Graph, mp: seq<int>, used: seq<bool>, vg: nat, j: nat)
    requires WellShaped(G) && WellShaped(H) && |mp| == G.n && |used| == H.n && vg < G.n && j <= H.n
    ensures var b := Best(G, H, mp, used, vg, j);
            && (b == -1 <==> forall v :: 0 <= v < j ==> used[v])
            && (b != -1 ==> 0 <= b < j && !used[b])
            && (b != -1 ==> forall v :: 0 <= v < j && !used[v] ==> Score(G, H, mp, vg, v) <= Score(G, H, mp, vg, b))
            && (b != -1 ==> forall v :: 0 <= v < b && !used[v] ==> Score(G, H, mp, vg, v) < Score(G, H, mp, vg, b))
  {
    if j > 0 {
      BestSpec(G, H, mp, used, vg, j - 1);
    }
  }

  /** The candidate loop of greedy_extension for one G-vertex. */
  method BestCandidate(G: Graph, H: Graph, mapping: array<int>, usedH: array<bool>, vg: nat) returns (bestVH: int)
    requires WellShaped(G) && WellShaped(H) && mapping.Length == G.n && usedH.Length == H.n && vg < G.n
    requires MapValues(mapping[..])
    ensures bestVH == Best(G, H, mapping[..], usedH[..], vg, H.n)
  {
    bestVH := -1;
    var bestScore := 0;
    for vh := 0 to H.n
      invariant bestVH == Best(G, H, mapping[..], usedH[..], vg, vh)
      invariant bestVH != -1 ==> 0 <= bestVH < H.n && bestScore == Score(G, H, mapping[..], vg, bestVH)
    {
      if usedH[vh] {
        continue;
      }
      var score := ComputeExtensionScore(vg, vh, G, H, mapping);
      if bestVH == -1 || score > bestScore {
        bestScore := score;
        bestVH := vh;
      }
    }
  }

  // ---------------------------------------------------------------------
  // The mapping phase on values
  // ---------------------------------------------------------------------

  /** The state of the mapping phase: mapping, used_H and added_vertices_count. */
  datatype MapState = MapState(mapping: seq<int>, used: seq<bool>, added: nat)

  /** Before the first G-vertex: nothing mapped, nothing used. */
  function Start(gn: nat, hn: nat): (st: MapState)
    ensures |st.mapping| == gn && |st.used| == hn && st.added == 0
    ensures forall x :: 0 <= x < gn ==> st.mapping[x] == -1
    ensures forall h :: 0 <= h < hn ==> !st.used[h]
  {
    MapState(seq(gn, _ => -1), seq(hn, _ => false), 0)
  }

  /** The shape every state of the mapping phase has. */
  ghost predicate Shaped(G: Graph, H: Graph, st: MapState) {
    WellShaped(G) && WellShaped(H) && |st.mapping| == G.n && |st.used| == H.n && MapValues(st.mapping)
  }

  /** Mapping v_g: onto the best unused H-vertex, or onto the next new vertex when none is left. */
  ghost function Step(G: Graph, H: Graph, st: MapState, vg: nat): (st': MapState)
    requires Shaped(G, H, st) && vg < G.n
    ensures Shaped(G, H, st')
  {
    var b := Best(G, H, st.mapping, st.used, vg, H.n);
    if b != -1 then
      BestSpec(G, H, st.mapping, st.used, vg, H.n);
      MapState(st.mapping[vg := b], st.used[b := true], st.added)
    else
      MapState(st.mapping[vg := H.n + st.added], st.used, st.added + 1)
  }

  /** The G-vertices of `order` lie in 0 .. n-1. */
  ghost predicate InRange(order: seq<int>, n: nat) {
    forall k :: 0 <= k < |order| ==> 0 <= order[k] < n
  }

  /** The mapping phase after the first i vertices of the processing order. */
  ghost function Run(G: Graph, H: Graph, order: seq<int>, i: nat): (st: MapState)
    requires WellShaped(G) && WellShaped(H) && InRange(order, G.n) && i <= |order|
    ensures Shaped(G, H, st)
  {
    if i == 0 then Start(G.n, H.n) else Step(G, H, Run(G, H, order, i - 1), order[i - 1])
  }

  /** The number of used H-vertices. */
  function CountUsed(used: seq<bool>): (c: nat)
    ensures c <= |used|
  {
    if used == [] then 0 else CountUsed(used[..|used| - 1]) + (if used[|used| - 1] then 1 else 0)
  }

  /** Marking one more H-vertex used raises the count by one. */
  lemma {:induction false} CountUsedMark(used: seq<bool>, h: int)
    requires 0 <= h < |used| && !used[h]
    ensures CountUsed(used[h := true]) == CountUsed(used) + 1
  {
    var u := used[h := true];
    if h == |used| - 1 {
      assert u[..|u| - 1] == used[..|used| - 1];
    } else {
      assert u[..|u| - 1] == used[..|used| - 1][h := true];
      CountUsedMark(used[..|used| - 1], h);
    }
  }

  /** All H-vertices are used exactly when the count reaches H.n. */
  lemma {:induction false} CountUsedAll(used: seq<bool>)
    ensures CountUsed(used) == |used| <==> forall h :: 0 <= h < |used| ==> used[h]
  {
    if used != [] {
      var init := used[..|used| - 1];
      CountUsedAll(init);
      if forall h :: 0 <= h < |used| ==> used[h] {
        assert forall h :: 0 <= h < |init| ==> init[h];
      } else if CountUsed(used) == |used| {
        assert CountUsed(init) == |init|;
        forall h | 0 <= h < |used| ensures used[h] {
          if h < |init| { assert init[h]; }
        }
      }
    }
  }

  /**
   * What holds after the vertices `done` are processed: exactly they are
   * mapped; images lie below H.n + added; distinct G-vertices have distinct
   * images; an H-vertex is used exactly when it is an image; every new vertex
   * H.n .. H.n+added-1 is an image; new vertices appear only once all of H is
   * used; and each processed vertex either used an H-vertex or added one.
   */
  ghost predicate Inv(G: Graph, H: Graph, st: MapState, done: seq<int>) {
    && Shaped(G, H, st)
    && (forall x :: 0 <= x < G.n ==> (st.mapping[x] != -1 <==> x in done))
    && (forall x :: 0 <= x < G.n && st.mapping[x] != -1 ==> st.mapping[x] < H.n + st.added)
    && (forall x, y :: 0 <= x < G.n && 0 <= y < G.n && x != y && st.mapping[x] != -1 ==> st.mapping[x] != st.mapping[y])
    && (forall h :: 0 <= h < H.n ==> (st.used[h] <==> h in st.mapping))
    && (forall v :: H.n <= v < H.n + st.added ==> v in st.mapping)
    && (st.added > 0 ==> forall h :: 0 <= h < H.n ==> st.used[h])
    && CountUsed(st.used) + st.added == |done|
  }

  lemma StartInv(G: Graph, H: Graph)
    requires WellShaped(G) && WellShaped(H)
    ensures Inv(G, H, Start(G.n, H.n), [])
  {
    var st := Start(G.n, H.n);
    assert CountUsed(st.used) == 0 by {
      CountUsedZero(st.used);
    }
  }

  lemma {:induction false} CountUsedZero(used: seq<bool>)
    requires forall h :: 0 <= h < |used| ==> !used[h]
    ensures CountUsed(used) == 0
  {
    if used != [] {
      CountUsedZero(used[..|used| - 1]);
    }
  }

  /** Overwriting an entry that is not `h` adds `h` as a value exactly when it is the new value. */
  lemma InUpdate(s: seq<int>, i: nat, v: int, h: int)
    requires i < |s| && s[i] != h
    ensures h in s[i := v] <==> h == v || h in s
  {
    assert s[i := v][i] == v;
    if h in s {
      var j :| 0 <= j < |s| && s[j] == h;
      assert s[i := v][j] == h;
    }
    if h in s[i := v] && h != v {
      var j :| 0 <= j < |s| && s[i := v][j] == h;
      assert j != i;
      assert s[j] in s;
    }
  }

  /** Mapping a fresh G-vertex onto an unused H-vertex keeps the invariant. */
  lemma StepOntoH(G: Graph, H: Graph, st: MapState, done: seq<int>, vg: nat, b: nat)
    requires Inv(G, H, st, done) && vg < G.n && vg !in done && b < H.n && !st.used[b]
    ensures Inv(G, H, MapState(st.mapping[vg := b], st.used[b := true], st.added), done + [vg])
  {
    var mp := st.mapping[vg := b];
    var used := st.used[b := true];
    assert st.mapping[vg] == -1;
    assert b !in st.mapping;
    forall h | 0 <= h < H.n ensures used[h] <==> h in mp {
      InUpdate(st.mapping, vg, b, h);
    }
    assert st.added == 0;
    CountUsedMark(st.used, b);
  }

  /** Mapping a fresh G-vertex onto the next new vertex, once H is used up, keeps the invariant. */
  lemma StepOntoNew(G: Graph, H: Graph, st: MapState, done: seq<int>, vg: nat)
    requires Inv(G, H, st, done) && vg < G.n && vg !in done
    requires forall h :: 0 <= h < H.n ==> st.used[h]
    ensures Inv(G, H, MapState(st.mapping[vg := H.n + st.added], st.used, st.added + 1), done + [vg])
  {
    var mp := st.mapping[vg := H.n + st.added];
    assert st.mapping[vg] == -1;
    forall h | 0 <= h < H.n ensures st.used[h] <==> h in mp {
      InUpdate(st.mapping, vg, H.n + st.added, h);
    }
    forall v | H.n <= v < H.n + st.added + 1 ensures v in mp {
      InUpdate(st.mapping, vg, H.n + st.added, v);
    }
  }

  /** The G-vertices of `order` are pairwise distinct. */
  ghost predicate NoRepeats(order: seq<int>) {
    forall a, b :: 0 <= a < b < |order| ==> order[a] != order[b]
  }

  /** One step of the mapping phase keeps the invariant. */
  lemma StepInv(G: Graph, H: Graph, st: MapState, done: seq<int>, vg: nat)
    requires Inv(G, H, st, done) && vg < G.n && vg !in done
    ensures Inv(G, H, Step(G, H, st, vg), done + [vg])
  {
    var b := Best(G, H, st.mapping, st.used, vg, H.n);
    BestSpec(G, H, st.mapping, st.used, vg, H.n);
    if b != -1 {
      StepOntoH(G, H, st, done, vg, b);
    } else {
      StepOntoNew(G, H, st, done, vg);
    }
  }

  /** The mapping phase keeps the invariant along a repetition-free processing order. */
  lemma {:induction false} RunInv(G: Graph, H: Graph, order: seq<int>, i: nat)
    requires WellShaped(G) && WellShaped(H) && InRange(order, G.n) && NoRepeats(order) && i <= |order|
    ensures Inv(G, H, Run(G, H, order, i), order[..i])
  {
    if i == 0 {
      StartInv(G, H);
    } else {
      RunInv(G, H, order, i - 1);
      var vg := order[i - 1];
      assert order[..i] == order[..i - 1] + [vg];
      assert vg !in order[..i - 1];
      StepInv(G, H, Run(G, H, order, i - 1), order[..i - 1], vg);
    }
  }

  /**
   * A processing order as the sort yields it: every G-vertex exactly once,
   * in non-increasing degree order.
   */
  ghost predicate IsDegreeOrder(G: Graph, order: seq<int>)
    requires |G.adj| == G.n
  {
    && |order| == G.n && InRange(order, G.n) && NoRepeats(order)
    && (forall x :: 0 <= x < G.n ==> x in order)
    && (forall a, b :: 0 <= a < b < |order| ==> |G.adj[order[a]]| >= |G.adj[order[b]]|)
  }

  function Max0(x: int): (r: nat)
    ensures r >= x
    ensures r == 0 || r == x
  {
    if x > 0 then x else 0
  }

  /**
   * After the mapping phase along a degree order: every G-vertex has an
   * image; distinct G-vertices have distinct images; an H-vertex is used
   * exactly when it is an image; the new vertices are H.n .. H.n+added-1,
   * each an image, and there are max(0, G.n - H.n) of them; new vertices are
   * created only when every H-vertex is used.
   */
  lemma MappingFacts(G: Graph, H: Graph, order: seq<int>)
    requires WellShaped(G) && WellShaped(H) && IsDegreeOrder(G, order)
    ensures var st := Run(G, H, order, G.n);
            && (forall x :: 0 <= x < G.n ==> 0 <= st.mapping[x] < H.n + st.added)
            && (forall x, y :: 0 <= x < y < G.n ==> st.mapping[x] != st.mapping[y])
            && (forall h :: 0 <= h < H.n ==> (st.used[h] <==> h in st.mapping))
            && (forall v :: H.n <= v < H.n + st.added ==> v in st.mapping)
            && (st.added > 0 ==> forall h :: 0 <= h < H.n ==> st.used[h])
            && st.added == Max0(G.n - H.n)
  {
    var st := Run(G, H, order, G.n);
    RunInv(G, H, order, G.n);
    assert order[..G.n] == order;
    CountUsedAll(st.used);
  }

  // ---------------------------------------------------------------------
  // Phase 3: the missing edges
  // ---------------------------------------------------------------------

  /** The images of u and v are both existing H-vertices and adjacent in H. */
  ghost predicate Covered(H: Graph, mp: seq<int>, u: nat, v: nat)
    requires WellShaped(H) && u < |mp| && v < |mp| && mp[u] >= 0 && mp[v] >= 0
  {
    mp[u] < H.n && mp[v] < H.n && H.matrix[mp[u]][mp[v]] != 0
  }

  /** Every G-vertex has an image. */
  ghost predicate AllMapped(mp: seq<int>) {
    forall x :: 0 <= x < |mp| ==> mp[x] >= 0
  }

  /** The edges of G whose images are not an H-edge: the edges the extension has to add. */
  ghost function MissingEdges(G: Graph, H: Graph, mp: seq<int>): set<(int, int)>
    requires WellShaped(G) && WellShaped(H) && |mp| == G.n && AllMapped(mp)
  {
    set a, b | 0 <= a < b < G.n && G.matrix[a][b] > 0 && !Covered(H, mp, a, b) :: (a, b)
  }

  /** The count of phase 3 over the first k entries of adj[u]. */
  ghost function MissingRow(G: Graph, H: Graph, mp: seq<int>, u: nat, k: nat): nat
    requires WellShaped(G) && WellShaped(H) && |mp| == G.n && AllMapped(mp) && u < G.n && k <= |G.adj[u]|
  {
    if k == 0 then 0
    else
      var v := G.adj[u][k - 1];
      MissingRow(G, H, mp, u, k - 1) + (if u < v && !Covered(H, mp, u, v) then 1 else 0)
  }

  /** The count of phase 3 over the rows u < r. */
  ghost function MissingUpTo(G: Graph, H: Graph, mp: seq<int>, r: nat): nat
    requires WellShaped(G) && WellShaped(H) && |mp| == G.n && AllMapped(mp) && r <= G.n
  {
    if r == 0 then 0 else MissingUpTo(G, H, mp, r - 1) + MissingRow(G, H, mp, r - 1, |G.adj[r - 1]|)
  }

  /** The pairs phase 3 counts among the first k entries of adj[u]. */
  ghost function RowMissing(G: Graph, H: Graph, mp: seq<int>, u: nat, k: nat): (s: set<(int, int)>)
    requires WellShaped(G) && WellShaped(H) && |mp| == G.n && AllMapped(mp) && u < G.n && k <= |G.adj[u]|
  {
    set v | v in G.adj[u][..k] && u < v && !Covered(H, mp, u, v) :: (u, v)
  }

  /** The pairs phase 3 counts in the rows u < r. */
  ghost function RowsMissing(G: Graph, H: Graph, mp: seq<int>, r: nat): (s: set<(int, int)>)
    requires WellShaped(G) && WellShaped(H) && |mp| == G.n && AllMapped(mp) && r <= G.n
  {
    if r == 0 then {} else RowsMissing(G, H, mp, r - 1) + RowMissing(G, H, mp, r - 1, |G.adj[r - 1]|)
  }

  lemma {:induction false} MissingRowCard(G: Graph, H: Graph, mp: seq<int>, u: nat, k: nat)
    requires WellShaped(G) && WellShaped(H) && |mp| == G.n && AllMapped(mp) && u < G.n && k <= |G.adj[u]|
    requires Distinct(G.adj[u])
    ensures MissingRow(G, H, mp, u, k) == |RowMissing(G, H, mp, u, k)|
  {
    if k == 0 {
      assert RowMissing(G, H, mp, u, k) == {};
    } else {
      MissingRowCard(G, H, mp, u, k - 1);
      var v := G.adj[u][k - 1];
      var prev := RowMissing(G, H, mp, u, k - 1);
      var add: set<(int, int)> := if u < v && !Covered(H, mp, u, v) then {(u, v)} else {};
      RowMissingStep(G, H, mp, u, k);
      RowMissingFresh(G, H, mp, u, k);
      DisjointCard(prev, add);
    }
  }

  /** In a list without repetitions, the entry at k-1 does not occur before k-1. */
  lemma NotEarlier(s: seq<int>, k: nat)
    requires Distinct(s) && 0 < k <= |s|
    ensures s[k - 1] !in s[..k - 1]
  {
    var pre := s[..k - 1];
    forall t | 0 <= t < |pre| ensures pre[t] != s[k - 1] {
      assert pre[t] == s[t];
    }
  }

  /** In a list without repetitions, the pair for entry k-1 is not among those of the first k-1 entries. */
  lemma RowMissingFresh(G: Graph, H: Graph, mp: seq<int>, u: nat, k: nat)
    requires WellShaped(G) && WellShaped(H) && |mp| == G.n && AllMapped(mp) && u < G.n && 0 < k <= |G.adj[u]|
    requires Distinct(G.adj[u])
    ensures (u, G.adj[u][k - 1]) !in RowMissing(G, H, mp, u, k - 1)
  {
    NotEarlier(G.adj[u], k);
  }

  /** The pairs of the first k entries: those of the first k-1, and (u, v) for v = adj[u][k-1] if it is counted. */
  lemma RowMissingStep(G: Graph, H: Graph, mp: seq<int>, u: nat, k: nat)
    requires WellShaped(G) && WellShaped(H) && |mp| == G.n && AllMapped(mp) && u < G.n && 0 < k <= |G.adj[u]|
    ensures var v := G.adj[u][k - 1];
            RowMissing(G, H, mp, u, k)
            == RowMissing(G, H, mp, u, k - 1) + (if u < v && !Covered(H, mp, u, v) then {(u, v)} else {})
  {
    var v := G.adj[u][k - 1];
    var prev := RowMissing(G, H, mp, u, k - 1);
    var cur := RowMissing(G, H, mp, u, k);
    var add: set<(int, int)> := if u < v && !Covered(H, mp, u, v) then {(u, v)} else {};
    assert G.adj[u][..k] == G.adj[u][..k - 1] + [v];
    forall p | p in cur ensures p in prev + add {
      var w :| w in G.adj[u][..k] && u < w && !Covered(H, mp, u, w) && p == (u, w);
      if w != v {
        assert w in G.adj[u][..k - 1];
      }
    }
    forall p | p in prev + add ensures p in cur {
      if p in prev {
        var w :| w in G.adj[u][..k - 1] && u < w && !Covered(H, mp, u, w) && p == (u, w);
        assert w in G.adj[u][..k];
      }
    }
  }

  lemma {:induction false} MissingUpToCard(G: Graph, H: Graph, mp: seq<int>, r: nat)
    requires WellShaped(G) && WellShaped(H) && |mp| == G.n && AllMapped(mp) && r <= G.n
    requires DistinctRows(G.adj, r)
    ensures MissingUpTo(G, H, mp, r) == |RowsMissing(G, H, mp, r)|
  {
    if r > 0 {
      var u := r - 1;
      var prev := RowsMissing(G, H, mp, u);
      var row := RowMissing(G, H, mp, u, |G.adj[u]|);
      MissingUpToCard(G, H, mp, u);
      MissingRowCard(G, H, mp, u, |G.adj[u]|);
      RowsMissingApart(G, H, mp, u);
      DisjointCard(prev, row);
    }
  }

  /** The first r adjacency lists hold no repeated neighbour. */
  ghost predicate DistinctRows(adj: seq<seq<int>>, r: nat)
    requires r <= |adj|
  {
    r == 0 || (DistinctRows(adj, r - 1) && Distinct(adj[r - 1]))
  }

  lemma {:induction false} DistinctRowsAll(adj: seq<seq<int>>, r: nat)
    requires r <= |adj| && forall u :: 0 <= u < |adj| ==> Distinct(adj[u])
    ensures DistinctRows(adj, r)
  {
    if r > 0 {
      DistinctRowsAll(adj, r - 1);
    }
  }

  /** Row u shares no pair with the rows below it. */
  lemma RowsMissingApart(G: Graph, H: Graph, mp: seq<int>, u: nat)
    requires WellShaped(G) && WellShaped(H) && |mp| == G.n && AllMapped(mp) && u < G.n
    ensures RowsMissing(G, H, mp, u) * RowMissing(G, H, mp, u, |G.adj[u]|) == {}
  {
    forall p | p in RowsMissing(G, H, mp, u) ensures p !in RowMissing(G, H, mp, u, |G.adj[u]|) {
      RowsMissingMembers(G, H, mp, u, p);
    }
  }

  /** The pairs counted in the rows u < r: the pairs (u, v), v a neighbour above u, whose images are not an H-edge. */
  lemma {:induction false} RowsMissingMembers(G: Graph, H: Graph, mp: seq<int>, r: nat, p: (int, int))
    requires WellShaped(G) && WellShaped(H) && |mp| == G.n && AllMapped(mp) && r <= G.n
    ensures p in RowsMissing(G, H, mp, r)
        <==> 0 <= p.0 < r && 0 <= p.1 < G.n && p.1 in G.adj[p.0] && p.0 < p.1 && !Covered(H, mp, p.0, p.1)
  {
    if r > 0 {
      RowsMissingMembers(G, H, mp, r - 1, p);
      var u := r - 1;
      assert G.adj[u][..|G.adj[u]|] == G.adj[u];
      if p.0 == u && 0 <= p.1 < G.n && p.1 in G.adj[u] && u < p.1 && !Covered(H, mp, u, p.1) {
        assert p in RowMissing(G, H, mp, u, |G.adj[u]|);
      }
    }
  }

  /**
   * Phase 3 counts each G-edge {u, v} once, from its lower end, exactly when
   * its images are not an H-edge; so at most G.m edges are added.
   */
  lemma MissingCount(G: Graph, H: Graph, mp: seq<int>)
    requires ValidGraph(G) && WellShaped(H) && |mp| == G.n && AllMapped(mp)
    ensures MissingUpTo(G, H, mp, G.n) == |MissingEdges(G, H, mp)|
    ensures MissingEdges(G, H, mp) <= UpperEdges(G.matrix, G.n)
    ensures |MissingEdges(G, H, mp)| <= G.m
  {
    DistinctRowsAll(G.adj, G.n);
    MissingUpToCard(G, H, mp, G.n);
    var R := RowsMissing(G, H, mp, G.n);
    var M := MissingEdges(G, H, mp);
    forall p | p in R ensures p in M {
      RowsMissingMembers(G, H, mp, G.n, p);
      assert G.matrix[p.0][p.1] != 0;
    }
    forall p | p in M ensures p in R {
      RowsMissingMembers(G, H, mp, G.n, p);
      assert p.1 in G.adj[p.0];
    }
    assert R == M;
    assert M <= UpperEdges(G.matrix, G.n);
    Subset(M, UpperEdges(G.matrix, G.n));
  }

  lemma DisjointCard<T>(A: set<T>, B: set<T>)
    requires A * B == {}
    ensures |A + B| == |A| + |B|
  {
  }

  lemma Subset<T>(A: set<T>, B: set<T>)
    requires A <= B
    ensures |A| <= |B|
  {
    assert B == A + (B - A);
  }

  /** Phase 3 of greedy_extension. */
  method CountMissingEdges(G: Graph, H: Graph, mapping: array<int>) returns (count: nat)
    requires WellShaped(G) && WellShaped(H) && mapping.Length == G.n && AllMapped(mapping[..])
    ensures count == MissingUpTo(G, H, mapping[..], G.n)
  {
    count := 0;
    for u := 0 to G.n
      invariant count == MissingUpTo(G, H, mapping[..], u)
    {
      ghost var before := count;
      for i := 0 to |G.adj[u]|
        invariant count == before + MissingRow(G, H, mapping[..], u, i)
      {
        var v := G.adj[u][i];
        if u < v {
          var fu := mapping[u];
          var fv := mapping[v];
          assert fu == mapping[..][u] && fv == mapping[..][v];
          var edgeExistsInH := 0;
          if fu < H.n && fv < H.n {
            edgeExistsInH := H.matrix[fu][fv];
          }
          if edgeExistsInH == 0 {
            count := count + 1;
          }
        }
      }
    }
  }

  // ---------------------------------------------------------------------
  // greedy_extension
  // ---------------------------------------------------------------------

  /**
   * Phase 1 of greedy_extension: fills sorted_G with every vertex and its
   * degree, sorts it and reads off the processing order.
   */
  method DegreeOrder(G: Graph) returns (order: seq<int>)
    requires |G.adj| == G.n
    ensures IsDegreeOrder(G, order)
  {
    var sorted := new VertexInfo[G.n];
    for i := 0 to G.n
      invariant forall k :: 0 <= k < i ==> sorted[k] == VertexInfo(k, |G.adj[k]|)
    {
      sorted[i] := VertexInfo(i, |G.adj[i]|);
    }
    assert sorted[..] == Infos(G);
    SortByDegree(sorted);
    order := Ids(sorted[..]);
    SortedIsDegreeOrder(G, sorted[..]);
  }

  /** The mapping loop of greedy_extension, from the empty mapping along `order`. */
  method MapVertices(G: Graph, H: Graph, order: seq<int>, mapping: array<int>, usedH: array<bool>) returns (added: nat)
    requires WellShaped(G) && WellShaped(H) && InRange(order, G.n)
    requires mapping.Length == G.n && usedH.Length == H.n
    requires mapping[..] == Start(G.n, H.n).mapping && usedH[..] == Start(G.n, H.n).used
    modifies mapping, usedH
    ensures Run(G, H, order, |order|) == MapState(mapping[..], usedH[..], added)
  {
    added := 0;
    for i := 0 to |order|
      invariant Run(G, H, order, i) == MapState(mapping[..], usedH[..], added)
    {
      added := MapVertex(G, H, mapping, usedH, order[i], added);
    }
  }

  /**
   * One round of the mapping loop: v_g goes to the best unused H-vertex and
   * marks it used, or, when none is left, to the next new vertex H.n + added.
   */
  method MapVertex(G: Graph, H: Graph, mapping: array<int>, usedH: array<bool>, vg: nat, added: nat) returns (added': nat)
    requires Shaped(G, H, MapState(mapping[..], usedH[..], added)) && mapping.Length == G.n && vg < G.n
    modifies mapping, usedH
    ensures MapState(mapping[..], usedH[..], added') == Step(G, H, MapState(old(mapping[..]), old(usedH[..]), added), vg)
  {
    ghost var st := MapState(mapping[..], usedH[..], added);
    var bestVH := BestCandidate(G, H, mapping, usedH, vg);
    BestSpec(G, H, mapping[..], usedH[..], vg, H.n);
    if bestVH != -1 {
      mapping[vg] := bestVH;
      usedH[bestVH] := true;
      added' := added;
      assert mapping[..] == st.mapping[vg := bestVH];
    } else {
      mapping[vg] := H.n + added;
      added' := added + 1;
    }
  }

  /**
   * greedy_extension: returns the cost together with the final mapping and
   * the processing order. The mapping is the one `Run` specifies for a
   * degree order; it is injective, its images are H-vertices or the new
   * vertices H.n .. H.n + max(0, G.n - H.n) - 1; the cost is the number of
   * new vertices plus the number of G-edges whose images are not H-edges,
   * so it never exceeds max(0, G.n - H.n) + G.m.
   */
  method GreedyExtension(G: Graph, H: Graph) returns (cost: int, mp: seq<int>, order: seq<int>)
    requires ValidGraph(G) && WellShaped(H)
    ensures IsDegreeOrder(G, order)
    ensures mp == Run(G, H, order, G.n).mapping
    ensures forall x :: 0 <= x < G.n ==> 0 <= mp[x] < H.n + Max0(G.n - H.n)
    ensures forall x, y :: 0 <= x < y < G.n ==> mp[x] != mp[y]
    ensures cost == Max0(G.n - H.n) + |MissingEdges(G, H, mp)|
    ensures Max0(G.n - H.n) <= cost <= Max0(G.n - H.n) + G.m
  {
    var mapping := new int[G.n];
    var usedH := new bool[H.n](_ => false);
    for i := 0 to G.n
      invariant forall x :: 0 <= x < i ==> mapping[x] == -1
      modifies mapping
    {
      mapping[i] := -1;
    }

    assert mapping[..] == Start(G.n, H.n).mapping;
    assert usedH[..] == Start(G.n, H.n).used;

    order := DegreeOrder(G);
    var addedVertices := MapVertices(G, H, order, mapping, usedH);

    mp := mapping[..];
    MappingFacts(G, H, order);
    var addedEdges := CountMissingEdges(G, H, mapping);
    MissingCount(G, H, mp);
    cost := addedVertices + addedEdges;
  }
}
