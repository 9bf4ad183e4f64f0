/**
 * The subgraph-isomorphism oracle (subiso.c): does the pattern graph G embed
 * into the host graph H as a (not necessarily induced) subgraph?
 *
 * The search is a depth-first backtracking over four shared arrays: `map`
 * (G-vertex to H-vertex, -1 when unmapped), `usedH` (H-vertices already
 * taken) and the two frontier flags `adjG` and `adjH`. The imperative
 * `SubgraphRec` is proved to compute exactly the ghost function `Search`,
 * which mirrors it on values, and to leave the four arrays as it found them
 * whenever it fails. Soundness is proved about `Search`.
 */
module SubIsoSearch {
  import opened Wrappers
  import opened Graphs

  /** Every entry of a vertex map is -1 or an H-vertex. */
  ghost predicate MapRange(vmap: seq<int>, hn: nat) {
    forall i :: 0 <= i < |vmap| ==> -1 <= vmap[i] < hn
  }

  /** The shape of the search state for a G with `G.n` and an H with `H.n` vertices. */
  ghost predicate SearchShape(G: Graph, H: Graph, vmap: seq<int>, used: seq<bool>,
                              adjG: seq<bool>, adjH: seq<bool>, mapped: nat) {
    && WellShaped(G) && WellShaped(H)
    && |vmap| == G.n && |adjG| == G.n
    && |used| == H.n && |adjH| == H.n
    && MapRange(vmap, H.n)
    && mapped <= G.n
  }

  /** An undirected graph without self-loops, as the loader guarantees. */
  ghost predicate Undirected(g: Graph) {
    WellShaped(g) && Symmetric(g.matrix, g.n) && ZeroDiagonal(g.matrix, g.n)
  }

  // ---------------------------------------------------------------------
  // chooseVertex
  // ---------------------------------------------------------------------

  /** The lowest index from `i` on that is in the frontier and unmapped, or -1. */
  function FirstFrontier(adj: seq<bool>, vmap: seq<int>, i: nat): (r: int)
    requires |adj| == |vmap| && i <= |vmap|
    ensures r == -1 || (i <= r < |vmap| && adj[r] && vmap[r] == -1)
    ensures forall j :: i <= j < |vmap| && (r == -1 || j < r) ==> !(adj[j] && vmap[j] == -1)
    decreases |vmap| - i
  {
    if i == |vmap| then -1
    else if adj[i] && vmap[i] == -1 then i
    else FirstFrontier(adj, vmap, i + 1)
  }

  /** The lowest unmapped index from `i` on, or -1. */
  function FirstUnmapped(vmap: seq<int>, i: nat): (r: int)
    requires i <= |vmap|
    ensures r == -1 || (i <= r < |vmap| && vmap[r] == -1)
    ensures forall j :: i <= j < |vmap| && (r == -1 || j < r) ==> vmap[j] != -1
    decreases |vmap| - i
  {
    if i == |vmap| then -1
    else if vmap[i] == -1 then i
    else FirstUnmapped(vmap, i + 1)
  }

  /**
   * The vertex chooseVertex picks: the lowest unmapped frontier vertex if there
   * is one, otherwise the lowest unmapped vertex, otherwise -1.
   */
  function Choose(adj: seq<bool>, vmap: seq<int>): (r: int)
    requires |adj| == |vmap|
    ensures r == -1 <==> forall j :: 0 <= j < |vmap| ==> vmap[j] != -1
    ensures r != -1 ==> 0 <= r < |vmap| && vmap[r] == -1
    ensures (exists j :: 0 <= j < |vmap| && adj[j] && vmap[j] == -1) ==>
              && adj[r]
              && forall j :: 0 <= j < r ==> !(adj[j] && vmap[j] == -1)
    ensures (forall j :: 0 <= j < |vmap| ==> !(adj[j] && vmap[j] == -1)) ==>
              forall j :: 0 <= j < r ==> vmap[j] != -1
  {
    var f := FirstFrontier(adj, vmap, 0);
    if f != -1 then f else FirstUnmapped(vmap, 0)
  }

  /** chooseVertex: the two scans over the G-vertices. */
  method ChooseVertex(adj: array<bool>, n: nat, vmap: array<int>) returns (v: int)
    requires adj.Length == n && vmap.Length == n
    ensures v == Choose(adj[..], vmap[..])
  {
    for i := 0 to n
      invariant FirstFrontier(adj[..], vmap[..], 0) == FirstFrontier(adj[..], vmap[..], i)
    {
      if adj[i] && vmap[i] == -1 {
        return i;
      }
    }
    for i := 0 to n
      invariant FirstUnmapped(vmap[..], 0) == FirstUnmapped(vmap[..], i)
    {
      if vmap[i] == -1 {
        return i;
      }
    }
    return -1;
  }

  // ---------------------------------------------------------------------
  // The candidate tests of subgraphRec
  // ---------------------------------------------------------------------

  /** Some unused H-vertex lies in the H-frontier. */
  ghost predicate HasAdjH(adjH: seq<bool>, used: seq<bool>)
    requires |adjH| == |used|
  {
    exists i :: 0 <= i < |adjH| && adjH[i] && !used[i]
  }

  /** Every G-edge from `n` to a mapped vertex has an H-edge from `m` to that vertex's image. */
  ghost predicate Consistent(G: Graph, H: Graph, vmap: seq<int>, n: nat, m: nat)
    requires WellShaped(G) && WellShaped(H) && |vmap| == G.n && MapRange(vmap, H.n)
    requires n < G.n && m < H.n
  {
    forall g2 :: 0 <= g2 < G.n && vmap[g2] != -1 && G.matrix[n][g2] != 0 ==> H.matrix[m][vmap[g2]] != 0
  }

  /** Some unused H-neighbour of `m` has at least the degree of the G-vertex `nu`. */
  ghost predicate HasSupport(G: Graph, H: Graph, used: seq<bool>, nu: nat, m: nat)
    requires WellShaped(G) && WellShaped(H) && |used| == H.n
    requires nu < G.n && m < H.n
  {
    exists j :: 0 <= j < |H.adj[m]| && !used[H.adj[m][j]] && |H.adj[H.adj[m][j]]| >= |G.adj[nu]|
  }

  /** The look-ahead: every unmapped G-neighbour of `n` has support around `m`. */
  ghost predicate Feasible(G: Graph, H: Graph, vmap: seq<int>, used: seq<bool>, n: nat, m: nat)
    requires WellShaped(G) && WellShaped(H) && |vmap| == G.n && |used| == H.n
    requires n < G.n && m < H.n
  {
    forall i :: 0 <= i < |G.adj[n]| && vmap[G.adj[n][i]] == -1 ==> HasSupport(G, H, used, G.adj[n][i], m)
  }

  /**
   * The candidates subgraphRec accepts for `n`: `m` is unused, lies in the
   * H-frontier when that frontier holds an unused vertex, has at least the
   * degree of `n`, and passes the consistency and look-ahead tests.
   */
  ghost predicate Admissible(G: Graph, H: Graph, vmap: seq<int>, used: seq<bool>, adjH: seq<bool>,
                             has: bool, n: nat, m: nat)
    requires WellShaped(G) && WellShaped(H) && |vmap| == G.n && MapRange(vmap, H.n)
    requires |used| == H.n && |adjH| == H.n
    requires n < G.n && m < H.n
  {
    && !used[m]
    && (!has || adjH[m])
    && |G.adj[n]| <= |H.adj[m]|
    && Consistent(G, H, vmap, n, m)
    && Feasible(G, H, vmap, used, n, m)
  }

  /** The scan that sets hasAdjH. */
  method HasFrontier(adjH: array<bool>, usedH: array<bool>) returns (has: bool)
    requires adjH.Length == usedH.Length
    ensures has == HasAdjH(adjH[..], usedH[..])
  {
    has := false;
    for i := 0 to adjH.Length
      invariant has <==> exists k :: 0 <= k < i && adjH[k] && !usedH[k]
    {
      if adjH[i] && !usedH[i] {
        has := true;
      }
    }
  }

  /** The adjacency consistency loop. */
  method IsConsistent(G: Graph, H: Graph, vmap: array<int>, n: nat, m: nat) returns (ok: bool)
    requires WellShaped(G) && WellShaped(H) && vmap.Length == G.n && MapRange(vmap[..], H.n)
    requires n < G.n && m < H.n
    ensures ok == Consistent(G, H, vmap[..], n, m)
  {
    for g2 := 0 to G.n
      invariant forall k :: 0 <= k < g2 && vmap[k] != -1 && G.matrix[n][k] != 0 ==> H.matrix[m][vmap[k]] != 0
    {
      if vmap[g2] == -1 {
        continue;
      }
      var h2 := vmap[g2];
      if G.matrix[n][g2] != 0 && H.matrix[m][h2] == 0 {
        return false;
      }
    }
    return true;
  }

  /** The inner scan of the look-ahead: an unused neighbour of `m` of large enough degree. */
  method HasCandidate(G: Graph, H: Graph, usedH: array<bool>, nu: nat, m: nat) returns (found: bool)
    requires WellShaped(G) && WellShaped(H) && usedH.Length == H.n
    requires nu < G.n && m < H.n
    ensures found == HasSupport(G, H, usedH[..], nu, m)
  {
    for j := 0 to |H.adj[m]|
      invariant forall k :: 0 <= k < j ==> !(!usedH[H.adj[m][k]] && |H.adj[H.adj[m][k]]| >= |G.adj[nu]|)
    {
      var mu := H.adj[m][j];
      if !usedH[mu] && |H.adj[mu]| >= |G.adj[nu]| {
        return true;
      }
    }
    return false;
  }

  /** The neighbourhood feasibility loop. */
  method IsFeasible(G: Graph, H: Graph, vmap: array<int>, usedH: array<bool>, n: nat, m: nat) returns (ok: bool)
    requires WellShaped(G) && WellShaped(H) && vmap.Length == G.n && usedH.Length == H.n
    requires n < G.n && m < H.n
    ensures ok == Feasible(G, H, vmap[..], usedH[..], n, m)
  {
    for i := 0 to |G.adj[n]|
      invariant forall k :: 0 <= k < i && vmap[G.adj[n][k]] == -1 ==> HasSupport(G, H, usedH[..], G.adj[n][k], m)
    {
      var nu := G.adj[n][i];
      if vmap[nu] != -1 {
        continue;
      }
      var hasCandidate := HasCandidate(G, H, usedH, nu, m);
      if !hasCandidate {
        return false;
      }
    }
    return true;
  }

  // ---------------------------------------------------------------------
  // Frontier updates (computeNewAdjG, computeNewAdjH)
  // ---------------------------------------------------------------------

  /** The G-frontier after adding the unmapped vertices of `nbrs`. */
  ghost function NewAdjG(adj: seq<bool>, nbrs: seq<int>, vmap: seq<int>): seq<bool>
    requires |adj| == |vmap|
  {
    seq(|adj|, i requires 0 <= i < |adj| => adj[i] || (i in nbrs && vmap[i] == -1))
  }

  /** The H-frontier after adding the unused vertices of `nbrs`. */
  ghost function NewAdjH(adj: seq<bool>, nbrs: seq<int>, used: seq<bool>): seq<bool>
    requires |adj| == |used|
  {
    seq(|adj|, i requires 0 <= i < |adj| => adj[i] || (i in nbrs && !used[i]))
  }

  /** computeNewAdjG: flags the unmapped neighbours of `v`. */
  method ComputeNewAdjG(adj: array<bool>, g: Graph, v: nat, vmap: array<int>)
    requires WellShaped(g) && v < g.n && adj.Length == g.n && vmap.Length == g.n
    modifies adj
    ensures adj[..] == NewAdjG(old(adj[..]), g.adj[v], vmap[..])
  {
    ghost var adj0 := adj[..];
    for i := 0 to |g.adj[v]|
      invariant adj[..] == NewAdjG(adj0, g.adj[v][..i], vmap[..])
    {
      var nb := g.adj[v][i];
      assert g.adj[v][..i + 1] == g.adj[v][..i] + [nb];
      if vmap[nb] == -1 {
        adj[nb] := true;
      }
    }
    assert g.adj[v][..|g.adj[v]|] == g.adj[v];
  }

  /** computeNewAdjH: flags the unused neighbours of `v`. */
  method ComputeNewAdjH(adj: array<bool>, g: Graph, v: nat, used: array<bool>)
    requires WellShaped(g) && v < g.n && adj.Length == g.n && used.Length == g.n && adj != used
    modifies adj
    ensures adj[..] == NewAdjH(old(adj[..]), g.adj[v], used[..])
  {
    ghost var adj0 := adj[..];
    for i := 0 to |g.adj[v]|
      invariant adj[..] == NewAdjH(adj0, g.adj[v][..i], used[..])
    {
      var nb := g.adj[v][i];
      assert g.adj[v][..i + 1] == g.adj[v][..i] + [nb];
      if !used[nb] {
        adj[nb] := true;
      }
    }
    assert g.adj[v][..|g.adj[v]|] == g.adj[v];
  }

  /**
   * The frontiers right after accepting n -> m: `n` and `m` leave their
   * frontiers, every unmapped G-neighbour of `n` and every unused H-neighbour
   * of `m` joins, and no other flag changes.
   */
  lemma AcceptFrontiers(G: Graph, H: Graph, vmap: seq<int>, used: seq<bool>, adjG: seq<bool>, adjH: seq<bool>,
                        n: nat, m: nat)
    requires SearchShape(G, H, vmap, used, adjG, adjH, 0) && n < G.n && m < H.n
    ensures var g' := NewAdjG(adjG[n := false], G.adj[n], vmap[n := m]);
            && !g'[n]
            && (forall nb :: nb in G.adj[n] && nb != n && vmap[nb] == -1 ==> g'[nb])
            && (forall i :: 0 <= i < G.n && i != n && !(i in G.adj[n]) ==> g'[i] == adjG[i])
            && (forall i :: 0 <= i < G.n && i != n && adjG[i] ==> g'[i])
    ensures var h' := NewAdjH(adjH[m := false], H.adj[m], used[m := true]);
            && !h'[m]
            && (forall mu :: mu in H.adj[m] && !used[mu] && mu != m ==> h'[mu])
            && (forall i :: 0 <= i < H.n && i != m && !(i in H.adj[m]) ==> h'[i] == adjH[i])
            && (forall i :: 0 <= i < H.n && i != m && adjH[i] ==> h'[i])
  {
    var g' := NewAdjG(adjG[n := false], G.adj[n], vmap[n := m]);
    forall nb | nb in G.adj[n] && nb != n && vmap[nb] == -1 ensures g'[nb] {
      var k :| 0 <= k < |G.adj[n]| && G.adj[n][k] == nb;
    }
    var h' := NewAdjH(adjH[m := false], H.adj[m], used[m := true]);
    forall mu | mu in H.adj[m] && !used[mu] && mu != m ensures h'[mu] {
      var k :| 0 <= k < |H.adj[m]| && H.adj[m][k] == mu;
    }
  }

  /** The memcpy that restores a frontier from its snapshot. */
  method CopyBack(dst: array<bool>, src: seq<bool>)
    requires dst.Length == |src|
    modifies dst
    ensures dst[..] == src
  {
    forall i | 0 <= i < dst.Length {
      dst[i] := src[i];
    }
  }

  // ---------------------------------------------------------------------
  // The search, on values
  // ---------------------------------------------------------------------

  /**
   * What subgraphRec computes from a state: the final map when it succeeds,
   * nothing when it fails.
   */
  ghost function Search(G: Graph, H: Graph, vmap: seq<int>, used: seq<bool>,
                        adjG: seq<bool>, adjH: seq<bool>, mapped: nat): Option<seq<int>>
    requires SearchShape(G, H, vmap, used, adjG, adjH, mapped)
    decreases G.n - mapped, H.n + 1
  {
    if mapped == G.n then Some(vmap)
    else
      var n := Choose(adjG, vmap);
      if n == -1 then None
      else TryFrom(G, H, vmap, used, adjG, adjH, mapped, n, HasAdjH(adjH, used), 0)
  }

  /** The candidate loop of subgraphRec for the chosen `n`, from candidate `m` on. */
  ghost function TryFrom(G: Graph, H: Graph, vmap: seq<int>, used: seq<bool>,
                         adjG: seq<bool>, adjH: seq<bool>, mapped: nat,
                         n: nat, has: bool, m: nat): Option<seq<int>>
    requires SearchShape(G, H, vmap, used, adjG, adjH, mapped)
    requires mapped < G.n && n < G.n && m <= H.n
    decreases G.n - mapped, H.n - m
  {
    if m == H.n then None
    else if !Admissible(G, H, vmap, used, adjH, has, n, m) then
      TryFrom(G, H, vmap, used, adjG, adjH, mapped, n, has, m + 1)
    else
      var vmap' := vmap[n := m];
      var used' := used[m := true];
      var adjG' := NewAdjG(adjG[n := false], G.adj[n], vmap');
      var adjH' := NewAdjH(adjH[m := false], H.adj[m], used');
      match Search(G, H, vmap', used', adjG', adjH', mapped + 1)
      case Some(f) => Some(f)
      case None => TryFrom(G, H, vmap, used, adjG, adjH, mapped, n, has, m + 1)
  }

  /** The oracle's answer: H is at least as large as G and the search from the empty map succeeds. */
  ghost predicate SubIso(G: Graph, H: Graph)
    requires WellShaped(G) && WellShaped(H)
  {
    && H.n >= G.n
    && Search(G, H, Unmapped(G.n), NoFlags(H.n), NoFlags(G.n), NoFlags(H.n), 0).Some?
  }

  /** The initial map: every G-vertex unmapped. */
  function Unmapped(n: nat): (s: seq<int>)
    ensures |s| == n && forall i :: 0 <= i < n ==> s[i] == -1
  {
    seq(n, _ => -1)
  }

  /** A zeroed flag array, as calloc leaves it. */
  function NoFlags(n: nat): (s: seq<bool>)
    ensures |s| == n && forall i :: 0 <= i < n ==> !s[i]
  {
    seq(n, _ => false)
  }

  // ---------------------------------------------------------------------
  // The search, in place
  // ---------------------------------------------------------------------

  /**
   * subgraphRec over the shared arrays. It returns what `Search` returns on
   * the entry state; on success `vmap` holds the embedding found, and on
   * failure all four arrays hold exactly what they held on entry.
   */
  method SubgraphRec(G: Graph, H: Graph, vmap: array<int>, usedH: array<bool>,
                     adjG: array<bool>, adjH: array<bool>, mapped: nat) returns (r: bool)
    requires WellShaped(G) && WellShaped(H)
    requires vmap.Length == G.n && adjG.Length == G.n && usedH.Length == H.n && adjH.Length == H.n
    requires usedH != adjG && usedH != adjH && adjG != adjH
    requires MapRange(vmap[..], H.n) && mapped <= G.n
    modifies vmap, usedH, adjG, adjH
    decreases G.n - mapped, 1
    ensures r == Search(G, H, old(vmap[..]), old(usedH[..]), old(adjG[..]), old(adjH[..]), mapped).Some?
    ensures r ==> vmap[..] == Search(G, H, old(vmap[..]), old(usedH[..]), old(adjG[..]), old(adjH[..]), mapped).value
    ensures !r ==> && vmap[..] == old(vmap[..]) && usedH[..] == old(usedH[..])
                   && adjG[..] == old(adjG[..]) && adjH[..] == old(adjH[..])
  {
    if mapped == G.n {
      return true;
    }
    var n := ChooseVertex(adjG, G.n, vmap);
    if n == -1 {
      return false;
    }
    var hasAdjH := HasFrontier(adjH, usedH);
    ghost var map0, used0, adjG0, adjH0 := vmap[..], usedH[..], adjG[..], adjH[..];
    for m := 0 to H.n
      invariant vmap[..] == map0 && usedH[..] == used0 && adjG[..] == adjG0 && adjH[..] == adjH0
      invariant Search(G, H, map0, used0, adjG0, adjH0, mapped)
             == TryFrom(G, H, map0, used0, adjG0, adjH0, mapped, n, hasAdjH, m)
    {
      var admissible := PassesTests(G, H, vmap, usedH, adjH, hasAdjH, n, m);
      if !admissible {
        continue;
      }
      var found := Attempt(G, H, vmap, usedH, adjG, adjH, mapped, n, m);
      if found {
        return true;
      }
    }
    return false;
  }

  /** The candidate tests of subgraphRec, in the order the code applies them. */
  method PassesTests(G: Graph, H: Graph, vmap: array<int>, usedH: array<bool>, adjH: array<bool>,
                     hasAdjH: bool, n: nat, m: nat) returns (ok: bool)
    requires WellShaped(G) && WellShaped(H)
    requires vmap.Length == G.n && usedH.Length == H.n && adjH.Length == H.n
    requires MapRange(vmap[..], H.n) && n < G.n && m < H.n
    ensures ok == Admissible(G, H, vmap[..], usedH[..], adjH[..], hasAdjH, n, m)
  {
    if usedH[m] {
      return false;
    }
    if hasAdjH && !adjH[m] {
      return false;
    }
    if |G.adj[n]| > |H.adj[m]| {
      return false;
    }
    var consistent := IsConsistent(G, H, vmap, n, m);
    if !consistent {
      return false;
    }
    ok := IsFeasible(G, H, vmap, usedH, n, m);
  }

  /**
   * One accepted candidate of subgraphRec: maps `n` to `m`, updates the
   * frontiers, recurses, and on failure undoes the mapping and restores the
   * frontiers from their snapshots.
   */
  method Attempt(G: Graph, H: Graph, vmap: array<int>, usedH: array<bool>,
                 adjG: array<bool>, adjH: array<bool>, mapped: nat, n: nat, m: nat) returns (found: bool)
    requires WellShaped(G) && WellShaped(H)
    requires vmap.Length == G.n && adjG.Length == G.n && usedH.Length == H.n && adjH.Length == H.n
    requires usedH != adjG && usedH != adjH && adjG != adjH
    requires MapRange(vmap[..], H.n) && mapped < G.n
    requires n < G.n && m < H.n && vmap[n] == -1 && !usedH[m]
    modifies vmap, usedH, adjG, adjH
    decreases G.n - mapped, 0
    ensures var map' := old(vmap[..])[n := m];
            var used' := old(usedH[..])[m := true];
            var res := Search(G, H, map', used', NewAdjG(old(adjG[..])[n := false], G.adj[n], map'),
                              NewAdjH(old(adjH[..])[m := false], H.adj[m], used'), mapped + 1);
            && found == res.Some?
            && (found ==> vmap[..] == res.value)
    ensures !found ==> && vmap[..] == old(vmap[..]) && usedH[..] == old(usedH[..])
                       && adjG[..] == old(adjG[..]) && adjH[..] == old(adjH[..])
  {
    ghost var map0, used0 := vmap[..], usedH[..];
    vmap[n] := m;
    usedH[m] := true;
    var oldAdjG := adjG[..];
    var oldAdjH := adjH[..];
    adjG[n] := false;
    ComputeNewAdjG(adjG, G, n, vmap);
    adjH[m] := false;
    ComputeNewAdjH(adjH, H, m, usedH);
    found := SubgraphRec(G, H, vmap, usedH, adjG, adjH, mapped + 1);
    if found {
      return;
    }
    vmap[n] := -1;
    usedH[m] := false;
    CopyBack(adjG, oldAdjG);
    CopyBack(adjH, oldAdjH);
    assert vmap[..] == map0[n := m][n := -1];
    assert usedH[..] == used0[m := true][m := false];
  }

  /**
   * isSubgraphIsomorphic: fails at once when H has fewer vertices than G,
   * otherwise searches from the empty map with empty frontiers.
   */
  method IsSubgraphIsomorphic(G: Graph, H: Graph) returns (r: bool)
    requires WellShaped(G) && WellShaped(H)
    ensures r == SubIso(G, H)
    ensures H.n < G.n ==> !r
  {
    if H.n < G.n {
      return false;
    }
    var vmap := new int[G.n];
    var usedH := new bool[H.n](_ => false);
    var adjG := new bool[G.n](_ => false);
    var adjH := new bool[H.n](_ => false);
    for i := 0 to G.n
      modifies vmap
      invariant forall k :: 0 <= k < i ==> vmap[k] == -1
    {
      vmap[i] := -1;
    }
    assert vmap[..] == Unmapped(G.n);
    assert usedH[..] == NoFlags(H.n);
    assert adjG[..] == NoFlags(G.n);
    assert adjH[..] == NoFlags(H.n);
    r := SubgraphRec(G, H, vmap, usedH, adjG, adjH, 0);
  }

  // ---------------------------------------------------------------------
  // Soundness
  // ---------------------------------------------------------------------

  /** `f` sends the G-vertices injectively to H-vertices and every G-edge to an H-edge. */
  ghost predicate IsEmbedding(G: Graph, H: Graph, f: seq<int>)
    requires WellShaped(G) && WellShaped(H)
  {
    && |f| == G.n
    && (forall u :: 0 <= u < G.n ==> 0 <= f[u] < H.n)
    && (forall u, v :: 0 <= u < G.n && 0 <= v < G.n && u != v ==> f[u] != f[v])
    && (forall u, v :: 0 <= u < G.n && 0 <= v < G.n && G.matrix[u][v] != 0 ==> H.matrix[f[u]][f[v]] != 0)
  }

  /**
   * What the search keeps true of its state: the images of mapped vertices
   * are used, distinct and edge-preserving, and `mapped` counts them.
   */
  ghost predicate Partial(G: Graph, H: Graph, vmap: seq<int>, used: seq<bool>, mapped: nat)
    requires WellShaped(G) && WellShaped(H) && |vmap| == G.n && |used| == H.n && MapRange(vmap, H.n)
  {
    && (forall u :: 0 <= u < G.n && vmap[u] != -1 ==> used[vmap[u]])
    && (forall u, v :: 0 <= u < G.n && 0 <= v < G.n && u != v && vmap[u] != -1 ==> vmap[u] != vmap[v])
    && (forall u, v :: 0 <= u < G.n && 0 <= v < G.n && vmap[u] != -1 && vmap[v] != -1 && G.matrix[u][v] != 0
                       ==> H.matrix[vmap[u]][vmap[v]] != 0)
    && Assigned(vmap) == mapped
  }

  /** Accepting an admissible candidate keeps the invariant. */
  lemma AcceptKeepsPartial(G: Graph, H: Graph, vmap: seq<int>, used: seq<bool>, adjH: seq<bool>,
                           mapped: nat, n: nat, has: bool, m: nat)
    requires Undirected(G) && Undirected(H)
    requires |vmap| == G.n && |used| == H.n && |adjH| == H.n && MapRange(vmap, H.n)
    requires n < G.n && m < H.n && vmap[n] == -1
    requires Partial(G, H, vmap, used, mapped)
    requires Admissible(G, H, vmap, used, adjH, has, n, m)
    ensures MapRange(vmap[n := m], H.n)
    ensures Partial(G, H, vmap[n := m], used[m := true], mapped + 1)
  {
    var vmap', used' := vmap[n := m], used[m := true];
    forall u, v | 0 <= u < G.n && 0 <= v < G.n && u != v && vmap'[u] != -1
      ensures vmap'[u] != vmap'[v]
    {
      if u == n {
        if vmap[v] != -1 { assert used[vmap[v]]; }
      } else if v == n {
        assert used[vmap[u]];
      }
    }
    forall u, v | 0 <= u < G.n && 0 <= v < G.n && vmap'[u] != -1 && vmap'[v] != -1 && G.matrix[u][v] != 0
      ensures H.matrix[vmap'[u]][vmap'[v]] != 0
    {
      if u == n && v != n {
        assert vmap[v] != -1;
      } else if v == n && u != n {
        assert G.matrix[n][u] == G.matrix[u][n];
        assert H.matrix[m][vmap[u]] != 0;
        assert H.matrix[vmap[u]][m] == H.matrix[m][vmap[u]];
      }
    }
    AssignedUpdate(vmap, n, m);
  }

  /** A successful search from an invariant-respecting state ends in an embedding. */
  lemma {:induction false} SearchSound(G: Graph, H: Graph, vmap: seq<int>, used: seq<bool>,
                                       adjG: seq<bool>, adjH: seq<bool>, mapped: nat)
    requires Undirected(G) && Undirected(H)
    requires SearchShape(G, H, vmap, used, adjG, adjH, mapped)
    requires Partial(G, H, vmap, used, mapped)
    requires Search(G, H, vmap, used, adjG, adjH, mapped).Some?
    ensures IsEmbedding(G, H, Search(G, H, vmap, used, adjG, adjH, mapped).value)
    decreases G.n - mapped, H.n + 1
  {
    if mapped == G.n {
      AssignedFull(vmap);
    } else {
      var n := Choose(adjG, vmap);
      TrySound(G, H, vmap, used, adjG, adjH, mapped, n, HasAdjH(adjH, used), 0);
    }
  }

  lemma {:induction false} TrySound(G: Graph, H: Graph, vmap: seq<int>, used: seq<bool>,
                                    adjG: seq<bool>, adjH: seq<bool>, mapped: nat,
                                    n: nat, has: bool, m: nat)
    requires Undirected(G) && Undirected(H)
    requires SearchShape(G, H, vmap, used, adjG, adjH, mapped)
    requires mapped < G.n && n < G.n && m <= H.n && vmap[n] == -1
    requires Partial(G, H, vmap, used, mapped)
    requires TryFrom(G, H, vmap, used, adjG, adjH, mapped, n, has, m).Some?
    ensures IsEmbedding(G, H, TryFrom(G, H, vmap, used, adjG, adjH, mapped, n, has, m).value)
    decreases G.n - mapped, H.n - m
  {
    if !Admissible(G, H, vmap, used, adjH, has, n, m) {
      TrySound(G, H, vmap, used, adjG, adjH, mapped, n, has, m + 1);
    } else {
      var vmap' := vmap[n := m];
      var used' := used[m := true];
      var adjG' := NewAdjG(adjG[n := false], G.adj[n], vmap');
      var adjH' := NewAdjH(adjH[m := false], H.adj[m], used');
      AcceptKeepsPartial(G, H, vmap, used, adjH, mapped, n, has, m);
      if Search(G, H, vmap', used', adjG', adjH', mapped + 1).Some? {
        SearchSound(G, H, vmap', used', adjG', adjH', mapped + 1);
      } else {
        TrySound(G, H, vmap, used, adjG, adjH, mapped, n, has, m + 1);
      }
    }
  }

  /** Soundness of the oracle: a positive answer means an embedding of G into H exists. */
  lemma SubIsoSound(G: Graph, H: Graph)
    requires Undirected(G) && Undirected(H)
    requires SubIso(G, H)
    ensures exists f :: IsEmbedding(G, H, f)
  {
    var vmap := Unmapped(G.n);
    AssignedNone(vmap);
    SearchSound(G, H, vmap, NoFlags(H.n), NoFlags(G.n), NoFlags(H.n), 0);
  }

  /** A map with no assigned entry counts zero. */
  lemma {:induction false} AssignedNone(s: seq<int>)
    requires forall i :: 0 <= i < |s| ==> s[i] == -1
    ensures Assigned(s) == 0
  {
    if s != [] {
      AssignedNone(s[..|s| - 1]);
    }
  }
}
