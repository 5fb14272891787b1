/**
 * k-core peeling (kcore.hpp), run by one worker.  Each vertex holds a 32-bit
 * degree that starts as its out-degree; the vertices of degree below k form
 * the first frontier.  A round reads the neighbours of every frontier vertex
 * through `for_each_active_batch` and decrements each neighbour's degree
 * once per edge; a neighbour whose degree drops from exactly k to k - 1
 * joins the next frontier.  On an undirected graph (every edge stored both
 * ways) the vertices left with degree at least k form the k-core: each of
 * them keeps at least k edges into the set, the final degree of every
 * vertex counts its edges into the set, and every set with that property
 * lies inside it.
 */
module KCore {
  import opened Csr
  import opened Window
  import opened Frontier
  import opened Batches
  import opened GraphKernel

  /**
   * A 32-bit decrement: 0 wraps round to 2^32 - 1.  A 32-bit increment
   * undoes it.
   */
  function Decrement32(x: nat): (r: nat)
    ensures x < UINT32_LIMIT ==> r < UINT32_LIMIT && (r + 1) % UINT32_LIMIT == x
    ensures x > 0 ==> r < x
  {
    if x == 0 then UINT32_LIMIT - 1 else x - 1
  }

  /**
   * `kcore_vertex::subtract_degree()`: `fetch_sub(1)` on the degree,
   * returning the degree before the decrement.
   */
  method SubtractDegree(degree: array<nat>, w: nat) returns (prev: nat)
    requires w < degree.Length
    modifies degree
    ensures prev == old(degree[w])
    ensures degree[..] == old(degree[..])[w := Decrement32(prev)]
  {
    prev := degree[w];
    degree[w] := Decrement32(prev);
  }

  // ---------------------------------------------------------------------
  // Counting edges
  // ---------------------------------------------------------------------

  /** The number of entries of s that lie in X. */
  ghost function Hits(s: seq<nat>, X: set<nat>): (r: nat)
    ensures r <= |s|
  {
    if s == [] then 0 else Hits(s[..|s| - 1], X) + if s[|s| - 1] in X then 1 else 0
  }

  /** No entry lies in the empty set. */
  lemma {:induction false} HitsNone(s: seq<nat>)
    ensures Hits(s, {}) == 0
  {
    if s != [] {
      HitsNone(s[..|s| - 1]);
    }
  }

  /** Adding v to X adds the entries equal to v. */
  lemma {:induction false} HitsAdd(s: seq<nat>, X: set<nat>, v: nat)
    requires v !in X
    ensures Hits(s, X + {v}) == Hits(s, X) + multiset(s)[v]
  {
    if s != [] {
      var init := s[..|s| - 1];
      HitsAdd(init, X, v);
      assert s == init + [s[|s| - 1]];
      assert multiset(s) == multiset(init) + multiset{s[|s| - 1]};
    }
  }

  /** Entries in two disjoint sets are counted apart, each at most once. */
  lemma {:induction false} HitsDisjoint(s: seq<nat>, X: set<nat>, Y: set<nat>)
    requires X !! Y
    ensures Hits(s, X) + Hits(s, Y) <= |s|
    ensures (forall j :: 0 <= j < |s| ==> s[j] in X + Y) ==> Hits(s, X) + Hits(s, Y) == |s|
  {
    if s != [] {
      HitsDisjoint(s[..|s| - 1], X, Y);
    }
  }

  /** Adding a set that no entry lies in changes nothing. */
  lemma {:induction false} HitsMissed(s: seq<nat>, X: set<nat>, E: set<nat>)
    requires forall j :: 0 <= j < |s| ==> s[j] !in E
    ensures Hits(s, X + E) == Hits(s, X)
  {
    if s != [] {
      HitsMissed(s[..|s| - 1], X, E);
    }
  }

  /** The number of edges from u to w. */
  ghost function Mult(t: Table, adj: seq<nat>, u: nat, w: nat): nat
    requires Valid(t) && |adj| == t.totalEdges && u < |t.offsets|
  {
    multiset(Neighbours(t, adj, u))[w]
  }

  /** Every edge is stored both ways, as often one way as the other. */
  ghost predicate Mirrored(t: Table, adj: seq<nat>)
    requires Valid(t) && |adj| == t.totalEdges
  {
    forall u: nat, w: nat {:trigger Mult(t, adj, u, w)} ::
      u < |t.offsets| && w < |t.offsets| ==> Mult(t, adj, u, w) == Mult(t, adj, w, u)
  }

  /** The edges of w that lead outside P. */
  ghost function Live(t: Table, adj: seq<nat>, w: nat, P: set<nat>): nat
    requires Valid(t) && |adj| == t.totalEdges && w < |t.offsets|
  {
    |Neighbours(t, adj, w)| - Hits(Neighbours(t, adj, w), P)
  }

  /** Every member of S is a vertex with at least k edges into S. */
  ghost predicate Dense(t: Table, adj: seq<nat>, S: set<nat>, k: nat)
    requires Valid(t) && |adj| == t.totalEdges
  {
    && (forall s :: s in S ==> s < |t.offsets|)
    && (forall s {:trigger Hits(Neighbours(t, adj, s), S)} :: s in S ==> Hits(Neighbours(t, adj, s), S) >= k)
  }

  /** The vertices whose degree is at least k. */
  ghost function Core(d: seq<nat>, k: nat): set<nat>
  {
    set u | 0 <= u < |d| && d[u] >= k
  }

  /**
   * Peeling v, which is not yet peeled, takes from each vertex w's live
   * edges the edges from w to v, which are as many as those from v to w.
   */
  lemma Absorb(t: Table, adj: seq<nat>, P: set<nat>, v: nat, w: nat)
    requires Graph(t, adj) && Mirrored(t, adj) && v < |t.offsets| && w < |t.offsets| && v !in P
    ensures Live(t, adj, w, P + {v}) + Mult(t, adj, v, w) == Live(t, adj, w, P)
  {
    HitsAdd(Neighbours(t, adj, w), P, v);
    assert Mult(t, adj, w, v) == Mult(t, adj, v, w);
  }

  /**
   * While v, not yet peeled, pushes, each vertex w still has live the edges
   * from w to v, and besides them its edges into any set S that avoids
   * both v and the peeled vertices.
   */
  lemma Reserve(t: Table, adj: seq<nat>, P: set<nat>, S: set<nat>, v: nat, w: nat)
    requires Graph(t, adj) && Mirrored(t, adj) && v < |t.offsets| && w < |t.offsets|
    requires v !in P && v !in S && S !! P
    ensures Live(t, adj, w, P) >= Mult(t, adj, v, w) + Hits(Neighbours(t, adj, w), S)
  {
    HitsAdd(Neighbours(t, adj, w), P, v);
    HitsDisjoint(Neighbours(t, adj, w), P + {v}, S);
    assert Mult(t, adj, w, v) == Mult(t, adj, v, w);
  }

  /** An edge back to a vertex means that vertex has an edge. */
  lemma EdgeBack(t: Table, adj: seq<nat>, w: nat, j: nat)
    requires Graph(t, adj) && Mirrored(t, adj) && w < |t.offsets| && j < NumEdges(t, w)
    ensures Neighbours(t, adj, w)[j] < |t.offsets| && NumEdges(t, Neighbours(t, adj, w)[j]) > 0
  {
    var s := Neighbours(t, adj, w);
    NeighboursAreVertices(t, adj, w);
    assert s[j] in multiset(s);
    assert Mult(t, adj, s[j], w) == Mult(t, adj, w, s[j]);
  }

  /** Peeling vertices without edges leaves every vertex's live edges as they were. */
  lemma PeelEdgeless(t: Table, adj: seq<nat>, P: set<nat>, E: set<nat>, w: nat)
    requires Graph(t, adj) && Mirrored(t, adj) && w < |t.offsets|
    requires forall e :: e in E ==> e < |t.offsets| && NumEdges(t, e) == 0
    ensures Live(t, adj, w, P + E) == Live(t, adj, w, P)
  {
    var s := Neighbours(t, adj, w);
    forall j | 0 <= j < |s|
      ensures s[j] !in E
    {
      EdgeBack(t, adj, w, j);
    }
    HitsMissed(s, P, E);
  }

  // ---------------------------------------------------------------------
  // A round
  // ---------------------------------------------------------------------

  /** The vertices of F below `upto`: the frontier vertices already pushed in this round. */
  ghost function Before(F: set<nat>, upto: nat): set<nat>
  {
    set v | v in F && v < upto
  }

  /**
   * What does not change during a round: the graph is undirected, S is a
   * set of vertices each with at least k edges into S, P0 (the vertices
   * peeled in earlier rounds) and F (this round's frontier) are disjoint
   * sets of vertices, and S avoids both.
   */
  ghost predicate Setting(t: Table, adj: seq<nat>, k: nat, F: set<nat>, P0: set<nat>, S: set<nat>)
  {
    && Graph(t, adj) && Mirrored(t, adj) && Dense(t, adj, S, k)
    && P0 !! F && S !! P0 + F
    && (forall v :: v in P0 + F ==> v < |t.offsets|)
  }

  /**
   * The degrees d and next frontier A of a round in progress, while
   * frontier vertex `upto` pushes or between pushes (then `owed` is
   * empty): the degree of each vertex plus the decrements still owed to it
   * by the current push is the number of its edges into vertices not yet
   * peeled; a vertex has degree below k exactly when it is peeled or in
   * this round's or the next frontier; the next frontier avoids the peeled
   * vertices, F and S.
   */
  ghost predicate Balance(t: Table, adj: seq<nat>, k: nat, d: seq<nat>, A: set<nat>,
                          F: set<nat>, P0: set<nat>, S: set<nat>, upto: nat, owed: seq<nat>)
    requires Graph(t, adj)
  {
    && |d| == |t.offsets|
    && A !! P0 + F && S !! A
    && (forall w {:trigger Owing(t, adj, d, w, P0, F, upto, owed)} ::
          0 <= w < |d| ==> Owing(t, adj, d, w, P0, F, upto, owed))
    && (forall w {:trigger Low(k, d, w, P0, F, A)} :: 0 <= w < |d| ==> Low(k, d, w, P0, F, A))
  }

  /** The degree of w plus what is owed to it counts w's edges to vertices not yet peeled. */
  ghost predicate Owing(t: Table, adj: seq<nat>, d: seq<nat>, w: nat, P0: set<nat>, F: set<nat>,
                        upto: nat, owed: seq<nat>)
    requires Graph(t, adj) && w < |d| == |t.offsets|
  {
    d[w] + multiset(owed)[w] == Live(t, adj, w, P0 + Before(F, upto))
  }

  /** The degree of w is below k exactly when w is in one of three sets. */
  ghost predicate Low(k: nat, d: seq<nat>, w: nat, X: set<nat>, Y: set<nat>, Z: set<nat>)
    requires w < |d|
  {
    d[w] < k <==> w in X || w in Y || w in Z
  }

  /** The state of a round in progress, held in the degree array and the next frontier. */
  ghost predicate Sweep(t: Table, adj: seq<nat>, k: nat, deg: array<nat>, next: Bitmap,
                        F: set<nat>, P0: set<nat>, S: set<nat>, upto: nat, owed: seq<nat>)
    reads deg, next, next.data
    requires Graph(t, adj)
  {
    && next.Valid() && next.size == |t.offsets| && next.Counted()
    && deg as object != next.data as object
    && Balance(t, adj, k, deg[..], next.Active(), F, P0, S, upto, owed)
  }

  /**
   * When frontier vertex v is about to count off its i-th edge, to w, the
   * degree of w is at least 1, and more than k when w is in S: w still has
   * its edges to v not yet counted off and its edges into S.
   */
  lemma Room(t: Table, adj: seq<nat>, k: nat, d: seq<nat>, A: set<nat>,
             F: set<nat>, P0: set<nat>, S: set<nat>, v: nat, edges: seq<nat>, i: nat)
    requires Setting(t, adj, k, F, P0, S) && v in F && edges == Neighbours(t, adj, v) && i < |edges|
    requires Balance(t, adj, k, d, A, F, P0, S, v, edges[..i])
    ensures edges[i] < |d| && d[edges[i]] >= 1 && (edges[i] in S ==> d[edges[i]] > k)
  {
    var w := edges[i];
    var P := P0 + Before(F, v);
    NeighboursAreVertices(t, adj, v);
    assert Owing(t, adj, d, w, P0, F, v, edges[..i]);
    assert v !in P && S !! P;
    Reserve(t, adj, P, S, v, w);
    PrefixCount(edges, i);
  }

  /** The entries of s before position i equal to s[i] are fewer than all of them. */
  lemma PrefixCount(s: seq<nat>, i: nat)
    requires i < |s|
    ensures multiset(s[..i])[s[i]] < multiset(s)[s[i]]
  {
    assert s == s[..i] + [s[i]] + s[i + 1..];
  }

  /**
   * Counting off the i-th edge of v, to w: w's degree drops by one and w
   * joins the next frontier exactly when its degree was k.
   */
  lemma Decremented(t: Table, adj: seq<nat>, k: nat, d: seq<nat>, A: set<nat>,
                    F: set<nat>, P0: set<nat>, S: set<nat>, v: nat, edges: seq<nat>, i: nat)
    requires Setting(t, adj, k, F, P0, S) && v in F && edges == Neighbours(t, adj, v) && i < |edges|
    requires Balance(t, adj, k, d, A, F, P0, S, v, edges[..i])
    ensures edges[i] < |d| && d[edges[i]] >= 1
    ensures Balance(t, adj, k, d[edges[i] := d[edges[i]] - 1], if d[edges[i]] == k then A + {edges[i]} else A,
                    F, P0, S, v, edges[..i + 1])
  {
    var w := edges[i];
    Room(t, adj, k, d, A, F, P0, S, v, edges, i);
    var d' := d[w := d[w] - 1];
    var A' := if d[w] == k then A + {w} else A;
    assert edges[..i + 1] == edges[..i] + [w];
    var owed := edges[..i + 1];
    assert multiset(owed) == multiset(edges[..i]) + multiset{w};
    forall u | 0 <= u < |d'|
      ensures Owing(t, adj, d', u, P0, F, v, owed)
    {
      assert Owing(t, adj, d, u, P0, F, v, edges[..i]);
    }
    assert Low(k, d, w, P0, F, A);
    forall u | 0 <= u < |d'|
      ensures Low(k, d', u, P0, F, A')
    {
      assert Low(k, d, u, P0, F, A);
    }
  }

  /**
   * One step of `kcore_push` for frontier vertex v: `subtract_degree` on
   * its i-th neighbour w and, when the degree was exactly k, `set_bit(w)`
   * in the next frontier.  The degree never wraps: w still has an edge to
   * v not yet counted off.
   */
  method Decrement(t: Table, adj: seq<nat>, k: nat, deg: array<nat>, next: Bitmap,
                   ghost F: set<nat>, ghost P0: set<nat>, ghost S: set<nat>, v: nat, edges: seq<nat>, i: nat)
    requires Setting(t, adj, k, F, P0, S) && v in F && edges == Neighbours(t, adj, v) && i < |edges|
    requires Sweep(t, adj, k, deg, next, F, P0, S, v, edges[..i])
    modifies deg, next`counters, next.data
    ensures Sweep(t, adj, k, deg, next, F, P0, S, v, edges[..i + 1])
  {
    var w := edges[i];
    Decremented(t, adj, k, deg[..], next.Active(), F, P0, S, v, edges, i);
    var prev := SubtractDegree(deg, w);
    if prev == k {
      var _ := next.SetBit(w, 0);
    }
  }

  /** Once v has pushed along all its edges, v is peeled. */
  lemma Pushed(t: Table, adj: seq<nat>, k: nat, d: seq<nat>, A: set<nat>,
               F: set<nat>, P0: set<nat>, S: set<nat>, v: nat, edges: seq<nat>)
    requires Setting(t, adj, k, F, P0, S) && v in F && edges == Neighbours(t, adj, v)
    requires Balance(t, adj, k, d, A, F, P0, S, v, edges)
    ensures Balance(t, adj, k, d, A, F, P0, S, v + 1, [])
  {
    var P := P0 + Before(F, v);
    assert P0 + Before(F, v + 1) == P + {v};
    var upto := v + 1;
    forall w | 0 <= w < |d|
      ensures Owing(t, adj, d, w, P0, F, upto, [])
    {
      assert Owing(t, adj, d, w, P0, F, v, edges);
      Absorb(t, adj, P, v, w);
    }
  }

  /** `kcore_push` for frontier vertex v: one decrement per edge. */
  method Push(t: Table, adj: seq<nat>, k: nat, deg: array<nat>, next: Bitmap,
              ghost F: set<nat>, ghost P0: set<nat>, ghost S: set<nat>, v: nat, edges: seq<nat>)
    requires Setting(t, adj, k, F, P0, S) && v in F && edges == Neighbours(t, adj, v)
    requires Sweep(t, adj, k, deg, next, F, P0, S, v, [])
    modifies deg, next`counters, next.data
    ensures Sweep(t, adj, k, deg, next, F, P0, S, v + 1, [])
  {
    var i := 0;
    assert edges[..0] == [];
    while i < |edges|
      invariant 0 <= i <= |edges|
      invariant Sweep(t, adj, k, deg, next, F, P0, S, v, edges[..i])
    {
      Decrement(t, adj, k, deg, next, F, P0, S, v, edges, i);
      i := i + 1;
    }
    assert edges[..i] == edges;
    Pushed(t, adj, k, deg[..], next.Active(), F, P0, S, v, edges);
  }

  /** Frontier vertices without edges are peeled without a push. */
  lemma SkipEdgeless(t: Table, adj: seq<nat>, k: nat, d: seq<nat>, A: set<nat>,
                     F: set<nat>, P0: set<nat>, S: set<nat>, a: nat, b: nat)
    requires Setting(t, adj, k, F, P0, S) && a <= b
    requires Balance(t, adj, k, d, A, F, P0, S, a, [])
    requires forall u :: a <= u < b && u in F && u < |t.offsets| ==> NumEdges(t, u) == 0
    ensures Balance(t, adj, k, d, A, F, P0, S, b, [])
  {
    var E := set u | u in F && a <= u < b;
    assert P0 + Before(F, b) == (P0 + Before(F, a)) + E;
    forall w | 0 <= w < |d|
      ensures Owing(t, adj, d, w, P0, F, b, [])
    {
      assert Owing(t, adj, d, w, P0, F, a, []);
      PeelEdgeless(t, adj, P0 + Before(F, a), E, w);
    }
  }

  /**
   * Between the trace's j-th call and the vertex b (the next call, or the
   * end), the frontier vertices have no edges: the sweep moves up to b.
   */
  lemma SkipGap(t: Table, adj: seq<nat>, k: nat, d: seq<nat>, A: set<nat>,
                F: set<nat>, P0: set<nat>, S: set<nat>, trace: seq<Call>, j: nat, b: nat)
    requires Setting(t, adj, k, F, P0, S) && j <= |trace| && FrontierTrace(t, adj, F, trace)
    requires Balance(t, adj, k, d, A, F, P0, S, Upto(trace, j), [])
    requires Upto(trace, j) <= b && (j < |trace| ==> b <= trace[j].v)
    ensures Balance(t, adj, k, d, A, F, P0, S, b, [])
  {
    GapEdgeless(t, adj, F, trace, j, b);
    SkipEdgeless(t, adj, k, d, A, F, P0, S, Upto(trace, j), b);
  }

  /** The j-th call of a round's trace: `kcore_push` on its vertex and neighbours. */
  method ExpandStep(t: Table, adj: seq<nat>, k: nat, deg: array<nat>, next: Bitmap,
                    ghost F: set<nat>, ghost P0: set<nat>, ghost S: set<nat>, trace: seq<Call>, j: nat)
    requires Setting(t, adj, k, F, P0, S) && j < |trace| && FrontierTrace(t, adj, F, trace)
    requires Sweep(t, adj, k, deg, next, F, P0, S, Upto(trace, j), [])
    modifies deg, next`counters, next.data
    ensures Sweep(t, adj, k, deg, next, F, P0, S, Upto(trace, j + 1), [])
  {
    assert Visits(t, adj, trace[j]);
    var v := trace[j].v;
    SkipGap(t, adj, k, deg[..], next.Active(), F, P0, S, trace, j, v);
    assert Called(trace, v);
    Push(t, adj, k, deg, next, F, P0, S, v, trace[j].edges);
    assert Upto(trace, j + 1) == v + 1;
  }

  /**
   * One round of pushes: `kcore_push` applied, in order, to every call of
   * the trace over frontier F.  Afterwards every vertex of F is peeled.
   */
  method Expand(t: Table, adj: seq<nat>, k: nat, deg: array<nat>, next: Bitmap,
                ghost F: set<nat>, ghost P0: set<nat>, ghost S: set<nat>, trace: seq<Call>)
    requires Setting(t, adj, k, F, P0, S) && FrontierTrace(t, adj, F, trace)
    requires Sweep(t, adj, k, deg, next, F, P0, S, 0, [])
    modifies deg, next`counters, next.data
    ensures Sweep(t, adj, k, deg, next, F, P0, S, |t.offsets|, [])
  {
    var j := 0;
    while j < |trace|
      invariant 0 <= j <= |trace|
      invariant Sweep(t, adj, k, deg, next, F, P0, S, Upto(trace, j), [])
    {
      ExpandStep(t, adj, k, deg, next, F, P0, S, trace, j);
      j := j + 1;
    }
    UptoInRange(t, adj, F, trace, j);
    SkipGap(t, adj, k, deg[..], next.Active(), F, P0, S, trace, j, |t.offsets|);
  }

  // ---------------------------------------------------------------------
  // The round loop
  // ---------------------------------------------------------------------

  /**
   * The degrees d and frontier F at the head of the round loop, with P the
   * vertices peeled so far: the degree of each vertex is the number of its
   * edges into vertices not peeled; a vertex has degree below k exactly
   * when it is peeled or in the frontier; the frontier avoids P and S
   * avoids both.
   */
  ghost predicate Levels(t: Table, adj: seq<nat>, k: nat, d: seq<nat>, F: set<nat>, P: set<nat>, S: set<nat>)
    requires Graph(t, adj)
  {
    && |d| == |t.offsets|
    && (forall v :: v in P ==> v < |t.offsets|)
    && P !! F && S !! P + F
    && (forall w {:trigger Level(t, adj, k, d, w, P, F)} :: 0 <= w < |d| ==> Level(t, adj, k, d, w, P, F))
  }

  /**
   * The degree of w counts its edges to vertices outside P, and is below k
   * exactly when w is in P or F.
   */
  ghost predicate Level(t: Table, adj: seq<nat>, k: nat, d: seq<nat>, w: nat, P: set<nat>, F: set<nat>)
    requires Graph(t, adj) && w < |d| == |t.offsets|
  {
    d[w] == Live(t, adj, w, P) && (d[w] < k <==> w in P || w in F)
  }

  /** The arrays of the round loop, their sizes and that none aliases another. */
  ghost predicate Arrays(t: Table, deg: array<nat>, frontier: Bitmap, next: Bitmap, buf: array<nat>)
    reads frontier, next
  {
    && Valid(t) && deg.Length == |t.offsets| && buf.Length > 0 && Addressable(buf.Length)
    && (forall v :: 0 <= v < |t.offsets| ==> NumEdges(t, v) <= buf.Length)
    && frontier.Valid() && frontier.size == |t.offsets|
    && next.Valid() && next.size == |t.offsets|
    && frontier != next && frontier.data != next.data
    && buf as object != frontier.data as object && buf as object != next.data as object
    && deg as object != frontier.data as object && deg as object != next.data as object
    && deg != buf
  }

  /** The state at the head of the round loop; the next frontier is empty. */
  ghost predicate Peeling(t: Table, adj: seq<nat>, k: nat, deg: array<nat>, frontier: Bitmap, next: Bitmap,
                          buf: array<nat>, P: set<nat>, S: set<nat>)
    reads deg, frontier, next, frontier.data, next.data
    requires Graph(t, adj)
  {
    && Arrays(t, deg, frontier, next, buf)
    && frontier.Counted() && next.Counted()
    && Levels(t, adj, k, deg[..], frontier.Active(), P, S)
    && next.Active() == {}
  }

  /** The frontier holds vertices only. */
  lemma ActiveBelow(b: Bitmap)
    requires b.Sized()
    ensures forall v :: v in b.Active() ==> v < b.size
  {
  }

  /** At the start of a round the sweep has pushed nothing and the next frontier is empty. */
  lemma Begin(t: Table, adj: seq<nat>, k: nat, d: seq<nat>, F: set<nat>, P: set<nat>, S: set<nat>)
    requires Graph(t, adj) && Mirrored(t, adj) && Dense(t, adj, S, k)
    requires Levels(t, adj, k, d, F, P, S) && forall v :: v in F ==> v < |t.offsets|
    ensures Setting(t, adj, k, F, P, S) && Balance(t, adj, k, d, {}, F, P, S, 0, [])
  {
    assert P + Before(F, 0) == P;
    forall w | 0 <= w < |d|
      ensures Owing(t, adj, d, w, P, F, 0, []) && Low(k, d, w, P, F, {})
    {
      assert Level(t, adj, k, d, w, P, F);
    }
  }

  /** At the end of a round the frontier is peeled and the next frontier is the new one. */
  lemma Finish(t: Table, adj: seq<nat>, k: nat, d: seq<nat>, A: set<nat>, F: set<nat>, P: set<nat>, S: set<nat>)
    requires Setting(t, adj, k, F, P, S) && Balance(t, adj, k, d, A, F, P, S, |t.offsets|, [])
    ensures Levels(t, adj, k, d, A, P + F, S)
  {
    assert Before(F, |t.offsets|) == F;
    forall w | 0 <= w < |d|
      ensures Level(t, adj, k, d, w, P + F, A)
    {
      assert Owing(t, adj, d, w, P, F, |t.offsets|, []) && Low(k, d, w, P, F, A);
    }
  }

  /**
   * The pushes of one round: `for_each_active_batch` with `kcore_push`
   * over the frontier.  Afterwards the frontier is peeled and the next
   * frontier holds the vertices whose degree dropped below k.
   */
  method Pass(t: Table, adj: seq<nat>, k: nat, deg: array<nat>, frontier: Bitmap, next: Bitmap,
              buf: array<nat>, window: nat, peer: Peer, coalescing: bool, ghost P: set<nat>, ghost S: set<nat>)
    requires Graph(t, adj) && Mirrored(t, adj) && Dense(t, adj, S, k) && window > 0
    requires Peeling(t, adj, k, deg, frontier, next, buf, P, S)
    modifies deg, next`counters, next.data, buf
    ensures next.Valid() && next.Counted()
    ensures Levels(t, adj, k, deg[..], next.Active(), P + frontier.Active(), S)
  {
    var trace := ActivePass(t, adj, frontier, window, peer, coalescing, buf);
    ghost var F := frontier.Active();
    ActiveBelow(frontier);
    Begin(t, adj, k, deg[..], F, P, S);
    Expand(t, adj, k, deg, next, F, P, S, trace);
    Finish(t, adj, k, deg[..], next.Active(), F, P, S);
  }

  /**
   * One iteration of the kernel's loop: the pushes over the frontier, then
   * `clear()`.  The frontier is peeled and the next frontier, to be
   * swapped in, holds the vertices whose degree dropped below k in this
   * round; fewer vertices are left unpeeled.
   */
  method Round(t: Table, adj: seq<nat>, k: nat, deg: array<nat>, frontier: Bitmap, next: Bitmap,
               buf: array<nat>, window: nat, peer: Peer, coalescing: bool, ghost P: set<nat>, ghost S: set<nat>)
    requires Graph(t, adj) && Mirrored(t, adj) && Dense(t, adj, S, k) && window > 0
    requires Peeling(t, adj, k, deg, frontier, next, buf, P, S) && !frontier.IsEmpty()
    modifies deg, frontier`counters, frontier.data, next`counters, next.data, buf
    ensures Peeling(t, adj, k, deg, next, frontier, buf, P + old(frontier.Active()), S)
    ensures |Below(|t.offsets|) - (P + old(frontier.Active()))| < |Below(|t.offsets|) - P|
  {
    ghost var F := frontier.Active();
    ActiveBelow(frontier);
    EmptyIffNoneActive(frontier);
    Shrinks(|t.offsets|, P, F);
    Pass(t, adj, k, deg, frontier, next, buf, window, peer, coalescing, P, S);
    frontier.Clear();
  }

  /** Peeling a non-empty set of vertices not yet peeled leaves fewer unpeeled. */
  lemma Shrinks(n: nat, P: set<nat>, F: set<nat>)
    requires F != {} && F !! P && forall v :: v in F ==> v < n
    ensures |Below(n) - (P + F)| < |Below(n) - P|
  {
    BelowMembers(n);
    var v :| v in F;
    var U := Below(n) - P;
    assert v in U * F;
    assert Below(n) - (P + F) == U - F;
    assert (U - F) + U * F == U && (U - F) * (U * F) == {};
  }

  /**
   * The set-up loop of the kernel: every degree set to the out-degree,
   * `get_num_edges(v)`, and every vertex of degree below k set in the
   * frontier.
   */
  method InitDegrees(t: Table, k: nat, frontier: Bitmap) returns (deg: array<nat>)
    requires Valid(t) && frontier.Valid() && frontier.size == |t.offsets| && frontier.Counted()
    requires frontier.Active() == {}
    modifies frontier`counters, frontier.data
    ensures fresh(deg) && deg.Length == |t.offsets| && frontier.Valid() && frontier.Counted()
    ensures forall v :: 0 <= v < |t.offsets| ==> deg[v] == NumEdges(t, v)
    ensures frontier.Active() == Lows(t, k, |t.offsets|)
  {
    var n := |t.offsets|;
    deg := new nat[n];
    for v := 0 to n
      invariant frontier.Valid() && frontier.Counted()
      invariant forall u :: 0 <= u < v ==> deg[u] == NumEdges(t, u)
      invariant frontier.Active() == Lows(t, k, v)
    {
      InitVertex(t, k, deg, frontier, v);
    }
  }

  /** The vertices below v whose out-degree is below k. */
  ghost function Lows(t: Table, k: nat, v: nat): set<nat>
    requires Valid(t) && v <= |t.offsets|
  {
    set u | 0 <= u < v && NumEdges(t, u) < k
  }

  /** Passing vertex v adds v to the low vertices when its out-degree is below k. */
  lemma LowsNext(t: Table, k: nat, v: nat)
    requires Valid(t) && v < |t.offsets|
    ensures Lows(t, k, v + 1) == Lows(t, k, v) + if NumEdges(t, v) < k then {v} else {}
  {
  }

  /** One iteration of the set-up loop, for vertex v. */
  method InitVertex(t: Table, k: nat, deg: array<nat>, frontier: Bitmap, v: nat)
    requires Valid(t) && frontier.Valid() && frontier.Counted() && v < |t.offsets| == deg.Length == frontier.size
    requires deg as object != frontier.data as object
    requires forall u :: 0 <= u < v ==> deg[u] == NumEdges(t, u)
    requires frontier.Active() == Lows(t, k, v)
    modifies deg, frontier`counters, frontier.data
    ensures frontier.Valid() && frontier.Counted()
    ensures forall u :: 0 <= u < v + 1 ==> deg[u] == NumEdges(t, u)
    ensures frontier.Active() == Lows(t, k, v + 1)
  {
    var d: nat := NumEdges(t, v);
    LowsNext(t, k, v);
    if d < k {
      var _ := frontier.SetBit(v, 0);
    }
    ghost var before := deg[..];
    deg[v] := d;
    assert deg[..] == before[v := d];
  }

  /** Before any round the degrees count every edge, and S avoids the first frontier. */
  lemma Initial(t: Table, adj: seq<nat>, k: nat, d: seq<nat>, F: set<nat>, S: set<nat>)
    requires Graph(t, adj) && Dense(t, adj, S, k) && |d| == |t.offsets|
    requires forall v :: 0 <= v < |t.offsets| ==> d[v] == NumEdges(t, v)
    requires F == Lows(t, k, |t.offsets|)
    ensures Levels(t, adj, k, d, F, {}, S)
  {

    forall s | s in S
      ensures s !in F
    {
      assert Hits(Neighbours(t, adj, s), S) >= k;
    }
    forall w | 0 <= w < |d|
      ensures Level(t, adj, k, d, w, {}, F)
    {
      HitsNone(Neighbours(t, adj, w));
    }
  }

  /**
   * The set-up before the round loop: two cleared frontiers, every degree
   * set to the out-degree and the vertices of degree below k in the
   * frontier.
   */
  method Setup(t: Table, adj: seq<nat>, k: nat, buf: array<nat>, ghost S: set<nat>)
    returns (deg: array<nat>, frontier: Bitmap, next: Bitmap)
    requires Graph(t, adj) && Dense(t, adj, S, k)
    requires buf.Length > 0 && Addressable(buf.Length) && forall v :: 0 <= v < |t.offsets| ==> NumEdges(t, v) <= buf.Length
    ensures fresh(frontier) && fresh(next) && fresh(frontier.data) && fresh(next.data) && fresh(deg)
    ensures Peeling(t, adj, k, deg, frontier, next, buf, {}, S)
  {
    var n := |t.offsets|;
    frontier := new Bitmap.Zeroed(n, 1);
    next := new Bitmap.Zeroed(n, 1);
    deg := InitDegrees(t, k, frontier);
    Initial(t, adj, k, deg[..], frontier.Active(), S);
  }

  /**
   * At the end, when the frontier is empty, the peeled vertices are exactly
   * those of degree below k, so the degree of every vertex counts its edges
   * into the core.
   */
  lemma Finished(t: Table, adj: seq<nat>, k: nat, d: seq<nat>, P: set<nat>, S: set<nat>)
    requires Graph(t, adj) && Dense(t, adj, S, k) && Levels(t, adj, k, d, {}, P, S)
    ensures forall w :: 0 <= w < |t.offsets| ==> d[w] == Hits(Neighbours(t, adj, w), Core(d, k))
    ensures S <= Core(d, k)
  {
    forall u | u in P
      ensures u !in Core(d, k)
    {
      assert Level(t, adj, k, d, u, P, {});
    }
    forall w | 0 <= w < |t.offsets|
      ensures d[w] == Hits(Neighbours(t, adj, w), Core(d, k))
    {
      var s := Neighbours(t, adj, w);
      NeighboursAreVertices(t, adj, w);
      assert Level(t, adj, k, d, w, P, {});
      forall j | 0 <= j < |s|
        ensures s[j] in P + Core(d, k)
      {
        assert Level(t, adj, k, d, s[j], P, {});
      }
      HitsDisjoint(s, P, Core(d, k));
    }
    forall u | u in S
      ensures u in Core(d, k)
    {
      assert u < |d| && u !in P;
      assert Level(t, adj, k, d, u, P, {});
    }
  }

  /**
   * The round loop of `kcore_kernel::operator()`: rounds run while the
   * frontier is not empty, swapping the two frontiers after each.  When it
   * stops, the vertices peeled are exactly those of degree below k.
   */
  method Peel(t: Table, adj: seq<nat>, k: nat, deg: array<nat>, frontier0: Bitmap, next0: Bitmap,
              buf: array<nat>, window: nat, peer: Peer, coalescing: bool, ghost S: set<nat>)
    returns (ghost P: set<nat>)
    requires Graph(t, adj) && Mirrored(t, adj) && Dense(t, adj, S, k) && window > 0
    requires Peeling(t, adj, k, deg, frontier0, next0, buf, {}, S)
    modifies deg, frontier0`counters, frontier0.data, next0`counters, next0.data, buf
    ensures Levels(t, adj, k, deg[..], {}, P, S)
  {
    var frontier, next := frontier0, next0;
    P := {};
    while !frontier.IsEmpty()
      invariant (frontier == frontier0 && next == next0) || (frontier == next0 && next == frontier0)
      invariant Peeling(t, adj, k, deg, frontier, next, buf, P, S)
      decreases |Below(|t.offsets|) - P|
    {
      ghost var F := frontier.Active();
      Round(t, adj, k, deg, frontier, next, buf, window, peer, coalescing, P, S);
      P := P + F;
      frontier, next := next, frontier;
    }
    EmptyIffNoneActive(frontier);
  }

  /**
   * `kcore_kernel::operator()`: set the degrees and the first frontier,
   * then run rounds while the frontier is not empty.  On an undirected
   * graph, when the loop stops the degree of every vertex is the number of
   * its edges into the core (the vertices of degree at least k), and every
   * set S of vertices each with at least k edges into S lies in the core.
   */
  method Run(t: Table, adj: seq<nat>, k: nat, edgeWindow: nat, window: nat, peer: Peer, coalescing: bool,
             ghost S: set<nat>)
    returns (deg: array<nat>)
    requires Graph(t, adj) && Mirrored(t, adj) && window > 0 && Addressable(KernelBufferSize(t, edgeWindow))
    requires Dense(t, adj, S, k)
    ensures deg.Length == |t.offsets|
    ensures forall w :: 0 <= w < |t.offsets| ==> deg[w] == Hits(Neighbours(t, adj, w), Core(deg[..], k))
    ensures S <= Core(deg[..], k)
    ensures Dense(t, adj, Core(deg[..], k), k)
  {
    var buf := KernelBuffer(t, edgeWindow);
    var frontier, next;
    deg, frontier, next := Setup(t, adj, k, buf, S);
    ghost var P := Peel(t, adj, k, deg, frontier, next, buf, window, peer, coalescing, S);
    Finished(t, adj, k, deg[..], P, S);
    CoreIsDense(t, adj, k, deg[..]);
  }

  /** The vertices left form a k-core: each has at least k edges into the set. */
  lemma CoreIsDense(t: Table, adj: seq<nat>, k: nat, d: seq<nat>)
    requires Graph(t, adj) && |d| == |t.offsets|
    requires forall w :: 0 <= w < |t.offsets| ==> d[w] == Hits(Neighbours(t, adj, w), Core(d, k))
    ensures Dense(t, adj, Core(d, k), k)
  {
  }

  /**
   * `kth_core_membership`: the number of vertices whose degree is at least
   * k, as the reduction over the vertex range sums it.
   */
  method Membership(deg: array<nat>, k: nat) returns (count: nat)
    ensures count == |Core(deg[..], k)| && count <= deg.Length
  {
    count := 0;
    var i := 0;
    while i < deg.Length
      invariant 0 <= i <= deg.Length
      invariant count == |Core(deg[..i], k)| && count <= i
    {
      assert deg[..i + 1] == deg[..i] + [deg[i]];
      if deg[i] >= k {
        assert Core(deg[..i + 1], k) == Core(deg[..i], k) + {i};
        count := count + 1;
      } else {
        assert Core(deg[..i + 1], k) == Core(deg[..i], k);
      }
      i := i + 1;
    }
    assert deg[..i] == deg[..];
  }
}
