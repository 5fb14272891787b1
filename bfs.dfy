/**
 * Breadth-first search (bfs.hpp), run by one worker.  Each vertex holds a
 * 32-bit value that starts as NULLVERT and is claimed once, by the first
 * push that reaches it, with the current round number; the start vertex is
 * claimed with 0 before the first round.  A round reads the neighbours of
 * every vertex in the frontier through `for_each_active_batch` and pushes
 * along them; claimed vertices form the next frontier.
 */
module Bfs {
  import opened Csr
  import opened Window
  import opened Frontier
  import opened Batches
  import opened GraphKernel

  /**
   * `bfs_vertex::update_atomic(value)`: a compare-and-swap from NULLVERT.
   * It succeeds exactly when the vertex is still unclaimed, and only then
   * stores the value.
   */
  method UpdateAtomic(table: array<nat>, w: nat, value: nat) returns (ok: bool)
    requires w < table.Length
    modifies table
    ensures ok <==> old(table[w]) == NULL_VERT
    ensures table[..] == if ok then old(table[..])[w := value] else old(table[..])
  {
    ok := table[w] == NULL_VERT;
    if ok {
      table[w] := value;
    }
  }

  /** A claimed vertex keeps its value: a second claim fails and stores nothing. */
  method ClaimTwice(table: array<nat>, w: nat, a: nat, b: nat) returns (first: bool, second: bool)
    requires w < table.Length && a != NULL_VERT
    modifies table
    ensures first <==> old(table[w]) == NULL_VERT
    ensures !second
    ensures table[w] == if first then a else old(table[w])
  {
    first := UpdateAtomic(table, w, a);
    second := UpdateAtomic(table, w, b);
  }

  /** The number of unclaimed vertices. */
  function Unreached(d: seq<nat>): (r: nat)
    ensures r <= |d|
  {
    if d == [] then 0 else Unreached(d[..|d| - 1]) + (if d[|d| - 1] == NULL_VERT then 1 else 0)
  }

  lemma {:induction false} AllUnreached(d: seq<nat>)
    requires forall v :: 0 <= v < |d| ==> d[v] == NULL_VERT
    ensures Unreached(d) == |d|
  {
    if d != [] {
      AllUnreached(d[..|d| - 1]);
    }
  }

  /** Claiming an unclaimed vertex leaves one fewer unclaimed. */
  lemma {:induction false} ClaimCounts(d: seq<nat>, w: nat, x: nat)
    requires w < |d| && d[w] == NULL_VERT && x != NULL_VERT
    ensures Unreached(d[w := x]) + 1 == Unreached(d)
  {
    var e := d[w := x];
    if w == |d| - 1 {
      assert e[..|e| - 1] == d[..|d| - 1];
    } else {
      assert e[..|e| - 1] == d[..|d| - 1][w := x];
      ClaimCounts(d[..|d| - 1], w, x);
    }
  }

  /** Every edge out of u leads to a claimed vertex at most one round later than u. */
  ghost predicate Relaxed(t: Table, adj: seq<nat>, d: seq<nat>, u: nat)
    requires Valid(t) && |adj| == t.totalEdges && |d| == |t.offsets| && u < |d|
  {
    forall w: nat :: Edge(t, adj, u, w) ==> d[w] != NULL_VERT && d[w] <= d[u] + 1
  }

  /** Vertex w holds a value. */
  ghost predicate Claimed(d: seq<nat>, w: nat)
  {
    w < |d| && d[w] != NULL_VERT
  }

  /** Every claimed vertex but the start was claimed from a neighbour one round earlier. */
  ghost predicate Witnessed(t: Table, adj: seq<nat>, start: nat, d: seq<nat>)
    requires Valid(t) && |adj| == t.totalEdges && |d| == |t.offsets|
  {
    forall w: nat {:trigger Claimed(d, w)} :: Claimed(d, w) && w != start ==>
      exists v :: 0 <= v < |d| && d[v] != NULL_VERT && Edge(t, adj, v, w) && d[w] == d[v] + 1
  }

  /**
   * The state of the search: the start holds 0, no value exceeds `round`,
   * the vertices claimed before round `below`, and those of round `below`
   * below `upto`, have pushed to all their neighbours, and every claim has a
   * witness.
   */
  ghost predicate Layers(t: Table, adj: seq<nat>, start: nat, d: seq<nat>, round: nat, below: nat, upto: nat)
    requires Valid(t) && |adj| == t.totalEdges && |d| == |t.offsets|
  {
    && start < |d| && d[start] == 0
    && (forall v :: 0 <= v < |d| && d[v] != NULL_VERT ==> d[v] <= round)
    && (forall v :: 0 <= v < |d| && d[v] != NULL_VERT && (d[v] < below || (d[v] == below && v < upto)) ==>
          Relaxed(t, adj, d, v))
    && Witnessed(t, adj, start, d)
  }

  /** `e` keeps every claim of `d` and makes new claims only with `x`. */
  ghost predicate Grows(d: seq<nat>, e: seq<nat>, x: nat)
  {
    && |d| == |e|
    && (forall v :: 0 <= v < |d| && d[v] != NULL_VERT ==> e[v] == d[v])
    && (forall v :: 0 <= v < |d| && d[v] == NULL_VERT ==> e[v] == NULL_VERT || e[v] == x)
  }

  /** The vertices holding the value r: the frontier of round r. */
  ghost function Layer(d: seq<nat>, r: nat): set<nat>
  {
    set u: nat | u < |d| && d[u] != NULL_VERT && d[u] == r
  }

  /** A claim with r adds the vertex to layer r and leaves every other layer alone. */
  lemma LayerClaim(d: seq<nat>, w: nat, r: nat, q: nat)
    requires w < |d| && d[w] == NULL_VERT && r != NULL_VERT
    ensures Layer(d[w := r], r) == Layer(d, r) + {w}
    ensures q != r ==> Layer(d[w := r], q) == Layer(d, q)
  {
  }

  /** A claim made from a claimed neighbour one round earlier keeps every claim witnessed. */
  lemma WitnessClaim(t: Table, adj: seq<nat>, start: nat, d: seq<nat>, round: nat, v: nat, w: nat)
    requires Valid(t) && |adj| == t.totalEdges && |d| == |t.offsets|
    requires Witnessed(t, adj, start, d)
    requires v < |d| && d[v] != NULL_VERT && d[v] + 1 == round && Edge(t, adj, v, w) && d[w] == NULL_VERT
    ensures Witnessed(t, adj, start, d[w := round])
  {
    var e := d[w := round];
    forall x: nat | Claimed(e, x) && x != start
      ensures exists u :: 0 <= u < |e| && e[u] != NULL_VERT && Edge(t, adj, u, x) && e[x] == e[u] + 1
    {
      if x == w {
        assert e[v] == d[v];
      } else {
        assert Claimed(d, x);
        var u :| 0 <= u < |d| && d[u] != NULL_VERT && Edge(t, adj, u, x) && d[x] == d[u] + 1;
        assert u != w;
        assert e[u] == d[u];
      }
    }
  }

  /** A vertex that has pushed to all its neighbours stays so when another vertex is claimed. */
  lemma RelaxedClaim(t: Table, adj: seq<nat>, d: seq<nat>, u: nat, w: nat, x: nat)
    requires Valid(t) && |adj| == t.totalEdges && |d| == |t.offsets|
    requires u < |d| && d[u] != NULL_VERT && Relaxed(t, adj, d, u) && w < |d| && d[w] == NULL_VERT
    ensures Relaxed(t, adj, d[w := x], u)
  {
  }

  /** Claiming w from v in round `round` keeps the search state and its count. */
  lemma ClaimStep(t: Table, adj: seq<nat>, start: nat, d: seq<nat>, round: nat, below: nat, upto: nat,
                  v: nat, w: nat)
    requires Valid(t) && |adj| == t.totalEdges && |d| == |t.offsets|
    requires Layers(t, adj, start, d, round, below, upto) && below < round && round != NULL_VERT
    requires v < |d| && d[v] != NULL_VERT && d[v] + 1 == round && Edge(t, adj, v, w)
    requires d[w] == NULL_VERT
    ensures Layers(t, adj, start, d[w := round], round, below, upto)
    ensures Grows(d, d[w := round], round)
    ensures Unreached(d[w := round]) + 1 == Unreached(d)
  {
    var e := d[w := round];
    ClaimCounts(d, w, round);
    WitnessClaim(t, adj, start, d, round, v, w);
    forall u | 0 <= u < |e| && e[u] != NULL_VERT && (e[u] < below || (e[u] == below && u < upto))
      ensures Relaxed(t, adj, e, u)
    {
      assert u != w;
      RelaxedClaim(t, adj, d, u, w, round);
    }
  }

  /** The first n vertices of s hold values of at most r. */
  ghost predicate Reaches(d: seq<nat>, s: seq<nat>, n: nat, r: nat)
    requires n <= |s|
  {
    forall j :: 0 <= j < n ==> Claimed(d, s[j]) && d[s[j]] <= r
  }

  lemma ReachesGrow(d: seq<nat>, e: seq<nat>, s: seq<nat>, n: nat, r: nat)
    requires n < |s| && Reaches(d, s, n, r) && Grows(d, e, r) && Claimed(e, s[n]) && e[s[n]] <= r
    ensures Reaches(e, s, n + 1, r)
  {
  }

  /**
   * One step of `bfs_push`: `update_atomic(round)` on neighbour w of v and,
   * when it succeeds, `set_bit(w)` in the next frontier.
   */
  method Claim(t: Table, adj: seq<nat>, start: nat, dist: array<nat>, next: Bitmap, round: nat,
               v: nat, w: nat)
    requires Valid(t) && |adj| == t.totalEdges && dist.Length == |t.offsets|
    requires next.Valid() && next.size == |t.offsets| && next.Counted()
    requires dist as object != next.data as object
    requires v < |t.offsets| && Edge(t, adj, v, w)
    requires dist[v] != NULL_VERT && dist[v] + 1 == round
    requires Layers(t, adj, start, dist[..], round, round - 1, v)
    requires next.Active() == Layer(dist[..], round)
    requires round + Unreached(dist[..]) <= |t.offsets| < UINT32_LIMIT
    modifies dist, next`counters, next.data
    ensures next.Valid() && next.Counted()
    ensures next.Active() == Layer(dist[..], round)
    ensures Layers(t, adj, start, dist[..], round, round - 1, v)
    ensures Grows(old(dist[..]), dist[..], round)
    ensures Claimed(dist[..], w) && dist[w] <= round
    ensures Unreached(dist[..]) + next.NumSet() == old(Unreached(dist[..])) + old(next.NumSet())
    ensures round + Unreached(dist[..]) <= |t.offsets|
  {
    ghost var d := dist[..];
    if dist[w] == NULL_VERT {
      assert round < NULL_VERT by {
        ClaimCounts(d, w, 0);
      }
      ClaimStep(t, adj, start, d, round, round - 1, v, v, w);
      LayerClaim(d, w, round, round);
    } else {
      assert d[w] <= round;
    }
    var ok := UpdateAtomic(dist, w, round);
    if ok {
      assert w !in Layer(d, round);
      var wasUnset := next.SetBit(w, 0);
      assert wasUnset;
    }
  }

  /** `bfs_push` for one vertex v of round `round - 1`: claims every unclaimed neighbour. */
  method Push(t: Table, adj: seq<nat>, start: nat, dist: array<nat>, next: Bitmap, round: nat,
              v: nat, edges: seq<nat>)
    requires Graph(t, adj) && dist.Length == |t.offsets|
    requires next.Valid() && next.size == |t.offsets| && next.Counted()
    requires dist as object != next.data as object
    requires v < |t.offsets| && edges == Neighbours(t, adj, v)
    requires dist[v] != NULL_VERT && dist[v] + 1 == round
    requires Layers(t, adj, start, dist[..], round, round - 1, v)
    requires next.Active() == Layer(dist[..], round)
    requires round + Unreached(dist[..]) <= |t.offsets|
    modifies dist, next`counters, next.data
    ensures next.Valid() && next.Counted()
    ensures next.Active() == Layer(dist[..], round)
    ensures Layers(t, adj, start, dist[..], round, round - 1, v + 1)
    ensures Grows(old(dist[..]), dist[..], round)
    ensures Unreached(dist[..]) + next.NumSet() == old(Unreached(dist[..])) + old(next.NumSet())
    ensures round + Unreached(dist[..]) <= |t.offsets|
  {
    NeighboursAreVertices(t, adj, v);
    var i := 0;
    while i < |edges|
      invariant 0 <= i <= |edges|
      invariant next.Valid() && next.Counted()
      invariant next.Active() == Layer(dist[..], round)
      invariant Layers(t, adj, start, dist[..], round, round - 1, v)
      invariant Grows(old(dist[..]), dist[..], round)
      invariant dist[v] == old(dist[v])
      invariant Reaches(dist[..], edges, i, round)
      invariant Unreached(dist[..]) + next.NumSet() == old(Unreached(dist[..])) + old(next.NumSet())
      invariant round + Unreached(dist[..]) <= |t.offsets|
    {
      EdgeAt(t, adj, v, i);
      ghost var d := dist[..];
      Claim(t, adj, start, dist, next, round, v, edges[i]);
      ReachesGrow(d, dist[..], edges, i, round);
      i := i + 1;
    }
    assert Relaxed(t, adj, dist[..], v);
  }

  /** Claims made with x leave every other layer as it was. */
  lemma LayerKept(d: seq<nat>, e: seq<nat>, x: nat, q: nat)
    requires Grows(d, e, x) && q != x
    ensures Layer(e, q) == Layer(d, q)
  {
  }

  /** A vertex of layer `below` without edges has pushed to all its neighbours already. */
  lemma SkipEdgeless(t: Table, adj: seq<nat>, start: nat, d: seq<nat>, round: nat, below: nat, a: nat, b: nat)
    requires Valid(t) && |adj| == t.totalEdges && |d| == |t.offsets|
    requires Layers(t, adj, start, d, round, below, a) && a <= b
    requires forall u :: a <= u < b && u in Layer(d, below) ==> NumEdges(t, u) == 0
    ensures Layers(t, adj, start, d, round, below, b)
  {
    forall u | 0 <= u < |d| && d[u] != NULL_VERT && d[u] == below && a <= u < b
      ensures Relaxed(t, adj, d, u)
    {
      assert u in Layer(d, below);
    }
  }

  /** The state of a round after k calls of its trace. */
  ghost predicate Expanding(t: Table, adj: seq<nat>, start: nat, d0: seq<nat>, d: seq<nat>, round: nat,
                            trace: seq<Call>, k: nat)
    requires Valid(t) && |adj| == t.totalEdges && |d| == |t.offsets| && k <= |trace|
  {
    && round > 0
    && Layers(t, adj, start, d, round, round - 1, Upto(trace, k))
    && Grows(d0, d, round)
    && round + Unreached(d) <= |t.offsets|
  }

  /** The k-th call of a round's trace: `bfs_push` on its vertex and neighbours. */
  method ExpandStep(t: Table, adj: seq<nat>, start: nat, dist: array<nat>, next: Bitmap, round: nat,
                    trace: seq<Call>, k: nat, ghost d0: seq<nat>)
    requires Graph(t, adj) && dist.Length == |t.offsets| && k < |trace| && |d0| == |t.offsets| && round > 0
    requires next.Valid() && next.size == |t.offsets| && next.Counted()
    requires dist as object != next.data as object
    requires FrontierTrace(t, adj, Layer(d0, round - 1), trace)
    requires Expanding(t, adj, start, d0, dist[..], round, trace, k)
    requires next.Active() == Layer(dist[..], round)
    modifies dist, next`counters, next.data
    ensures next.Valid() && next.Counted()
    ensures next.Active() == Layer(dist[..], round)
    ensures Expanding(t, adj, start, d0, dist[..], round, trace, k + 1)
    ensures Unreached(dist[..]) + next.NumSet() == old(Unreached(dist[..])) + old(next.NumSet())
  {
    assert Visits(t, adj, trace[k]);
    var v := trace[k].v;
    LayerKept(d0, dist[..], round, round - 1);
    GapEdgeless(t, adj, Layer(d0, round - 1), trace, k, v);
    SkipEdgeless(t, adj, start, dist[..], round, round - 1, Upto(trace, k), v);
    assert Called(trace, v);
    assert v in Layer(d0, round - 1);
    Push(t, adj, start, dist, next, round, v, trace[k].edges);
  }

  /**
   * One round of pushes: `bfs_push` applied, in order, to every call of the
   * trace of `for_each_active_batch` over layer `round - 1`.  Afterwards
   * every vertex of that layer has pushed to all its neighbours and the next
   * frontier is exactly layer `round`.
   */
  method Expand(t: Table, adj: seq<nat>, start: nat, dist: array<nat>, next: Bitmap, round: nat,
                trace: seq<Call>)
    requires Graph(t, adj) && dist.Length == |t.offsets| && round > 0
    requires next.Valid() && next.size == |t.offsets| && next.Counted()
    requires dist as object != next.data as object
    requires FrontierTrace(t, adj, Layer(dist[..], round - 1), trace)
    requires Layers(t, adj, start, dist[..], round, round - 1, 0)
    requires next.Active() == Layer(dist[..], round)
    requires round + Unreached(dist[..]) <= |t.offsets|
    modifies dist, next`counters, next.data
    ensures next.Valid() && next.Counted()
    ensures next.Active() == Layer(dist[..], round)
    ensures Layers(t, adj, start, dist[..], round, round, 0)
    ensures Unreached(dist[..]) + next.NumSet() == old(Unreached(dist[..])) + old(next.NumSet())
    ensures round + Unreached(dist[..]) <= |t.offsets|
  {
    ghost var d0 := dist[..];
    var k := 0;
    while k < |trace|
      invariant 0 <= k <= |trace|
      invariant next.Valid() && next.Counted()
      invariant next.Active() == Layer(dist[..], round)
      invariant Expanding(t, adj, start, d0, dist[..], round, trace, k)
      invariant Unreached(dist[..]) + next.NumSet() == old(Unreached(dist[..])) + old(next.NumSet())
    {
      ExpandStep(t, adj, start, dist, next, round, trace, k, d0);
      k := k + 1;
    }
    LayerKept(d0, dist[..], round, round - 1);
    UptoInRange(t, adj, Layer(d0, round - 1), trace, k);
    GapEdgeless(t, adj, Layer(d0, round - 1), trace, k, |t.offsets|);
    SkipEdgeless(t, adj, start, dist[..], round, round - 1, Upto(trace, k), |t.offsets|);
  }

  /** Before a round's pushes no vertex holds the new round number yet. */
  lemma NextRound(t: Table, adj: seq<nat>, start: nat, d: seq<nat>, r: nat)
    requires Valid(t) && |adj| == t.totalEdges && |d| == |t.offsets|
    requires Layers(t, adj, start, d, r, r, 0)
    ensures Layers(t, adj, start, d, r + 1, r, 0)
    ensures Layer(d, r + 1) == {}
  {
  }

  /** The state after the start vertex is claimed with 0 and set in the frontier. */
  lemma Started(t: Table, adj: seq<nat>, start: nat, d0: seq<nat>)
    requires Valid(t) && |adj| == t.totalEdges && |d0| == |t.offsets| && start < |d0|
    requires forall v :: 0 <= v < |d0| ==> d0[v] == NULL_VERT
    ensures Layers(t, adj, start, d0[start := 0], 0, 0, 0)
    ensures Layer(d0[start := 0], 0) == {start}
    ensures Unreached(d0[start := 0]) + 1 == |d0|
  {
    AllUnreached(d0);
    ClaimCounts(d0, start, 0);
  }

  /** With no vertex in layer r, every claimed vertex is below r and has pushed to all its neighbours. */
  lemma Finished(t: Table, adj: seq<nat>, start: nat, d: seq<nat>, r: nat)
    requires Valid(t) && |adj| == t.totalEdges && |d| == |t.offsets|
    requires Layers(t, adj, start, d, r, r, 0) && Layer(d, r) == {}
    ensures forall v :: 0 <= v < |d| && d[v] != NULL_VERT ==> d[v] < r && Relaxed(t, adj, d, v)
  {
    forall v | 0 <= v < |d| && d[v] != NULL_VERT
      ensures d[v] < r
    {
      assert v !in Layer(d, r);
    }
  }

  /**
   * The state at the head of the round loop: the frontier holds exactly the
   * vertices claimed in the last round, the next frontier is empty, the
   * search state holds, and the rounds run so far plus the unclaimed
   * vertices never exceed the vertex count.
   */
  ghost predicate Searching(t: Table, adj: seq<nat>, start: nat, dist: array<nat>, frontier: Bitmap, next: Bitmap,
                            buf: array<nat>, rounds: nat)
    reads dist, frontier, next, frontier.data, next.data
    requires Graph(t, adj)
  {
    && dist.Length == |t.offsets| && buf.Length > 0 && Addressable(buf.Length)
    && (forall v :: 0 <= v < |t.offsets| ==> NumEdges(t, v) <= buf.Length)
    && frontier.Valid() && frontier.size == |t.offsets| && frontier.Counted()
    && next.Valid() && next.size == |t.offsets| && next.Counted()
    && frontier != next && frontier.data != next.data
    && buf as object != frontier.data as object && buf as object != next.data as object
    && dist as object != frontier.data as object && dist as object != next.data as object
    && dist != buf
    && Layers(t, adj, start, dist[..], rounds, rounds, 0)
    && frontier.Active() == Layer(dist[..], rounds)
    && next.Active() == {}
    && rounds + (if frontier.IsEmpty() then 0 else 1) + Unreached(dist[..]) <= |t.offsets|
  }

  /**
   * One iteration of the round loop, before the swap: `for_each_active_batch`
   * over the frontier with `bfs_push`, then `frontier->clear()`.  The next
   * frontier is the new layer; the unclaimed vertices plus a non-empty next
   * frontier count less than before.
   */
  method Round(t: Table, adj: seq<nat>, start: nat, dist: array<nat>, frontier: Bitmap, next: Bitmap,
               buf: array<nat>, rounds: nat, window: nat, peer: Peer, coalescing: bool)
    requires Graph(t, adj) && window > 0
    requires Searching(t, adj, start, dist, frontier, next, buf, rounds) && !frontier.IsEmpty()
    modifies dist, buf, frontier`counters, frontier.data, next`counters, next.data
    ensures Searching(t, adj, start, dist, next, frontier, buf, rounds + 1)
    ensures Unreached(dist[..]) + (if next.IsEmpty() then 0 else 1) < old(Unreached(dist[..])) + 1
  {
    var trace := ActivePass(t, adj, frontier, window, peer, coalescing, buf);
    NextRound(t, adj, start, dist[..], rounds);
    Expand(t, adj, start, dist, next, rounds + 1, trace);
    frontier.Clear();
  }

  /**
   * A breadth-first labelling from the start: the start holds 0, every
   * claimed vertex has pushed to all its neighbours, and every other claim
   * has a witness one round closer.
   */
  ghost predicate BreadthFirst(t: Table, adj: seq<nat>, start: nat, d: seq<nat>)
    requires Valid(t) && |adj| == t.totalEdges && |d| == |t.offsets|
  {
    && start < |d| && d[start] == 0
    && (forall v :: 0 <= v < |d| && d[v] != NULL_VERT ==> Relaxed(t, adj, d, v))
    && Witnessed(t, adj, start, d)
  }

  /**
   * In a breadth-first labelling, every walk from the start ends at a
   * claimed vertex whose value is at most the walk's length: values are
   * never more than the distance from the start.
   */
  lemma {:induction false} WalkBound(t: Table, adj: seq<nat>, start: nat, d: seq<nat>, p: seq<nat>)
    requires Valid(t) && |adj| == t.totalEdges && |d| == |t.offsets|
    requires BreadthFirst(t, adj, start, d) && IsWalk(t, adj, p) && p[0] == start
    ensures Claimed(d, p[|p| - 1]) && d[p[|p| - 1]] <= |p| - 1
  {
    if |p| > 1 {
      var q := p[..|p| - 1];
      WalkPrefix(t, adj, p);
      WalkBound(t, adj, start, d, q);
      assert Relaxed(t, adj, d, p[|p| - 2]);
    }
  }

  /**
   * In a breadth-first labelling, every claimed vertex is the end of a walk
   * from the start exactly as long as its value: values are never less than
   * the distance from the start.
   */
  lemma {:induction false} WalkTo(t: Table, adj: seq<nat>, start: nat, d: seq<nat>, w: nat) returns (p: seq<nat>)
    requires Valid(t) && |adj| == t.totalEdges && |d| == |t.offsets|
    requires BreadthFirst(t, adj, start, d) && Claimed(d, w)
    ensures IsWalk(t, adj, p) && p[0] == start && p[|p| - 1] == w && |p| == d[w] + 1
    decreases d[w]
  {
    if w == start {
      p := [start];
    } else {
      var v :| 0 <= v < |d| && d[v] != NULL_VERT && Edge(t, adj, v, w) && d[w] == d[v] + 1;
      var q := WalkTo(t, adj, start, d, v);
      WalkExtend(t, adj, q, w);
      p := q + [w];
    }
  }

  /**
   * The set-up before the round loop: two cleared frontiers and a vertex
   * table of NULLVERT, then `set_bit(start_v)` and `update_atomic(0)` on the
   * start vertex.
   */
  method Setup(t: Table, adj: seq<nat>, start: nat, buf: array<nat>)
    returns (dist: array<nat>, frontier: Bitmap, next: Bitmap)
    requires Graph(t, adj) && start < |t.offsets|
    requires buf.Length > 0 && Addressable(buf.Length) && forall v :: 0 <= v < |t.offsets| ==> NumEdges(t, v) <= buf.Length
    ensures fresh(frontier) && fresh(next) && fresh(frontier.data) && fresh(next.data) && fresh(dist)
    ensures Searching(t, adj, start, dist, frontier, next, buf, 0)
  {
    var n := |t.offsets|;
    frontier := new Bitmap.Zeroed(n, 1);
    next := new Bitmap.Zeroed(n, 1);
    dist := new nat[n](_ => NULL_VERT);
    Started(t, adj, start, dist[..]);
    var _ := frontier.SetBit(start, 0);
    var _ := UpdateAtomic(dist, start, 0);
  }

  /**
   * `bfs_kernel::operator()`: claim the start vertex with 0 and set it in
   * the frontier, then run rounds while the frontier is not empty; round r
   * pushes from every frontier vertex, claims with r, then clears the
   * frontier and swaps it with the next one.  When the loop stops, every
   * claimed vertex has pushed to all its neighbours, every claim other than
   * the start's has a witness one round closer, and no value reaches the
   * round count.
   */
  method Run(t: Table, adj: seq<nat>, start: nat, edgeWindow: nat, window: nat, peer: Peer, coalescing: bool)
    returns (dist: array<nat>, rounds: nat)
    requires Graph(t, adj) && start < |t.offsets| && window > 0 && Addressable(KernelBufferSize(t, edgeWindow))
    ensures dist.Length == |t.offsets| && BreadthFirst(t, adj, start, dist[..])
    ensures forall v :: 0 <= v < |t.offsets| && dist[v] != NULL_VERT ==> dist[v] < rounds
    ensures 0 < rounds <= |t.offsets|
  {
    var buf := KernelBuffer(t, edgeWindow);
    var frontier, next;
    dist, frontier, next := Setup(t, adj, start, buf);
    rounds := 0;
    while !frontier.IsEmpty()
      invariant fresh(frontier) && fresh(next) && fresh(frontier.data) && fresh(next.data) && fresh(dist)
      invariant Searching(t, adj, start, dist, frontier, next, buf, rounds)
      decreases Unreached(dist[..]) + if frontier.IsEmpty() then 0 else 1
    {
      Round(t, adj, start, dist, frontier, next, buf, rounds, window, peer, coalescing);
      rounds := rounds + 1;
      frontier, next := next, frontier;
    }
    EmptyIffNoneActive(frontier);
    Finished(t, adj, start, dist[..], rounds);
    assert dist[start] == 0 < rounds;
  }
}
