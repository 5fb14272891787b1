/**
 * Connected components by label propagation (connected_components.hpp), run
 * by one worker.  Every vertex starts labelled with its own id; a round reads
 * the neighbours of every frontier vertex through `for_each_active_batch`
 * and offers them the vertex's label, which a neighbour takes only when it
 * is lower than its own.  Vertices whose label dropped form the next
 * frontier.  When no label drops, each vertex holds the least id from which
 * it can be reached.
 */
module ConnectedComponents {
  import opened Csr
  import opened Window
  import opened Frontier
  import opened Batches
  import opened GraphKernel

  /**
   * `connected_components_vertex::update_atomic(p)`: the compare-and-swap
   * loop guarded by `should_update(p)`.  Without other threads it stores p
   * exactly when p is below the current label, so the label becomes the
   * smaller of the two.
   */
  method UpdateAtomic(ids: array<nat>, w: nat, p: nat) returns (ok: bool)
    requires w < ids.Length
    modifies ids
    ensures ok <==> p < old(ids[w])
    ensures ids[..] == if ok then old(ids[..])[w := p] else old(ids[..])
    ensures ids[w] <= p && ids[w] <= old(ids[w]) && (ids[w] == p || ids[w] == old(ids[w]))
  {
    ok := p < ids[w];
    if ok {
      ids[w] := p;
    }
  }

  /** There is a walk along out-edges from a to b. */
  ghost predicate Reach(t: Table, adj: seq<nat>, a: nat, b: nat)
    requires Valid(t) && |adj| == t.totalEdges
  {
    exists p :: IsWalk(t, adj, p) && p[0] == a && p[|p| - 1] == b
  }

  /** Every label is at most its vertex's id and names a vertex that reaches it. */
  ghost predicate Labelled(t: Table, adj: seq<nat>, d: seq<nat>)
    requires Valid(t) && |adj| == t.totalEdges
  {
    |d| == |t.offsets| && forall u :: 0 <= u < |d| ==> d[u] <= u && Reach(t, adj, d[u], u)
  }

  /** Walks compose: a walk from a to b followed by one from b to c. */
  lemma ReachTrans(t: Table, adj: seq<nat>, a: nat, b: nat, c: nat)
    requires Valid(t) && |adj| == t.totalEdges
    requires Reach(t, adj, a, b) && Reach(t, adj, b, c)
    ensures Reach(t, adj, a, c)
  {
    var p :| IsWalk(t, adj, p) && p[0] == a && p[|p| - 1] == b;
    var q :| IsWalk(t, adj, q) && q[0] == b && q[|q| - 1] == c;
    var r := p + q[1..];
    forall i | 0 <= i < |r| - 1
      ensures Step(t, adj, r, i)
    {
      if i < |p| - 1 {
        WalkEdge(t, adj, p, i);
        assert r[i] == p[i] && r[i + 1] == p[i + 1];
      } else {
        var j := i - |p| + 1;
        WalkEdge(t, adj, q, j);
        assert r[i] == q[j] && r[i + 1] == q[j + 1];
      }
    }
    assert IsWalk(t, adj, r) && r[0] == a && r[|r| - 1] == c;
  }

  /**
   * `vertex_map_shortcut(vtable)`: a vertex takes its label's own label.
   * It reports whether the label changed, and keeps every label a reaching
   * vertex no larger than before.
   */
  method Shortcut(t: Table, adj: seq<nat>, ids: array<nat>, v: nat) returns (changed: bool)
    requires Valid(t) && |adj| == t.totalEdges
    requires v < ids.Length && ids[v] < ids.Length
    modifies ids
    ensures changed <==> old(ids[ids[v]]) != old(ids[v])
    ensures ids[..] == old(ids[..])[v := old(ids[ids[v]])]
    ensures Labelled(t, adj, old(ids[..])) ==> Labelled(t, adj, ids[..]) && ids[v] <= old(ids[v])
  {
    ghost var d := ids[..];
    var my := ids[v];
    var l := ids[my];
    if my != l {
      ids[v] := l;
      changed := true;
    } else {
      changed := false;
    }
    assert ids[..] == d[v := l];
    if Labelled(t, adj, d) {
      ReachTrans(t, adj, l, my, v);
      assert Labelled(t, adj, ids[..]);
    }
  }

  /** The sum of all labels: it drops with every successful update. */
  function LabelSum(d: seq<nat>): (r: nat)
    ensures d != [] ==> r >= d[|d| - 1]
  {
    if d == [] then 0 else LabelSum(d[..|d| - 1]) + d[|d| - 1]
  }

  /** Replacing one label changes the sum by the difference. */
  lemma {:induction false} SumUpdate(d: seq<nat>, w: nat, p: nat)
    requires w < |d|
    ensures LabelSum(d[w := p]) + d[w] == LabelSum(d) + p
  {
    var e := d[w := p];
    if w == |d| - 1 {
      assert e[..|e| - 1] == d[..|d| - 1];
    } else {
      assert e[..|e| - 1] == d[..|d| - 1][w := p];
      SumUpdate(d[..|d| - 1], w, p);
    }
  }

  /** Every edge out of v leads to a label no larger than v's. */
  ghost predicate Settled(t: Table, adj: seq<nat>, d: seq<nat>, v: nat)
    requires Valid(t) && |adj| == t.totalEdges && |d| == |t.offsets| && v < |d|
  {
    forall w: nat {:trigger Edge(t, adj, v, w)} :: Edge(t, adj, v, w) ==> d[w] <= d[v]
  }

  /**
   * The vertices outside the next frontier N that are either outside the
   * frontier F or below `upto` (already pushed this round) are settled.
   */
  ghost predicate SettledOutside(t: Table, adj: seq<nat>, d: seq<nat>, F: set<nat>, N: set<nat>, upto: nat)
    requires Valid(t) && |adj| == t.totalEdges && |d| == |t.offsets|
  {
    forall v: nat, w: nat {:trigger Edge(t, adj, v, w)} ::
      v < |d| && v !in N && (v !in F || v < upto) && Edge(t, adj, v, w) ==> d[w] <= d[v]
  }

  /**
   * Lowering w's label to p, offered along an edge from v whose label is
   * p, keeps the labelling, keeps settled every settled vertex but w, and
   * drops the label sum by at least one.
   */
  lemma Lower(t: Table, adj: seq<nat>, d: seq<nat>, F: set<nat>, N: set<nat>, upto: nat, v: nat, w: nat)
    requires Valid(t) && |adj| == t.totalEdges && |d| == |t.offsets|
    requires Labelled(t, adj, d) && SettledOutside(t, adj, d, F, N, upto)
    requires Edge(t, adj, v, w) && d[v] < d[w]
    ensures Labelled(t, adj, d[w := d[v]])
    ensures SettledOutside(t, adj, d[w := d[v]], F, N + {w}, upto)
    ensures LabelSum(d[w := d[v]]) + 1 <= LabelSum(d)
  {
    var e := d[w := d[v]];
    SumUpdate(d, w, d[v]);
    assert Reach(t, adj, d[v], w) by {
      var q :| IsWalk(t, adj, q) && q[0] == d[v] && q[|q| - 1] == v;
      WalkExtend(t, adj, q, w);
      assert (q + [w])[0] == d[v];
    }
    forall u | 0 <= u < |e|
      ensures e[u] <= u && Reach(t, adj, e[u], u)
    {
      if u != w {
        assert e[u] == d[u];
      }
    }
    forall u: nat, x: nat | u < |e| && u !in N + {w} && (u !in F || u < upto) && Edge(t, adj, u, x)
      ensures e[x] <= e[u]
    {
      assert d[x] <= d[u];
    }
  }

  /** The first n entries of s are vertices labelled at most p. */
  ghost predicate Offered(d: seq<nat>, s: seq<nat>, n: nat, p: nat)
    requires n <= |s|
  {
    forall j :: 0 <= j < n ==> s[j] < |d| && d[s[j]] <= p
  }

  /** Labels that only drop keep every offered neighbour offered. */
  ghost predicate Drops(d: seq<nat>, e: seq<nat>)
  {
    |d| == |e| && forall u :: 0 <= u < |d| ==> e[u] <= d[u]
  }

  /**
   * The state of a round in progress: the labelling holds, the vertices
   * outside the next frontier that are outside F or below `upto` are
   * settled, and the label sum plus the next frontier's population stays
   * within `bound`.
   */
  ghost predicate Sweep(t: Table, adj: seq<nat>, ids: array<nat>, next: Bitmap, F: set<nat>, upto: nat, bound: nat)
    reads ids, next, next.data
    requires Graph(t, adj)
  {
    && ids.Length == |t.offsets|
    && next.Valid() && next.size == |t.offsets| && next.Counted()
    && ids as object != next.data as object
    && Labelled(t, adj, ids[..])
    && SettledOutside(t, adj, ids[..], F, next.Active(), upto)
    && LabelSum(ids[..]) + next.NumSet() <= bound
  }

  /**
   * One step of `CC_push`: `update_atomic(my_id)` on neighbour w of v and,
   * when it succeeds, `set_bit(w)` in the next frontier.
   */
  method Offer(t: Table, adj: seq<nat>, ids: array<nat>, next: Bitmap, ghost F: set<nat>, ghost bound: nat,
               v: nat, w: nat, p: nat)
    requires Graph(t, adj) && Sweep(t, adj, ids, next, F, v, bound)
    requires Edge(t, adj, v, w) && ids[v] == p
    modifies ids, next`counters, next.data
    ensures Sweep(t, adj, ids, next, F, v, bound)
    ensures ids[v] == p && ids[w] <= p && Drops(old(ids[..]), ids[..])
  {
    ghost var d := ids[..];
    if p < ids[w] {
      Lower(t, adj, d, F, next.Active(), v, v, w);
    }
    var ok := UpdateAtomic(ids, w, p);
    if ok {
      var _ := next.SetBit(w, 0);
    }
  }

  lemma OfferedGrow(d: seq<nat>, e: seq<nat>, s: seq<nat>, n: nat, p: nat)
    requires n < |s| && Offered(d, s, n, p) && Drops(d, e) && s[n] < |e| && e[s[n]] <= p
    ensures Offered(e, s, n + 1, p)
  {
  }

  /** Once every neighbour of v holds a label no larger than v's, v is settled. */
  lemma PushedSettles(t: Table, adj: seq<nat>, ids: array<nat>, next: Bitmap, F: set<nat>, bound: nat,
                      v: nat, edges: seq<nat>)
    requires Graph(t, adj) && Sweep(t, adj, ids, next, F, v, bound)
    requires v < |t.offsets| && edges == Neighbours(t, adj, v) && Offered(ids[..], edges, |edges|, ids[v])
    ensures Sweep(t, adj, ids, next, F, v + 1, bound)
  {
    var d := ids[..];
    forall w: nat | Edge(t, adj, v, w)
      ensures d[w] <= d[v]
    {
      var j :| 0 <= j < |edges| && edges[j] == w;
    }
    assert SettledOutside(t, adj, d, F, next.Active(), v + 1);
  }

  /**
   * `CC_push` for frontier vertex v: offers v's label to every neighbour.
   * Afterwards v is settled unless its own label dropped meanwhile.
   */
  method Push(t: Table, adj: seq<nat>, ids: array<nat>, next: Bitmap, ghost F: set<nat>, ghost bound: nat,
              v: nat, edges: seq<nat>)
    requires Graph(t, adj) && Sweep(t, adj, ids, next, F, v, bound)
    requires v < |t.offsets| && edges == Neighbours(t, adj, v)
    modifies ids, next`counters, next.data
    ensures Sweep(t, adj, ids, next, F, v + 1, bound)
  {
    var my := ids[v];
    var i := 0;
    NeighboursAreVertices(t, adj, v);
    while i < |edges|
      invariant 0 <= i <= |edges|
      invariant Sweep(t, adj, ids, next, F, v, bound)
      invariant ids[v] == my
      invariant Offered(ids[..], edges, i, my)
    {
      EdgeAt(t, adj, v, i);
      ghost var d := ids[..];
      Offer(t, adj, ids, next, F, bound, v, edges[i], my);
      OfferedGrow(d, ids[..], edges, i, my);
      i := i + 1;
    }
    PushedSettles(t, adj, ids, next, F, bound, v, edges);
  }

  /** Frontier vertices without edges are settled without a push. */
  lemma SkipEdgeless(t: Table, adj: seq<nat>, d: seq<nat>, F: set<nat>, N: set<nat>, a: nat, b: nat)
    requires Valid(t) && |adj| == t.totalEdges && |d| == |t.offsets|
    requires SettledOutside(t, adj, d, F, N, a) && a <= b
    requires forall u :: a <= u < b && u in F && u < |t.offsets| ==> NumEdges(t, u) == 0
    ensures SettledOutside(t, adj, d, F, N, b)
  {
    forall u: nat, x: nat | u < |d| && a <= u < b && u in F
      ensures !Edge(t, adj, u, x)
    {
      assert |Neighbours(t, adj, u)| == 0;
    }
  }

  /**
   * Between the trace's k-th call and the vertex b (the next call, or the
   * end), the frontier vertices have no edges: the sweep moves up to b.
   */
  lemma SkipGap(t: Table, adj: seq<nat>, ids: array<nat>, next: Bitmap, F: set<nat>, bound: nat,
                trace: seq<Call>, k: nat, b: nat)
    requires Graph(t, adj) && k <= |trace| && FrontierTrace(t, adj, F, trace)
    requires Sweep(t, adj, ids, next, F, Upto(trace, k), bound)
    requires Upto(trace, k) <= b && (k < |trace| ==> b <= trace[k].v)
    ensures Sweep(t, adj, ids, next, F, b, bound)
  {
    GapEdgeless(t, adj, F, trace, k, b);
    SkipEdgeless(t, adj, ids[..], F, next.Active(), Upto(trace, k), b);
  }

  /** The k-th call of a round's trace: `CC_push` on its vertex and neighbours. */
  method ExpandStep(t: Table, adj: seq<nat>, ids: array<nat>, next: Bitmap, ghost F: set<nat>, ghost bound: nat,
                    trace: seq<Call>, k: nat)
    requires Graph(t, adj) && k < |trace| && FrontierTrace(t, adj, F, trace)
    requires Sweep(t, adj, ids, next, F, Upto(trace, k), bound)
    modifies ids, next`counters, next.data
    ensures Sweep(t, adj, ids, next, F, Upto(trace, k + 1), bound)
  {
    assert Visits(t, adj, trace[k]);
    var v := trace[k].v;
    SkipGap(t, adj, ids, next, F, bound, trace, k, v);
    Push(t, adj, ids, next, F, bound, v, trace[k].edges);
  }

  /**
   * One round of pushes: `CC_push` applied, in order, to every call of the
   * trace over frontier F.  Afterwards every vertex outside the next
   * frontier is settled, and the label sum plus the next frontier's
   * population is still within the bound.
   */
  method Expand(t: Table, adj: seq<nat>, ids: array<nat>, next: Bitmap, ghost F: set<nat>, ghost bound: nat,
                trace: seq<Call>)
    requires Graph(t, adj) && FrontierTrace(t, adj, F, trace)
    requires Sweep(t, adj, ids, next, F, 0, bound)
    modifies ids, next`counters, next.data
    ensures Sweep(t, adj, ids, next, F, |t.offsets|, bound)
  {
    var k := 0;
    while k < |trace|
      invariant 0 <= k <= |trace|
      invariant Sweep(t, adj, ids, next, F, Upto(trace, k), bound)
    {
      ExpandStep(t, adj, ids, next, F, bound, trace, k);
      k := k + 1;
    }
    UptoInRange(t, adj, F, trace, k);
    SkipGap(t, adj, ids, next, F, bound, trace, k, |t.offsets|);
  }

  /**
   * The state at the head of the round loop: the labelling holds, every
   * vertex outside the frontier is settled and the next frontier is empty.
   */
  ghost predicate Propagating(t: Table, adj: seq<nat>, ids: array<nat>, frontier: Bitmap, next: Bitmap,
                              buf: array<nat>)
    reads ids, frontier, next, frontier.data, next.data
    requires Graph(t, adj)
  {
    && ids.Length == |t.offsets| && buf.Length > 0 && Addressable(buf.Length)
    && (forall v :: 0 <= v < |t.offsets| ==> NumEdges(t, v) <= buf.Length)
    && frontier.Valid() && frontier.size == |t.offsets| && frontier.Counted()
    && next.Valid() && next.size == |t.offsets| && next.Counted()
    && frontier != next && frontier.data != next.data
    && buf as object != frontier.data as object && buf as object != next.data as object
    && ids as object != frontier.data as object && ids as object != next.data as object
    && ids != buf
    && Labelled(t, adj, ids[..])
    && SettledOutside(t, adj, ids[..], frontier.Active(), {}, 0)
    && next.Active() == {}
  }

  /**
   * One iteration of the round loop, before the swap: `for_each_active_batch`
   * over the frontier with `CC_push`, then `frontier->clear()`.  The label
   * sum plus a non-empty next frontier counts less than before.
   */
  method Round(t: Table, adj: seq<nat>, ids: array<nat>, frontier: Bitmap, next: Bitmap, buf: array<nat>,
               window: nat, peer: Peer, coalescing: bool)
    requires Graph(t, adj) && window > 0
    requires Propagating(t, adj, ids, frontier, next, buf) && !frontier.IsEmpty()
    modifies ids, buf, frontier`counters, frontier.data, next`counters, next.data
    ensures Propagating(t, adj, ids, next, frontier, buf)
    ensures LabelSum(ids[..]) + (if next.IsEmpty() then 0 else 1) < old(LabelSum(ids[..])) + 1
  {
    var trace := ActivePass(t, adj, frontier, window, peer, coalescing, buf);
    ghost var F := frontier.Active();
    assert next.NumSet() == 0;
    Expand(t, adj, ids, next, F, LabelSum(ids[..]), trace);
    frontier.Clear();
    EmptyIffNoneActive(next);
  }

  /** Every edge leads to a label no larger than its source's. */
  ghost predicate Stable(t: Table, adj: seq<nat>, d: seq<nat>)
    requires Valid(t) && |adj| == t.totalEdges && |d| == |t.offsets|
  {
    forall v: nat, w: nat :: v < |d| && Edge(t, adj, v, w) ==> d[w] <= d[v]
  }

  /** The first loop of the kernel: every vertex labelled with its own id. */
  method InitLabels(n: nat) returns (ids: array<nat>)
    ensures fresh(ids) && ids.Length == n
    ensures forall v :: 0 <= v < n ==> ids[v] == v
  {
    ids := new nat[n];
    for v := 0 to n
      invariant forall u :: 0 <= u < v ==> ids[u] == u
    {
      ids[v] := v;
    }
  }

  /** Labelling every vertex with its own id is a labelling. */
  lemma OwnLabels(t: Table, adj: seq<nat>, d: seq<nat>)
    requires Valid(t) && |adj| == t.totalEdges && |d| == |t.offsets|
    requires forall v :: 0 <= v < |d| ==> d[v] == v
    ensures Labelled(t, adj, d)
  {
    forall u | 0 <= u < |d|
      ensures Reach(t, adj, u, u)
    {
      assert IsWalk(t, adj, [u]);
    }
  }

  /** With every vertex in the frontier, nothing needs to be settled yet. */
  lemma AllInFrontier(t: Table, adj: seq<nat>, d: seq<nat>, F: set<nat>)
    requires Valid(t) && |adj| == t.totalEdges && |d| == |t.offsets|
    requires F == Below(|d|)
    ensures SettledOutside(t, adj, d, F, {}, 0)
  {
    BelowMembers(|d|);
  }

  /**
   * The set-up before the round loop: every vertex labelled with its own id,
   * two cleared frontiers, and `set_all()` on the first.
   */
  method Setup(t: Table, adj: seq<nat>, buf: array<nat>) returns (ids: array<nat>, frontier: Bitmap, next: Bitmap)
    requires Graph(t, adj)
    requires buf.Length > 0 && Addressable(buf.Length) && forall v :: 0 <= v < |t.offsets| ==> NumEdges(t, v) <= buf.Length
    ensures fresh(frontier) && fresh(next) && fresh(frontier.data) && fresh(next.data) && fresh(ids)
    ensures Propagating(t, adj, ids, frontier, next, buf)
  {
    var n := |t.offsets|;
    ids := InitLabels(n);
    OwnLabels(t, adj, ids[..]);
    frontier := new Bitmap.Zeroed(n, 1);
    next := new Bitmap.Zeroed(n, 1);
    frontier.SetAll(0);
    AllInFrontier(t, adj, ids[..], frontier.Active());
  }

  /**
   * `connected_components_kernel::operator()`: label every vertex with its
   * own id, set every vertex in the frontier, then run rounds while the
   * frontier is not empty.  When the loop stops, every label is at most its
   * vertex's id and names a vertex reaching it, and no edge leads to a
   * larger label.
   */
  method Run(t: Table, adj: seq<nat>, edgeWindow: nat, window: nat, peer: Peer, coalescing: bool)
    returns (ids: array<nat>)
    requires Graph(t, adj) && window > 0 && Addressable(KernelBufferSize(t, edgeWindow))
    ensures ids.Length == |t.offsets|
    ensures Labelled(t, adj, ids[..]) && Stable(t, adj, ids[..])
  {
    var buf := KernelBuffer(t, edgeWindow);
    var frontier, next;
    ids, frontier, next := Setup(t, adj, buf);
    while !frontier.IsEmpty()
      invariant fresh(frontier) && fresh(next) && fresh(frontier.data) && fresh(next.data) && fresh(ids)
      invariant Propagating(t, adj, ids, frontier, next, buf)
      decreases LabelSum(ids[..]) + if frontier.IsEmpty() then 0 else 1
    {
      Round(t, adj, ids, frontier, next, buf, window, peer, coalescing);
      frontier, next := next, frontier;
    }
    EmptyIffNoneActive(frontier);
    forall v: nat, w: nat | v < ids.Length && Edge(t, adj, v, w)
      ensures ids[w] <= ids[v]
    {
      assert Settled(t, adj, ids[..], v);
    }
  }

  /** Along any walk in a stable labelling, labels never rise. */
  lemma {:induction false} AlongWalk(t: Table, adj: seq<nat>, d: seq<nat>, p: seq<nat>)
    requires Valid(t) && |adj| == t.totalEdges && |d| == |t.offsets|
    requires Stable(t, adj, d) && IsWalk(t, adj, p) && p[0] < |d|
    ensures p[|p| - 1] < |d| && d[p[|p| - 1]] <= d[p[0]]
  {
    if |p| > 1 {
      WalkPrefix(t, adj, p);
      AlongWalk(t, adj, d, p[..|p| - 1]);
    }
  }

  /**
   * When the rounds stop, each vertex holds the least id of any vertex
   * from which it can be reached.
   */
  lemma LeastSource(t: Table, adj: seq<nat>, d: seq<nat>, v: nat)
    requires Valid(t) && |adj| == t.totalEdges
    requires Labelled(t, adj, d) && Stable(t, adj, d) && v < |d|
    ensures Reach(t, adj, d[v], v)
    ensures forall u :: Reach(t, adj, u, v) ==> d[v] <= u
  {
    forall u | Reach(t, adj, u, v)
      ensures d[v] <= u
    {
      var p :| IsWalk(t, adj, p) && p[0] == u && p[|p| - 1] == v;
      if |p| > 1 {
        WalkEdge(t, adj, p, 0);
      }
      AlongWalk(t, adj, d, p);
    }
  }

  /** Every out-edge has its reverse. */
  ghost predicate Symmetric(t: Table, adj: seq<nat>)
    requires Valid(t) && |adj| == t.totalEdges
  {
    forall v, w :: Edge(t, adj, v, w) ==> Edge(t, adj, w, v)
  }

  /** In a symmetric graph every walk can be walked backwards. */
  lemma ReachBack(t: Table, adj: seq<nat>, a: nat, b: nat)
    requires Valid(t) && |adj| == t.totalEdges && Symmetric(t, adj)
    requires Reach(t, adj, a, b)
    ensures Reach(t, adj, b, a)
  {
    var p :| IsWalk(t, adj, p) && p[0] == a && p[|p| - 1] == b;
    var r := seq(|p|, i requires 0 <= i < |p| => p[|p| - 1 - i]);
    forall i | 0 <= i < |r| - 1
      ensures Step(t, adj, r, i)
    {
      WalkEdge(t, adj, p, |p| - 2 - i);
    }
    assert IsWalk(t, adj, r) && r[0] == b && r[|r| - 1] == a;
  }

  /**
   * On an undirected graph (every edge stored both ways), the final labels
   * name the components: two vertices share a label exactly when a walk
   * joins them.
   */
  lemma SameLabelIffConnected(t: Table, adj: seq<nat>, d: seq<nat>, v: nat, w: nat)
    requires Valid(t) && |adj| == t.totalEdges && Symmetric(t, adj)
    requires Labelled(t, adj, d) && Stable(t, adj, d) && v < |d| && w < |d|
    ensures d[v] == d[w] <==> Reach(t, adj, v, w)
  {
    LeastSource(t, adj, d, v);
    LeastSource(t, adj, d, w);
    if d[v] == d[w] {
      ReachBack(t, adj, d[v], v);
      ReachTrans(t, adj, v, d[v], w);
    }
    if Reach(t, adj, v, w) {
      ReachBack(t, adj, v, w);
      ReachTrans(t, adj, d[v], v, w);
      ReachTrans(t, adj, d[w], w, v);
    }
  }

  /** The labels that more than one vertex holds. */
  ghost function Shared(counts: map<nat, nat>, keys: set<nat>): set<nat>
  {
    set l | l in keys && l in counts && counts[l] > 1
  }

  /** Adding one more key to the processed ones adds it to the shared ones exactly when its count exceeds 1. */
  lemma SharedGrow(counts: map<nat, nat>, keys: set<nat>, l: nat)
    requires l in counts && l !in keys
    ensures |Shared(counts, keys + {l})| == |Shared(counts, keys)| + if counts[l] > 1 then 1 else 0
  {
    var s := Shared(counts, keys);
    assert l !in s;
    if counts[l] > 1 {
      assert Shared(counts, keys + {l}) == s + {l};
    } else {
      assert Shared(counts, keys + {l}) == s;
    }
  }

  /** The first loop of `print_top_n`: the number of vertices holding each label. */
  method Tally(ids: array<nat>) returns (counts: map<nat, nat>)
    ensures forall l :: l in counts <==> l in multiset(ids[..])
    ensures forall l :: l in counts ==> counts[l] == multiset(ids[..])[l]
  {
    counts := map[];
    var v := 0;
    while v < ids.Length
      invariant 0 <= v <= ids.Length
      invariant forall l :: l in counts <==> l in multiset(ids[..v])
      invariant forall l :: l in counts ==> counts[l] == multiset(ids[..v])[l]
    {
      assert ids[..v + 1] == ids[..v] + [ids[v]];
      var l := ids[v];
      if l in counts {
        counts := counts[l := counts[l] + 1];
      } else {
        counts := counts[l := 1];
      }
      v := v + 1;
    }
    assert ids[..v] == ids[..];
  }

  /**
   * The second loop of `print_top_n`, over the counted labels: how many
   * there are, how many are held by more than one vertex, and the largest
   * count.
   */
  method Census(counts: map<nat, nat>) returns (total: nat, nonTrivial: nat, largest: nat)
    ensures total == |counts.Keys| && nonTrivial == |Shared(counts, counts.Keys)|
    ensures forall l :: l in counts ==> counts[l] <= largest
    ensures counts != map[] ==> exists l :: l in counts && counts[l] == largest
  {
    total, nonTrivial, largest := 0, 0, 0;
    var rest := counts.Keys;
    ghost var done: set<nat> := {};
    ghost var top: nat := 0;
    while rest != {}
      invariant rest !! done && rest + done == counts.Keys
      invariant total == |done| && nonTrivial == |Shared(counts, done)|
      invariant forall l :: l in done ==> counts[l] <= largest
      invariant done != {} ==> top in done && counts[top] == largest
      decreases rest
    {
      var l :| l in rest;
      SharedGrow(counts, done, l);
      assert l !in done && (rest - {l}) + (done + {l}) == counts.Keys;
      if counts[l] > 1 {
        nonTrivial := nonTrivial + 1;
      }
      if counts[l] > largest || total == 0 {
        largest, top := counts[l], l;
      }
      total := total + 1;
      rest, done := rest - {l}, done + {l};
    }
    assert done == counts.Keys;
    if counts != map[] {
      assert top in counts;
    }
  }

  /**
   * The component census of `print_top_n`: the number of distinct labels,
   * the number held by more than one vertex (the rest are held by one
   * vertex each) and the largest number of vertices sharing a label.
   * Reading the largest entry needs at least one vertex.
   */
  method CountComponents(ids: array<nat>) returns (total: nat, nonTrivial: nat, largest: nat)
    requires ids.Length > 0
    ensures total == |set l | l in ids[..]|
    ensures nonTrivial == |set l | l in ids[..] && multiset(ids[..])[l] > 1|
    ensures total - nonTrivial == |set l | l in ids[..] && multiset(ids[..])[l] == 1|
    ensures exists l :: l in ids[..] && multiset(ids[..])[l] == largest
    ensures forall l :: multiset(ids[..])[l] <= largest
  {
    var counts := Tally(ids);
    total, nonTrivial, largest := Census(counts);
    ghost var m := multiset(ids[..]);
    assert counts.Keys == set l | l in ids[..];
    assert Shared(counts, counts.Keys) == set l | l in ids[..] && m[l] > 1;
    assert ids[0] in counts;
    SplitCensus(ids[..]);
  }

  /** Every label is held by one vertex or by more than one. */
  lemma SplitCensus(s: seq<nat>)
    ensures |set l | l in s| == |set l | l in s && multiset(s)[l] > 1| + |set l | l in s && multiset(s)[l] == 1|
  {
    var all := set l | l in s;
    var many := set l | l in s && multiset(s)[l] > 1;
    var one := set l | l in s && multiset(s)[l] == 1;
    assert all == many + one;
    assert many !! one;
  }
}
