/**
 * What every graph kernel takes from `Generic_ctx` (graph_kernel.hpp): the
 * per-worker edge buffer, sized from the largest out-degree and the
 * `edgewindow` option, and the edge relation the kernels push along.
 * Memory registration, mmap and thread limits are left to the runtime.
 */
module GraphKernel {
  import opened Csr
  import opened Window
  import opened Frontier
  import opened Batches

  /** w is one of v's out-neighbours. */
  predicate Edge(t: Table, adj: seq<nat>, v: nat, w: nat)
    requires Valid(t) && |adj| == t.totalEdges
  {
    v < |t.offsets| && w < |t.offsets| && w in Neighbours(t, adj, v)
  }

  /**
   * The buffer size as written: `edgewindow * max_out_degree`, a product of
   * two `uint32_t` values that wraps at 2^32.
   */
  function EdgeBufSize(edgeWindow: nat, maxDegree: nat): (r: nat)
    ensures r < UINT32_LIMIT
    ensures edgeWindow * maxDegree < UINT32_LIMIT ==> r == edgeWindow * maxDegree
    ensures edgeWindow == 0 || maxDegree == 0 ==> r == 0
  {
    (edgeWindow * maxDegree) % UINT32_LIMIT
  }

  /**
   * With the buffer as written, a graph with one vertex and no edges gets a
   * buffer of 0 entries for every `edgewindow`, and `pack_window` over the
   * range `[0, 1)` returns 0 as the next start: the range never advances,
   * so `for_each_active_batch` spins forever.
   */
  method EdgelessBufferStalls(edgeWindow: nat, window: nat, peer: Peer) returns (size: nat, next: nat)
    ensures size == 0 && next == 0
  {
    var t := Table([0], 0);
    assert End(t, 0) == 0;
    var m := MaxOutDegree(t);
    assert m == NumEdges(t, 0) == 0;
    size := EdgeBufSize(edgeWindow, m);
    var buf := new nat[size];
    var bs, ws, total, batchSize;
    next, bs, ws, total, batchSize := PackWindow(t, ActiveOnly([true]), 0, 1, window, peer, false, buf);
  }

  /** The product also wraps: an edge window of 2^16 and a largest degree of 2^16 give 0. */
  lemma WideWindowWraps()
    ensures EdgeBufSize(0x1_0000, 0x1_0000) == 0
  {
    assert 0x1_0000 * 0x1_0000 == UINT32_LIMIT;
  }

  function AtLeastOne(x: nat): (r: nat)
    ensures r >= 1 && r >= x
  {
    if x == 0 then 1 else x
  }

  lemma ProductBounds(a: nat, b: nat)
    requires a >= 1 && b >= 1
    ensures a * b >= a && a * b >= b
  {
    assert a * b == a * (b - 1) + a;
    assert a * b == (a - 1) * b + b;
  }

  /**
   * The size the kernels evidently need: computed without wrapping and never
   * 0, so that every vertex fits when it is first in a batch and each
   * window holds at least one whole vertex.
   */
  function BufferSize(edgeWindow: nat, maxDegree: nat): (r: nat)
    ensures r > 0 && r >= maxDegree && r >= edgeWindow
    ensures edgeWindow > 0 && maxDegree > 0 ==> r == edgeWindow * maxDegree
  {
    ProductBounds(AtLeastOne(edgeWindow), AtLeastOne(maxDegree));
    AtLeastOne(edgeWindow) * AtLeastOne(maxDegree)
  }

  /** The entries of the kernel buffer of table t: `BufferSize` of its largest degree. */
  function KernelBufferSize(t: Table, edgeWindow: nat): (r: nat)
    requires Valid(t)
    ensures r > 0 && forall v :: 0 <= v < |t.offsets| ==> NumEdges(t, v) <= r
  {
    BufferSize(edgeWindow, MaxDegreeBelow(t, |t.offsets|))
  }

  /**
   * The buffer the kernels batch into, sized by `BufferSize` from
   * `get_max_out_degree`: it is never empty and every vertex fits in it.
   * Its size in bytes must fit 32 bits, or the byte length of a read that
   * fills it would wrap; the source does not check this.
   */
  method KernelBuffer(t: Table, edgeWindow: nat) returns (buf: array<nat>)
    requires Valid(t) && Addressable(KernelBufferSize(t, edgeWindow))
    ensures fresh(buf) && buf.Length == KernelBufferSize(t, edgeWindow)
    ensures buf.Length > 0 && Addressable(buf.Length)
    ensures forall v :: 0 <= v < |t.offsets| ==> NumEdges(t, v) <= buf.Length
  {
    var m := MaxOutDegree(t);
    buf := new nat[BufferSize(edgeWindow, m)];
  }

  /** Entries of the adjacency array name vertices. */
  lemma NeighboursAreVertices(t: Table, adj: seq<nat>, v: nat)
    requires Graph(t, adj) && v < |t.offsets|
    ensures forall j :: 0 <= j < |Neighbours(t, adj, v)| ==> Neighbours(t, adj, v)[j] < |t.offsets|
  {
    DegreeIsSliceWidth(t, v);
  }

  /** The j-th neighbour of v is an edge out of v. */
  lemma EdgeAt(t: Table, adj: seq<nat>, v: nat, j: nat)
    requires Graph(t, adj) && v < |t.offsets| && j < |Neighbours(t, adj, v)|
    ensures Edge(t, adj, v, Neighbours(t, adj, v)[j])
  {
    NeighboursAreVertices(t, adj, v);
  }

  /** A walk along out-edges. */
  ghost predicate IsWalk(t: Table, adj: seq<nat>, p: seq<nat>)
    requires Valid(t) && |adj| == t.totalEdges
  {
    |p| > 0 && forall i :: 0 <= i < |p| - 1 ==> Step(t, adj, p, i)
  }

  /** The i-th step of p is an edge (named, so that walks unfold only on demand). */
  ghost predicate Step(t: Table, adj: seq<nat>, p: seq<nat>, i: nat)
    requires Valid(t) && |adj| == t.totalEdges && i < |p| - 1
  {
    Edge(t, adj, p[i], p[i + 1])
  }

  /** Each step of a walk is an edge. */
  lemma WalkEdge(t: Table, adj: seq<nat>, p: seq<nat>, i: nat)
    requires Valid(t) && |adj| == t.totalEdges
    requires IsWalk(t, adj, p) && i < |p| - 1
    ensures Edge(t, adj, p[i], p[i + 1])
  {
    assert Step(t, adj, p, i);
  }

  /** A walk extended by one edge out of its last vertex is a walk. */
  lemma WalkExtend(t: Table, adj: seq<nat>, p: seq<nat>, w: nat)
    requires Valid(t) && |adj| == t.totalEdges
    requires IsWalk(t, adj, p) && Edge(t, adj, p[|p| - 1], w)
    ensures IsWalk(t, adj, p + [w])
  {
    var q := p + [w];
    forall i | 0 <= i < |q| - 1
      ensures Step(t, adj, q, i)
    {
      if i < |p| - 1 {
        assert Step(t, adj, p, i);
        assert q[i] == p[i] && q[i + 1] == p[i + 1];
      }
    }
  }

  /** A walk without its last vertex is a walk. */
  lemma WalkPrefix(t: Table, adj: seq<nat>, p: seq<nat>)
    requires Valid(t) && |adj| == t.totalEdges
    requires IsWalk(t, adj, p) && |p| > 1
    ensures IsWalk(t, adj, p[..|p| - 1]) && Edge(t, adj, p[|p| - 2], p[|p| - 1])
  {
    var q := p[..|p| - 1];
    forall i | 0 <= i < |q| - 1
      ensures Step(t, adj, q, i)
    {
      assert Step(t, adj, p, i);
    }
    WalkEdge(t, adj, p, |p| - 2);
  }

  /**
   * The trace of `for_each_active_batch` over a frontier holding the set F:
   * each vertex of F that has edges, once, in increasing order, with its
   * neighbours.
   */
  ghost predicate FrontierTrace(t: Table, adj: seq<nat>, F: set<nat>, trace: seq<Call>)
    requires Valid(t) && |adj| == t.totalEdges
  {
    && (forall i, j :: 0 <= i < j < |trace| ==> trace[i].v < trace[j].v)
    && (forall k {:trigger Visits(t, adj, trace[k])} :: 0 <= k < |trace| ==> Visits(t, adj, trace[k]))
    && (forall v {:trigger Called(trace, v)} :: 0 <= v < |t.offsets| ==>
          (Called(trace, v) <==> v in F && NumEdges(t, v) > 0))
  }

  /** The call c is on a vertex and carries that vertex's neighbours. */
  ghost predicate Visits(t: Table, adj: seq<nat>, c: Call)
    requires Valid(t) && |adj| == t.totalEdges
  {
    c.v < |t.offsets| && c.edges == Neighbours(t, adj, c.v)
  }

  /** Some call of the trace is on v. */
  ghost predicate Called(trace: seq<Call>, v: nat)
  {
    exists k :: 0 <= k < |trace| && trace[k].v == v
  }

  /** The trace `for_each_active_batch` returns is the frontier trace of the bitmap's active set. */
  lemma ActiveTrace(t: Table, adj: seq<nat>, F: set<nat>, trace: seq<Call>, frontier: Bitmap)
    requires Valid(t) && |adj| == t.totalEdges
    requires frontier.Sized() && frontier.size == |t.offsets| && frontier.Active() == F
    requires forall v :: 0 <= v < |t.offsets| ==>
      ((exists k :: 0 <= k < |trace| && trace[k].v == v) <==> frontier.Get(v) && NumEdges(t, v) > 0)
    requires forall i, j :: 0 <= i < j < |trace| ==> trace[i].v < trace[j].v
    requires forall k :: 0 <= k < |trace| ==>
      trace[k].v < |t.offsets| && trace[k].edges == Neighbours(t, adj, trace[k].v)
    ensures FrontierTrace(t, adj, F, trace)
  {
    forall v | 0 <= v < |t.offsets|
      ensures frontier.Get(v) <==> v in F
    {
      assert frontier.Get(v) <==> v in frontier.Active();
    }
  }

  /**
   * One pass of `for_each_active_batch` over every vertex: the calls it makes
   * are the frontier trace of the bitmap's active set.
   */
  method ActivePass(t: Table, adj: seq<nat>, frontier: Bitmap, window: nat, peer: Peer, coalescing: bool,
                    buf: array<nat>) returns (trace: seq<Call>)
    requires Valid(t) && |adj| == t.totalEdges
    requires frontier.Sized() && frontier.size == |t.offsets|
    requires buf.Length > 0 && Addressable(buf.Length) && window > 0 && buf as object != frontier.data as object
    requires forall v :: 0 <= v < |t.offsets| ==> NumEdges(t, v) <= buf.Length
    modifies buf
    ensures FrontierTrace(t, adj, frontier.Active(), trace)
  {
    var wrs, verts, sends;
    trace, wrs, verts, sends := ForEachActiveBatch(frontier, t, adj, 0, |t.offsets|, window, peer, coalescing, buf);
    ActiveTrace(t, adj, frontier.Active(), trace, frontier);
  }

  /** A vertex strictly between two consecutive calls of an increasing trace is not called. */
  lemma TraceGap(trace: seq<Call>, k: nat, u: nat)
    requires k <= |trace| && forall i, j :: 0 <= i < j < |trace| ==> trace[i].v < trace[j].v
    requires k > 0 ==> trace[k - 1].v < u
    requires k < |trace| ==> u < trace[k].v
    ensures forall j :: 0 <= j < |trace| ==> trace[j].v != u
  {
    forall j | 0 <= j < |trace|
      ensures trace[j].v != u
    {
      if j < k - 1 {
        assert trace[j].v < trace[k - 1].v;
      } else if k < j {
        assert trace[k].v < trace[j].v;
      }
    }
  }

  /** The first vertex not yet passed after k calls of the trace. */
  function Upto(trace: seq<Call>, k: nat): nat
    requires k <= |trace|
  {
    if k == 0 then 0 else trace[k - 1].v + 1
  }

  /** The vertices passed after k calls of a frontier trace are vertices. */
  lemma UptoInRange(t: Table, adj: seq<nat>, F: set<nat>, trace: seq<Call>, k: nat)
    requires Valid(t) && |adj| == t.totalEdges && k <= |trace|
    requires FrontierTrace(t, adj, F, trace)
    ensures Upto(trace, k) <= |t.offsets|
  {
    if k > 0 {
      assert Visits(t, adj, trace[k - 1]);
    }
  }

  /** Between two calls of a frontier trace, every vertex of the frontier has no edges. */
  lemma GapEdgeless(t: Table, adj: seq<nat>, F: set<nat>, trace: seq<Call>, k: nat, b: nat)
    requires Valid(t) && |adj| == t.totalEdges && k <= |trace|
    requires FrontierTrace(t, adj, F, trace)
    requires k < |trace| ==> b <= trace[k].v
    ensures forall u :: Upto(trace, k) <= u < b && u in F && u < |t.offsets| ==> NumEdges(t, u) == 0
  {
    forall u | Upto(trace, k) <= u < b && u in F && u < |t.offsets|
      ensures NumEdges(t, u) == 0
    {
      TraceGap(trace, k, u);
      assert !Called(trace, u);
    }
  }
}
