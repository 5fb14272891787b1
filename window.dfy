/**
 * The window packers of `bitmap.hpp` and the consume loops built on them.
 *
 * `pack_window` walks a vertex range, packs whole adjacency lists of the
 * selected vertices into a fixed edge buffer and describes them as a window
 * of RDMA reads; `for_each_active_batch` and `for_each_range` post each
 * window, wait for the data and hand every packed vertex its slice of the
 * buffer.  The remote adjacency array is `adj`, the vertex table a
 * `Csr.Table`, and an RDMA read is a copy from `adj` into the buffer.
 */
module Window {
  import opened Csr
  import opened Frontier

  /** `famgraph::NULL_VERT`, the sentinel written where a read has not landed yet. */
  const NULL_VERT: nat := 0xFFFF_FFFF

  /** `sizeof(uint32_t)`: bytes per adjacency entry. */
  const EDGE_BYTES: nat := 4

  /**
   * An edge buffer of n entries whose size in bytes fits the 32-bit
   * `length` of an `ibv_sge`, so that no read into it has a length that
   * wraps.
   */
  predicate Addressable(n: nat)
  {
    EDGE_BYTES * n < UINT32_LIMIT
  }

  /** `vertex_range`: the closed interval `[first, last]` of ids one read covers. */
  datatype VertexRange = VertexRange(first: nat, last: nat)

  /** What `prep_wr` takes from the client context: the remote base and the two keys. */
  datatype Peer = Peer(addr: nat, rkey: nat, lkey: nat)

  /**
   * An `IBV_WR_RDMA_READ` work request together with its single scatter
   * entry: the remote byte address, the buffer index the data lands at, the
   * byte length, whether it is signalled and whether its `next` points to
   * the following request.
   */
  datatype WorkRequest = WorkRequest(
    remoteAddr: nat, rkey: nat, localIndex: nat, length: nat, lkey: nat,
    signaled: bool, linked: bool)

  /**
   * Which vertices a packer takes: those whose frontier bit is set
   * (`pack_window`, which reads a frontier no one writes during the pass,
   * given here as the bits it reads) or every vertex (`pack_window2`, whose
   * test is `true`).
   */
  datatype Selection = ActiveOnly(bits: seq<bool>) | EveryVertex

  predicate Chosen(sel: Selection, v: nat)
  {
    match sel
    case EveryVertex => true
    case ActiveOnly(bits) => v < |bits| && bits[v]
  }

  // ---------------------------------------------------------------------
  // What the packers must hand out
  // ---------------------------------------------------------------------

  /**
   * The vertices of `[lo, hi)` a packer must hand out, in increasing order:
   * the selected ones with at least one edge.
   */
  function Packed(t: Table, sel: Selection, lo: nat, hi: nat): (vs: seq<nat>)
    requires Valid(t) && lo <= hi <= |t.offsets|
    decreases hi - lo
  {
    if hi == lo then []
    else if Chosen(sel, hi - 1) && NumEdges(t, hi - 1) > 0 then Packed(t, sel, lo, hi - 1) + [hi - 1]
    else Packed(t, sel, lo, hi - 1)
  }

  /** Packing `[lo, hi)` is packing `[lo, mid)` and then `[mid, hi)`. */
  lemma {:induction false} PackedSplit(t: Table, sel: Selection, lo: nat, mid: nat, hi: nat)
    requires Valid(t) && lo <= mid <= hi <= |t.offsets|
    ensures Packed(t, sel, lo, hi) == Packed(t, sel, lo, mid) + Packed(t, sel, mid, hi)
    decreases hi - mid
  {
    if mid < hi {
      PackedSplit(t, sel, lo, mid, hi - 1);
    }
  }

  /**
   * A vertex of `[lo, hi)` is packed exactly when it is selected and has an
   * edge, and the packed vertices come in strictly increasing order.
   */
  lemma {:induction false} PackedMembers(t: Table, sel: Selection, lo: nat, hi: nat)
    requires Valid(t) && lo <= hi <= |t.offsets|
    ensures forall v :: v in Packed(t, sel, lo, hi) <==>
      lo <= v < hi && Chosen(sel, v) && NumEdges(t, v) > 0
    ensures forall j, k :: 0 <= j < k < |Packed(t, sel, lo, hi)| ==>
      Packed(t, sel, lo, hi)[j] < Packed(t, sel, lo, hi)[k]
    decreases hi - lo
  {
    if lo < hi {
      PackedMembers(t, sel, lo, hi - 1);
      var p := Packed(t, sel, lo, hi - 1);
      forall j | 0 <= j < |p|
        ensures p[j] < hi - 1
      {
        assert p[j] in p;
      }
    }
  }

  /** The vertex ids `a, a+1, .., b-1`. */
  function Span(a: nat, b: nat): (r: seq<nat>)
    requires a <= b
    ensures |r| == b - a
    ensures forall k :: 0 <= k < |r| ==> r[k] == a + k
    decreases b - a
  {
    if a == b then [] else Span(a, b - 1) + [b - 1]
  }

  /** The ids a list of closed ranges covers, range after range. */
  function Flatten(bs: seq<VertexRange>): seq<nat>
    requires forall k :: 0 <= k < |bs| ==> bs[k].first <= bs[k].last
  {
    if bs == [] then [] else Flatten(bs[..|bs| - 1]) + Span(bs[|bs| - 1].first, bs[|bs| - 1].last + 1)
  }

  /** Extending the last range by the next id appends that id. */
  lemma FlattenGrow(bs: seq<VertexRange>, v: nat)
    requires forall k :: 0 <= k < |bs| ==> bs[k].first <= bs[k].last
    requires bs != [] && v == bs[|bs| - 1].last + 1
    ensures Flatten(bs[|bs| - 1 := VertexRange(bs[|bs| - 1].first, v)]) == Flatten(bs) + [v]
  {
    var last := |bs| - 1;
    var b := bs[last];
    var b' := VertexRange(b.first, v);
    var bs' := bs[last := b'];
    assert bs'[..last] == bs[..last];
    assert Span(b.first, v + 1) == Span(b.first, v) + [v];
  }

  lemma FlattenSnoc(bs: seq<VertexRange>, b: VertexRange)
    requires forall k :: 0 <= k < |bs| ==> bs[k].first <= bs[k].last
    requires b.first <= b.last
    ensures Flatten(bs + [b]) == Flatten(bs) + Span(b.first, b.last + 1)
  {
    assert (bs + [b])[..|bs|] == bs;
  }

  // ---------------------------------------------------------------------
  // The callback trace
  // ---------------------------------------------------------------------

  /** One call of the consumer's function: a vertex and the edges it is given. */
  datatype Call = Call(v: nat, edges: seq<nat>)

  /**
   * The trace hands out the vertices of `vs` in order, one call each, and
   * every call carries exactly that vertex's neighbours.
   */
  predicate Delivered(t: Table, adj: seq<nat>, vs: seq<nat>, trace: seq<Call>)
    requires Valid(t) && |adj| == t.totalEdges
  {
    && |trace| == |vs|
    && forall k :: 0 <= k < |vs| ==>
         vs[k] < |t.offsets| && trace[k] == Call(vs[k], Neighbours(t, adj, vs[k]))
  }

  lemma DeliveredAppend(t: Table, adj: seq<nat>, xs: seq<nat>, tx: seq<Call>, ys: seq<nat>, ty: seq<Call>)
    requires Valid(t) && |adj| == t.totalEdges
    requires Delivered(t, adj, xs, tx) && Delivered(t, adj, ys, ty)
    ensures Delivered(t, adj, xs + ys, tx + ty)
  {
    forall k | 0 <= k < |xs + ys|
      ensures (xs + ys)[k] < |t.offsets|
      ensures (tx + ty)[k] == Call((xs + ys)[k], Neighbours(t, adj, (xs + ys)[k]))
    {
      if k >= |xs| {
        assert (xs + ys)[k] == ys[k - |xs|] && (tx + ty)[k] == ty[k - |xs|];
      }
    }
  }

  /**
   * Content transparency: a trace that delivers the packed vertices of
   * `[lo, hi)` calls the function once for every selected vertex with an
   * edge and for no other, in increasing id order, and every call sees
   * exactly `adj[offset[v] .. offset[v] + degree(v))`.
   */
  lemma ContentTransparency(t: Table, adj: seq<nat>, sel: Selection, lo: nat, hi: nat, trace: seq<Call>)
    requires Valid(t) && |adj| == t.totalEdges && lo <= hi <= |t.offsets|
    requires Delivered(t, adj, Packed(t, sel, lo, hi), trace)
    ensures forall v :: lo <= v < hi ==>
      ((exists k :: 0 <= k < |trace| && trace[k].v == v) <==> Chosen(sel, v) && NumEdges(t, v) > 0)
    ensures forall j, k :: 0 <= j < k < |trace| ==> trace[j].v < trace[k].v
    ensures forall k :: 0 <= k < |trace| ==>
      trace[k].v < |t.offsets| && t.offsets[trace[k].v] + NumEdges(t, trace[k].v) <= |adj| &&
      trace[k].edges == adj[t.offsets[trace[k].v] .. t.offsets[trace[k].v] + NumEdges(t, trace[k].v)]
  {
    TraceVertices(t, adj, sel, lo, hi, trace);
    TraceEdges(t, adj, Packed(t, sel, lo, hi), trace);
  }

  /** The vertices of a delivered trace are the packed ones, in increasing order. */
  lemma TraceVertices(t: Table, adj: seq<nat>, sel: Selection, lo: nat, hi: nat, trace: seq<Call>)
    requires Valid(t) && |adj| == t.totalEdges && lo <= hi <= |t.offsets|
    requires Delivered(t, adj, Packed(t, sel, lo, hi), trace)
    ensures forall v :: lo <= v < hi ==>
      ((exists k :: 0 <= k < |trace| && trace[k].v == v) <==> Chosen(sel, v) && NumEdges(t, v) > 0)
    ensures forall j, k :: 0 <= j < k < |trace| ==> trace[j].v < trace[k].v
    ensures forall k :: 0 <= k < |trace| ==> lo <= trace[k].v < hi
  {
    var vs := Packed(t, sel, lo, hi);
    PackedMembers(t, sel, lo, hi);
    forall k | 0 <= k < |trace|
      ensures lo <= trace[k].v < hi
    {
      assert vs[k] in vs;
    }
    forall v | lo <= v < hi
      ensures (exists k :: 0 <= k < |trace| && trace[k].v == v) <==> Chosen(sel, v) && NumEdges(t, v) > 0
    {
      if Chosen(sel, v) && NumEdges(t, v) > 0 {
        assert v in vs;
        var k :| 0 <= k < |vs| && vs[k] == v;
        assert trace[k].v == v;
      }
      if exists k :: 0 <= k < |trace| && trace[k].v == v {
        var k :| 0 <= k < |trace| && trace[k].v == v;
        assert vs[k] == v;
      }
    }
  }

  /** Every call of a delivered trace sees its vertex's slice of the adjacency array. */
  lemma TraceEdges(t: Table, adj: seq<nat>, vs: seq<nat>, trace: seq<Call>)
    requires Valid(t) && |adj| == t.totalEdges
    requires Delivered(t, adj, vs, trace)
    ensures forall k :: 0 <= k < |trace| ==>
      trace[k].v < |t.offsets| && t.offsets[trace[k].v] + NumEdges(t, trace[k].v) <= |adj| &&
      trace[k].edges == adj[t.offsets[trace[k].v] .. t.offsets[trace[k].v] + NumEdges(t, trace[k].v)]
  {
    forall k | 0 <= k < |trace|
      ensures t.offsets[trace[k].v] + NumEdges(t, trace[k].v) <= |adj|
      ensures trace[k].edges == adj[t.offsets[trace[k].v] .. t.offsets[trace[k].v] + NumEdges(t, trace[k].v)]
    {
      DegreeIsSliceWidth(t, vs[k]);
    }
  }

  // ---------------------------------------------------------------------
  // Work requests
  // ---------------------------------------------------------------------

  /**
   * The request chain `prep_wr` builds: only the first request is signalled,
   * and each request except the last links to its successor.
   */
  predicate Chained(ws: seq<WorkRequest>)
  {
    forall k :: 0 <= k < |ws| ==> ws[k].signaled == (k == 0) && ws[k].linked == (k < |ws| - 1)
  }

  /**
   * `prep_wr` at index `|ws|`: a fresh read of `length` bytes from
   * `peer.addr + remoteOffset` into buffer index `localIndex`.  A request
   * after the first is unsignalled and linked from its predecessor.
   */
  function PrepWr(ws: seq<WorkRequest>, peer: Peer, localIndex: nat, length: nat, remoteOffset: nat)
    : (r: seq<WorkRequest>)
    ensures |r| == |ws| + 1
    ensures forall k :: 0 <= k < |ws| ==> r[k] == ws[k].(linked := ws[k].linked || k == |ws| - 1)
    ensures r[|ws|] == WorkRequest(peer.addr + remoteOffset, peer.rkey, localIndex, length, peer.lkey, ws == [], false)
  {
    var wr := WorkRequest(peer.addr + remoteOffset, peer.rkey, localIndex, length, peer.lkey, true, false);
    if ws == [] then [wr]
    else ws[|ws| - 1 := ws[|ws| - 1].(linked := true)] + [wr.(signaled := false)]
  }

  /** Preparing one more request keeps the chain well formed. */
  lemma PrepWrKeepsChain(ws: seq<WorkRequest>, peer: Peer, localIndex: nat, length: nat, remoteOffset: nat)
    requires Chained(ws)
    ensures Chained(PrepWr(ws, peer, localIndex, length, remoteOffset))
  {
  }

  /** Ranges of real vertices, each with `first <= last`. */
  predicate RangesIn(t: Table, bs: seq<VertexRange>)
  {
    forall k :: 0 <= k < |bs| ==> bs[k].first <= bs[k].last < |t.offsets|
  }

  /** The number of edges a range of consecutive vertices covers. */
  function RangeEdges(t: Table, b: VertexRange): nat
    requires Valid(t) && b.first <= b.last < |t.offsets|
  {
    RangeDegree(t, b.first, b.last + 1)
  }

  /**
   * A request reads a range: from the first vertex's edge offset, for the
   * range's edges, with the peer's keys.
   */
  predicate Describes(t: Table, peer: Peer, b: VertexRange, w: WorkRequest)
    requires Valid(t) && b.first <= b.last < |t.offsets|
  {
    && w.remoteAddr == peer.addr + EDGE_BYTES * t.offsets[b.first]
    && w.rkey == peer.rkey && w.lkey == peer.lkey
    && w.length == EDGE_BYTES * RangeEdges(t, b)
  }

  /**
   * The requests fill the edge buffer from index 0, each landing right after
   * the previous one, `total` entries in all.
   */
  predicate Contiguous(t: Table, bs: seq<VertexRange>, ws: seq<WorkRequest>, total: nat)
    requires Valid(t) && RangesIn(t, bs) && |bs| == |ws|
  {
    && (ws == [] ==> total == 0)
    && (ws != [] ==> ws[0].localIndex == 0 && ws[|ws| - 1].localIndex + RangeEdges(t, bs[|bs| - 1]) == total)
    && (forall k :: 0 <= k < |ws| - 1 ==> ws[k + 1].localIndex == ws[k].localIndex + RangeEdges(t, bs[k]))
  }

  /** Every request's byte length fits its 32-bit scatter entry. */
  predicate LengthsFit(ws: seq<WorkRequest>)
  {
    forall k :: 0 <= k < |ws| ==> ws[k].length < UINT32_LIMIT
  }

  /** Where the read after request k lands: the next request's index, or `total` after the last. */
  function EndOfRead(ws: seq<WorkRequest>, total: nat, k: nat): nat
    requires k <= |ws|
  {
    if k == |ws| then total else ws[k].localIndex
  }

  /** Contiguous reads do not overlap: read j ends at or before read k starts. */
  lemma {:induction false} ContiguousDisjoint(t: Table, bs: seq<VertexRange>, ws: seq<WorkRequest>, total: nat, j: nat, k: nat)
    requires Valid(t) && RangesIn(t, bs) && |bs| == |ws| && Contiguous(t, bs, ws, total)
    requires j < k <= |ws|
    ensures ws[j].localIndex + RangeEdges(t, bs[j]) <= EndOfRead(ws, total, k)
    decreases k - j
  {
    if j + 1 < k {
      ContiguousDisjoint(t, bs, ws, total, j, k - 1);
    }
  }

  /**
   * The reads of a contiguous window fill at most `total` entries, so in an
   * addressable buffer none of their lengths wraps.
   */
  lemma WindowLengthsFit(t: Table, bs: seq<VertexRange>, ws: seq<WorkRequest>, peer: Peer, total: nat, n: nat)
    requires Valid(t) && RangesIn(t, bs) && |bs| == |ws| && Contiguous(t, bs, ws, total)
    requires forall k :: 0 <= k < |ws| ==> Describes(t, peer, bs[k], ws[k])
    requires total <= n && Addressable(n)
    ensures LengthsFit(ws)
  {
    forall k | 0 <= k < |ws|
      ensures ws[k].length < UINT32_LIMIT
    {
      ContiguousDisjoint(t, bs, ws, total, k, |ws|);
    }
  }

  /**
   * `pack_window` adds `total_edges + n_out_edge` in 32 bits.  In an
   * addressable buffer, for a vertex no larger than the buffer, the sum
   * cannot wrap: the 32-bit test is the exact one.
   */
  lemma FitTestExact(total: nat, d: nat, n: nat)
    requires total <= n && d <= n && Addressable(n)
    ensures ((total + d) % UINT32_LIMIT <= n) <==> (total + d <= n)
  {
  }

  /**
   * What a packer leaves behind after walking `[start, next)`: one range and
   * one chained request per read, the ranges covering exactly the packed
   * vertices in order, and `total` buffer entries in use.
   */
  predicate PackedWindow(t: Table, sel: Selection, start: nat, next: nat,
                         bs: seq<VertexRange>, ws: seq<WorkRequest>, peer: Peer, total: nat)
    requires Valid(t) && start <= next <= |t.offsets|
  {
    && |bs| == |ws| && RangesIn(t, bs) && Chained(ws)
    && (forall k :: 0 <= k < |ws| ==> Describes(t, peer, bs[k], ws[k]))
    && Contiguous(t, bs, ws, total)
    && Flatten(bs) == Packed(t, sel, start, next)
  }

  /**
   * With coalescing off every read covers one vertex; with it on, reads of
   * adjacent ids have been merged, so two ranges never touch.
   */
  predicate Coalesced(bs: seq<VertexRange>, coalescing: bool)
  {
    && (!coalescing ==> forall k :: 0 <= k < |bs| ==> bs[k].first == bs[k].last)
    && (coalescing ==> forall k :: 0 <= k < |bs| - 1 ==> bs[k].last + 1 < bs[k + 1].first)
  }

  // ---------------------------------------------------------------------
  // Sentinels
  // ---------------------------------------------------------------------

  /** A sub-buffer of `d > 0` entries at `p` with a sentinel in its first and last slot. */
  predicate SignedAt(b: seq<nat>, p: nat, d: nat)
  {
    0 < d && p + d <= |b| && b[p] == NULL_VERT && b[p + d - 1] == NULL_VERT
  }

  /** Where vertex u's slice starts inside read k. */
  function SlotOf(t: Table, bs: seq<VertexRange>, ws: seq<WorkRequest>, k: nat, u: nat): nat
    requires Valid(t) && RangesIn(t, bs) && |bs| == |ws| && k < |bs| && bs[k].first <= u <= bs[k].last
  {
    ws[k].localIndex + RangeDegree(t, bs[k].first, u)
  }

  /** Every packed vertex's sub-buffer carries both sentinels. */
  predicate Signed(t: Table, bs: seq<VertexRange>, ws: seq<WorkRequest>, b: seq<nat>)
    requires Valid(t) && RangesIn(t, bs) && |bs| == |ws|
  {
    forall k, v {:trigger SlotOf(t, bs, ws, k, v)} :: 0 <= k < |bs| && bs[k].first <= v <= bs[k].last ==>
      SignedAt(b, SlotOf(t, bs, ws, k, v), NumEdges(t, v))
  }

  /** The sentinel stores of `pack_window` and `sign_buffer`: the first and last slot of `d` entries at `p`. */
  method Sign(buf: array<nat>, p: nat, d: nat)
    requires 0 < d && p + d <= buf.Length
    modifies buf
    ensures buf[..] == old(buf[..])[p := NULL_VERT][p + d - 1 := NULL_VERT]
    ensures SignedAt(buf[..], p, d)
  {
    buf[p] := NULL_VERT;
    buf[p + d - 1] := NULL_VERT;
  }

  // ---------------------------------------------------------------------
  // One step of the packing loop
  // ---------------------------------------------------------------------

  /** Skipping a vertex that is not packed changes nothing. */
  lemma SkipStep(t: Table, sel: Selection, start: nat, v: nat,
                 bs: seq<VertexRange>, ws: seq<WorkRequest>, peer: Peer, total: nat)
    requires Valid(t) && start <= v < |t.offsets|
    requires !(Chosen(sel, v) && NumEdges(t, v) > 0)
    requires PackedWindow(t, sel, start, v, bs, ws, peer, total)
    ensures PackedWindow(t, sel, start, v + 1, bs, ws, peer, total)
  {
    assert Packed(t, sel, start, v + 1) == Packed(t, sel, start, v);
  }

  /** The last packed vertex is the end of the last range, and lies below the cursor. */
  lemma LastRangeBelow(t: Table, sel: Selection, start: nat, v: nat,
                       bs: seq<VertexRange>, ws: seq<WorkRequest>, peer: Peer, total: nat)
    requires Valid(t) && start <= v <= |t.offsets|
    requires PackedWindow(t, sel, start, v, bs, ws, peer, total)
    requires bs != []
    ensures bs[|bs| - 1].last < v
  {
    var b := bs[|bs| - 1];
    assert bs == bs[..|bs| - 1] + [b];
    FlattenSnoc(bs[..|bs| - 1], b);
    var f := Flatten(bs);
    assert f[|f| - 1] == b.last;
    PackedMembers(t, sel, start, v);
    assert f[|f| - 1] in f;
  }

  /** Appending a read that lands at `total` keeps the reads contiguous. */
  lemma ContiguousAppend(t: Table, bs: seq<VertexRange>, ws: seq<WorkRequest>, total: nat,
                         bs': seq<VertexRange>, ws': seq<WorkRequest>)
    requires Valid(t) && RangesIn(t, bs) && |bs| == |ws| && Contiguous(t, bs, ws, total)
    requires RangesIn(t, bs') && |bs'| == |ws'| == |ws| + 1
    requires forall k :: 0 <= k < |bs| ==> bs'[k] == bs[k] && ws'[k].localIndex == ws[k].localIndex
    requires ws'[|ws|].localIndex == total
    ensures Contiguous(t, bs', ws', total + RangeEdges(t, bs'[|bs|]))
  {
  }

  /** Growing the last read by `d` entries keeps the reads contiguous. */
  lemma ContiguousGrow(t: Table, bs: seq<VertexRange>, ws: seq<WorkRequest>, total: nat,
                       bs': seq<VertexRange>, ws': seq<WorkRequest>, d: nat)
    requires Valid(t) && RangesIn(t, bs) && |bs| == |ws| && Contiguous(t, bs, ws, total)
    requires RangesIn(t, bs') && |bs'| == |ws'| == |ws| > 0
    requires forall k :: 0 <= k < |bs| - 1 ==> bs'[k] == bs[k]
    requires forall k :: 0 <= k < |bs| ==> ws'[k].localIndex == ws[k].localIndex
    requires RangeEdges(t, bs'[|bs| - 1]) == RangeEdges(t, bs[|bs| - 1]) + d
    ensures Contiguous(t, bs', ws', total + d)
  {
  }

  /** `prep_wr` for a single vertex describes that vertex's read and keeps the earlier ones. */
  lemma DescribesAppend(t: Table, peer: Peer, bs: seq<VertexRange>, ws: seq<WorkRequest>, total: nat, v: nat,
                        bs': seq<VertexRange>, ws': seq<WorkRequest>)
    requires Valid(t) && v < |t.offsets| && RangesIn(t, bs) && |bs| == |ws|
    requires forall k :: 0 <= k < |ws| ==> Describes(t, peer, bs[k], ws[k])
    requires bs' == bs + [VertexRange(v, v)]
    requires ws' == PrepWr(ws, peer, total, EDGE_BYTES * NumEdges(t, v), EDGE_BYTES * t.offsets[v])
    ensures RangesIn(t, bs') && forall k :: 0 <= k < |ws'| ==> Describes(t, peer, bs'[k], ws'[k])
  {
    SingleRangeDegree(t, v);
  }

  /** Growing the last read by one vertex's bytes describes the grown range and keeps the chain. */
  lemma DescribesGrow(t: Table, peer: Peer, bs: seq<VertexRange>, ws: seq<WorkRequest>, v: nat,
                      bs': seq<VertexRange>, ws': seq<WorkRequest>)
    requires Valid(t) && v < |t.offsets| && RangesIn(t, bs) && |bs| == |ws| > 0
    requires forall k :: 0 <= k < |ws| ==> Describes(t, peer, bs[k], ws[k])
    requires Chained(ws)
    requires v == bs[|bs| - 1].last + 1
    requires bs' == bs[|bs| - 1 := VertexRange(bs[|bs| - 1].first, v)]
    requires ws' == ws[|ws| - 1 := ws[|ws| - 1].(length := ws[|ws| - 1].length + EDGE_BYTES * NumEdges(t, v))]
    ensures RangesIn(t, bs') && Chained(ws')
    ensures RangeEdges(t, bs'[|bs| - 1]) == RangeEdges(t, bs[|bs| - 1]) + NumEdges(t, v)
    ensures forall k :: 0 <= k < |ws'| ==> Describes(t, peer, bs'[k], ws'[k])
  {
  }

  /** A packed vertex that does not extend the last range opens a new read. */
  lemma NewRangeStep(t: Table, sel: Selection, start: nat, v: nat,
                     bs: seq<VertexRange>, ws: seq<WorkRequest>, peer: Peer, total: nat)
    requires Valid(t) && start <= v < |t.offsets|
    requires Chosen(sel, v) && NumEdges(t, v) > 0
    requires PackedWindow(t, sel, start, v, bs, ws, peer, total)
    ensures PackedWindow(t, sel, start, v + 1, bs + [VertexRange(v, v)],
      PrepWr(ws, peer, total, EDGE_BYTES * NumEdges(t, v), EDGE_BYTES * t.offsets[v]), peer,
      total + NumEdges(t, v))
  {
    var d := NumEdges(t, v);
    var bs' := bs + [VertexRange(v, v)];
    var ws' := PrepWr(ws, peer, total, EDGE_BYTES * d, EDGE_BYTES * t.offsets[v]);
    PrepWrKeepsChain(ws, peer, total, EDGE_BYTES * d, EDGE_BYTES * t.offsets[v]);
    DescribesAppend(t, peer, bs, ws, total, v, bs', ws');
    SingleRangeDegree(t, v);
    ContiguousAppend(t, bs, ws, total, bs', ws');
    FlattenSnoc(bs, VertexRange(v, v));
    assert Span(v, v + 1) == [v];
  }

  /**
   * With coalescing, a packed vertex right after the last range's end joins
   * that range, and its read grows by the vertex's edges.
   */
  lemma CoalesceStep(t: Table, sel: Selection, start: nat, v: nat,
                     bs: seq<VertexRange>, ws: seq<WorkRequest>, peer: Peer, total: nat,
                     bs': seq<VertexRange>, ws': seq<WorkRequest>, total': nat)
    requires Valid(t) && start <= v < |t.offsets|
    requires Chosen(sel, v) && NumEdges(t, v) > 0
    requires PackedWindow(t, sel, start, v, bs, ws, peer, total)
    requires bs != [] && v == bs[|bs| - 1].last + 1
    requires bs' == bs[|bs| - 1 := VertexRange(bs[|bs| - 1].first, v)]
    requires ws' == ws[|ws| - 1 := ws[|ws| - 1].(length := ws[|ws| - 1].length + EDGE_BYTES * NumEdges(t, v))]
    requires total' == total + NumEdges(t, v)
    ensures PackedWindow(t, sel, start, v + 1, bs', ws', peer, total')
  {
    var d := NumEdges(t, v);
    DescribesGrow(t, peer, bs, ws, v, bs', ws');
    ContiguousGrow(t, bs, ws, total, bs', ws', d);
    FlattenGrow(bs, v);
  }

  // ---------------------------------------------------------------------
  // Sentinels across a step
  // ---------------------------------------------------------------------

  /** Every packed vertex's slice lies below `total`. */
  lemma SlotBelowTotal(t: Table, bs: seq<VertexRange>, ws: seq<WorkRequest>, total: nat, k: nat, u: nat)
    requires Valid(t) && RangesIn(t, bs) && |bs| == |ws| && Contiguous(t, bs, ws, total)
    requires k < |bs| && bs[k].first <= u <= bs[k].last
    ensures SlotOf(t, bs, ws, k, u) + NumEdges(t, u) <= total
  {
    RangeDegreeMonotone(t, bs[k].first, u + 1, bs[k].last + 1);
    ContiguousDisjoint(t, bs, ws, total, k, |ws|);
  }

  /** Stores at or above `total` leave the sentinels of the packed vertices in place. */
  lemma SignedKeep(t: Table, bs: seq<VertexRange>, ws: seq<WorkRequest>, total: nat, b: seq<nat>, b': seq<nat>)
    requires Valid(t) && RangesIn(t, bs) && |bs| == |ws| && Contiguous(t, bs, ws, total)
    requires Signed(t, bs, ws, b) && |b'| == |b|
    requires forall i :: 0 <= i < total && i < |b| ==> b'[i] == b[i]
    ensures Signed(t, bs, ws, b')
  {
    forall k, u | 0 <= k < |bs| && bs[k].first <= u <= bs[k].last
      ensures SignedAt(b', SlotOf(t, bs, ws, k, u), NumEdges(t, u))
    {
      SlotBelowTotal(t, bs, ws, total, k, u);
    }
  }

  /** A new single-vertex read signed at `total` keeps every slice signed. */
  lemma SignedAppend(t: Table, bs: seq<VertexRange>, ws: seq<WorkRequest>, total: nat, v: nat,
                     bs': seq<VertexRange>, ws': seq<WorkRequest>, b: seq<nat>)
    requires Valid(t) && RangesIn(t, bs) && |bs| == |ws| && Signed(t, bs, ws, b)
    requires v < |t.offsets| && SignedAt(b, total, NumEdges(t, v))
    requires RangesIn(t, bs') && |bs'| == |ws'| == |ws| + 1
    requires forall k :: 0 <= k < |bs| ==> bs'[k] == bs[k] && ws'[k].localIndex == ws[k].localIndex
    requires bs'[|bs|] == VertexRange(v, v) && ws'[|bs|].localIndex == total
    ensures Signed(t, bs', ws', b)
  {
    forall k, u | 0 <= k < |bs'| && bs'[k].first <= u <= bs'[k].last
      ensures SignedAt(b, SlotOf(t, bs', ws', k, u), NumEdges(t, u))
    {
      if k < |bs| {
        assert SlotOf(t, bs', ws', k, u) == SlotOf(t, bs, ws, k, u);
      } else {
        assert RangeDegree(t, v, v) == 0;
        assert SlotOf(t, bs', ws', k, u) == total;
      }
    }
  }

  /** Extending the last read by vertex v, signed at `total`, keeps every slice signed. */
  lemma SignedGrow(t: Table, bs: seq<VertexRange>, ws: seq<WorkRequest>, total: nat, v: nat,
                   bs': seq<VertexRange>, ws': seq<WorkRequest>, b: seq<nat>)
    requires Valid(t) && RangesIn(t, bs) && |bs| == |ws| > 0 && Contiguous(t, bs, ws, total)
    requires Signed(t, bs, ws, b)
    requires v < |t.offsets| && SignedAt(b, total, NumEdges(t, v)) && v == bs[|bs| - 1].last + 1
    requires RangesIn(t, bs') && |bs'| == |ws'| == |ws|
    requires bs' == bs[|bs| - 1 := VertexRange(bs[|bs| - 1].first, v)]
    requires forall k :: 0 <= k < |bs| ==> ws'[k].localIndex == ws[k].localIndex
    ensures Signed(t, bs', ws', b)
  {
    forall k, u | 0 <= k < |bs'| && bs'[k].first <= u <= bs'[k].last
      ensures SignedAt(b, SlotOf(t, bs', ws', k, u), NumEdges(t, u))
    {
      if k < |bs| - 1 || u < v {
        assert SlotOf(t, bs', ws', k, u) == SlotOf(t, bs, ws, k, u);
      } else {
        assert SlotOf(t, bs', ws', k, u) == total;
      }
    }
  }

  // ---------------------------------------------------------------------
  // pack_window and pack_window2
  // ---------------------------------------------------------------------

  /** A fresh single-vertex read past the last range keeps the shape coalescing promises. */
  lemma CoalescedAppend(bs: seq<VertexRange>, v: nat, coalescing: bool)
    requires Coalesced(bs, coalescing)
    requires bs != [] ==> bs[|bs| - 1].last < v && (coalescing ==> v != bs[|bs| - 1].last + 1)
    ensures Coalesced(bs + [VertexRange(v, v)], coalescing)
  {
  }

  /** Growing the last range keeps the shape coalescing promises. */
  lemma CoalescedGrow(bs: seq<VertexRange>, v: nat)
    requires Coalesced(bs, true) && bs != []
    ensures Coalesced(bs[|bs| - 1 := VertexRange(bs[|bs| - 1].first, v)], true)
  {
  }

  /**
   * The two sentinel stores of the packing loop, at the next free entry:
   * they leave the earlier sentinels in place.
   */
  method SignNext(t: Table, bs: seq<VertexRange>, ws: seq<WorkRequest>, total: nat, d: nat, buf: array<nat>)
    requires Valid(t) && RangesIn(t, bs) && |bs| == |ws| && Contiguous(t, bs, ws, total)
    requires Signed(t, bs, ws, buf[..]) && 0 < d && total + d <= buf.Length
    modifies buf
    ensures Signed(t, bs, ws, buf[..]) && SignedAt(buf[..], total, d)
    ensures forall i :: 0 <= i < buf.Length && (i < total || total + d <= i) ==> buf[i] == old(buf[i])
  {
    Sign(buf, total, d);
    SignedKeep(t, bs, ws, total, old(buf[..]), buf[..]);
  }

  /**
   * The body of the packing loop for a vertex that is taken: sign its
   * sub-buffer at `total`, then either extend the last read (coalescing, a
   * read already prepared and the vertex right after that read's last id)
   * or prepare a fresh read with `prep_wr`.
   */
  method Admit(t: Table, sel: Selection, start: nat, v: nat,
               bs: seq<VertexRange>, ws: seq<WorkRequest>, total: nat, batchSize: nat,
               peer: Peer, coalescing: bool, buf: array<nat>)
    returns (bs': seq<VertexRange>, ws': seq<WorkRequest>, total': nat)
    requires Valid(t) && start <= v < |t.offsets|
    requires Chosen(sel, v) && 0 < NumEdges(t, v) && total + NumEdges(t, v) <= buf.Length
    requires PackedWindow(t, sel, start, v, bs, ws, peer, total)
    requires Coalesced(bs, coalescing) && Signed(t, bs, ws, buf[..])
    requires (batchSize == 0) == (bs == [])
    modifies buf
    ensures PackedWindow(t, sel, start, v + 1, bs', ws', peer, total')
    ensures Coalesced(bs', coalescing) && Signed(t, bs', ws', buf[..])
    ensures total' == total + NumEdges(t, v) && bs' != [] && |ws| <= |ws'| <= |ws| + 1
    ensures forall i :: 0 <= i < buf.Length && (i < total || total' <= i) ==> buf[i] == old(buf[i])
  {
    var d := NumEdges(t, v);
    SignNext(t, bs, ws, total, d, buf);
    if bs != [] {
      LastRangeBelow(t, sel, start, v, bs, ws, peer, total);
    }
    if coalescing && batchSize > 0 && v == bs[|ws| - 1].last + 1 {
      bs', ws', total' := Extend(t, sel, start, v, bs, ws, total, peer, buf[..]);
    } else {
      bs', ws', total' := Open(t, sel, start, v, bs, ws, total, peer, coalescing, buf[..]);
    }
  }

  /** Coalescing: vertex v, signed at `total`, joins the last read. */
  method Extend(t: Table, sel: Selection, start: nat, v: nat,
                bs: seq<VertexRange>, ws: seq<WorkRequest>, total: nat, peer: Peer, b: seq<nat>)
    returns (bs': seq<VertexRange>, ws': seq<WorkRequest>, total': nat)
    requires Valid(t) && start <= v < |t.offsets|
    requires Chosen(sel, v) && 0 < NumEdges(t, v)
    requires PackedWindow(t, sel, start, v, bs, ws, peer, total)
    requires Coalesced(bs, true) && Signed(t, bs, ws, b) && SignedAt(b, total, NumEdges(t, v))
    requires bs != [] && v == bs[|bs| - 1].last + 1
    ensures PackedWindow(t, sel, start, v + 1, bs', ws', peer, total')
    ensures Coalesced(bs', true) && Signed(t, bs', ws', b)
    ensures total' == total + NumEdges(t, v) && bs' != [] && |ws'| == |ws|
  {
    var d := NumEdges(t, v);
    bs' := bs[|bs| - 1 := VertexRange(bs[|bs| - 1].first, v)];
    ws' := ws[|ws| - 1 := ws[|ws| - 1].(length := ws[|ws| - 1].length + EDGE_BYTES * d)];
    total' := total + d;
    CoalesceStep(t, sel, start, v, bs, ws, peer, total, bs', ws', total');
    SignedGrow(t, bs, ws, total, v, bs', ws', b);
    CoalescedGrow(bs, v);
  }

  /** Vertex v, signed at `total`, gets a read of its own, prepared by `prep_wr`. */
  method Open(t: Table, sel: Selection, start: nat, v: nat,
              bs: seq<VertexRange>, ws: seq<WorkRequest>, total: nat, peer: Peer, coalescing: bool, b: seq<nat>)
    returns (bs': seq<VertexRange>, ws': seq<WorkRequest>, total': nat)
    requires Valid(t) && start <= v < |t.offsets|
    requires Chosen(sel, v) && 0 < NumEdges(t, v)
    requires PackedWindow(t, sel, start, v, bs, ws, peer, total)
    requires Coalesced(bs, coalescing) && Signed(t, bs, ws, b) && SignedAt(b, total, NumEdges(t, v))
    requires bs != [] ==> bs[|bs| - 1].last < v && (coalescing ==> v != bs[|bs| - 1].last + 1)
    ensures PackedWindow(t, sel, start, v + 1, bs', ws', peer, total')
    ensures Coalesced(bs', coalescing) && Signed(t, bs', ws', b)
    ensures total' == total + NumEdges(t, v) && bs' != [] && |ws'| == |ws| + 1
  {
    var d := NumEdges(t, v);
    bs' := bs + [VertexRange(v, v)];
    ws' := PrepWr(ws, peer, total, EDGE_BYTES * d, EDGE_BYTES * t.offsets[v]);
    total' := total + d;
    NewRangeStep(t, sel, start, v, bs, ws, peer, total);
    SignedAppend(t, bs, ws, total, v, bs', ws', b);
    CoalescedAppend(bs, v, coalescing);
  }

  /**
   * The state of the packing loop after walking `[start, next)`: the
   * packed window so far, within the window and buffer limits, with the
   * buffer `b` unchanged from `b0` beyond the entries in use.
   */
  ghost predicate Packing(t: Table, sel: Selection, start: nat, hi: nat, window: nat, peer: Peer, coalescing: bool,
                          next: nat, bs: seq<VertexRange>, ws: seq<WorkRequest>, total: nat, batchSize: nat,
                          b0: seq<nat>, b: seq<nat>)
    requires Valid(t) && hi <= |t.offsets|
  {
    && start <= next <= hi && |ws| <= window && total <= |b| && |b| == |b0|
    && PackedWindow(t, sel, start, next, bs, ws, peer, total)
    && Coalesced(bs, coalescing)
    && batchSize == |Packed(t, sel, start, next)| && (batchSize == 0) == (bs == [])
    && Signed(t, bs, ws, b)
    && (forall i :: total <= i < |b| ==> b[i] == b0[i])
    && (next == start ==> total == 0 && ws == [])
    && (|b| == 0 || window == 0 ==> next == start)
  }

  /** Passing over a vertex that is not taken keeps the packing state. */
  lemma PassOver(t: Table, sel: Selection, start: nat, hi: nat, window: nat, peer: Peer, coalescing: bool,
                 next: nat, bs: seq<VertexRange>, ws: seq<WorkRequest>, total: nat, batchSize: nat,
                 b0: seq<nat>, b: seq<nat>)
    requires Valid(t) && hi <= |t.offsets| && next < hi && 0 < |b| && 0 < window
    requires Packing(t, sel, start, hi, window, peer, coalescing, next, bs, ws, total, batchSize, b0, b)
    requires !(Chosen(sel, next) && NumEdges(t, next) > 0)
    ensures Packing(t, sel, start, hi, window, peer, coalescing, next + 1, bs, ws, total, batchSize, b0, b)
  {
    SkipStep(t, sel, start, next, bs, ws, peer, total);
    PackedSplit(t, sel, start, next, next + 1);
  }

  /** Taking a vertex, as `Admit` does, keeps the packing state. */
  lemma TakeOne(t: Table, sel: Selection, start: nat, hi: nat, window: nat, peer: Peer, coalescing: bool,
                next: nat, bs: seq<VertexRange>, ws: seq<WorkRequest>, total: nat, batchSize: nat,
                b0: seq<nat>, b: seq<nat>, bs': seq<VertexRange>, ws': seq<WorkRequest>, total': nat, b': seq<nat>)
    requires Valid(t) && hi <= |t.offsets| && next < hi && total < |b| && |ws| < window
    requires Packing(t, sel, start, hi, window, peer, coalescing, next, bs, ws, total, batchSize, b0, b)
    requires Chosen(sel, next) && 0 < NumEdges(t, next) && total + NumEdges(t, next) <= |b|
    requires PackedWindow(t, sel, start, next + 1, bs', ws', peer, total')
    requires Coalesced(bs', coalescing) && Signed(t, bs', ws', b')
    requires total' == total + NumEdges(t, next) && bs' != [] && |ws| <= |ws'| <= |ws| + 1
    requires |b'| == |b| && forall i :: 0 <= i < |b| && (i < total || total' <= i) ==> b'[i] == b[i]
    ensures Packing(t, sel, start, hi, window, peer, coalescing, next + 1, bs', ws', total', batchSize + 1, b0, b')
  {
    PackedSplit(t, sel, start, next, next + 1);
    assert total' <= |b'|;
  }

  /**
   * One turn of the packing loop at vertex `next`: a selected vertex with
   * edges is taken when they fit and otherwise ends the window (`full`); any
   * other vertex is passed over.
   */
  method PackStep(t: Table, sel: Selection, start: nat, hi: nat, window: nat, peer: Peer, coalescing: bool,
                  next: nat, bs: seq<VertexRange>, ws: seq<WorkRequest>, total: nat, batchSize: nat,
                  buf: array<nat>, ghost b0: seq<nat>)
    returns (full: bool, next': nat, bs': seq<VertexRange>, ws': seq<WorkRequest>, total': nat, batchSize': nat)
    requires Valid(t) && hi <= |t.offsets| && next < hi && total < buf.Length && |ws| < window
    requires Packing(t, sel, start, hi, window, peer, coalescing, next, bs, ws, total, batchSize, b0, buf[..])
    modifies buf
    ensures Packing(t, sel, start, hi, window, peer, coalescing, next', bs', ws', total', batchSize', b0, buf[..])
    ensures full ==> next' == next && next < hi && Chosen(sel, next) && total' + NumEdges(t, next) > buf.Length
    ensures !full ==> next' == next + 1
  {
    full, next', bs', ws', total', batchSize' := false, next + 1, bs, ws, total, batchSize;
    if Chosen(sel, next) && NumEdges(t, next) > 0 {
      if total + NumEdges(t, next) <= buf.Length {
        ghost var b := buf[..];
        bs', ws', total' := Admit(t, sel, start, next, bs, ws, total, batchSize, peer, coalescing, buf);
        batchSize' := batchSize + 1;
        TakeOne(t, sel, start, hi, window, peer, coalescing, next, bs, ws, total, batchSize, b0, b,
                bs', ws', total', buf[..]);
      } else {
        full, next' := true, next;
      }
    } else {
      PassOver(t, sel, start, hi, window, peer, coalescing, next, bs, ws, total, batchSize, b0, buf[..]);
    }
  }

  /**
   * `pack_window` (and, with `EveryVertex`, `pack_window2`): from `start`,
   * take the selected vertices with edges while the buffer has room, fewer
   * than `window` reads are prepared and `hi` is not reached.  A selected
   * vertex whose edges no longer fit ends the window and is returned as the
   * next start.  Returns the next start, the vertex ranges, the prepared
   * reads, the buffer entries used and the number of vertices packed.
   */
  method PackWindow(t: Table, sel: Selection, start: nat, hi: nat, window: nat,
                    peer: Peer, coalescing: bool, buf: array<nat>)
    returns (next: nat, bs: seq<VertexRange>, ws: seq<WorkRequest>, total: nat, batchSize: nat)
    requires Valid(t) && start <= hi <= |t.offsets| && Addressable(buf.Length)
    modifies buf
    ensures start <= next <= hi && |ws| <= window && total <= buf.Length
    ensures LengthsFit(ws)
    ensures PackedWindow(t, sel, start, next, bs, ws, peer, total)
    ensures Coalesced(bs, coalescing)
    ensures batchSize == |Packed(t, sel, start, next)|
    ensures Signed(t, bs, ws, buf[..])
    ensures forall i :: total <= i < buf.Length ==> buf[i] == old(buf[i])
    ensures (buf.Length == 0 || window == 0) ==> next == start && ws == []
    ensures next == hi || total == buf.Length || |ws| == window ||
            (Chosen(sel, next) && total + NumEdges(t, next) > buf.Length)
    ensures (buf.Length > 0 && window > 0 && start < hi &&
             (Chosen(sel, start) ==> NumEdges(t, start) <= buf.Length)) ==> start < next
  {
    next, bs, ws, total, batchSize := start, [], [], 0, 0;
    var full := false;
    while !full && total < buf.Length && |ws| < window && next < hi
      invariant Packing(t, sel, start, hi, window, peer, coalescing, next, bs, ws, total, batchSize, old(buf[..]), buf[..])
      invariant full ==> next < hi && Chosen(sel, next) && total + NumEdges(t, next) > buf.Length
      decreases hi - next, if full then 0 else 1
    {
      full, next, bs, ws, total, batchSize :=
        PackStep(t, sel, start, hi, window, peer, coalescing, next, bs, ws, total, batchSize, buf, old(buf[..]));
    }
    WindowLengthsFit(t, bs, ws, peer, total, buf.Length);
  }
}
