/**
 * The batch loops of `single_buffer::for_each_active_batch` and
 * `single_buffer::for_each_range`: pack a window, post its chained reads,
 * then walk the packed ranges and hand each vertex its slice of the edge
 * buffer.  An RDMA read is delivered at once, as a copy out of the remote
 * adjacency array.
 */
module Batches {
  import opened Csr
  import opened Frontier
  import opened Window

  // ---------------------------------------------------------------------
  // Delivery of the posted reads
  // ---------------------------------------------------------------------

  /** The adjacency index a read starts at. */
  function ReadFrom(w: WorkRequest, peer: Peer): nat
    requires peer.addr <= w.remoteAddr
  {
    (w.remoteAddr - peer.addr) / EDGE_BYTES
  }

  /** The number of adjacency entries a read carries. */
  function ReadCount(w: WorkRequest): nat
  {
    w.length / EDGE_BYTES
  }

  /**
   * One RDMA read, delivered: the entries it names are copied from the
   * remote adjacency array to the request's buffer index, and nothing else
   * in the buffer changes.
   */
  method Deliver(w: WorkRequest, peer: Peer, adj: seq<nat>, buf: array<nat>)
    requires peer.addr <= w.remoteAddr
    requires ReadFrom(w, peer) + ReadCount(w) <= |adj|
    requires w.localIndex + ReadCount(w) <= buf.Length
    modifies buf
    ensures buf[w.localIndex .. w.localIndex + ReadCount(w)] == adj[ReadFrom(w, peer) .. ReadFrom(w, peer) + ReadCount(w)]
    ensures forall i :: 0 <= i < buf.Length && !(w.localIndex <= i < w.localIndex + ReadCount(w)) ==> buf[i] == old(buf[i])
  {
    var src, dst, count := ReadFrom(w, peer), w.localIndex, ReadCount(w);
    var j := 0;
    while j < count
      invariant 0 <= j <= count
      invariant forall i :: dst <= i < dst + j ==> buf[i] == adj[src + (i - dst)]
      invariant forall i :: 0 <= i < buf.Length && !(dst <= i < dst + j) ==> buf[i] == old(buf[i])
    {
      buf[dst + j] := adj[src + j];
      j := j + 1;
    }
    ghost var landed, wanted := buf[dst .. dst + count], adj[src .. src + count];
    forall i | 0 <= i < count
      ensures landed[i] == wanted[i]
    {
      assert landed[i] == buf[dst + i];
    }
  }

  /** Read k has landed: its buffer entries are the adjacency entries of its range. */
  predicate LandedAt(t: Table, adj: seq<nat>, bs: seq<VertexRange>, ws: seq<WorkRequest>, b: seq<nat>, k: nat)
    requires Valid(t) && RangesIn(t, bs) && |bs| == |ws| && k < |bs|
  {
    && ws[k].localIndex + RangeEdges(t, bs[k]) <= |b|
    && t.offsets[bs[k].first] + RangeEdges(t, bs[k]) <= |adj|
    && b[ws[k].localIndex .. ws[k].localIndex + RangeEdges(t, bs[k])]
         == adj[t.offsets[bs[k].first] .. t.offsets[bs[k].first] + RangeEdges(t, bs[k])]
  }

  /** Every read of the window has landed. */
  predicate Landed(t: Table, adj: seq<nat>, bs: seq<VertexRange>, ws: seq<WorkRequest>, b: seq<nat>)
    requires Valid(t) && RangesIn(t, bs) && |bs| == |ws|
  {
    forall k :: 0 <= k < |bs| ==> LandedAt(t, adj, bs, ws, b, k)
  }

  /** A request that describes a range reads exactly that range's edges. */
  lemma ReadOfRange(t: Table, peer: Peer, b: VertexRange, w: WorkRequest)
    requires Valid(t) && b.first <= b.last < |t.offsets| && Describes(t, peer, b, w)
    ensures peer.addr <= w.remoteAddr
    ensures ReadFrom(w, peer) == t.offsets[b.first] && ReadCount(w) == RangeEdges(t, b)
  {
  }

  /** A range's edges lie inside the adjacency array. */
  lemma RangeInsideAdjacency(t: Table, b: VertexRange)
    requires Valid(t) && b.first <= b.last < |t.offsets|
    ensures t.offsets[b.first] + RangeEdges(t, b) <= t.totalEdges
  {
    RangeTelescopes(t, b.first, b.last + 1);
    StartsMonotone(t, b.last + 1, b.last + 1);
  }

  /** A read landing at or after where read j ends leaves read j intact. */
  lemma LandedKeep(t: Table, adj: seq<nat>, bs: seq<VertexRange>, ws: seq<WorkRequest>, total: nat,
                   b: seq<nat>, b': seq<nat>, k: nat)
    requires Valid(t) && RangesIn(t, bs) && |bs| == |ws| && Contiguous(t, bs, ws, total) && k <= |ws|
    requires |b| == |b'|
    requires forall i :: 0 <= i < EndOfRead(ws, total, k) && i < |b| ==> b'[i] == b[i]
    requires forall j :: 0 <= j < k ==> LandedAt(t, adj, bs, ws, b, j)
    ensures forall j :: 0 <= j < k ==> LandedAt(t, adj, bs, ws, b', j)
  {
    forall j | 0 <= j < k
      ensures LandedAt(t, adj, bs, ws, b', j)
    {
      ContiguousDisjoint(t, bs, ws, total, j, k);
      var lo := ws[j].localIndex;
      var hi := lo + RangeEdges(t, bs[j]);
      assert LandedAt(t, adj, bs, ws, b, j);
      assert b'[lo .. hi] == b[lo .. hi];
    }
  }

  /**
   * `ibv_post_send` of the chain that starts at request 0: the chain links
   * every prepared request, and each one, its byte length fitting its
   * 32-bit scatter entry, delivers its range's edges to its place in the
   * buffer.  Entries from `total` on are left alone.
   */
  method Post(t: Table, peer: Peer, adj: seq<nat>, bs: seq<VertexRange>, ws: seq<WorkRequest>, total: nat,
              buf: array<nat>)
    requires Valid(t) && |adj| == t.totalEdges
    requires RangesIn(t, bs) && |bs| == |ws| && Chained(ws) && Contiguous(t, bs, ws, total)
    requires forall k :: 0 <= k < |ws| ==> Describes(t, peer, bs[k], ws[k])
    requires total <= buf.Length && LengthsFit(ws)
    modifies buf
    ensures Landed(t, adj, bs, ws, buf[..])
    ensures forall i :: total <= i < buf.Length ==> buf[i] == old(buf[i])
  {
    var k := 0;
    while k < |ws|
      invariant 0 <= k <= |ws|
      invariant forall j :: 0 <= j < k ==> LandedAt(t, adj, bs, ws, buf[..], j)
      invariant forall i :: EndOfRead(ws, total, k) <= i < buf.Length ==> buf[i] == old(buf[i])
    {
      RangeInsideAdjacency(t, bs[k]);
      ReadOfRange(t, peer, bs[k], ws[k]);
      ContiguousDisjoint(t, bs, ws, total, k, k + 1);
      ContiguousDisjoint(t, bs, ws, total, k, |ws|);
      ghost var before := buf[..];
      Deliver(ws[k], peer, adj, buf);
      LandedKeep(t, adj, bs, ws, total, before, buf[..], k);
      assert LandedAt(t, adj, bs, ws, buf[..], k);
      k := k + 1;
    }
  }

  /**
   * Inside a landed read, vertex v's slice of the buffer, found by adding
   * the degrees of the range's earlier vertices, holds v's neighbours.
   */
  lemma SliceIsNeighbours(t: Table, adj: seq<nat>, bs: seq<VertexRange>, ws: seq<WorkRequest>, b: seq<nat>,
                          k: nat, v: nat)
    requires Valid(t) && |adj| == t.totalEdges && RangesIn(t, bs) && |bs| == |ws| && k < |bs|
    requires LandedAt(t, adj, bs, ws, b, k)
    requires bs[k].first <= v <= bs[k].last
    ensures SlotOf(t, bs, ws, k, v) + NumEdges(t, v) <= |b|
    ensures b[SlotOf(t, bs, ws, k, v) .. SlotOf(t, bs, ws, k, v) + NumEdges(t, v)] == Neighbours(t, adj, v)
  {
    var r, n := RangeDegree(t, bs[k].first, v), NumEdges(t, v);
    NeighboursInRange(t, bs[k].first, v, bs[k].last + 1);
    DegreeIsSliceWidth(t, v);
    EqualWindows(b, adj, ws[k].localIndex, t.offsets[bs[k].first], RangeEdges(t, bs[k]), r, n);
  }

  /** Equal windows of two sequences agree on every sub-window. */
  lemma EqualWindows(b: seq<nat>, c: seq<nat>, lo: nat, off: nat, len: nat, r: nat, n: nat)
    requires lo + len <= |b| && off + len <= |c| && r + n <= len
    requires b[lo .. lo + len] == c[off .. off + len]
    ensures b[lo + r .. lo + r + n] == c[off + r .. off + r + n]
  {
    var bw, cw := b[lo .. lo + len], c[off .. off + len];
    var bn, cn := b[lo + r .. lo + r + n], c[off + r .. off + r + n];
    forall i | 0 <= i < n
      ensures bn[i] == cn[i]
    {
      assert bn[i] == bw[r + i] && cn[i] == cw[r + i];
    }
  }

  /**
   * The sentinel wait ends: once a read has landed, the first and last slot
   * of each of its vertices hold an adjacency entry, which names a vertex
   * and so is never `NULL_VERT`.
   */
  lemma SpinEnds(t: Table, adj: seq<nat>, bs: seq<VertexRange>, ws: seq<WorkRequest>, b: seq<nat>,
                 k: nat, v: nat)
    requires Graph(t, adj) && RangesIn(t, bs) && |bs| == |ws| && k < |bs|
    requires LandedAt(t, adj, bs, ws, b, k)
    requires bs[k].first <= v <= bs[k].last && NumEdges(t, v) > 0
    ensures SlotOf(t, bs, ws, k, v) + NumEdges(t, v) <= |b|
    ensures b[SlotOf(t, bs, ws, k, v)] != NULL_VERT
    ensures b[SlotOf(t, bs, ws, k, v) + NumEdges(t, v) - 1] != NULL_VERT
  {
    SliceIsNeighbours(t, adj, bs, ws, b, k, v);
    var e, n := SlotOf(t, bs, ws, k, v), NumEdges(t, v);
    DegreeIsSliceWidth(t, v);
    assert b[e] == Neighbours(t, adj, v)[0] == adj[t.offsets[v]];
    assert b[e + n - 1] == Neighbours(t, adj, v)[n - 1] == adj[t.offsets[v] + n - 1];
  }

  // ---------------------------------------------------------------------
  // The consume loop
  // ---------------------------------------------------------------------

  /** One more call for vertex v extends the delivered prefix by v. */
  lemma DeliveredSnoc(t: Table, adj: seq<nat>, xs: seq<nat>, trace: seq<Call>, v: nat)
    requires Valid(t) && |adj| == t.totalEdges && v < |t.offsets|
    requires Delivered(t, adj, xs, trace)
    ensures Delivered(t, adj, xs + [v], trace + [Call(v, Neighbours(t, adj, v))])
  {
    DeliveredAppend(t, adj, xs, trace, [v], [Call(v, Neighbours(t, adj, v))]);
  }

  /**
   * The consume loops: for each read in order, for each vertex of its range
   * in order, call the function with the vertex and its slice of the buffer,
   * advancing `e_buf` by the vertex's degree.  With every read landed, the
   * trace delivers the ranges' vertices with their neighbours.
   */
  method Consume(t: Table, adj: seq<nat>, bs: seq<VertexRange>, ws: seq<WorkRequest>, total: nat,
                 buf: array<nat>)
    returns (trace: seq<Call>)
    requires Valid(t) && |adj| == t.totalEdges
    requires RangesIn(t, bs) && |bs| == |ws| && Contiguous(t, bs, ws, total) && total <= buf.Length
    requires Landed(t, adj, bs, ws, buf[..])
    ensures Delivered(t, adj, Flatten(bs), trace)
  {
    trace := [];
    var e := 0;
    var i := 0;
    while i < |ws|
      invariant 0 <= i <= |ws|
      invariant e == EndOfRead(ws, total, i)
      invariant Delivered(t, adj, Flatten(bs[..i]), trace)
    {
      assert LandedAt(t, adj, bs, ws, buf[..], i);
      e, trace := ConsumeRead(t, adj, bs, ws, buf, i, e, Flatten(bs[..i]), trace);
      assert bs[..i + 1] == bs[..i] + [bs[i]];
      FlattenSnoc(bs[..i], bs[i]);
      i := i + 1;
    }
    assert bs[..|ws|] == bs;
  }

  /**
   * The inner consume loop over read i's range: starting at the read's
   * buffer index, each vertex is called with its slice, and `e_buf` ends
   * where the read ends.
   */
  method ConsumeRead(t: Table, adj: seq<nat>, bs: seq<VertexRange>, ws: seq<WorkRequest>, buf: array<nat>,
                     i: nat, e0: nat, ghost prefix: seq<nat>, trace0: seq<Call>)
    returns (e: nat, trace: seq<Call>)
    requires Valid(t) && |adj| == t.totalEdges
    requires RangesIn(t, bs) && |bs| == |ws| && i < |bs| && e0 == ws[i].localIndex
    requires LandedAt(t, adj, bs, ws, buf[..], i)
    requires Delivered(t, adj, prefix, trace0)
    ensures e == ws[i].localIndex + RangeEdges(t, bs[i])
    ensures Delivered(t, adj, prefix + Span(bs[i].first, bs[i].last + 1), trace)
  {
    e, trace := e0, trace0;
    var v := bs[i].first;
    while v <= bs[i].last
      invariant bs[i].first <= v <= bs[i].last + 1
      invariant e == ws[i].localIndex + RangeDegree(t, bs[i].first, v)
      invariant Delivered(t, adj, prefix + Span(bs[i].first, v), trace)
    {
      var n := NumEdges(t, v);
      SliceIsNeighbours(t, adj, bs, ws, buf[..], i, v);
      DeliveredSnoc(t, adj, prefix + Span(bs[i].first, v), trace, v);
      trace := trace + [Call(v, buf[e .. e + n])];
      e := e + n;
      v := v + 1;
    }
  }

  // ---------------------------------------------------------------------
  // The batch loops
  // ---------------------------------------------------------------------

  /**
   * The per-worker loop of both batch drivers over `[lo, hi)`: pack a window
   * from the next start, post it and consume it when it holds a read, and
   * continue from where packing stopped.  Also returns the statistics
   * `pack_window` adds up: reads prepared, vertices packed and windows
   * packed.  Every selected vertex must fit the buffer on its own, or
   * packing would stop at it forever.
   */
  method ForEachBatch(t: Table, adj: seq<nat>, sel: Selection, lo: nat, hi: nat, window: nat,
                      peer: Peer, coalescing: bool, buf: array<nat>)
    returns (trace: seq<Call>, wrs: nat, verts: nat, sends: nat)
    requires Valid(t) && |adj| == t.totalEdges && lo <= hi <= |t.offsets|
    requires buf.Length > 0 && Addressable(buf.Length) && window > 0
    requires forall v :: lo <= v < hi && Chosen(sel, v) ==> NumEdges(t, v) <= buf.Length
    modifies buf
    ensures Delivered(t, adj, Packed(t, sel, lo, hi), trace)
    ensures verts == |trace| && sends <= hi - lo && wrs <= window * sends
  {
    var next := lo;
    trace, wrs, verts, sends := [], 0, 0, 0;
    while next < hi
      invariant lo <= next <= hi
      invariant Delivered(t, adj, Packed(t, sel, lo, next), trace)
      invariant verts == |trace| && sends <= next - lo && wrs <= window * sends
      decreases hi - next
    {
      var after, bs, ws, total, batchSize := PackWindow(t, sel, next, hi, window, peer, coalescing, buf);
      var calls: seq<Call> := [];
      if |ws| > 0 {
        Post(t, peer, adj, bs, ws, total, buf);
        calls := Consume(t, adj, bs, ws, total, buf);
      }
      assert Delivered(t, adj, Packed(t, sel, next, after), calls);
      PackedSplit(t, sel, lo, next, after);
      DeliveredAppend(t, adj, Packed(t, sel, lo, next), trace, Packed(t, sel, next, after), calls);
      trace := trace + calls;
      WindowBound(wrs, |ws|, sends, window);
      wrs, verts, sends := wrs + |ws|, verts + batchSize, sends + 1;
      next := after;
    }
  }

  /** One more window of at most `window` reads keeps the read count within `window` per window. */
  lemma WindowBound(wrs: nat, n: nat, sends: nat, window: nat)
    requires wrs <= window * sends && n <= window
    ensures wrs + n <= window * (sends + 1)
  {
  }

  /**
   * `for_each_active_batch` over `[lo, hi)` of the frontier: the function is
   * called once for every vertex active when the pass starts that has an
   * edge, and for no other, in increasing id order, each time with exactly
   * that vertex's neighbours.
   */
  method ForEachActiveBatch(frontier: Bitmap, t: Table, adj: seq<nat>, lo: nat, hi: nat, window: nat,
                            peer: Peer, coalescing: bool, buf: array<nat>)
    returns (trace: seq<Call>, wrs: nat, verts: nat, sends: nat)
    requires frontier.Sized() && Valid(t) && |adj| == t.totalEdges
    requires lo <= hi <= |t.offsets| && hi <= frontier.size
    requires buf.Length > 0 && Addressable(buf.Length) && window > 0
    requires forall v :: lo <= v < hi && frontier.Get(v) ==> NumEdges(t, v) <= buf.Length
    modifies buf
    ensures forall v :: lo <= v < hi ==>
      ((exists k :: 0 <= k < |trace| && trace[k].v == v) <==> old(frontier.Get(v)) && NumEdges(t, v) > 0)
    ensures forall j, k :: 0 <= j < k < |trace| ==> trace[j].v < trace[k].v
    ensures forall k :: 0 <= k < |trace| ==> lo <= trace[k].v < hi
    ensures forall k :: 0 <= k < |trace| ==> trace[k].v < |t.offsets| && trace[k].edges == Neighbours(t, adj, trace[k].v)
    ensures verts == |trace|
  {
    var sel := ActiveOnly(frontier.Bits());
    trace, wrs, verts, sends := ForEachBatch(t, adj, sel, lo, hi, window, peer, coalescing, buf);
    TraceVertices(t, adj, sel, lo, hi, trace);
    assert forall v :: lo <= v < hi ==> Chosen(sel, v) == old(frontier.Get(v));
  }

  /**
   * `for_each_range` over `[lo, hi)` (packing with `pack_window2`): every
   * vertex with an edge is called once, in increasing id order, with its
   * neighbours.
   */
  method ForEachRange(t: Table, adj: seq<nat>, lo: nat, hi: nat, window: nat,
                      peer: Peer, coalescing: bool, buf: array<nat>)
    returns (trace: seq<Call>, wrs: nat, verts: nat, sends: nat)
    requires Valid(t) && |adj| == t.totalEdges && lo <= hi <= |t.offsets|
    requires buf.Length > 0 && Addressable(buf.Length) && window > 0
    requires forall v :: lo <= v < hi ==> NumEdges(t, v) <= buf.Length
    modifies buf
    ensures forall v :: lo <= v < hi ==>
      ((exists k :: 0 <= k < |trace| && trace[k].v == v) <==> NumEdges(t, v) > 0)
    ensures forall j, k :: 0 <= j < k < |trace| ==> trace[j].v < trace[k].v
    ensures forall k :: 0 <= k < |trace| ==> lo <= trace[k].v < hi
    ensures forall k :: 0 <= k < |trace| ==> trace[k].v < |t.offsets| && trace[k].edges == Neighbours(t, adj, trace[k].v)
    ensures verts == |trace|
  {
    trace, wrs, verts, sends := ForEachBatch(t, adj, EveryVertex, lo, hi, window, peer, coalescing, buf);
    TraceVertices(t, adj, EveryVertex, lo, hi, trace);
  }
}
