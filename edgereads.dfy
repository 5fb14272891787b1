/**
 * What `edgemap` does with one batch of intervals from `next_batch`: sign
 * the edge buffer, coalesce the intervals into reads, turn the reads into
 * work requests, post them in signalled windows, and hand each interval
 * its slice of the buffer.  An RDMA read is delivered at once, as a copy
 * out of the remote adjacency array.
 */
module EdgeReads {
  import opened Csr
  import opened Window
  import opened Batches
  import opened EdgeMap
  import opened Frontier

  // ---------------------------------------------------------------------
  // Buffer layout of a list of intervals
  // ---------------------------------------------------------------------

  /** `interval.end - interval.start`: the number of edges an interval covers. */
  function Len(iv: Interval): (r: nat)
    ensures iv.start <= iv.end ==> iv.start + r == iv.end
    ensures iv.end < iv.start ==> r == 0
  {
    if iv.start <= iv.end then iv.end - iv.start else 0
  }

  /** The buffer entries a list of intervals fills, laid end to end. */
  function Width(vec: seq<Interval>): nat
  {
    if vec == [] then 0 else Width(vec[..|vec| - 1]) + Len(vec[|vec| - 1])
  }

  lemma WidthSnoc(vec: seq<Interval>, iv: Interval)
    ensures Width(vec + [iv]) == Width(vec) + Len(iv)
  {
    assert (vec + [iv])[..|vec|] == vec;
  }

  /** The buffer width of a batch is the number of edges it hands out. */
  lemma {:induction false} WidthIsPieces(vec: seq<Interval>)
    ensures Width(vec) == |Pieces(vec)|
  {
    if vec != [] {
      WidthIsPieces(vec[..|vec| - 1]);
    }
  }

  /** The adjacency index an interval starts at, and the one it ends before. */
  function AdjStart(t: Table, iv: Interval): nat
    requires iv.v < |t.offsets|
  {
    t.offsets[iv.v] + iv.start
  }

  function AdjEnd(t: Table, iv: Interval): nat
    requires iv.v < |t.offsets|
  {
    t.offsets[iv.v] + iv.end
  }

  /** Every interval names a real vertex and stays inside the adjacency array. */
  predicate Reaches(t: Table, adj: seq<nat>, vec: seq<Interval>)
  {
    vec != [] ==>
      && Reaches(t, adj, vec[..|vec| - 1])
      && vec[|vec| - 1].v < |t.offsets|
      && vec[|vec| - 1].start <= vec[|vec| - 1].end
      && AdjEnd(t, vec[|vec| - 1]) <= |adj|
  }

  /** What the reads of a list of intervals bring into the buffer, read after read. */
  function Fetched(t: Table, adj: seq<nat>, vec: seq<Interval>): (r: seq<nat>)
    requires Reaches(t, adj, vec)
    ensures |r| == Width(vec)
  {
    if vec == [] then []
    else Fetched(t, adj, vec[..|vec| - 1]) + adj[AdjStart(t, vec[|vec| - 1]) .. AdjEnd(t, vec[|vec| - 1])]
  }

  /** The intervals of a batch stay inside the adjacency array. */
  lemma {:induction false} ShapedReaches(t: Table, adj: seq<nat>, vec: seq<Interval>)
    requires Valid(t) && |adj| == t.totalEdges && Shaped(t, vec)
    ensures Reaches(t, adj, vec)
  {
    if vec != [] {
      var iv := vec[|vec| - 1];
      ShapedReaches(t, adj, vec[..|vec| - 1]);
      DegreeIsSliceWidth(t, iv.v);
    }
  }

  /** The reads of a prefix of the intervals fill a prefix of the buffer. */
  lemma {:induction false} FetchedPrefix(t: Table, adj: seq<nat>, vec: seq<Interval>, k: nat)
    requires Reaches(t, adj, vec) && k <= |vec|
    ensures Reaches(t, adj, vec[..k]) && Width(vec[..k]) <= Width(vec)
    ensures Fetched(t, adj, vec[..k]) == Fetched(t, adj, vec)[..Width(vec[..k])]
    decreases |vec|
  {
    if k == |vec| {
      assert vec[..k] == vec;
    } else {
      var front := vec[..|vec| - 1];
      assert front[..k] == vec[..k];
      FetchedPrefix(t, adj, front, k);
    }
  }

  /**
   * Interval i of a fetched list sits in the buffer right after the
   * intervals before it and holds its own adjacency slice.
   */
  lemma FetchedAt(t: Table, adj: seq<nat>, vec: seq<Interval>, b: seq<nat>, i: nat)
    requires Reaches(t, adj, vec) && i < |vec|
    requires Width(vec) <= |b| && b[..Width(vec)] == Fetched(t, adj, vec)
    ensures vec[i].v < |t.offsets| && AdjStart(t, vec[i]) <= AdjEnd(t, vec[i]) <= |adj|
    ensures Width(vec[..i + 1]) == Width(vec[..i]) + Len(vec[i]) <= Width(vec)
    ensures b[Width(vec[..i]) .. Width(vec[..i]) + Len(vec[i])] == adj[AdjStart(t, vec[i]) .. AdjEnd(t, vec[i])]
  {
    var upto := vec[..i + 1];
    assert upto[..i] == vec[..i];
    FetchedPrefix(t, adj, vec, i + 1);
    var w, len := Width(vec[..i]), Len(vec[i]);
    var own := adj[AdjStart(t, vec[i]) .. AdjEnd(t, vec[i])];
    var f := Fetched(t, adj, upto);
    assert f == Fetched(t, adj, vec[..i]) + own;
    SameWindow(b, Fetched(t, adj, vec), Width(vec), w, w + len);
    SameWindow(Fetched(t, adj, vec), f, Width(upto), w, w + len);
    assert f[w .. w + len] == own;
  }

  /** A window inside a prefix of x is the same window of that prefix. */
  lemma SameWindow(x: seq<nat>, y: seq<nat>, n: nat, lo: nat, hi: nat)
    requires lo <= hi <= n <= |x| && x[..n] == y
    ensures hi <= |y| && x[lo..hi] == y[lo..hi]
  {
    assert forall k :: lo <= k < hi ==> x[lo..hi][k - lo] == y[k];
  }

  // ---------------------------------------------------------------------
  // sign_buffer
  // ---------------------------------------------------------------------

  /**
   * The sentinels of a list of intervals in buffer b: the first and the last
   * entry of each interval's sub-buffer hold `NULL_VERT`.
   */
  predicate Sentinels(vec: seq<Interval>, b: seq<nat>)
  {
    vec != [] ==>
      && Sentinels(vec[..|vec| - 1], b)
      && Len(vec[|vec| - 1]) >= 1 && Width(vec) <= |b|
      && b[Width(vec[..|vec| - 1])] == NULL_VERT && b[Width(vec) - 1] == NULL_VERT
  }

  /** Sentinels live in the first `Width(vec)` entries only. */
  lemma {:induction false} SentinelsKeep(vec: seq<Interval>, b: seq<nat>, c: seq<nat>)
    requires Sentinels(vec, b) && Width(vec) <= |c| && b[..Width(vec)] == c[..Width(vec)]
    ensures Sentinels(vec, c)
  {
    if vec != [] {
      var front := vec[..|vec| - 1];
      assert b[..Width(front)] == b[..Width(vec)][..Width(front)];
      assert c[..Width(front)] == c[..Width(vec)][..Width(front)];
      SentinelsKeep(front, b, c);
      assert b[Width(front)] == b[..Width(vec)][Width(front)];
      assert c[Width(front)] == c[..Width(vec)][Width(front)];
      assert b[Width(vec) - 1] == b[..Width(vec)][Width(vec) - 1];
      assert c[Width(vec) - 1] == c[..Width(vec)][Width(vec) - 1];
    }
  }

  /** One more signed interval extends the sentinels of the ones before it. */
  lemma SentinelsStep(vec: seq<Interval>, k: nat, b: seq<nat>, c: seq<nat>)
    requires k < |vec| && Sentinels(vec[..k], b) && Len(vec[k]) >= 1
    requires Width(vec[..k]) + Len(vec[k]) <= |c| && b[..Width(vec[..k])] == c[..Width(vec[..k])]
    requires c[Width(vec[..k])] == NULL_VERT && c[Width(vec[..k]) + Len(vec[k]) - 1] == NULL_VERT
    ensures Sentinels(vec[..k + 1], c)
  {
    assert vec[..k + 1][..k] == vec[..k];
    SentinelsKeep(vec[..k], b, c);
  }

  /** Writes the two sentinels of a sub-buffer of `edges` entries at `off`. */
  method SignOne(buf: array<nat>, off: nat, edges: nat)
    requires 1 <= edges && off + edges <= buf.Length
    modifies buf
    ensures buf[..off] == old(buf[..off])
    ensures buf[off] == NULL_VERT && buf[off + edges - 1] == NULL_VERT
    ensures forall j :: off + edges <= j < buf.Length ==> buf[j] == old(buf[j])
  {
    buf[off] := NULL_VERT;
    buf[off + edges - 1] := NULL_VERT;
  }

  /**
   * `sign_buffer`: writes `NULL_VERT` into the first and the last entry of
   * each interval's sub-buffer, the sub-buffers laid end to end from 0;
   * the rest of the buffer is untouched.
   */
  method SignBuffer(vec: seq<Interval>, buf: array<nat>)
    requires NonEmpty(vec) && Width(vec) <= buf.Length
    modifies buf
    ensures Sentinels(vec, buf[..])
    ensures forall j :: Width(vec) <= j < buf.Length ==> buf[j] == old(buf[j])
  {
    var off := 0;
    var k := 0;
    while k < |vec|
      invariant k <= |vec| && off == Width(vec[..k]) && off <= Width(vec)
      invariant Sentinels(vec[..k], buf[..])
      invariant forall j :: off <= j < buf.Length ==> buf[j] == old(buf[j])
    {
      var edges := Len(vec[k]);
      NonEmptyAt(vec, k);
      WidthPrefix(vec, k + 1);
      ghost var before := buf[..];
      SignOne(buf, off, edges);
      SentinelsStep(vec, k, before, buf[..]);
      off := off + edges;
      k := k + 1;
    }
    assert vec[..k] == vec;
  }

  /** Every interval of the list covers at least one edge. */
  predicate NonEmpty(vec: seq<Interval>)
  {
    vec != [] ==> NonEmpty(vec[..|vec| - 1]) && Len(vec[|vec| - 1]) >= 1
  }

  lemma {:induction false} NonEmptyAt(vec: seq<Interval>, i: nat)
    requires NonEmpty(vec) && i < |vec|
    ensures Len(vec[i]) >= 1
    decreases |vec|
  {
    if i < |vec| - 1 {
      NonEmptyAt(vec[..|vec| - 1], i);
    }
  }

  /** The intervals of a batch are never empty. */
  lemma {:induction false} ShapedNonEmpty(t: Table, vec: seq<Interval>)
    requires Valid(t) && Shaped(t, vec)
    ensures NonEmpty(vec)
  {
    if vec != [] {
      ShapedNonEmpty(t, vec[..|vec| - 1]);
    }
  }

  /** Every interval of a batch covers at least one edge. */
  lemma {:induction false} ShapedAt(t: Table, vec: seq<Interval>, i: nat)
    requires Valid(t) && Shaped(t, vec) && i < |vec|
    ensures Len(vec[i]) >= 1 && vec[i].v < |t.offsets| && vec[i].end <= vec[i].d == NumEdges(t, vec[i].v)
    decreases |vec|
  {
    if i < |vec| - 1 {
      ShapedAt(t, vec[..|vec| - 1], i);
    }
  }

  /** A longer prefix is at least as wide, and one more interval adds its length. */
  lemma {:induction false} WidthPrefix(vec: seq<Interval>, k: nat)
    requires 0 < k <= |vec|
    ensures Width(vec[..k]) == Width(vec[..k - 1]) + Len(vec[k - 1])
    ensures Width(vec[..k]) <= Width(vec)
    decreases |vec| - k
  {
    assert vec[..k] == vec[..k - 1] + [vec[k - 1]];
    WidthSnoc(vec[..k - 1], vec[k - 1]);
    if k < |vec| {
      WidthPrefix(vec, k + 1);
    } else {
      assert vec[..k] == vec;
    }
  }

  // ---------------------------------------------------------------------
  // coalesce_intervals
  // ---------------------------------------------------------------------

  /** The last interval of a non-empty list. */
  function Back(vec: seq<Interval>): Interval
    requires vec != []
  {
    vec[|vec| - 1]
  }

  /**
   * `coalesce_intervals` as a function of the whole list: the first interval
   * opens the result; a later interval whose vertex directly follows its
   * predecessor's in the input lengthens the result's last read by its own
   * length, any other opens a new read.
   */
  function Merge(vec: seq<Interval>): (r: seq<Interval>)
    requires vec != []
    ensures 1 <= |r| <= |vec| && r[0].v == vec[0].v && r[0].start == vec[0].start
  {
    if |vec| == 1 then [vec[0]]
    else
      var m := Merge(vec[..|vec| - 1]);
      if vec[|vec| - 2].v + 1 == Back(vec).v then Lengthen(m, Back(vec))
      else m + [Back(vec)]
  }

  /** The last read of `m` lengthened by the entries of `last`. */
  function Lengthen(m: seq<Interval>, last: Interval): seq<Interval>
    requires m != []
  {
    m[..|m| - 1] + [Back(m).(end := Back(m).end + Len(last))]
  }

  /**
   * `coalesce_intervals` grows `end` in 32 bits, where it may wrap.  Every
   * later use takes `end - start`, in 32 bits too, which still gives the
   * interval's width whenever that is below 2^32.
   */
  lemma WrappedEndKeepsWidth(iv: Interval)
    requires iv.start <= iv.end && iv.start < UINT32_LIMIT && Len(iv) < UINT32_LIMIT
    ensures (iv.end % UINT32_LIMIT - iv.start) % UINT32_LIMIT == Len(iv)
  {
    if iv.end >= UINT32_LIMIT {
      assert iv.end % UINT32_LIMIT == iv.end - UINT32_LIMIT;
    }
  }

  /** `coalesce_intervals`: one pass over the list, growing `combined`. */
  method Coalesce(vec: seq<Interval>) returns (combined: seq<Interval>)
    requires vec != []
    ensures combined == Merge(vec)
  {
    combined := [vec[0]];
    var i := 1;
    while i < |vec|
      invariant 1 <= i <= |vec| && combined == Merge(vec[..i])
    {
      combined := CoalesceOne(vec, i, combined);
      i := i + 1;
    }
    assert vec[..i] == vec;
  }

  /** One iteration of `coalesce_intervals`: interval i lengthens `combined.back()` or is pushed. */
  method CoalesceOne(vec: seq<Interval>, i: nat, combined: seq<Interval>) returns (combined': seq<Interval>)
    requires 1 <= i < |vec| && combined == Merge(vec[..i])
    ensures combined' == Merge(vec[..i + 1])
  {
    MergeNext(vec, i);
    if vec[i - 1].v + 1 == vec[i].v {
      var back := combined[|combined| - 1];
      assert back == Back(combined);
      combined' := combined[..|combined| - 1] + [back.(end := back.end + Len(vec[i]))];
      assert combined' == Lengthen(Merge(vec[..i]), vec[i]);
    } else {
      combined' := combined + [vec[i]];
    }
  }

  /** Merging one more interval: it lengthens the last read or opens a new one. */
  lemma MergeNext(vec: seq<Interval>, i: nat)
    requires 1 <= i < |vec|
    ensures Merge(vec[..i + 1]) == if vec[i - 1].v + 1 == vec[i].v then Lengthen(Merge(vec[..i]), vec[i]) else Merge(vec[..i]) + [vec[i]]
  {
    assert vec[..i + 1][..i] == vec[..i];
  }

  /** A read appended to a list brings its own slice after the others. */
  lemma FetchedSnoc(t: Table, adj: seq<nat>, vec: seq<Interval>, iv: Interval)
    requires Reaches(t, adj, vec) && iv.v < |t.offsets| && iv.start <= iv.end && AdjEnd(t, iv) <= |adj|
    ensures Reaches(t, adj, vec + [iv])
    ensures Fetched(t, adj, vec + [iv]) == Fetched(t, adj, vec) + adj[AdjStart(t, iv) .. AdjEnd(t, iv)]
  {
    assert (vec + [iv])[..|vec|] == vec;
  }

  /**
   * Lengthening the last read of m by the length of an interval that starts
   * where that read ends brings exactly that interval's slice in addition.
   */
  lemma JoinReads(t: Table, adj: seq<nat>, m: seq<Interval>, last: Interval, mv: seq<Interval>)
    requires m != [] && Reaches(t, adj, m) && last.v < |t.offsets| && last.start <= last.end
    requires AdjEnd(t, last) <= |adj| && AdjEnd(t, Back(m)) == AdjStart(t, last)
    requires mv == Lengthen(m, last)
    ensures Reaches(t, adj, mv) && AdjEnd(t, Back(mv)) == AdjEnd(t, last)
    ensures Fetched(t, adj, mv) == Fetched(t, adj, m) + adj[AdjStart(t, last) .. AdjEnd(t, last)]
  {
    var init, c := m[..|m| - 1], Back(m);
    var c' := c.(end := c.end + Len(last));
    assert m == init + [c];
    assert mv == init + [c'];
    var a, b, e := AdjStart(t, c), AdjEnd(t, c), AdjEnd(t, last);
    assert AdjStart(t, c') == a && AdjEnd(t, c') == e;
    FetchedSnoc(t, adj, init, c);
    FetchedSnoc(t, adj, init, c');
    SliceJoin(adj, a, b, e);
    AppendAssoc(Fetched(t, adj, init), adj[a..b], adj[b..e]);
  }

  lemma AppendAssoc(a: seq<nat>, b: seq<nat>, c: seq<nat>)
    ensures a + b + c == a + (b + c)
  {
  }

  lemma SliceJoin(s: seq<nat>, a: nat, b: nat, c: nat)
    requires a <= b <= c <= |s|
    ensures s[a..c] == s[a..b] + s[b..c]
  {
  }

  /**
   * The merged reads of vec reach only into the adjacency array, bring the
   * same entries as one read per interval, and end where vec's last
   * interval ends.
   */
  predicate MergeKeeps(t: Table, adj: seq<nat>, vec: seq<Interval>)
  {
    && vec != [] && Reaches(t, adj, vec) && Reaches(t, adj, Merge(vec))
    && Fetched(t, adj, Merge(vec)) == Fetched(t, adj, vec)
    && Back(Merge(vec)).v < |t.offsets| && Back(vec).v < |t.offsets|
    && AdjEnd(t, Back(Merge(vec))) == AdjEnd(t, Back(vec))
  }

  /** A coalescing step that lengthens the last read. */
  lemma MergeJoin(t: Table, adj: seq<nat>, vec: seq<Interval>)
    requires |vec| > 1 && Reaches(t, adj, vec) && MergeKeeps(t, adj, vec[..|vec| - 1])
    requires vec[|vec| - 2].v + 1 == Back(vec).v && AdjEnd(t, vec[|vec| - 2]) == AdjStart(t, Back(vec))
    ensures MergeKeeps(t, adj, vec)
  {
    var front, last := vec[..|vec| - 1], Back(vec);
    var m := Merge(front);
    assert Fetched(t, adj, vec) == Fetched(t, adj, front) + adj[AdjStart(t, last) .. AdjEnd(t, last)];
    assert Merge(vec) == Lengthen(m, last);
    assert Back(front) == vec[|vec| - 2];
    JoinReads(t, adj, m, last, Merge(vec));
  }

  /** A coalescing step that opens a new read. */
  lemma MergeOpen(t: Table, adj: seq<nat>, vec: seq<Interval>)
    requires |vec| > 1 && Reaches(t, adj, vec) && MergeKeeps(t, adj, vec[..|vec| - 1])
    requires vec[|vec| - 2].v + 1 != Back(vec).v
    ensures MergeKeeps(t, adj, vec)
  {
    var front, last := vec[..|vec| - 1], Back(vec);
    var m := Merge(front);
    assert Fetched(t, adj, vec) == Fetched(t, adj, front) + adj[AdjStart(t, last) .. AdjEnd(t, last)];
    assert Merge(vec) == m + [last];
    FetchedSnoc(t, adj, m, last);
  }

  /**
   * Coalescing a batch loses nothing: the merged reads stay inside the
   * adjacency array and bring the same entries into the buffer, in the same
   * order, as one read per interval would; the last read ends where the
   * last interval does.
   */
  lemma {:induction false} MergeFetched(t: Table, adj: seq<nat>, vec: seq<Interval>)
    requires Valid(t) && |adj| == t.totalEdges && Shaped(t, vec) && vec != []
    ensures MergeKeeps(t, adj, vec)
  {
    ShapedReaches(t, adj, vec);
    if |vec| > 1 {
      var front := vec[..|vec| - 1];
      MergeFetched(t, adj, front);
      if vec[|vec| - 2].v + 1 == Back(vec).v {
        DegreeIsSliceWidth(t, Back(front).v);
        MergeJoin(t, adj, vec);
      } else {
        MergeOpen(t, adj, vec);
      }
    }
  }

  // ---------------------------------------------------------------------
  // make_WRs and the delivery of the reads
  // ---------------------------------------------------------------------

  /** One interval's entries, landing in order: v, start and end in range. */
  lemma {:induction false} ReachesAt(t: Table, adj: seq<nat>, vec: seq<Interval>, k: nat)
    requires Reaches(t, adj, vec) && k < |vec|
    ensures vec[k].v < |t.offsets| && vec[k].start <= vec[k].end && AdjEnd(t, vec[k]) <= |adj|
    decreases |vec|
  {
    if k < |vec| - 1 {
      ReachesAt(t, adj, vec[..|vec| - 1], k);
    }
  }

  /**
   * The read `make_WRs` builds for interval iv landing at buffer index
   * `local`: from the remote address of the interval's first edge, its
   * length in bytes, unsignalled and not yet linked.
   */
  predicate Carries(t: Table, peer: Peer, iv: Interval, local: nat, w: WorkRequest)
    requires iv.v < |t.offsets|
  {
    w == WorkRequest(peer.addr + AdjStart(t, iv) * EDGE_BYTES, peer.rkey, local,
                     Len(iv) * EDGE_BYTES, peer.lkey, false, false)
  }

  /** Request k carries interval k, landing after the intervals before it. */
  predicate Requests(t: Table, peer: Peer, c: seq<Interval>, ws: seq<WorkRequest>)
  {
    && |ws| == |c|
    && (c != [] ==>
          && Requests(t, peer, c[..|c| - 1], ws[..|ws| - 1])
          && Back(c).v < |t.offsets| && Carries(t, peer, Back(c), Width(c[..|c| - 1]), ws[|ws| - 1]))
  }

  lemma {:induction false} RequestsAt(t: Table, peer: Peer, c: seq<Interval>, ws: seq<WorkRequest>, k: nat)
    requires Requests(t, peer, c, ws) && k < |c|
    ensures c[k].v < |t.offsets| && Carries(t, peer, c[k], Width(c[..k]), ws[k])
    decreases |c|
  {
    if k < |c| - 1 {
      var front := c[..|c| - 1];
      assert front[..k] == c[..k];
      RequestsAt(t, peer, front, ws[..|ws| - 1], k);
    }
  }

  /** A carried read copies the interval's adjacency slice to its landing index. */
  lemma ReadOf(t: Table, peer: Peer, iv: Interval, local: nat, w: WorkRequest)
    requires iv.v < |t.offsets| && Carries(t, peer, iv, local, w)
    ensures peer.addr <= w.remoteAddr && w.localIndex == local
    ensures ReadFrom(w, peer) == AdjStart(t, iv) && ReadCount(w) == Len(iv)
  {
  }

  /**
   * `make_WRs`: one RDMA read per coalesced interval, each landing right
   * after the previous one's data.  The batch's size in bytes must fit 32
   * bits, so that no read's `length` wraps.
   */
  method MakeWRs(t: Table, peer: Peer, c: seq<Interval>) returns (ws: seq<WorkRequest>)
    requires forall k :: 0 <= k < |c| ==> c[k].v < |t.offsets|
    requires Addressable(Width(c))
    ensures Requests(t, peer, c, ws) && LengthsFit(ws)
  {
    ws := [];
    var buffer := 0;
    var k := 0;
    while k < |c|
      invariant k <= |c| && buffer == Width(c[..k]) && Requests(t, peer, c[..k], ws)
      invariant LengthsFit(ws)
    {
      var iv := c[k];
      var edges := Len(iv);
      var remoteOffset := (t.offsets[iv.v] + iv.start) * EDGE_BYTES;
      ws := ws + [WorkRequest(peer.addr + remoteOffset, peer.rkey, buffer, edges * EDGE_BYTES, peer.lkey, false, false)];
      assert c[..k + 1][..k] == c[..k] && ws[..k] == ws[..|ws| - 1];
      WidthPrefix(c, k + 1);
      buffer := buffer + edges;
      k := k + 1;
    }
    assert c[..k] == c;
  }

  /**
   * Where read k of the plan goes: it fetches the slice of `c[k]` into the
   * buffer right after the reads before it.
   */
  lemma DeliverPlan(t: Table, peer: Peer, adj: seq<nat>, c: seq<Interval>, ws: seq<WorkRequest>, k: nat)
    requires Reaches(t, adj, c) && Requests(t, peer, c, ws) && k < |c|
    ensures c[k].v < |t.offsets| && c[k].start <= c[k].end
    ensures peer.addr <= ws[k].remoteAddr && ws[k].localIndex == Width(c[..k])
    ensures ws[k].localIndex + ReadCount(ws[k]) == Width(c[..k + 1]) <= Width(c)
    ensures ReadFrom(ws[k], peer) == AdjStart(t, c[k]) && ReadFrom(ws[k], peer) + ReadCount(ws[k]) == AdjEnd(t, c[k]) <= |adj|
  {
    RequestsAt(t, peer, c, ws, k);
    ReachesAt(t, adj, c, k);
    ReadOf(t, peer, c[k], Width(c[..k]), ws[k]);
    WidthPrefix(c, k + 1);
  }

  /** The first k + 1 intervals bring what the first k do and then the slice of `c[k]`. */
  lemma FetchedNext(t: Table, adj: seq<nat>, c: seq<Interval>, k: nat)
    requires Reaches(t, adj, c) && k < |c| && Reaches(t, adj, c[..k])
    ensures c[k].v < |t.offsets| && Reaches(t, adj, c[..k + 1])
    ensures Fetched(t, adj, c[..k + 1]) == Fetched(t, adj, c[..k]) + adj[AdjStart(t, c[k]) .. AdjEnd(t, c[k])]
  {
    ReachesAt(t, adj, c, k);
    assert c[..k + 1] == c[..k] + [c[k]];
    FetchedSnoc(t, adj, c[..k], c[k]);
  }

  /** Delivers read k: the buffer then holds what reads 0..k bring. */
  method DeliverNext(t: Table, peer: Peer, adj: seq<nat>, c: seq<Interval>, ws: seq<WorkRequest>,
                     buf: array<nat>, k: nat)
    requires Reaches(t, adj, c) && Requests(t, peer, c, ws) && k < |c| && Width(c) <= buf.Length
    requires Width(c[..k]) <= buf.Length
    requires Reaches(t, adj, c[..k]) && buf[..Width(c[..k])] == Fetched(t, adj, c[..k])
    modifies buf
    ensures Width(c[..k]) <= Width(c[..k + 1]) <= Width(c)
    ensures Reaches(t, adj, c[..k + 1]) && buf[..Width(c[..k + 1])] == Fetched(t, adj, c[..k + 1])
    ensures forall j :: Width(c[..k + 1]) <= j < buf.Length ==> buf[j] == old(buf[j])
  {
    DeliverPlan(t, peer, adj, c, ws, k);
    FetchedNext(t, adj, c, k);
    ghost var before := buf[..];
    var w := ws[k];
    Deliver(w, peer, adj, buf);
    ghost var own := adj[AdjStart(t, c[k]) .. AdjEnd(t, c[k])];
    Landing(before, buf[..], w.localIndex, ReadCount(w), own);
    assert before[..Width(c[..k])] == Fetched(t, adj, c[..k]);
  }

  /** A read landing at `off` extends the untouched prefix before it. */
  lemma Landing(before: seq<nat>, after: seq<nat>, off: nat, n: nat, piece: seq<nat>)
    requires off + n <= |after| == |before| && after[off .. off + n] == piece
    requires forall i :: 0 <= i < |after| && !(off <= i < off + n) ==> after[i] == before[i]
    ensures after[..off + n] == before[..off] + piece
  {
    assert after[..off] == before[..off];
    assert after[..off + n] == after[..off] + after[off .. off + n];
  }

  /**
   * The posted reads, delivered one after another: the buffer's first
   * `Width(c)` entries then hold what the reads fetch, and nothing after
   * them changes.
   */
  method DeliverAll(t: Table, peer: Peer, adj: seq<nat>, c: seq<Interval>, ws: seq<WorkRequest>,
                    buf: array<nat>)
    requires Reaches(t, adj, c) && Requests(t, peer, c, ws) && Width(c) <= buf.Length
    modifies buf
    ensures buf[..Width(c)] == Fetched(t, adj, c)
    ensures forall j :: Width(c) <= j < buf.Length ==> buf[j] == old(buf[j])
  {
    var k := 0;
    assert c[..0] == [];
    while k < |c|
      invariant k <= |c| && Width(c[..k]) <= Width(c)
      invariant Reaches(t, adj, c[..k]) && buf[..Width(c[..k])] == Fetched(t, adj, c[..k])
      invariant forall j :: Width(c[..k]) <= j < buf.Length ==> buf[j] == old(buf[j])
    {
      DeliverNext(t, peer, adj, c, ws, buf, k);
      k := k + 1;
    }
    assert c[..k] == c;
  }

  // ---------------------------------------------------------------------
  // post_all
  // ---------------------------------------------------------------------

  /**
   * `post_all`'s test: request i ends a chain when it closes a window of
   * `window` requests or is the last request.
   */
  predicate Closes(i: nat, n: nat, window: nat)
    requires window > 0
  {
    i % window == window - 1 || i == n - 1
  }

  /**
   * `post_all`: a request that closes a chain is signalled, ends its chain
   * and the chain is posted (its index recorded in `posts`); any other
   * request links to the next one.  Nothing but the two flags changes.
   * Each request's length fits its 32-bit scatter entry.
   */
  method PostAll(ws: seq<WorkRequest>, window: nat) returns (out: seq<WorkRequest>, posts: seq<nat>)
    requires |ws| > 0 && window > 0 && LengthsFit(ws)
    ensures |out| == |ws|
    ensures forall i :: 0 <= i < |ws| ==>
      out[i] == ws[i].(signaled := ws[i].signaled || Closes(i, |ws|, window), linked := !Closes(i, |ws|, window))
    ensures forall i: nat :: i in posts <==> i < |ws| && Closes(i, |ws|, window)
    ensures forall j :: 0 < j < |posts| ==> posts[j - 1] < posts[j]
    ensures |posts| == (|ws| + window - 1) / window
  {
    out := ws;
    posts := [];
    var i := 0;
    while i < |ws|
      invariant i <= |ws| && |out| == |ws|
      invariant forall k :: 0 <= k < i ==>
        out[k] == ws[k].(signaled := ws[k].signaled || Closes(k, |ws|, window), linked := !Closes(k, |ws|, window))
      invariant forall k :: i <= k < |ws| ==> out[k] == ws[k]
      invariant forall k: nat :: k in posts <==> k < i && Closes(k, |ws|, window)
      invariant forall j :: 0 <= j < |posts| ==> posts[j] < i
      invariant forall j :: 0 < j < |posts| ==> posts[j - 1] < posts[j]
      invariant |posts| == if i == |ws| && i % window != 0 then i / window + 1 else i / window
    {
      if i % window == window - 1 || i == |ws| - 1 {
        out := out[i := out[i].(signaled := true, linked := false)];
        posts := posts + [i];
      } else {
        out := out[i := out[i].(linked := true)];
      }
      DivStep(i, window);
      i := i + 1;
    }
    CeilDiv(|ws|, window);
  }

  lemma MulAtLeast(x: int, w: nat)
    requires x >= 1
    ensures x * w >= w
  {
  }

  lemma MulGap(x: int, w: nat)
    requires w > 0 && -(w as int) < x * w < w
    ensures x == 0
  {
    if x >= 1 {
      MulAtLeast(x, w);
    } else if x <= -1 {
      MulAtLeast(-x, w);
    }
  }

  /** Division by w of a number written as q blocks of w plus m. */
  lemma ModInBlock(q: nat, m: nat, w: nat)
    requires m < w
    ensures (q * w + m) / w == q && (q * w + m) % w == m
  {
    var a := q * w + m;
    assert (a / w - q) * w == m - a % w;
    MulGap(a / w - q, w);
  }

  /** Inside the block of w that starts at b, the remainder is the distance from b. */
  lemma BlockMod(b: nat, m: nat, w: nat)
    requires w > 0 && b % w == 0 && m < w
    ensures (b + m) % w == m && (b + m) / w == b / w
  {
    assert b == (b / w) * w + 0;
    ModInBlock(b / w, m, w);
  }

  /** Every index lies in the block that starts at `i - i % w`. */
  lemma BlockStart(i: nat, w: nat)
    requires w > 0
    ensures (i - i % w) % w == 0
  {
    assert i - i % w == (i / w) * w + 0;
    ModInBlock(i / w, 0, w);
  }

  /** Counting from i to i + 1 enters a new block of w exactly after the block's last index. */
  lemma DivStep(i: nat, w: nat)
    requires w > 0
    ensures i % w == w - 1 ==> (i + 1) / w == i / w + 1 && (i + 1) % w == 0
    ensures i % w != w - 1 ==> (i + 1) / w == i / w && (i + 1) % w == i % w + 1
  {
    var q, r := i / w, i % w;
    if r == w - 1 {
      assert i + 1 == (q + 1) * w + 0;
      ModInBlock(q + 1, 0, w);
    } else {
      assert i + 1 == q * w + (r + 1);
      ModInBlock(q, r + 1, w);
    }
  }

  /** The rounded-up quotient. */
  lemma CeilDiv(n: nat, w: nat)
    requires w > 0
    ensures (n + w - 1) / w == if n % w != 0 then n / w + 1 else n / w
  {
    var q, r := n / w, n % w;
    if r == 0 {
      assert n + w - 1 == q * w + (w - 1);
      ModInBlock(q, w - 1, w);
    } else {
      assert n + w - 1 == (q + 1) * w + (r - 1);
      ModInBlock(q + 1, r - 1, w);
    }
  }

  /** The request that closes request i's chain: the end of i's window, or the last request. */
  function ChainEnd(i: nat, n: nat, window: nat): nat
    requires window > 0 && n > 0
  {
    Min(i - i % window + window - 1, n - 1)
  }

  lemma ChainEndCloses(i: nat, n: nat, window: nat)
    requires window > 0 && i < n
    ensures i <= ChainEnd(i, n, window) < i + window && Closes(ChainEnd(i, n, window), n, window)
  {
    var base := i - i % window;
    BlockStart(i, window);
    if base + window - 1 < n - 1 {
      BlockMod(base, window - 1, window);
    }
  }

  lemma ChainEndFirst(i: nat, n: nat, window: nat, k: nat)
    requires window > 0 && n > 0 && i <= k < ChainEnd(i, n, window)
    ensures !Closes(k, n, window)
  {
    var base := i - i % window;
    BlockStart(i, window);
    BlockMod(base, k - base, window);
  }

  /**
   * No request waits on more than a window: from any request i, the chain
   * it belongs to is closed, and so signalled and posted, by a request
   * less than `window` further on, and by no earlier one.
   */
  lemma ChainEnds(i: nat, n: nat, window: nat)
    requires window > 0 && i < n
    ensures i <= ChainEnd(i, n, window) < i + window && Closes(ChainEnd(i, n, window), n, window)
    ensures forall k :: i <= k < ChainEnd(i, n, window) ==> !Closes(k, n, window)
  {
    ChainEndCloses(i, n, window);
    forall k | i <= k < ChainEnd(i, n, window)
      ensures !Closes(k, n, window)
    {
      ChainEndFirst(i, n, window, k);
    }
  }

  // ---------------------------------------------------------------------
  // Handing the intervals to the function
  // ---------------------------------------------------------------------

  /** One call `function(v, e_buf, edges, d)`: the vertex, its slice of the buffer, its degree. */
  datatype EdgeCall = EdgeCall(v: nat, edges: seq<nat>, degree: nat)

  /** Call k is interval k's vertex with the interval's adjacency entries and the degree. */
  predicate Matches(t: Table, adj: seq<nat>, vec: seq<Interval>, calls: seq<EdgeCall>)
  {
    && |calls| == |vec|
    && (vec != [] ==>
          && Matches(t, adj, vec[..|vec| - 1], calls[..|calls| - 1])
          && Back(vec).v < |t.offsets| && Back(vec).start <= Back(vec).end && AdjEnd(t, Back(vec)) <= |adj|
          && calls[|calls| - 1] == EdgeCall(Back(vec).v, adj[AdjStart(t, Back(vec)) .. AdjEnd(t, Back(vec))], Back(vec).d))
  }

  lemma {:induction false} MatchesAppend(t: Table, adj: seq<nat>, a: seq<Interval>, ca: seq<EdgeCall>,
                                         b: seq<Interval>, cb: seq<EdgeCall>)
    requires Matches(t, adj, a, ca) && Matches(t, adj, b, cb)
    ensures Matches(t, adj, a + b, ca + cb)
    decreases |b|
  {
    if b == [] {
      assert a + b == a && ca + cb == ca;
    } else {
      assert (a + b)[..|a + b| - 1] == a + b[..|b| - 1];
      assert (ca + cb)[..|ca + cb| - 1] == ca + cb[..|cb| - 1];
      MatchesAppend(t, adj, a, ca, b[..|b| - 1], cb[..|cb| - 1]);
    }
  }

  /**
   * A landed interval's first and last entries are adjacency entries, which
   * name vertices and so are never `NULL_VERT`: both spin-waits end.
   */
  lemma LandedEnds(t: Table, adj: seq<nat>, b: seq<nat>, off: nat, iv: Interval)
    requires Graph(t, adj) && iv.v < |t.offsets| && AdjStart(t, iv) <= AdjEnd(t, iv) <= |adj|
    requires Len(iv) >= 1 && off + Len(iv) <= |b|
    requires b[off .. off + Len(iv)] == adj[AdjStart(t, iv) .. AdjEnd(t, iv)]
    ensures b[off] != NULL_VERT && b[off + Len(iv) - 1] != NULL_VERT
  {
    assert b[off] == b[off .. off + Len(iv)][0] == adj[AdjStart(t, iv)];
    assert b[off + Len(iv) - 1] == b[off .. off + Len(iv)][Len(iv) - 1] == adj[AdjEnd(t, iv) - 1];
  }

  /** Call k for interval k extends the calls that match the first k intervals. */
  lemma MatchesSnoc(t: Table, adj: seq<nat>, vec: seq<Interval>, k: nat, calls: seq<EdgeCall>, call: EdgeCall)
    requires k < |vec| && Matches(t, adj, vec[..k], calls)
    requires vec[k].v < |t.offsets| && vec[k].start <= vec[k].end && AdjEnd(t, vec[k]) <= |adj|
    requires call == EdgeCall(vec[k].v, adj[AdjStart(t, vec[k]) .. AdjEnd(t, vec[k])], vec[k].d)
    ensures Matches(t, adj, vec[..k + 1], calls + [call])
  {
    assert vec[..k + 1][..k] == vec[..k] && (calls + [call])[..k] == calls;
  }

  /**
   * The consume loop of `edgemap`: for each interval in order, wait until
   * its first and last entries are no longer `NULL_VERT`, then call the
   * function with the vertex, its slice of the buffer and its degree.
   */
  method ConsumeBatch(t: Table, adj: seq<nat>, vec: seq<Interval>, buf: array<nat>) returns (calls: seq<EdgeCall>)
    requires Graph(t, adj) && Reaches(t, adj, vec) && NonEmpty(vec)
    requires Width(vec) <= buf.Length && buf[..Width(vec)] == Fetched(t, adj, vec)
    ensures Matches(t, adj, vec, calls)
  {
    ghost var b := buf[..];
    calls := [];
    var off := 0;
    var k := 0;
    while k < |vec|
      invariant k <= |vec| && off == Width(vec[..k]) && Matches(t, adj, vec[..k], calls)
    {
      FetchedAt(t, adj, vec, b, k);
      NonEmptyAt(vec, k);
      var edges := Len(vec[k]);
      LandedEnds(t, adj, b, off, vec[k]);
      // the spin-waits on the two sentinels end at once
      assert buf[off] == b[off] && buf[off + edges - 1] == b[off + edges - 1];
      var call := EdgeCall(vec[k].v, buf[off .. off + edges], vec[k].d);
      assert call.edges == b[off .. off + edges] == adj[AdjStart(t, vec[k]) .. AdjEnd(t, vec[k])];
      MatchesSnoc(t, adj, vec, k, calls, call);
      calls := calls + [call];
      off := off + edges;
      k := k + 1;
    }
    assert vec[..k] == vec;
  }

  // ---------------------------------------------------------------------
  // The edgemap driver
  // ---------------------------------------------------------------------

  /**
   * One pass of `edgemap`'s loop on a non-empty batch: sign the buffer,
   * coalesce, build and post the reads, let them land, and hand out the
   * intervals.
   */
  method RunBatch(t: Table, adj: seq<nat>, peer: Peer, window: nat, vec: seq<Interval>, buf: array<nat>)
    returns (calls: seq<EdgeCall>)
    requires Graph(t, adj) && Shaped(t, vec) && vec != [] && Width(vec) <= buf.Length && window > 0
    requires Addressable(buf.Length)
    modifies buf
    ensures Matches(t, adj, vec, calls)
  {
    ShapedNonEmpty(t, vec);
    SignBuffer(vec, buf);
    var combined := Coalesce(vec);
    MergeFetched(t, adj, vec);
    forall k | 0 <= k < |combined|
      ensures combined[k].v < |t.offsets|
    {
      ReachesAt(t, adj, combined, k);
    }
    var ws := MakeWRs(t, peer, combined);
    var posted, posts := PostAll(ws, window);
    DeliverAll(t, peer, adj, combined, ws, buf);
    calls := ConsumeBatch(t, adj, vec, buf);
  }

  lemma {:induction false} PiecesAppend(a: seq<Interval>, b: seq<Interval>)
    ensures Pieces(a + b) == Pieces(a) + Pieces(b)
    decreases |b|
  {
    if b == [] {
      assert a + b == a;
    } else {
      var front, last := b[..|b| - 1], Back(b);
      assert a + b == (a + front) + [last];
      PiecesSnoc(a + front, last);
      PiecesAppend(a, front);
      assert b == front + [last];
      PiecesSnoc(front, last);
      Assoc(Pieces(a), Pieces(front), Own(last.v, last.start, last.end));
    }
  }

  /** Handing out one more batch keeps account of what is left. */
  lemma Handover(handed: seq<Interval>, vec: seq<Interval>, before: seq<Slot>, after: seq<Slot>, total: seq<Slot>)
    requires Pieces(handed) + before == total && Pieces(vec) + after == before
    ensures Pieces(handed + vec) + after == total
  {
    PiecesAppend(handed, vec);
    Assoc(Pieces(handed), Pieces(vec), after);
  }

  /**
   * `edgemap` on one sub-range `[lo, hi)` of the frontier: batch after
   * batch, each non-empty batch is read and handed out.  The intervals
   * handed out cover, in order, exactly what the cursor had to hand out
   * from edge 0 of `lo`, and each call carries its interval's adjacency
   * entries.
   */
  method EdgeMapRange(frontier: Bitmap, t: Table, adj: seq<nat>, lo: nat, hi: nat,
                      peer: Peer, window: nat, buf: array<nat>)
    returns (calls: seq<EdgeCall>, ghost handed: seq<Interval>)
    requires Graph(t, adj) && frontier.Sized() && hi <= frontier.size && hi <= |t.offsets|
    requires buf.Length > 0 && Addressable(buf.Length) && window > 0 && buf as object != frontier.data as object
    modifies buf
    ensures Pieces(handed) == Remaining(t, frontier.Bits(), lo, 0, hi)
    ensures Matches(t, adj, handed, calls)
  {
    var nb := new NextBatch(frontier, lo, hi, buf.Length);
    calls, handed := [], [];
    while !nb.IsDone()
      invariant fresh(nb) && nb.Cursor(t) && nb.b == frontier && nb.end == hi && nb.capacity == buf.Length
      invariant Pieces(handed) + nb.Left(t) == Remaining(t, frontier.Bits(), lo, 0, hi)
      invariant Matches(t, adj, handed, calls)
      decreases nb.Measure(t)
    {
      ghost var before := nb.Left(t);
      var intervals := nb.Next(t);
      if intervals == [] {
        continue;
      }
      Handover(handed, intervals, before, nb.Left(t), Remaining(t, frontier.Bits(), lo, 0, hi));
      WidthIsPieces(intervals);
      var batch := RunBatch(t, adj, peer, window, intervals, buf);
      MatchesAppend(t, adj, handed, calls, intervals, batch);
      calls, handed := calls + batch, handed + intervals;
    }
    assert nb.Left(t) == [];
  }

  /**
   * `next_batch` starts at `t_start` without testing its bit: the batches
   * of a range cover exactly every edge of its active vertices if and only
   * if the range is empty, or its first vertex is active or has no edges.
   */
  lemma StartUntested(t: Table, bits: seq<bool>, lo: nat, hi: nat)
    requires Valid(t) && lo <= hi <= |t.offsets|
    ensures Remaining(t, bits, lo, 0, hi) == PackedSlots(t, ActiveOnly(bits), lo, hi)
        <==> lo == hi || Chosen(ActiveOnly(bits), lo) || NumEdges(t, lo) == 0
  {
    if lo < hi {
      var sel := ActiveOnly(bits);
      PackedSlotsSplit(t, sel, lo, lo + 1, hi);
      assert PackedSlots(t, sel, lo, lo) == [];
      var own, rest := Own(lo, 0, NumEdges(t, lo)), PackedSlots(t, sel, lo + 1, hi);
      assert Remaining(t, bits, lo, 0, hi) == own + rest;
      if Chosen(sel, lo) {
        assert PackedSlots(t, sel, lo, lo + 1) == own;
      } else {
        assert PackedSlots(t, sel, lo, hi) == rest;
        assert |own + rest| == NumEdges(t, lo) + |rest|;
      }
    }
  }
}
