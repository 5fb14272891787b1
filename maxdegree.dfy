/**
 * The two index-file utilities: `util/maxd.cpp` prints the largest
 * out-degree of an `.idx` file, and `util/memusage.cpp` uses the same
 * fold to estimate the runtime's memory (`(8 + B) * |V|` for the index
 * table and the vertex data, plus one edge buffer of `4 * max * edgewindow`
 * bytes per thread).  Both read the entries as `uint64_t` and subtract
 * them in 64-bit unsigned arithmetic.
 */
module MaxDegree {
  import opened Csr
  import opened GrFormat
  import GraphKernel

  /** `off - prev_off` in `uint64_t`: wraps when the offsets decrease. */
  function Gap(prev: nat, off: nat): (d: nat)
    ensures d < UINT64_LIMIT
    ensures prev <= off < prev + UINT64_LIMIT ==> d == off - prev
  {
    (off - prev) % UINT64_LIMIT
  }

  /** The offset before entry i, taking 0 before the first. */
  function Before(offsets: seq<nat>, i: nat): nat
    requires i <= |offsets|
  {
    if i == 0 then 0 else offsets[i - 1]
  }

  /** The fold of `max_degree`: the largest gap between consecutive entries, from an implicit 0. */
  function MaxGap(offsets: seq<nat>): nat
  {
    if |offsets| == 0 then 0
    else
      var n := |offsets| - 1;
      var d := Gap(Before(offsets, n), offsets[n]);
      var m := MaxGap(offsets[..n]);
      if d < m then m else d
  }

  /**
   * The fold is the maximum of the gaps: it bounds every gap and is one
   * of them (0 when there are no entries).
   */
  lemma {:induction false} MaxGapIsMaximum(offsets: seq<nat>)
    ensures forall i :: 0 <= i < |offsets| ==> Gap(Before(offsets, i), offsets[i]) <= MaxGap(offsets)
    ensures |offsets| > 0 ==> exists i :: 0 <= i < |offsets| && MaxGap(offsets) == Gap(Before(offsets, i), offsets[i])
    ensures |offsets| == 0 ==> MaxGap(offsets) == 0
  {
    if |offsets| > 0 {
      var n := |offsets| - 1;
      var prefix := offsets[..n];
      MaxGapIsMaximum(prefix);
      forall i | 0 <= i < n ensures Before(prefix, i) == Before(offsets, i) && prefix[i] == offsets[i] {
      }
      if n > 0 && MaxGap(offsets) == MaxGap(prefix) {
        var j :| 0 <= j < n && MaxGap(prefix) == Gap(Before(prefix, j), prefix[j]);
        assert MaxGap(offsets) == Gap(Before(offsets, j), offsets[j]);
      }
    }
  }

  /** One more entry extends the fold by its gap. */
  lemma FoldStep(offsets: seq<nat>, i: nat)
    requires i < |offsets|
    ensures var d := Gap(Before(offsets, i), offsets[i]);
      MaxGap(offsets[..i + 1]) == if d < MaxGap(offsets[..i]) then MaxGap(offsets[..i]) else d
  {
    assert offsets[..i + 1][..i] == offsets[..i];
  }

  /** `max_degree` (`util/memusage.cpp`): fold the gaps of the entries into their maximum. */
  method MaxDegreeOf(index: seq<byte>) returns (max: nat)
    ensures max == MaxGap(Entries(index))
  {
    var numVerts := |index| / 8;
    var offsets := Entries(index);
    var input := Stream(index, 0);
    var prev := 0;
    max := 0;
    var i := 0;
    while i < numVerts
      invariant i <= numVerts == |offsets| && input == Stream(index, 8 * i)
      invariant prev == Before(offsets, i) && max == MaxGap(offsets[..i])
    {
      prev, input, max := FoldEntry(index, offsets, i, input, prev, max);
      i := i + 1;
    }
    assert offsets[..i] == offsets;
  }

  /**
   * One iteration of `max_degree`: `read_one` of the `uint64_t` at entry i
   * of the index, then `max = std::max(off - prev_off, max)`.
   */
  method FoldEntry(index: seq<byte>, offsets: seq<nat>, i: nat, input: Stream, prev: nat, max: nat)
      returns (off: nat, rest: Stream, max': nat)
    requires offsets == Entries(index) && i < |offsets| && input == Stream(index, 8 * i)
    requires prev == Before(offsets, i) && max == MaxGap(offsets[..i])
    ensures off == Before(offsets, i + 1) && rest == Stream(index, 8 * (i + 1))
    ensures max' == MaxGap(offsets[..i + 1])
  {
    off, rest := NextEntry(index, i, input);
    var edges := Gap(prev, off);
    FoldStep(offsets, i);
    max' := if edges < max then max else edges;
  }

  /** `read_one` of the `uint64_t` at entry i of the index: yields entry i and moves past it. */
  method NextEntry(index: seq<byte>, i: nat, input: Stream) returns (off: nat, rest: Stream)
    requires i < |index| / 8 && input == Stream(index, 8 * i)
    ensures off == Word(index, i) && rest == Stream(index, 8 * (i + 1))
  {
    var r := ReadOne(input, 8);
    Pow256Word();
    DecodeEncode(r.value, 8);
    off, rest := r.value, r.rest;
  }

  /** How `util/maxd.cpp`'s `max_degree` ends. */
  datatype Outcome = Largest(max: nat) | DivisionByZero

  /**
   * `max_degree` of `util/maxd.cpp` as written: the same fold, with a
   * progress line whenever `i % (num_vertices / 100) == 0`.  For an index
   * of 1 to 99 entries the divisor is 0 and the first iteration divides
   * by zero; otherwise it returns the same maximum as the fold.
   */
  method ReportingMaxDegree(index: seq<byte>) returns (outcome: Outcome)
    ensures outcome == DivisionByZero <==> 0 < |index| / 8 < 100
    ensures outcome.Largest? ==> outcome.max == MaxGap(Entries(index))
  {
    var numVerts := |index| / 8;
    var offsets := Entries(index);
    var input := Stream(index, 0);
    var prev := 0;
    var max := 0;
    var i := 0;
    while i < numVerts
      invariant i <= numVerts == |offsets| && input == Stream(index, 8 * i)
      invariant prev == Before(offsets, i) && max == MaxGap(offsets[..i])
      invariant i > 0 ==> numVerts / 100 != 0
    {
      prev, input, max := FoldEntry(index, offsets, i, input, prev, max);
      var step := numVerts / 100;
      if step == 0 {
        PercentStep(numVerts);
        return DivisionByZero;
      }
      // the progress line `i / step` is output only
      i := i + 1;
    }
    assert offsets[..i] == offsets;
    PercentStep(numVerts);
    outcome := Largest(max);
  }

  /** The progress divisor `num_vertices / 100` is 0 exactly below 100 vertices. */
  lemma PercentStep(numVerts: nat)
    ensures numVerts / 100 == 0 <==> numVerts < 100
  {
  }

  /**
   * For the index the converter writes (offsets from 0, never
   * decreasing), the fold bounds the out-degree of every vertex but the
   * last and equals one of them: gap i + 1 is vertex i's degree, and gap
   * 0 is 0.
   */
  lemma MaxGapBoundsDegrees(t: Table)
    requires Valid(t) && |t.offsets| > 0 && t.offsets[0] == 0 && t.totalEdges < UINT64_LIMIT
    ensures forall v :: 0 <= v < |t.offsets| - 1 ==> NumEdges(t, v) <= MaxGap(t.offsets)
    ensures |t.offsets| > 1 ==> exists v :: 0 <= v < |t.offsets| - 1 && MaxGap(t.offsets) == NumEdges(t, v)
    ensures |t.offsets| == 1 ==> MaxGap(t.offsets) == 0
  {
    MaxGapIsMaximum(t.offsets);
    forall v | 0 <= v < |t.offsets| - 1
      ensures NumEdges(t, v) == Gap(Before(t.offsets, v + 1), t.offsets[v + 1])
    {
      DegreeIsSliceWidth(t, v);
    }
    if |t.offsets| > 1 {
      var i :| 0 <= i < |t.offsets| && MaxGap(t.offsets) == Gap(Before(t.offsets, i), t.offsets[i]);
      if i == 0 {
        assert NumEdges(t, 0) <= MaxGap(t.offsets) == 0;
      } else {
        assert MaxGap(t.offsets) == NumEdges(t, i - 1);
      }
    }
  }

  /** The last vertex never counts: one vertex with 5 edges has a fold of 0. */
  lemma LastVertexIgnored()
    ensures var t := Table([0], 5); Valid(t) && NumEdges(t, 0) == 5 && MaxGap(t.offsets) == 0
  {
    var t := Table([0], 5);
    assert End(t, 0) == 5;
  }

  /** The defaults of `util/memusage.cpp`: 40 threads, 4 bytes per vertex, an edge window of 1. */
  const DEFAULT_THREADS: nat := 40
  const DEFAULT_VERTEX_BYTES: nat := 4
  const DEFAULT_EDGE_WINDOW: nat := 1

  /** With the defaults, 12 bytes per vertex and 160 bytes per unit of the largest degree. */
  lemma DefaultEstimate(numVerts: nat, maxDegree: nat)
    requires 12 * numVerts + 160 * maxDegree < UINT64_LIMIT
    ensures TotalMemory(DEFAULT_THREADS, DEFAULT_VERTEX_BYTES, numVerts, maxDegree, DEFAULT_EDGE_WINDOW)
            == 12 * numVerts + 160 * maxDegree
  {
  }

  /** The estimate `(8 + B) * |V| + 4 * max * threads * edgewindow`, in `uint64_t` arithmetic. */
  function TotalMemory(threads: nat, vertexBytes: nat, numVerts: nat, maxDegree: nat, edgeWindow: nat): (total: nat)
    ensures total < UINT64_LIMIT
  {
    ((8 + vertexBytes) * numVerts + 4 * maxDegree * threads * edgeWindow) % UINT64_LIMIT
  }

  /**
   * Without 64-bit overflow the estimate covers the index table (8 bytes
   * per vertex), the vertex data, and one edge buffer per thread of the
   * kernels' size `edgewindow * max_out_degree` entries of 4 bytes.
   */
  lemma MemoryCoversBuffers(threads: nat, vertexBytes: nat, numVerts: nat, maxDegree: nat, edgeWindow: nat)
    requires edgeWindow * maxDegree < UINT32_LIMIT
    requires (8 + vertexBytes) * numVerts + 4 * maxDegree * threads * edgeWindow < UINT64_LIMIT
    ensures TotalMemory(threads, vertexBytes, numVerts, maxDegree, edgeWindow)
            == 8 * numVerts + vertexBytes * numVerts + threads * (4 * GraphKernel.EdgeBufSize(edgeWindow, maxDegree))
  {
    var buf := GraphKernel.EdgeBufSize(edgeWindow, maxDegree);
    assert buf == edgeWindow * maxDegree;
    assert 4 * maxDegree * threads * edgeWindow == threads * (4 * buf) by {
      MulRearrange(maxDegree, threads, edgeWindow);
    }
    assert (8 + vertexBytes) * numVerts == 8 * numVerts + vertexBytes * numVerts;
  }

  lemma MulRearrange(m: nat, t: nat, w: nat)
    ensures 4 * m * t * w == t * (4 * (w * m))
  {
  }

  /** More threads or a larger degree never lower the estimate, while it does not overflow. */
  lemma MemoryMonotone(threads: nat, threads': nat, vertexBytes: nat, numVerts: nat, maxDegree: nat, maxDegree': nat, edgeWindow: nat)
    requires threads <= threads' && maxDegree <= maxDegree'
    requires (8 + vertexBytes) * numVerts + 4 * maxDegree' * threads' * edgeWindow < UINT64_LIMIT
    ensures TotalMemory(threads, vertexBytes, numVerts, maxDegree, edgeWindow)
            <= TotalMemory(threads', vertexBytes, numVerts, maxDegree', edgeWindow)
  {
    MulMonotone(maxDegree, maxDegree', threads, threads', edgeWindow);
  }

  lemma MulMonotone(m: nat, m': nat, t: nat, t': nat, w: nat)
    requires m <= m' && t <= t'
    ensures 4 * m * t * w <= 4 * m' * t' * w
  {
    assert m * t <= m' * t by { MulLeft(m, m', t); }
    assert m' * t <= m' * t' by { MulLeft(t, t', m'); }
    MulLeft(m * t, m' * t', 4 * w);
    assert 4 * m * t * w == (m * t) * (4 * w);
    assert 4 * m' * t' * w == (m' * t') * (4 * w);
  }

  lemma MulLeft(a: nat, b: nat, c: nat)
    requires a <= b
    ensures a * c <= b * c && c * a <= c * b
  {
  }
}
