/**
 * The vertex index table of a CSR graph (`vertex_table.cpp`): one 64-bit
 * edge offset per vertex into the remote adjacency array, plus the total
 * edge count learned at handshake time.  Only the size arithmetic is
 * modelled; loading the table from disk is I/O.
 */
module Csr {

  /** 2^32: `get_num_edges` truncates its result to `uint32_t`. */
  const UINT32_LIMIT: nat := 0x1_0000_0000

  /** 2^64: one more than the largest `uint64_t`. */
  const UINT64_LIMIT: nat := 0x1_0000_0000_0000_0000

  /** Bytes per index entry in an `.idx` file. */
  const INDEX_ENTRY_BYTES: nat := 8

  /** The index table: `offsets[v]` is where v's neighbours start. */
  datatype Table = Table(offsets: seq<nat>, totalEdges: nat)

  /** Exclusive end of v's slice: the next offset, or the edge count for the last vertex. */
  function End(t: Table, v: nat): nat
    requires v < |t.offsets|
  {
    if v == |t.offsets| - 1 then t.totalEdges else t.offsets[v + 1]
  }

  /**
   * `get_num_edges`: the out-degree of v, as the source computes it.  The
   * source asserts `offsets[v] <= End` and casts the 64-bit difference to
   * 32 bits, so a degree of 2^32 or more would wrap.
   */
  function NumEdges(t: Table, v: nat): (d: nat)
    requires v < |t.offsets|
    requires t.offsets[v] <= End(t, v)
    ensures d < UINT32_LIMIT
    ensures End(t, v) - t.offsets[v] < UINT32_LIMIT ==> t.offsets[v] + d == End(t, v)
  {
    (End(t, v) - t.offsets[v]) % UINT32_LIMIT
  }

  /**
   * A table the runtime can use: every vertex passes the assertion of
   * `get_num_edges` (its offset is at most its end) and its degree fits in
   * 32 bits.
   */
  predicate Valid(t: Table)
  {
    forall v {:trigger End(t, v)} :: 0 <= v < |t.offsets| ==>
      t.offsets[v] <= End(t, v) && End(t, v) - t.offsets[v] < UINT32_LIMIT
  }

  /** In a valid table the degree is exactly the width of v's slice. */
  lemma DegreeIsSliceWidth(t: Table, v: nat)
    requires Valid(t) && v < |t.offsets|
    ensures t.offsets[v] + NumEdges(t, v) == End(t, v)
    ensures End(t, v) <= t.totalEdges
  {
    OffsetsBounded(t, v);
  }

  /** Every offset of a valid table is at most the edge count. */
  lemma {:induction false} OffsetsBounded(t: Table, v: nat)
    requires Valid(t) && v < |t.offsets|
    ensures t.offsets[v] <= t.totalEdges
    ensures End(t, v) <= t.totalEdges
    decreases |t.offsets| - v
  {
    assert t.offsets[v] <= End(t, v);
    if v < |t.offsets| - 1 {
      OffsetsBounded(t, v + 1);
    }
  }

  /** Offsets are monotone between any two vertices, not just neighbours. */
  lemma {:induction false} OffsetsMonotone(t: Table, u: nat, v: nat)
    requires Valid(t) && u <= v < |t.offsets|
    ensures t.offsets[u] <= t.offsets[v]
    decreases v - u
  {
    if u < v {
      assert t.offsets[u] <= End(t, u);
      OffsetsMonotone(t, u + 1, v);
    }
  }

  /** Where the slice of vertex m starts; one past the last vertex, the edge count. */
  function Start(t: Table, m: nat): nat
    requires m <= |t.offsets|
  {
    if m < |t.offsets| then t.offsets[m] else t.totalEdges
  }

  /** Total degree of the consecutive vertices `a .. m-1`. */
  function RangeDegree(t: Table, a: nat, m: nat): nat
    requires Valid(t) && a <= m <= |t.offsets|
    decreases m - a
  {
    if a == m then 0 else RangeDegree(t, a, m - 1) + NumEdges(t, m - 1)
  }

  /**
   * The degrees of the consecutive vertices `a .. m-1` add up to the
   * distance between their slice starts.
   */
  lemma {:induction false} RangeTelescopes(t: Table, a: nat, m: nat)
    requires Valid(t) && a <= m <= |t.offsets|
    ensures Start(t, a) + RangeDegree(t, a, m) == Start(t, m)
    decreases m - a
  {
    if a < m {
      RangeTelescopes(t, a, m - 1);
      DegreeIsSliceWidth(t, m - 1);
    }
  }

  /** A range of one vertex covers that vertex's degree. */
  lemma SingleRangeDegree(t: Table, v: nat)
    requires Valid(t) && v < |t.offsets|
    ensures RangeDegree(t, v, v + 1) == NumEdges(t, v)
  {
    assert RangeDegree(t, v, v) == 0;
  }

  /** A range's degree total grows with the range. */
  lemma {:induction false} RangeDegreeMonotone(t: Table, a: nat, u: nat, m: nat)
    requires Valid(t) && a <= u <= m <= |t.offsets|
    ensures RangeDegree(t, a, u) <= RangeDegree(t, a, m)
    decreases m - u
  {
    if u < m {
      RangeDegreeMonotone(t, a, u, m - 1);
    }
  }

  /** Slice starts never decrease and never pass the edge count. */
  lemma StartsMonotone(t: Table, a: nat, m: nat)
    requires Valid(t) && a <= m <= |t.offsets|
    ensures Start(t, a) <= Start(t, m) <= t.totalEdges
  {
    RangeTelescopes(t, a, m);
    if m < |t.offsets| {
      OffsetsBounded(t, m);
    }
  }

  /** The neighbours of v: its slice of the adjacency array. */
  function Neighbours(t: Table, adj: seq<nat>, v: nat): (r: seq<nat>)
    requires Valid(t) && v < |t.offsets| && |adj| == t.totalEdges
    ensures |r| == NumEdges(t, v)
  {
    DegreeIsSliceWidth(t, v);
    adj[t.offsets[v] .. End(t, v)]
  }

  /**
   * A graph the runtime can traverse: a valid table, one adjacency entry per
   * edge, a vertex count that fits `uint32_t`, and every entry naming a
   * vertex.
   */
  predicate Graph(t: Table, adj: seq<nat>)
  {
    && Valid(t) && |adj| == t.totalEdges && |t.offsets| < UINT32_LIMIT
    && forall i :: 0 <= i < |adj| ==> adj[i] < |t.offsets|
  }

  /**
   * Consecutive vertices have adjacent slices: inside the slice of the range
   * `a .. m-1`, vertex v's neighbours start after the degrees of `a .. v-1`
   * and end within the range's slice.
   */
  lemma NeighboursInRange(t: Table, a: nat, v: nat, m: nat)
    requires Valid(t) && a <= v < m <= |t.offsets|
    ensures Start(t, a) + RangeDegree(t, a, v) == t.offsets[v]
    ensures RangeDegree(t, a, v) + NumEdges(t, v) <= RangeDegree(t, a, m)
    ensures Start(t, m) <= t.totalEdges
  {
    StartsMonotone(t, v + 1, m);
    RangeTelescopes(t, a, v);
    RangeTelescopes(t, a, m);
    DegreeIsSliceWidth(t, v);
  }

  /**
   * Summing `get_num_edges` over all vertices telescopes: the degrees of a
   * valid table add up to `totalEdges - offsets[0]`.
   */
  lemma DegreesTelescope(t: Table)
    requires Valid(t) && |t.offsets| > 0
    ensures RangeDegree(t, 0, |t.offsets|) == t.totalEdges - t.offsets[0]
  {
    RangeTelescopes(t, 0, |t.offsets|);
  }

  /**
   * Every vertex passes the assertion of `get_num_edges`: its offset is at
   * most its end.  All `get_max_out_degree` needs of the table.
   */
  predicate Ordered(t: Table)
  {
    forall v :: 0 <= v < |t.offsets| ==> t.offsets[v] <= End(t, v)
  }

  /**
   * The largest degree among the vertices below n, 0 when there are none:
   * it bounds each of their degrees and is attained by one of them.
   */
  function MaxDegreeBelow(t: Table, n: nat): (m: nat)
    requires Ordered(t) && n <= |t.offsets|
    ensures forall v :: 0 <= v < n ==> NumEdges(t, v) <= m
    ensures n > 0 ==> exists v :: 0 <= v < n && m == NumEdges(t, v)
    ensures n == 0 ==> m == 0
  {
    if n == 0 then 0
    else
      var m := MaxDegreeBelow(t, n - 1);
      if NumEdges(t, n - 1) > m then NumEdges(t, n - 1) else m
  }

  /**
   * `get_max_out_degree`: a fold of `max` over all degrees, that is the
   * largest degree of the table, 0 for an empty one.
   */
  method MaxOutDegree(t: Table) returns (m: nat)
    requires Ordered(t)
    ensures m == MaxDegreeBelow(t, |t.offsets|)
    ensures forall v :: 0 <= v < |t.offsets| ==> NumEdges(t, v) <= m
    ensures |t.offsets| > 0 ==> exists v :: 0 <= v < |t.offsets| && m == NumEdges(t, v)
    ensures |t.offsets| == 0 ==> m == 0
  {
    m := 0;
    var v := 0;
    while v < |t.offsets|
      invariant 0 <= v <= |t.offsets| && m == MaxDegreeBelow(t, v)
    {
      var d := NumEdges(t, v);
      assert MaxDegreeBelow(t, v + 1) == if d > m then d else m;
      if d > m {
        m := d;
      }
      v := v + 1;
    }
  }

  /** Failure modes of `get_num_verts`. */
  datatype VertsError = FileMissing | TooManyVertices

  datatype VertsResult = Verts(n: nat) | VertsFailed(err: VertsError)

  /**
   * `get_num_verts`: the vertex count of an index file of the given size
   * (`Missing` when the path does not exist or is not a regular file).  The
   * count must fit in 32 bits, or the checked cast throws.
   */
  function NumVertsOfFile(file: FileStat): (r: VertsResult)
    ensures file.Missing? <==> r == VertsFailed(FileMissing)
    ensures r.Verts? <==> file.Regular? && file.bytes < INDEX_ENTRY_BYTES * UINT32_LIMIT
    ensures r.Verts? ==> r.n * INDEX_ENTRY_BYTES <= file.bytes < (r.n + 1) * INDEX_ENTRY_BYTES
    ensures r.Verts? ==> r.n < UINT32_LIMIT
  {
    match file
    case Missing => VertsFailed(FileMissing)
    case Regular(bytes) =>
      var n := bytes / INDEX_ENTRY_BYTES;
      if n < UINT32_LIMIT then Verts(n) else VertsFailed(TooManyVertices)
  }

  /** What the file system says about a path: absent, or a regular file of some size. */
  datatype FileStat = Missing | Regular(bytes: nat)
}
