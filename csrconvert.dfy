/**
 * The offline edge-list to CSR converter (`util/main.cpp`).  The edge list
 * is read pair by pair (optionally adding the reversed edge), sorted by
 * source, and turned into an index (`idx`: one offset per vertex `0 ..
 * max_vert`) and a destination array in input order; the weighted variant
 * carries a weight array alongside.
 *
 * Both `edge_list_to_csr` and `edge_list_to_w_csr` are modelled by one
 * generic method: an unweighted edge carries the unit weight `()`.
 * Reading the text file, sorting, and writing the two binary files are
 * I/O and library calls, left out.
 */
module CsrConvert {
  import opened Csr

  /** An input edge `(from, to, weight)`. */
  datatype Edge<W> = Edge(src: nat, dst: nat, weight: W)

  /** The reversed edge, as `make-undirected` appends it. */
  function Reverse<W>(e: Edge<W>): Edge<W> { Edge(e.dst, e.src, e.weight) }

  /** Sorted by source vertex, as the converter's loop demands. */
  predicate SortedBySource<W>(edges: seq<Edge<W>>)
  {
    forall i, j :: 0 <= i < j < |edges| ==> edges[i].src <= edges[j].src
  }

  /** The number of edges whose source is below v: where v's slice should start. */
  function Below<W>(edges: seq<Edge<W>>, v: nat): nat
  {
    if |edges| == 0 then 0
    else Below(edges[..|edges| - 1], v) + (if edges[|edges| - 1].src < v then 1 else 0)
  }

  /** The number of edges whose source is v: v's out-degree. */
  function OutDegree<W>(edges: seq<Edge<W>>, v: nat): nat
  {
    if |edges| == 0 then 0
    else OutDegree(edges[..|edges| - 1], v) + (if edges[|edges| - 1].src == v then 1 else 0)
  }

  /**
   * In a sorted list, the edges below r are exactly the first k when edge
   * k-1 is below r and edge k is not.
   */
  lemma {:induction false} BelowAt<W>(edges: seq<Edge<W>>, k: nat, r: nat)
    requires SortedBySource(edges) && k <= |edges|
    requires k > 0 ==> edges[k - 1].src < r
    requires k < |edges| ==> r <= edges[k].src
    ensures Below(edges, r) == k
  {
    var n := |edges|;
    if n > 0 {
      var prefix := edges[..n - 1];
      assert SortedBySource(prefix) by {
        forall i, j | 0 <= i < j < |prefix| ensures prefix[i].src <= prefix[j].src {
          assert prefix[i] == edges[i] && prefix[j] == edges[j];
        }
      }
      if k == n {
        if k > 1 {
          assert prefix[k - 2] == edges[k - 2];
        }
        BelowAt(prefix, k - 1, r);
      } else {
        if k > 0 {
          assert prefix[k - 1] == edges[k - 1];
        }
        if k < n - 1 {
          assert prefix[k] == edges[k];
        }
        BelowAt(prefix, k, r);
      }
    }
  }

  /** Slices of consecutive vertices are adjacent: v's slice is its out-degree long. */
  lemma {:induction false} BelowNext<W>(edges: seq<Edge<W>>, v: nat)
    ensures Below(edges, v + 1) == Below(edges, v) + OutDegree(edges, v)
  {
    if |edges| > 0 {
      BelowNext(edges[..|edges| - 1], v);
    }
  }

  /** Every source at most `maxVert`. */
  predicate SourcesUpTo<W>(edges: seq<Edge<W>>, maxVert: nat)
  {
    forall i :: 0 <= i < |edges| ==> edges[i].src <= maxVert
  }

  /** Past the largest source, every edge is below. */
  lemma {:induction false} BelowAll<W>(edges: seq<Edge<W>>, maxVert: nat)
    requires SourcesUpTo(edges, maxVert)
    ensures Below(edges, maxVert + 1) == |edges|
  {
    if |edges| > 0 {
      var prefix := edges[..|edges| - 1];
      assert SourcesUpTo(prefix, maxVert) by {
        forall i | 0 <= i < |prefix| ensures prefix[i].src <= maxVert {
          assert prefix[i] == edges[i];
        }
      }
      BelowAll(prefix, maxVert);
    }
  }

  /**
   * Sets rows `lo .. hi` of the index to `count`, the position of the
   * first edge whose source is at least `lo`: each of those rows starts
   * where the edges below it end.
   */
  method FillRows<W>(edges: seq<Edge<W>>, idx: array<nat>, lo: nat, hi: nat, count: nat)
    modifies idx
    requires SortedBySource(edges) && count <= |edges| && hi < idx.Length && lo <= hi + 1
    requires count > 0 ==> edges[count - 1].src < lo
    requires count < |edges| ==> hi <= edges[count].src
    requires forall r :: 0 <= r < lo ==> idx[r] == Below(edges, r)
    ensures forall r :: 0 <= r <= hi ==> idx[r] == Below(edges, r)
  {
    var row := lo;
    while row <= hi
      invariant lo <= row <= hi + 1
      invariant forall r :: 0 <= r < row ==> idx[r] == Below(edges, r)
    {
      BelowAt(edges, count, row);
      idx[row] := count;
      row := row + 1;
    }
  }

  /**
   * `edge_list_to_w_csr` (and `edge_list_to_csr` with unit weights): for
   * a list sorted by source whose sources are at most `maxVert`, `idx[v]`
   * is the number of edges with source below v, whatever the initial
   * `fill` of the index vector, and `dest` and `weights` list the edges'
   * targets and weights in input order.
   */
  method EdgeListToCsr<W(0)>(edges: seq<Edge<W>>, maxVert: nat, fill: nat)
    returns (idx: array<nat>, dest: array<nat>, weights: array<W>)
    requires SortedBySource(edges) && SourcesUpTo(edges, maxVert)
    requires maxVert + 1 < UINT32_LIMIT
    ensures fresh(idx) && fresh(dest) && fresh(weights)
    ensures idx.Length == maxVert + 1 && dest.Length == |edges| && weights.Length == |edges|
    ensures forall v :: 0 <= v <= maxVert ==> idx[v] == Below(edges, v)
    ensures forall i :: 0 <= i < |edges| ==> dest[i] == edges[i].dst && weights[i] == edges[i].weight
  {
    idx := new nat[maxVert + 1](_ => fill);
    dest := new nat[|edges|](_ => 0);
    weights := new W[|edges|];
    var prev := 0;
    var count := 0;
    idx[0] := 0;
    assert Below(edges, 0) == 0 by { BelowAt(edges, 0, 0); }
    var from := 0;
    while count < |edges|
      invariant 0 <= count <= |edges| && prev <= maxVert
      invariant count == 0 ==> prev == 0 && from == 0
      invariant count > 0 ==> prev == edges[count - 1].src && from == prev
      invariant forall r :: 0 <= r <= prev ==> idx[r] == Below(edges, r)
      invariant forall i :: 0 <= i < count ==> dest[i] == edges[i].dst && weights[i] == edges[i].weight
    {
      from := edges[count].src;
      var to := edges[count].dst;
      if from != prev {
        // the rows between the previous source and this one
        FillRows(edges, idx, prev + 1, from, count);
        prev := from;
      }
      dest[count] := to;
      weights[count] := edges[count].weight;
      count := count + 1;
    }
    // the rows past the last source
    FillRows(edges, idx, from + 1, maxVert, |edges|);
  }

  /**
   * `edge_list_to_csr`: the unweighted converter, whose index vector
   * starts filled with `|E| - 1` (a 64-bit wrap-around when there are no
   * edges); every entry is overwritten, so the fill never shows.
   */
  method UnweightedToCsr(edges: seq<Edge<()>>, maxVert: nat) returns (idx: array<nat>, dest: array<nat>)
    requires SortedBySource(edges) && SourcesUpTo(edges, maxVert)
    requires maxVert + 1 < UINT32_LIMIT
    ensures fresh(idx) && fresh(dest)
    ensures idx.Length == maxVert + 1 && dest.Length == |edges|
    ensures forall v :: 0 <= v <= maxVert ==> idx[v] == Below(edges, v)
    ensures forall i :: 0 <= i < |edges| ==> dest[i] == edges[i].dst
  {
    var fill := if |edges| == 0 then UINT64_LIMIT - 1 else |edges| - 1;
    var units;
    idx, dest, units := EdgeListToCsr(edges, maxVert, fill);
  }

  /**
   * Round trip with the runtime's table: reading the produced index with
   * the edge count as total, `get_num_edges(v)` is the number of input
   * edges leaving v, and the table passes the runtime's checks when every
   * out-degree fits 32 bits.
   */
  lemma CsrRoundTrip<W>(edges: seq<Edge<W>>, maxVert: nat, idx: seq<nat>)
    requires SourcesUpTo(edges, maxVert)
    requires |idx| == maxVert + 1 && forall v :: 0 <= v <= maxVert ==> idx[v] == Below(edges, v)
    requires forall v :: 0 <= v <= maxVert ==> OutDegree(edges, v) < UINT32_LIMIT
    ensures Valid(Table(idx, |edges|))
    ensures forall v :: 0 <= v <= maxVert ==> NumEdges(Table(idx, |edges|), v) == OutDegree(edges, v)
  {
    var t := Table(idx, |edges|);
    BelowAll(edges, maxVert);
    forall v | 0 <= v <= maxVert
      ensures t.offsets[v] <= End(t, v) && End(t, v) - t.offsets[v] == OutDegree(edges, v)
    {
      BelowNext(edges, v);
    }
  }

  /**
   * The edge list as `encode_unweighted` / `encode_weighted` read it:
   * each input edge, followed by its reverse when `undirected`.
   */
  function Listed<W>(input: seq<Edge<W>>, undirected: bool): seq<Edge<W>>
  {
    if |input| == 0 then []
    else
      var e := input[|input| - 1];
      Listed(input[..|input| - 1], undirected) + [e] + (if undirected then [Reverse(e)] else [])
  }

  /**
   * The reading loop of `encode_unweighted` (and `encode_weighted`):
   * append each edge, and its reverse with `make-undirected`, and keep the
   * largest endpoint seen as `max_vert`.
   */
  method ReadEdges<W>(input: seq<Edge<W>>, undirected: bool) returns (edges: seq<Edge<W>>, maxVert: nat)
    ensures edges == Listed(input, undirected)
    ensures forall i :: 0 <= i < |input| ==> input[i].src <= maxVert && input[i].dst <= maxVert
    ensures |input| > 0 ==> exists i :: 0 <= i < |input| && (input[i].src == maxVert || input[i].dst == maxVert)
    ensures |input| == 0 ==> maxVert == 0
  {
    edges := [];
    maxVert := 0;
    var k := 0;
    while k < |input|
      invariant 0 <= k <= |input|
      invariant edges == Listed(input[..k], undirected)
      invariant forall i :: 0 <= i < k ==> input[i].src <= maxVert && input[i].dst <= maxVert
      invariant k > 0 ==> exists i :: 0 <= i < k && (input[i].src == maxVert || input[i].dst == maxVert)
      invariant k == 0 ==> maxVert == 0
    {
      var e := input[k];
      assert input[..k + 1][..k] == input[..k];
      edges := edges + [e];
      if undirected {
        edges := edges + [Reverse(e)];
      }
      var m := if e.src < e.dst then e.dst else e.src;
      if m > maxVert {
        maxVert := m;
      }
      k := k + 1;
    }
    assert input[..k] == input;
  }

  /** Every listed edge, forward or reversed, has its endpoints among the input's. */
  lemma {:induction false} ListedEndpoints<W>(input: seq<Edge<W>>, undirected: bool, maxVert: nat)
    requires forall i :: 0 <= i < |input| ==> input[i].src <= maxVert && input[i].dst <= maxVert
    ensures forall e :: e in Listed(input, undirected) ==> e.src <= maxVert && e.dst <= maxVert
  {
    if |input| > 0 {
      var prefix := input[..|input| - 1];
      forall i | 0 <= i < |prefix| ensures prefix[i].src <= maxVert && prefix[i].dst <= maxVert {
        assert prefix[i] == input[i];
      }
      ListedEndpoints(prefix, undirected, maxVert);
    }
  }

  /**
   * The sorted edge list handed to the converter meets its precondition:
   * any reordering of the listed edges has every source at most the
   * `max_vert` the reading loop computed.
   */
  lemma SortedListReady<W>(input: seq<Edge<W>>, undirected: bool, maxVert: nat, sorted: seq<Edge<W>>)
    requires forall i :: 0 <= i < |input| ==> input[i].src <= maxVert && input[i].dst <= maxVert
    requires multiset(sorted) == multiset(Listed(input, undirected))
    ensures SourcesUpTo(sorted, maxVert)
  {
    ListedEndpoints(input, undirected, maxVert);
    forall i | 0 <= i < |sorted| ensures sorted[i].src <= maxVert {
      assert sorted[i] in multiset(sorted);
    }
  }

  /**
   * `make-undirected` yields a symmetric list: every edge occurs exactly
   * as often as its reverse, the property the k-core kernel relies on.
   */
  lemma {:induction false} UndirectedSymmetric<W>(input: seq<Edge<W>>, e: Edge<W>)
    ensures multiset(Listed(input, true))[e] == multiset(Listed(input, true))[Reverse(e)]
  {
    if |input| > 0 {
      var x := input[|input| - 1];
      UndirectedSymmetric(input[..|input| - 1], e);
      ListedBag(input);
      PairSymmetric(x, e);
    }
  }

  /** The last input edge adds itself and its reverse to the list's bag. */
  lemma ListedBag<W>(input: seq<Edge<W>>)
    requires |input| > 0
    ensures var x := input[|input| - 1];
      multiset(Listed(input, true)) == multiset(Listed(input[..|input| - 1], true)) + multiset{x, Reverse(x)}
  {
  }

  /** An edge and its reverse, taken together, are symmetric. */
  lemma PairSymmetric<W>(x: Edge<W>, e: Edge<W>)
    ensures multiset{x, Reverse(x)}[e] == multiset{x, Reverse(x)}[Reverse(e)]
  {
    assert Reverse(Reverse(e)) == e;
    assert Reverse(Reverse(x)) == x;
  }

  /** Without `make-undirected` the list is the input as read. */
  lemma {:induction false} DirectedAsRead<W>(input: seq<Edge<W>>)
    ensures Listed(input, false) == input
  {
    if |input| > 0 {
      DirectedAsRead(input[..|input| - 1]);
      assert input[..|input| - 1] + [input[|input| - 1]] == input;
    }
  }

  /** With `make-undirected` the list is twice as long. */
  lemma {:induction false} UndirectedLength<W>(input: seq<Edge<W>>)
    ensures |Listed(input, true)| == 2 * |input|
  {
    if |input| > 0 {
      UndirectedLength(input[..|input| - 1]);
    }
  }
}
