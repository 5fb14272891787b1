/**
 * The `.idx`/`.adj` to Galois `.gr` converter (`util/fg2gr.cpp`).  The
 * output is a 32-byte header (version 1, edge-data size 0, vertex count,
 * edge count, each a little-endian `uint64_t`), then one end offset per
 * vertex (the index file without its first entry, followed by the edge
 * count), then the edges as `uint32_t`, padded to a multiple of 8 bytes.
 *
 * Files are byte sequences; opening them and the progress output of
 * `write_as` are I/O, left out.
 */
module GrFormat {
  import opened Csr

  /** A byte of a file. */
  newtype byte = b: int | 0 <= b < 256

  /** The `version` and `edgedata_size` fields of the header. */
  const GR_VERSION: nat := 1
  const EDGE_DATA_SIZE: nat := 0

  /** A path that either names a regular file with these contents or does not. */
  datatype File = Absent | Present(data: seq<byte>)

  /** The two runtime errors the converter reports. */
  datatype Failure = FileNotFound | CantReadIndexData

  datatype Status = Done | Failed(failure: Failure)

  /** A binary input stream: the file and the read position. */
  datatype Stream = Stream(data: seq<byte>, pos: nat)

  datatype ReadResult = Read(value: nat, rest: Stream) | ShortRead

  /** 256^w: one more than the largest w-byte value. */
  function Pow256(w: nat): (r: nat)
    ensures r > 0
  {
    if w == 0 then 1 else 256 * Pow256(w - 1)
  }

  /** Eight bytes hold exactly the `uint64_t` values. */
  lemma Pow256Word()
    ensures Pow256(8) == UINT64_LIMIT
  {
  }

  /** The value of w bytes in little-endian order, as reinterpreting them in memory yields. */
  function LittleEndian(bs: seq<byte>): (x: nat)
    ensures x < Pow256(|bs|)
  {
    if |bs| == 0 then 0 else bs[0] as int + 256 * LittleEndian(bs[1..])
  }

  /** The w bytes of x in memory, low byte first (`write_one`); x is cut to w bytes. */
  function Encode(x: nat, w: nat): (bs: seq<byte>)
    ensures |bs| == w
  {
    if w == 0 then [] else [(x % 256) as byte] + Encode(x / 256, w - 1)
  }

  /** Writing a value that fits and reading it back gives the value. */
  lemma {:induction false} DecodeEncode(x: nat, w: nat)
    requires x < Pow256(w)
    ensures LittleEndian(Encode(x, w)) == x
  {
    if w > 0 {
      var bs := Encode(x, w);
      assert bs[0] as int == x % 256;
      assert bs[1..] == Encode(x / 256, w - 1);
      DivBound(x, Pow256(w - 1));
      DecodeEncode(x / 256, w - 1);
    }
  }

  /** A value below 256 * p has a quotient by 256 below p. */
  lemma DivBound(x: nat, p: nat)
    requires x < 256 * p
    ensures x / 256 < p
  {
  }

  /** Reading bytes and writing the value back reproduces the bytes. */
  lemma {:induction false} EncodeDecode(bs: seq<byte>)
    ensures Encode(LittleEndian(bs), |bs|) == bs
  {
    if |bs| > 0 {
      var x := LittleEndian(bs);
      var low := bs[0] as nat;
      var high := LittleEndian(bs[1..]);
      assert x == low + 256 * high;
      assert x % 256 == low && x / 256 == high by {
        DivModParts(low, high, x);
      }
      EncodeDecode(bs[1..]);
      assert (x % 256) as byte == bs[0];
    }
  }

  /** Division by 256 of `low + 256 * high` with a byte-sized `low`. */
  lemma DivModParts(low: nat, high: nat, x: nat)
    requires low < 256 && x == low + 256 * high
    ensures x % 256 == low && x / 256 == high
  {
  }

  /**
   * `read_one`: the next `width` bytes as a little-endian value, or the
   * "can't read index data" error when fewer than `width` bytes are left.
   */
  function ReadOne(s: Stream, width: nat): (r: ReadResult)
    ensures r.Read? <==> s.pos + width <= |s.data|
    ensures r.Read? ==> r.rest == Stream(s.data, s.pos + width)
    ensures r.Read? ==> r.value < Pow256(width) && Encode(r.value, width) == s.data[s.pos..s.pos + width]
  {
    if s.pos + width <= |s.data| then
      var bs := s.data[s.pos..s.pos + width];
      EncodeDecode(bs);
      Read(LittleEndian(bs), Stream(s.data, s.pos + width))
    else
      ShortRead
  }

  /** `num_elements`: how many whole elements of `width` bytes a file of `size` bytes holds. */
  function NumElements(size: nat, width: nat): (n: nat)
    requires width > 0
    ensures n * width <= size < (n + 1) * width
  {
    size / width
  }

  /** `write_header`: version, edge-data size, vertex count and edge count, as `uint64_t`. */
  function WriteHeader(numVerts: nat, numEdges: nat): (bs: seq<byte>)
    ensures |bs| == 4 * 8
  {
    Encode(GR_VERSION, 8) + Encode(EDGE_DATA_SIZE, 8)
    + Encode(numVerts, 8) + Encode(numEdges, 8)
  }

  /**
   * `write_as`: copy n values of `width` bytes from the stream to the
   * output.  It either copies all n values' bytes verbatim, or the stream
   * runs short and it stops with the error after copying a prefix of them.
   */
  method WriteAs(s: Stream, n: nat, width: nat) returns (copied: seq<byte>, rest: Stream, ok: bool)
    requires width > 0 && s.pos <= |s.data|
    ensures ok <==> s.pos + n * width <= |s.data|
    ensures ok ==> copied == s.data[s.pos..s.pos + n * width] && rest == Stream(s.data, s.pos + n * width)
    ensures !ok ==> |copied| < n * width && copied <= s.data[s.pos..]
  {
    copied := [];
    rest := s;
    ok := true;
    var i := 0;
    while i < n
      invariant i <= n && rest == Stream(s.data, s.pos + |copied|) && rest.pos <= |s.data|
      invariant |copied| == i * width && copied == s.data[s.pos..rest.pos]
    {
      var r := ReadOne(rest, width);
      if r.ShortRead? {
        ok := false;
        ReadsFall(s.pos, i, n, width, |s.data|);
        return;
      }
      SliceJoin(s.data, s.pos, rest.pos, rest.pos + width);
      copied := copied + Encode(r.value, width);
      rest := r.rest;
      i := i + 1;
    }
  }

  /** Adjacent slices join. */
  lemma SliceJoin<T>(s: seq<T>, a: nat, b: nat, c: nat)
    requires a <= b <= c <= |s|
    ensures s[a..b] + s[b..c] == s[a..c]
  {
  }

  /** A read that runs short before the n-th value means n values do not fit. */
  lemma ReadsFall(pos: nat, i: nat, n: nat, width: nat, size: nat)
    requires i < n && pos + i * width + width > size && pos + i * width <= size
    ensures pos + n * width > size && i * width < n * width
  {
    assert (i + 1) * width <= n * width;
  }

  /**
   * The complete output for an index of at least one entry: the header,
   * index entries 1 .. n-1, the edge count, the edges, and one zero
   * `uint32_t` when the edge count is odd.
   */
  function Layout(index: seq<byte>, adj: seq<byte>): seq<byte>
    requires |index| >= 8
  {
    var numVerts := NumElements(|index|, 8);
    WriteHeader(numVerts, NumElements(|adj|, 4)) + (index[8..8 * numVerts] + Trailer(adj))
  }

  /** What follows the index entries: the edge count, the edges, and the padding. */
  function Trailer(adj: seq<byte>): seq<byte>
  {
    var numEdges := NumElements(|adj|, 4);
    Encode(numEdges, 8) + adj[..4 * numEdges] + (if numEdges % 2 == 1 then Encode(0, 4) else [])
  }

  /**
   * The converter's `main` after option parsing: both inputs must exist;
   * the header is written, the first index entry is read and skipped,
   * the remaining entries and the edge count follow, then the edges and
   * the padding.  An index too short to hold one entry fails after the
   * header with "can't read index data".
   */
  method Convert(index: File, adj: File) returns (written: seq<byte>, status: Status)
    ensures status == Failed(FileNotFound) <==> index.Absent? || adj.Absent?
    ensures status == Failed(FileNotFound) ==> written == []
    ensures status == Failed(CantReadIndexData) <==> index.Present? && adj.Present? && |index.data| < 8
    ensures status == Failed(CantReadIndexData) ==> written == WriteHeader(0, |adj.data| / 4)
    ensures status == Done ==> |index.data| >= 8 && written == Layout(index.data, adj.data)
  {
    if index.Absent? || adj.Absent? {
      return [], Failed(FileNotFound);
    }
    var numVerts := NumElements(|index.data|, 8);
    var numEdges := NumElements(|adj.data|, 4);
    written := WriteHeader(numVerts, numEdges);
    var burn := ReadOne(Stream(index.data, 0), 8);
    if burn.ShortRead? {
      return written, Failed(CantReadIndexData);
    }
    var body := WriteBody(index.data, adj.data, burn.rest);
    written := written + body;
    status := Done;
  }

  /**
   * Everything after the header once the first index entry has been
   * skipped: the other index entries, the edge count, the edges as
   * `uint32_t`, and one zero `uint32_t` when the edge count is odd.
   */
  method WriteBody(index: seq<byte>, adj: seq<byte>, afterFirst: Stream) returns (bytes: seq<byte>)
    requires |index| >= 8 && afterFirst == Stream(index, 8)
    ensures bytes == index[8..8 * (|index| / 8)] + Trailer(adj)
  {
    var numVerts := NumElements(|index|, 8);
    var numEdges := NumElements(|adj|, 4);
    var copied, rest, ok := WriteAs(afterFirst, numVerts - 1, 8);
    bytes := copied;
    ghost var entries := copied;
    bytes := bytes + Encode(numEdges, 8);
    copied, rest, ok := WriteAs(Stream(adj, 0), numEdges, 4);
    bytes := bytes + copied;
    if numEdges % 2 == 1 {
      bytes := bytes + Encode(0, 4);
    }
    assert bytes == entries + Trailer(adj);
  }

  /** The output is a whole number of 8-byte words: header, one word per vertex, the padded edges. */
  lemma LayoutAligned(index: seq<byte>, adj: seq<byte>)
    requires |index| >= 8
    ensures |Layout(index, adj)| == 8 * (|index| / 8 + 4) + 8 * ((|adj| / 4 + 1) / 2)
    ensures |Layout(index, adj)| % 8 == 0
  {
    var numEdges := |adj| / 4;
    var words := |index| / 8 + 4 + (numEdges + 1) / 2;
    var pad: seq<byte> := if numEdges % 2 == 1 then Encode(0, 4) else [];
    assert |Trailer(adj)| == 8 + 4 * numEdges + |pad|;
    PadEven(numEdges, |pad|);
    assert |Layout(index, adj)| == 8 * words;
    WholeWords(words);
  }

  /** A whole number of words is a multiple of 8 bytes. */
  lemma WholeWords(words: nat)
    ensures (8 * words) % 8 == 0
  {
  }

  /** Padding an odd count of 4-byte edges with one more fills whole 8-byte words. */
  lemma PadEven(numEdges: nat, pad: nat)
    requires pad == if numEdges % 2 == 1 then 4 else 0
    ensures 4 * numEdges + pad == 8 * ((numEdges + 1) / 2)
  {
  }

  /** The `uint64_t` stored at word k of a byte sequence. */
  function Word(bs: seq<byte>, k: nat): nat
    requires 8 * (k + 1) <= |bs|
  {
    LittleEndian(bs[8 * k..8 * (k + 1)])
  }

  /** The whole `uint64_t` entries of an index file, in order. */
  function Entries(index: seq<byte>): (offsets: seq<nat>)
    ensures |offsets| == |index| / 8
    ensures forall k :: 0 <= k < |offsets| ==> offsets[k] == Word(index, k)
  {
    seq(|index| / 8, k requires 0 <= k < |index| / 8 => Word(index, k))
  }

  /** The index file read as a table of offsets, with the edge file's edge count as total. */
  function IndexTable(index: seq<byte>, adj: seq<byte>): (t: Table)
    ensures t.offsets == Entries(index) && t.totalEdges == |adj| / 4
  {
    Table(Entries(index), |adj| / 4)
  }

  /** The header reads back as version 1, no edge data, and the two counts. */
  lemma LayoutHeader(index: seq<byte>, adj: seq<byte>)
    requires |index| >= 8 && |adj| / 4 < UINT64_LIMIT && |index| / 8 < UINT64_LIMIT
    ensures Word(Layout(index, adj), 0) == GR_VERSION && Word(Layout(index, adj), 1) == EDGE_DATA_SIZE
    ensures Word(Layout(index, adj), 2) == |index| / 8 && Word(Layout(index, adj), 3) == |adj| / 4
  {
    var numVerts := |index| / 8;
    var numEdges := |adj| / 4;
    var e0, e1, e2, e3 := Encode(GR_VERSION, 8), Encode(EDGE_DATA_SIZE, 8), Encode(numVerts, 8), Encode(numEdges, 8);
    var h1 := e0 + e1;
    var h2 := h1 + e2;
    var head := h2 + e3;
    var rest := index[8..8 * numVerts] + Trailer(adj);
    assert Layout(index, adj) == head + rest;
    HeaderField(head, rest, 0, e0, GR_VERSION) by {
      SliceLeft(h2, e3, 0, 8);
      SliceLeft(h1, e2, 0, 8);
      SliceLeft(e0, e1, 0, 8);
    }
    HeaderField(head, rest, 1, e1, EDGE_DATA_SIZE) by {
      SliceLeft(h2, e3, 8, 16);
      SliceLeft(h1, e2, 8, 16);
      SliceRight(e0, e1, 8, 16);
    }
    HeaderField(head, rest, 2, e2, numVerts) by {
      SliceLeft(h2, e3, 16, 24);
      SliceRight(h1, e2, 16, 24);
    }
    HeaderField(head, rest, 3, e3, numEdges) by {
      SliceRight(h2, e3, 24, 32);
    }
  }

  /** Field i of a header that starts the output reads back as the value encoded there. */
  lemma HeaderField(head: seq<byte>, rest: seq<byte>, i: nat, field: seq<byte>, v: nat)
    requires i < 4 && |head| == 32 && v < UINT64_LIMIT
    requires head[8 * i..8 * i + 8] == field && field == Encode(v, 8)
    ensures Word(head + rest, i) == v
  {
    SliceLeft(head, rest, 8 * i, 8 * i + 8);
    Pow256Word();
    DecodeEncode(v, 8);
  }

  /**
   * After the header come the vertices' end offsets: word 4 + k of the
   * output is where vertex k's edges end in the source's CSR table (the
   * next index entry, or the edge count for the last vertex).
   */
  lemma LayoutEnds(index: seq<byte>, adj: seq<byte>, k: nat)
    requires |index| >= 8 && |adj| / 4 < UINT64_LIMIT
    requires k < |index| / 8
    ensures 8 * (4 + k + 1) <= |Layout(index, adj)|
    ensures Word(Layout(index, adj), 4 + k) == End(IndexTable(index, adj), k)
  {
    OffsetWord(index, adj, k);
  }

  /** Word 4 + k of the output: index entry k + 1, or the edge count after the last entry. */
  lemma OffsetWord(index: seq<byte>, adj: seq<byte>, k: nat)
    requires |index| >= 8 && |adj| / 4 < UINT64_LIMIT
    requires k < |index| / 8
    ensures 8 * (4 + k + 1) <= |Layout(index, adj)|
    ensures Word(Layout(index, adj), 4 + k) == if k + 1 < |index| / 8 then Word(index, k + 1) else |adj| / 4
  {
    var numVerts := |index| / 8;
    var head := WriteHeader(numVerts, |adj| / 4);
    var body := index[8..8 * numVerts];
    if k + 1 < numVerts {
      InnerEnd(head, body, Trailer(adj), index, k, numVerts);
    } else {
      LastEnd(head, body, adj, k);
    }
  }

  /** Word 4 + k of the output, for k + 1 below the vertex count, is index entry k + 1. */
  lemma InnerEnd(head: seq<byte>, body: seq<byte>, tail: seq<byte>, index: seq<byte>, k: nat, numVerts: nat)
    requires k + 1 < numVerts && 8 * numVerts <= |index| && |head| == 32 && body == index[8..8 * numVerts]
    ensures (head + (body + tail))[8 * (4 + k)..8 * (5 + k)] == index[8 * (k + 1)..8 * (k + 2)]
  {
    var at := 8 * (4 + k);
    SliceRight(head, body + tail, at, at + 8);
    SliceLeft(body, tail, at - 32, at - 24);
    SliceOfSlice(index, 8, 8 * numVerts, at - 32, at - 24);
  }

  /** Word 4 + k of the output, for the last vertex k, is the edge count. */
  lemma LastEnd(head: seq<byte>, body: seq<byte>, adj: seq<byte>, k: nat)
    requires |head| == 32 && |body| == 8 * k && |adj| / 4 < UINT64_LIMIT
    ensures LittleEndian((head + (body + Trailer(adj)))[8 * (4 + k)..8 * (5 + k)]) == |adj| / 4
  {
    var at := 8 * (4 + k);
    var tail := Trailer(adj);
    SliceRight(head, body + tail, at, at + 8);
    SliceRight(body, tail, at - 32, at - 24);
    assert tail[..8] == Encode(|adj| / 4, 8);
    Pow256Word();
    DecodeEncode(|adj| / 4, 8);
  }

  /** A slice of a slice is a slice of the whole. */
  lemma SliceOfSlice<T>(s: seq<T>, a: nat, b: nat, i: nat, j: nat)
    requires a <= b <= |s| && i <= j <= b - a
    ensures s[a..b][i..j] == s[a + i..a + j]
  {
    var x := s[a..b];
    forall k | 0 <= k < j - i ensures x[i..j][k] == s[a + i + k] {
      assert x[i..j][k] == x[i + k];
    }
  }

  /** A slice that lies within the left operand of a concatenation. */
  lemma SliceLeft<T>(a: seq<T>, b: seq<T>, i: nat, j: nat)
    requires i <= j <= |a|
    ensures (a + b)[i..j] == a[i..j]
  {
  }

  /** A slice that lies within the right operand of a concatenation. */
  lemma SliceRight<T>(a: seq<T>, b: seq<T>, i: nat, j: nat)
    requires |a| <= i <= j <= |a| + |b|
    ensures (a + b)[i..j] == b[i - |a|..j - |a|]
  {
  }

  /** After the end offsets come the edges: `uint32_t` number j of the body is edge j of the `.adj` file. */
  lemma LayoutEdges(index: seq<byte>, adj: seq<byte>, j: nat)
    requires |index| >= 8 && j < |adj| / 4
    ensures var at := 8 * (|index| / 8 + 4) + 4 * j;
      at + 4 <= |Layout(index, adj)| &&
      Layout(index, adj)[at..at + 4] == adj[4 * j..4 * (j + 1)]
  {
    var numVerts := |index| / 8;
    var head := WriteHeader(numVerts, |adj| / 4);
    var body := index[8..8 * numVerts];
    var at := 8 * (numVerts + 4) + 4 * j;
    assert Layout(index, adj) == head + (body + Trailer(adj));
    assert |head| == 32 && |body| == 8 * numVerts - 8;
    TrailerEdge(adj, j);
    SliceRight(head, body + Trailer(adj), at, at + 4);
    SliceRight(body, Trailer(adj), at - 32, at - 28);
  }

  /** Within the trailer, edge j follows the 8-byte edge count. */
  lemma TrailerEdge(adj: seq<byte>, j: nat)
    requires j < |adj| / 4
    ensures 8 + 4 * (j + 1) <= |Trailer(adj)|
    ensures Trailer(adj)[8 + 4 * j..8 + 4 * (j + 1)] == adj[4 * j..4 * (j + 1)]
  {
    var numEdges := |adj| / 4;
    var pad: seq<byte> := if numEdges % 2 == 1 then Encode(0, 4) else [];
    var count := Encode(numEdges, 8);
    var edges := adj[..4 * numEdges];
    assert Trailer(adj) == count + (edges + pad);
    SliceRight(count, edges + pad, 8 + 4 * j, 8 + 4 * (j + 1));
    SliceLeft(edges, pad, 4 * j, 4 * (j + 1));
  }

  /**
   * The extension of the last path component starts at the returned
   * position, or there is none (-1): the last '.' not followed by a '/'.
   */
  function DotAt(p: string): (r: int)
    ensures -1 <= r < |p|
    ensures r >= 0 ==> p[r] == '.' && '/' !in p[r..]
    ensures forall i :: r < i < |p| ==> p[i] != '.' || '/' in p[i..]
  {
    if |p| == 0 then -1
    else if p[|p| - 1] == '.' then |p| - 1
    else if p[|p| - 1] == '/' then -1
    else
      var r := DotAt(p[..|p| - 1]);
      assert r >= 0 ==> p[r..] == p[..|p| - 1][r..] + [p[|p| - 1]];
      r
  }

  /** Appending a '.' and a suffix free of '.' and '/' puts the extension at the '.'. */
  lemma {:induction false} DotAtAppend(stem: string, ext: string)
    requires |ext| > 0 && ext[0] == '.'
    requires forall i :: 0 < i < |ext| ==> ext[i] != '.' && ext[i] != '/'
    ensures DotAt(stem + ext) == |stem|
  {
    var p := stem + ext;
    if |ext| > 1 {
      assert p[..|p| - 1] == stem + ext[..|ext| - 1];
      DotAtAppend(stem, ext[..|ext| - 1]);
    }
  }

  /** `path::replace_extension`: drop the old extension and append the new one. */
  function ReplaceExtension(p: string, ext: string): (r: string)
    ensures DotAt(p) < 0 ==> r == p + ext
    ensures DotAt(p) >= 0 ==> r == p[..DotAt(p)] + ext
  {
    (if DotAt(p) < 0 then p else p[..DotAt(p)]) + ext
  }

  /** The output path: the index path with `.sgr` for a symmetric graph, `.gr` otherwise. */
  function OutPath(index: string, symmetric: bool): (r: string)
    ensures symmetric ==> |r| >= 4 && r[|r| - 4..] == ".sgr"
    ensures !symmetric ==> |r| >= 3 && r[|r| - 3..] == ".gr"
  {
    ReplaceExtension(index, if symmetric then ".sgr" else ".gr")
  }

  /** Naming the output again changes nothing: the new extension is the one replaced. */
  lemma OutPathIdempotent(index: string, symmetric: bool)
    ensures OutPath(OutPath(index, symmetric), symmetric) == OutPath(index, symmetric)
  {
    var ext := if symmetric then ".sgr" else ".gr";
    var stem := if DotAt(index) < 0 then index else index[..DotAt(index)];
    DotAtAppend(stem, ext);
    assert (stem + ext)[..|stem|] == stem;
  }
}
