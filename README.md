# A verified model of the FAM graph remote-read engine

This project models, in Dafny, the core of a system that runs graph
algorithms on a compute client while the graph's adjacency array lives in
the memory of a remote server and is fetched on demand with RDMA reads.
The graph is stored in CSR form: an index table with one 64-bit edge offset
per vertex, held locally, and the adjacency array of 32-bit vertex ids,
held remotely.

What is modelled, one Dafny module per source file:

- `Csr` (`src/vertex_table.cpp`): out-degrees from the index table, the
  largest out-degree, and the vertex count of an index file.
- `Frontier` (`src/bitmap.hpp`): the frontier bitmap, a class over an
  array of 64-bit words with per-thread population counters.
- `Window` and `Batches` (`src/bitmap.hpp`): `prep_wr`, the two window
  packers, and the consume loops of `for_each_active_batch` and
  `for_each_range`. An RDMA read is delivered at once, as a copy out of the
  remote adjacency array. The flagship property is that every active
  vertex with edges is handed exactly its own adjacency slice, once, in
  increasing id order, wherever the window and buffer boundaries fall and
  whether or not reads are coalesced.
- `EdgeMap` and `EdgeReads` (`src/edgemap.hpp`): `next_set`, `next_batch`,
  which may split a vertex's list across batches, then `coalesce_intervals`,
  `sign_buffer`, `make_WRs`, `post_all` and the `edgemap` driver.
- `GraphKernel` (`src/graph_kernel.hpp`): the edge-buffer sizing rule the
  kernels depend on.
- `Bfs`, `ConnectedComponents`, `KCore` and `Mis` (the four kernels): the
  per-vertex update rules and the round loops, run by one worker. Each run
  is proved to compute what the algorithm promises:
  - BFS: breadth-first distances;
  - connected components: least reaching labels;
  - k-core: the k-core;
  - MIS: the greedy independent set in id order.
- `Connection` (`src/connection_utils.cpp`): the connection-manager event
  loop with its latches, the create-once context and its connection
  counter, and the queue-pair and connection parameters.
- `Stats` (`src/stats.hpp`): `clear_stats_round` and `timespec_diff`.
- `CsrConvert` (`util/main.cpp`): the edge-list to CSR converter and the
  edge-list preparation.
- `GrFormat` (`util/fg2gr.cpp`): the `.idx`/`.adj` to Galois `.gr`
  (version 1) serialiser, with files as byte sequences.
- `MaxDegree` (`util/maxd.cpp`, `util/memusage.cpp`): the largest-degree
  fold over an index file and the memory estimate.

Fixed-width integer arithmetic is written out where the source relies on
it:
- 32-bit wrap in the statistics totals, the k-core degrees, the MIS window
  end and the edge-buffer size;
- 64-bit wrap in the index-offset differences and the memory estimate.

The byte lengths of RDMA reads are `uint32_t` too. Rather than wrap them,
the model requires the edge buffer's size in bytes to fit 32 bits, and
proves that no read length then wraps. A 32-bit wrap of a coalesced
interval's end is proved harmless.

## Model

| member | source | states |
|---|---|---|
| Csr.NumEdges | src/vertex_table.cpp:18-29 | the degree of v is below 2^32 (the `uint32_t` cast) and, when the 64-bit slice width fits, offset plus degree is the end of v's slice (the next offset, or the edge count for the last vertex) |
| Csr.DegreeIsSliceWidth | src/vertex_table.cpp:23-28 | in a table that passes the assertion for every vertex, the degree is exactly the slice width and the slice ends within the edge count |
| Csr.OffsetsBounded | src/vertex_table.cpp:23-26 | every offset, and every slice end, is at most the edge count |
| Csr.OffsetsMonotone | src/vertex_table.cpp:23-26 | offsets never decrease between any two vertices, not just neighbours |
| Csr.RangeTelescopes | src/vertex_table.cpp:18-29 | the degrees of consecutive vertices `a .. m-1` add up to the distance between their slice starts |
| Csr.SingleRangeDegree | src/vertex_table.cpp:18-29 | a range of one vertex totals that vertex's degree |
| Csr.RangeDegreeMonotone | src/vertex_table.cpp:18-29 | the degree total of a range grows with the range |
| Csr.StartsMonotone | src/vertex_table.cpp:23-26 | slice starts never decrease and never pass the edge count |
| Csr.Neighbours | src/vertex_table.cpp:23-28 | v's neighbour list has exactly `get_num_edges(v)` entries |
| Csr.NeighboursInRange | src/vertex_table.cpp:23-28 | inside the slice of a vertex range, v's neighbours start after the degrees of the earlier vertices of the range and end within the range's slice |
| Csr.DegreesTelescope | src/vertex_table.cpp:18-29 | all degrees together add up to the edge count minus the first offset |
| Csr.MaxDegreeBelow | src/vertex_table.cpp:31-40 | the largest degree below n bounds each of those degrees, is one of them, and is 0 when there are none |
| Csr.MaxOutDegree | src/vertex_table.cpp:31-40 | `get_max_out_degree`, needing only the assertion of `get_num_edges` to hold at each vertex, computes the largest degree: it bounds every vertex's degree, is the degree of some vertex, and is 0 for an empty table |
| Csr.NumVertsOfFile | src/vertex_table.cpp:6-16 | `get_num_verts` fails exactly for a missing path or a count that does not fit `uint32_t`; otherwise the count is the file size divided by 8, rounded down |
| Frontier.WordOffset | src/bitmap.hpp:38 | `WORD_OFFSET(i)` (`i >> 6`) is the word w whose 64 ids `64 * w .. 64 * w + 63` include i |
| Frontier.BitOffset | src/bitmap.hpp:38-39 | `BIT_OFFSET(i)` is a shift amount below 64 equal to i mod 64 |
| Frontier.DistinctBitOffsets | src/bitmap.hpp:38-39 | two distinct ids in the same word sit at distinct bit positions |
| Frontier.WithBitEffect | src/bitmap.hpp:83-85 | ORing in the mask of bit a sets bit a and leaves every other bit as it was |
| Frontier.OrIntoWords | src/bitmap.hpp:83-84 | ORing bit i into its word sets bit i and keeps every other id's bit |
| Frontier.ActiveGrowsByOne | src/bitmap.hpp:80-88 | setting bit i and no other adds exactly i to the set of active ids |
| Frontier.SetBitInWords | src/bitmap.hpp:80-88 | on the word array, `set_bit(i)` sets i, keeps every other bit below `size`, and adds exactly i to the active set |
| Frontier.SumUpdate | src/bitmap.hpp:86-90 | changing one thread's counter changes `num_set()` by the same amount |
| Frontier.SumZeros | src/bitmap.hpp:64-90 | all-zero counters give a population of 0 |
| Frontier.BelowSize | src/bitmap.hpp:66-74 | the ids `0 .. n-1` number n |
| Frontier.FullAndEmptyWords | src/bitmap.hpp:62-70 | a word of all ones has every bit set; the zero word has none |
| Frontier.Bitmap.Get | src/bitmap.hpp:75-79 | `get_bit(i)` is true exactly when i is in the bitmap's active set |
| Frontier.SumBounds | src/bitmap.hpp:90 | the combined count is at least each thread's count, and 0 exactly when every one is 0 |
| Frontier.Bitmap.NumSet | src/bitmap.hpp:90 | `num_set()` combines the per-thread counters: it is at least each of them, and 0 exactly when every one is 0 |
| Frontier.Bitmap.IsEmpty | src/bitmap.hpp:92 | `is_empty()` holds exactly when no thread has counted a vertex |
| Frontier.Bitmap.Bits | src/bitmap.hpp:75-79 | the bit vector has one entry per vertex, each equal to `get_bit` |
| Frontier.Bitmap.constructor | src/bitmap.hpp:52-55 | allocates `WORD_OFFSET(size) + 1` words and zero counters, promising nothing about the words |
| Frontier.Bitmap.Zeroed | src/bitmap.hpp:52-55 | with value-initialised words, no bit is set, the bitmap is empty, and counters agree with bits |
| Frontier.Bitmap.FetchOrBit | src/bitmap.hpp:83-85 | `__sync_fetch_and_or` reports whether the bit was clear, sets it, changes only that word, and adds exactly i to the active set |
| Frontier.Bitmap.SetBit | src/bitmap.hpp:80-88 | `set_bit` returns whether the bit was clear, sets it, counts one more in the caller's counter exactly when it was clear, and keeps counters in agreement with bits |
| Frontier.Bitmap.CountOne | src/bitmap.hpp:86 | incrementing the caller's counter raises `num_set()` by one |
| Frontier.Bitmap.Clear | src/bitmap.hpp:59-65 | `clear()` zeroes every word and every counter: no active id, `is_empty()`, counters agree with bits |
| Frontier.Bitmap.SetAll | src/bitmap.hpp:66-74 | `set_all()` fills every word with ones, activates exactly ids `0 .. size-1`, and sets only the caller's counter to `size`; the population is `size` only if it was 0 before |
| Frontier.SetTwice | src/bitmap.hpp:80-88 | a second `set_bit` of the same id reports no new activation, and the population grows by one at most |
| Frontier.StaleWordBreaksCount | src/bitmap.hpp:52-55 | a stale first word left by the allocator makes vertex 0 read as set while `is_empty()` holds |
| Frontier.EmptyIffNoneActive | src/bitmap.hpp:90-92 | with counters that agree with the bits, `is_empty()` holds exactly when no bit is set |
| Window.PackedSplit | src/bitmap.hpp:151-193 | the vertices a walk over `[lo, hi)` packs are those of `[lo, mid)` followed by those of `[mid, hi)` |
| Window.PackedMembers | src/bitmap.hpp:154-158 | a vertex is packed exactly when it is selected and has an edge, and packed vertices come in strictly increasing order |
| Window.FlattenGrow | src/bitmap.hpp:164-166 | extending the last `vertex_range` by the next id appends exactly that id to the covered ids |
| Window.FlattenSnoc | src/bitmap.hpp:170-171 | a new range adds its ids after those already covered |
| Window.DeliveredAppend | src/bitmap.hpp:315-331 | two delivered traces concatenate into the delivery of the concatenated vertex lists |
| Window.ContentTransparency | src/bitmap.hpp:315-331 | the consumer is called once for each selected vertex with an edge in `[lo, hi)` and for no other, in increasing order, each call seeing exactly that vertex's adjacency slice |
| Window.TraceVertices | src/bitmap.hpp:315-331 | the vertices of a delivered trace are exactly the packed ones, in range and increasing |
| Window.TraceEdges | src/bitmap.hpp:317-326 | every call's edges are `adj[offset[v] .. offset[v] + degree(v))` |
| Window.PrepWr | src/bitmap.hpp:95-125 | `prep_wr` appends one read of `length` bytes from `addr + offset` into the given buffer slot, signalled only as the first request, and links the previous request to it |
| Window.PrepWrKeepsChain | src/bitmap.hpp:95-125 | preparing a request keeps the chain: only the first is signalled and each but the last links to its successor |
| Window.ContiguousDisjoint | src/bitmap.hpp:159-183 | reads placed one after another in the edge buffer never overlap |
| Window.Sign | src/bitmap.hpp:159-163 | the two sentinel stores write `NULL_VERT` into the first and last slot of the vertex's sub-buffer and nothing else |
| Window.SkipStep | src/bitmap.hpp:154-158 | a vertex that is not taken leaves the packed window as it was |
| Window.LastRangeBelow | src/bitmap.hpp:164-166 | the last packed vertex ends the last range and lies below the cursor |
| Window.ContiguousAppend | src/bitmap.hpp:170-179 | a read landing at `total_edges` keeps the reads contiguous |
| Window.ContiguousGrow | src/bitmap.hpp:166-168 | growing the last read by `d` entries keeps the reads contiguous |
| Window.DescribesAppend | src/bitmap.hpp:170-178 | `prep_wr` for one vertex reads `4 * degree` bytes from `4 * edge_offset` and keeps the earlier requests |
| Window.DescribesGrow | src/bitmap.hpp:164-168 | growing the last read by the next vertex's bytes describes the grown range and keeps the chain |
| Window.NewRangeStep | src/bitmap.hpp:169-183 | a taken vertex that does not extend the last range opens a new single-vertex read |
| Window.CoalesceStep | src/bitmap.hpp:164-183 | with coalescing, a taken vertex right after the last range joins it and its read grows by the vertex's edges |
| Window.SlotBelowTotal | src/bitmap.hpp:159-183 | every packed vertex's sub-buffer lies below `total_edges` |
| Window.SignedKeep | src/bitmap.hpp:159-163 | stores at or above `total_edges` leave earlier sentinels in place |
| Window.SignedAppend | src/bitmap.hpp:159-179 | a new signed single-vertex read keeps every sub-buffer signed |
| Window.SignedGrow | src/bitmap.hpp:159-168 | extending the last read by a signed vertex keeps every sub-buffer signed |
| Window.CoalescedAppend | src/bitmap.hpp:164-171 | a fresh read past the last range keeps ranges single-vertex (coalescing off) or non-touching (on) |
| Window.CoalescedGrow | src/bitmap.hpp:164-166 | growing the last range keeps ranges non-touching |
| Window.SignNext | src/bitmap.hpp:159-163 | signing the next free sub-buffer leaves every other entry and every earlier sentinel in place |
| Window.Admit | src/bitmap.hpp:157-184 | taking a vertex that fits: sign it, then coalesce or prepare a read; the window grows by exactly that vertex and `total_edges` by its degree |
| Window.Extend | src/bitmap.hpp:164-168 | the coalescing branch keeps the packed-window invariant with the same number of reads |
| Window.Open | src/bitmap.hpp:169-180 | the `prep_wr` branch keeps the packed-window invariant with one more read |
| Window.PassOver | src/bitmap.hpp:154-192 | passing over a vertex that is not taken keeps the packing state |
| Window.TakeOne | src/bitmap.hpp:157-184 | taking a vertex keeps the packing state and counts one more in `batch_size` |
| Window.PackStep | src/bitmap.hpp:154-192 | one turn of the loop: a selected vertex with edges is taken when it fits and otherwise ends the window at that vertex; any other vertex is passed over |
| Window.WindowLengthsFit | src/bitmap.hpp:167-177 | the reads of a contiguous window in a buffer whose byte size fits 32 bits all have byte lengths below 2^32, so the `uint32_t` lengths `pack_window` adds up do not wrap |
| Window.FitTestExact | src/bitmap.hpp:157 | for a vertex no larger than such a buffer, the fit test `total_edges + n_out_edge <= edge_buf_size` computed in 32 bits agrees with the exact test |
| Window.PackWindow | src/bitmap.hpp:134-199 | `pack_window` (and `pack_window2` with every vertex selected) returns the next start, ranges covering exactly the packed vertices in order, chained reads filling the buffer contiguously, every sub-buffer signed; it stops only at the range end, a full buffer, a full window or a vertex that does not fit, and makes progress whenever the first vertex fits; in a buffer whose byte size fits 32 bits, no read's byte length reaches 2^32 |
| Batches.Deliver | src/bitmap.hpp:172-178 | a landed RDMA read copies exactly the entries it names from the remote adjacency array to its buffer slot and changes nothing else |
| Batches.ReadOfRange | src/bitmap.hpp:170-178 | a request prepared for a range reads that range's edges, from its first vertex's edge offset |
| Batches.RangeInsideAdjacency | src/bitmap.hpp:166-168 | a range's edges lie inside the adjacency array |
| Batches.LandedKeep | src/bitmap.hpp:313 | a read landing after where read j ends leaves read j intact |
| Batches.Post | src/bitmap.hpp:309-313 | posting the chain from request 0, every read's byte length fitting 32 bits, lands every prepared read and leaves the buffer from `total_edges` on untouched |
| Batches.SliceIsNeighbours | src/bitmap.hpp:315-330 | within a landed read, the slice `e_buf` points at for vertex v holds exactly v's neighbours |
| Batches.EqualWindows | src/bitmap.hpp:326-330 | equal buffer windows agree on every sub-window (how a vertex's slice is read out of its read) |
| Batches.SpinEnds | src/bitmap.hpp:320-321 | once a read has landed, the first and last slot of each of its vertices hold a real vertex id, so both sentinel spins end |
| Batches.DeliveredSnoc | src/bitmap.hpp:326 | one more call with v's neighbours extends the delivered prefix by v |
| Batches.Consume | src/bitmap.hpp:315-332 | with every read landed, the consume loops call the function for the ranges' vertices in order, each with its neighbours |
| Batches.ConsumeRead | src/bitmap.hpp:316-331 | the inner loop over one read's range delivers its vertices and leaves `e_buf` where the read ends |
| Batches.ForEachBatch | src/bitmap.hpp:293-334 | the per-worker loop delivers exactly the packed vertices of `[lo, hi)` with their neighbours; it counts one vertex per call, at most one window per vertex and at most `WR_WINDOW_SIZE` reads per window |
| Batches.WindowBound | src/bitmap.hpp:186-197 | adding one window of at most `window` reads keeps the read total within `window` per window |
| Batches.ForEachActiveBatch | src/bitmap.hpp:274-338 | `for_each_active_batch` calls the function once for each active vertex with an edge and for no other, in increasing order, with exactly its neighbours |
| Batches.ForEachRange | src/bitmap.hpp:340-405 | `for_each_range` calls the function once for each vertex with an edge, in increasing order, with exactly its neighbours |
| EdgeMap.OwnSplit | src/edgemap.hpp:88-98 | edges `[a, b)` of a vertex are edges `[a, m)` followed by `[m, b)` |
| EdgeMap.PackedSlotsSplit | src/edgemap.hpp:81-99 | the edges owed over `[lo, hi)` are those of `[lo, mid)` followed by those of `[mid, hi)` |
| EdgeMap.FirstActive | src/edgemap.hpp:30-38 | what `next_set` returns: the smallest set index in `[a, e)`, or `e`, with no set bit skipped |
| EdgeMap.Advance | src/edgemap.hpp:84-95 | jumping to the next active vertex loses nothing: what is owed from there is every edge of the active vertices of `[a, end)` |
| EdgeMap.PiecesSnoc | src/edgemap.hpp:91 | one more interval adds exactly its edges after those already cut |
| EdgeMap.ShapedSnoc | src/edgemap.hpp:88-98 | an interval that starts where a full one ended keeps a batch well shaped (nonempty pieces, true degrees, increasing vertices) |
| EdgeMap.ZeroStep | src/edgemap.hpp:82-87 | an edgeless vertex moves the cursor to the next active vertex and hands out and loses nothing |
| EdgeMap.FullStep | src/edgemap.hpp:88-95 | when the rest of v's list fits, it becomes one interval and the cursor moves to the next active vertex at edge 0 |
| EdgeMap.PartialStep | src/edgemap.hpp:88-98 | when the buffer fills inside v's list, the interval takes what fits, the buffer is full and the cursor stays on v |
| EdgeMap.NextSet.constructor | src/edgemap.hpp:27-29 | a `next_set` over the bitmap and `[t_start, t_end)` |
| EdgeMap.NextSet.Next | src/edgemap.hpp:30-38 | returns the smallest set index at or after the cursor and moves past it, or `end_exclusive` when none is left |
| EdgeMap.NextBatch.constructor | src/edgemap.hpp:65-70 | the cursor starts at edge 0 of `t_start` |
| EdgeMap.NextBatch.Step | src/edgemap.hpp:81-99 | one pass of the loop keeps the progress invariant and either moves past v or fills the buffer |
| EdgeMap.NextBatch.Skip | src/edgemap.hpp:83-87 | an edgeless vertex: the cursor moves on to a later vertex |
| EdgeMap.NextBatch.TakeAll | src/edgemap.hpp:88-95 | the rest of v's list fits: one interval, and the cursor moves to a later vertex |
| EdgeMap.NextBatch.TakePart | src/edgemap.hpp:88-98 | the buffer fills inside v's list: the cursor stays on v and the batch holds `capacity` edges |
| EdgeMap.NextBatch.Next | src/edgemap.hpp:74-102 | `operator()` hands out a well-shaped batch of exactly `min(capacity, edges left)` edges, which with what is left after it make up what was left before; each call on an unfinished cursor with room makes progress, and with no capacity a call hands out nothing and leaves the cursor where it was |
| EdgeReads.Len | src/edgemap.hpp:135 | an interval's edge count `end - start`: start plus it is end when start is at most end, and 0 otherwise |
| EdgeReads.WidthIsPieces | src/edgemap.hpp:135-138 | the buffer width a batch fills is the number of edges it hands out |
| EdgeReads.Fetched | src/edgemap.hpp:152-173 | the reads of a batch bring one entry per buffer slot the batch fills |
| EdgeReads.ShapedReaches | src/edgemap.hpp:88-91 | every interval `next_batch` cuts names a real vertex and stays inside the adjacency array |
| EdgeReads.FetchedPrefix | src/edgemap.hpp:152-173 | the reads of the first k intervals fill the matching prefix of the buffer |
| EdgeReads.FetchedAt | src/edgemap.hpp:239-246 | interval i sits right after the intervals before it and holds its own adjacency slice |
| EdgeReads.SentinelsKeep | src/edgemap.hpp:130-140 | the sentinels depend only on the first `Width` entries of the buffer |
| EdgeReads.SentinelsStep | src/edgemap.hpp:134-139 | signing one more interval extends the sentinels of those before it |
| EdgeReads.SignOne | src/edgemap.hpp:136-137 | writes `NULL_VERT` into the first and last entry of one sub-buffer and nothing else |
| EdgeReads.SignBuffer | src/edgemap.hpp:130-140 | `sign_buffer` puts both sentinels on every interval's sub-buffer, laid end to end from 0, and leaves the rest of the buffer untouched |
| EdgeReads.NonEmptyAt | src/edgemap.hpp:135 | every interval of a non-empty list covers at least one edge |
| EdgeReads.ShapedNonEmpty | src/edgemap.hpp:88-91 | `next_batch` never cuts an empty interval |
| EdgeReads.ShapedAt | src/edgemap.hpp:88-91 | each interval names a real vertex, carries its true degree and ends within it |
| EdgeReads.WidthPrefix | src/edgemap.hpp:138 | one more interval widens the prefix by its length, never past the whole |
| EdgeReads.Merge | src/edgemap.hpp:112-127 | the coalesced list is nonempty, no longer than the input and starts with the first interval's vertex and start |
| EdgeReads.WrappedEndKeepsWidth | src/edgemap.hpp:120 | a coalesced `end` that wraps at 2^32 still gives the interval's width through the 32-bit `end - start` whenever that width is below 2^32 |
| EdgeReads.Coalesce | src/edgemap.hpp:112-127 | `coalesce_intervals`'s loop computes `Merge` of the whole list |
| EdgeReads.CoalesceOne | src/edgemap.hpp:116-123 | one iteration, lengthening `combined.back()` or pushing the interval, turns the merge of the first i intervals into the merge of the first i + 1 |
| EdgeReads.MergeNext | src/edgemap.hpp:117-123 | merging one more interval lengthens the last read exactly when its vertex follows its predecessor's, and otherwise appends it |
| EdgeReads.FetchedSnoc | src/edgemap.hpp:152-173 | one more read brings its own slice after the others |
| EdgeReads.JoinReads | src/edgemap.hpp:118-120 | lengthening the last read by an interval that starts where it ends brings exactly that interval's slice in addition |
| EdgeReads.MergeJoin | src/edgemap.hpp:118-120 | a coalescing step that lengthens the last read keeps the merged reads equivalent to one read per interval |
| EdgeReads.MergeOpen | src/edgemap.hpp:121-123 | a coalescing step that opens a new read keeps the merged reads equivalent |
| EdgeReads.MergeFetched | src/edgemap.hpp:112-127 | coalescing a batch loses nothing: the merged reads stay inside the adjacency array and bring the same entries, in the same order, as one read per interval |
| EdgeReads.ReachesAt | src/edgemap.hpp:152-156 | each interval of a reaching list is in range |
| EdgeReads.RequestsAt | src/edgemap.hpp:152-173 | request k carries interval k and lands after the intervals before it |
| EdgeReads.ReadOf | src/edgemap.hpp:154-170 | a request built for an interval reads its adjacency slice, `edges * 4` bytes from `(edge_offset + start) * 4` |
| EdgeReads.MakeWRs | src/edgemap.hpp:142-176 | `make_WRs` builds one unsignalled read per interval, each landing right after the previous one's data; for a batch whose byte size fits 32 bits, every `uint32_t` `sge.length` is exact |
| EdgeReads.DeliverNext | src/edgemap.hpp:189 | delivering read k extends the fetched prefix by its slice and leaves the buffer after it untouched |
| EdgeReads.Landing | src/edgemap.hpp:189 | a read landing at `off` extends the untouched prefix before it |
| EdgeReads.DeliverAll | src/edgemap.hpp:178-195 | once every posted read has landed, the first `Width` entries hold what the reads fetch and nothing after them changes |
| EdgeReads.PostAll | src/edgemap.hpp:178-195 | `post_all` signals and ends a chain exactly at a request that closes a window of `WR_WINDOW_SIZE` or is the last, links every other request to the next, posts `ceil(n / window)` chains in order and changes nothing else |
| EdgeReads.ModInBlock | src/edgemap.hpp:183 | division of `q * w + m` by w, for `m < w` |
| EdgeReads.CeilDiv | src/edgemap.hpp:183-184 | the number of windows `post_all` closes is the rounded-up quotient |
| EdgeReads.ChainEndCloses | src/edgemap.hpp:183-190 | the request closing request i's chain is less than a window further on and does close it |
| EdgeReads.ChainEnds | src/edgemap.hpp:183-192 | no request waits on more than a window: its chain is posted by a request less than `WR_WINDOW_SIZE` further on, and by no earlier one |
| EdgeReads.MatchesAppend | src/edgemap.hpp:239-247 | calls matching two interval lists concatenate |
| EdgeReads.LandedEnds | src/edgemap.hpp:241-242 | a landed interval's first and last entries name vertices, so both spin-waits end |
| EdgeReads.MatchesSnoc | src/edgemap.hpp:245-246 | the call for interval k extends the calls that match the first k intervals |
| EdgeReads.ConsumeBatch | src/edgemap.hpp:238-247 | the consume loop calls the function once per interval, in order, with its vertex, its adjacency slice and its degree |
| EdgeReads.RunBatch | src/edgemap.hpp:229-247 | one pass on a non-empty batch (sign, coalesce, build, post, land, hand out) calls the function with every interval's adjacency entries |
| EdgeReads.PiecesAppend | src/edgemap.hpp:225-248 | the edges of concatenated batches are the concatenated edges |
| EdgeReads.Handover | src/edgemap.hpp:225-248 | handing out one more batch keeps account of what is left |
| EdgeReads.EdgeMapRange | src/edgemap.hpp:214-249 | `edgemap` over a sub-range hands out, in order, exactly what the cursor owes from edge 0 of its first vertex, each call carrying its interval's adjacency entries |
| EdgeReads.StartUntested | src/edgemap.hpp:69-77 | the batches of a range cover exactly the edges of its active vertices if and only if the range is empty or its first vertex is active or edgeless |
| GraphKernel.EdgeBufSize | src/graph_kernel.hpp:42 | `edge_buf_size` is below 2^32, equals `edgewindow * max_out_degree` when that fits, and is 0 when either factor is 0 |
| GraphKernel.EdgelessBufferStalls | src/graph_kernel.hpp:39-42 | for a one-vertex edgeless graph the buffer has 0 entries and `pack_window` over `[0, 1)` returns 0 as the next start, so the batch loop never advances |
| GraphKernel.WideWindowWraps | src/graph_kernel.hpp:42 | an edge window of 2^16 with a largest degree of 2^16 gives a buffer of 0 entries |
| GraphKernel.BufferSize | src/graph_kernel.hpp:39-42 | the corrected size is positive, at least the largest degree and the edge window, and equals their product when both are positive |
| GraphKernel.KernelBufferSize | src/graph_kernel.hpp:42 | the corrected buffer size for a table is positive and holds every vertex's out-edges |
| GraphKernel.KernelBuffer | src/graph_kernel.hpp:39-47 | the kernels' edge buffer (corrected size, see Findings) is never empty, every vertex's out-edges fit in it, and its byte size fits 32 bits |
| GraphKernel.NeighboursAreVertices | src/graph_kernel.hpp:21-22 | entries of the adjacency array name vertices |
| GraphKernel.EdgeAt | src/graph_kernel.hpp:21-22 | the j-th neighbour of v is an edge out of v |
| GraphKernel.WalkEdge | src/graph_kernel.hpp:21-22 | every step of a walk is an edge |
| GraphKernel.WalkExtend | src/graph_kernel.hpp:21-22 | a walk extended by an out-edge of its last vertex is a walk |
| GraphKernel.WalkPrefix | src/graph_kernel.hpp:21-22 | a walk without its last vertex is a walk, ending with an edge |
| GraphKernel.ActiveTrace | src/bitmap.hpp:274-338 | a trace delivering the active vertices with edges, in order, is the frontier trace of the bitmap's active set |
| GraphKernel.ActivePass | src/bitmap.hpp:274-338 | one pass of `for_each_active_batch` over every vertex makes exactly the frontier trace of the active set |
| GraphKernel.TraceGap | src/bitmap.hpp:274-338 | a vertex strictly between two consecutive calls of an increasing trace is not called |
| GraphKernel.UptoInRange | src/bitmap.hpp:274-338 | the vertices passed after k calls are vertices |
| GraphKernel.GapEdgeless | src/bitmap.hpp:274-338 | every frontier vertex between two calls of a frontier trace has no edges |
| Bfs.UpdateAtomic | src/bfs.hpp:32-37 | the compare-and-swap succeeds exactly when the vertex holds `NULLVERT`, and only then stores the value |
| Bfs.ClaimTwice | src/bfs.hpp:32-37 | a claimed vertex keeps its value: a second claim fails and stores nothing |
| Bfs.AllUnreached | src/bfs.hpp:30 | a table of `NULLVERT` has every vertex unclaimed |
| Bfs.ClaimCounts | src/bfs.hpp:67 | a successful claim leaves one fewer unclaimed vertex |
| Bfs.LayerClaim | src/bfs.hpp:67-68 | a claim with round r adds the vertex to layer r and to no other layer |
| Bfs.WitnessClaim | src/bfs.hpp:63-68 | a claim from a neighbour of the previous round keeps every claim witnessed |
| Bfs.RelaxedClaim | src/bfs.hpp:67 | a vertex that has pushed to all its neighbours stays so when another vertex is claimed |
| Bfs.ClaimStep | src/bfs.hpp:66-68 | claiming w from v in round r keeps the search state, makes claims only with r, and lowers the unclaimed count by one |
| Bfs.ReachesGrow | src/bfs.hpp:65-70 | one more neighbour claimed with at most r extends the pushed prefix |
| Bfs.Claim | src/bfs.hpp:66-69 | `update_atomic(round)` on w and, on success, `set_bit(w)`: afterwards w is claimed with at most `round`, the next frontier is exactly layer `round`, and unclaimed plus frontier population is unchanged |
| Bfs.Push | src/bfs.hpp:63-71 | `bfs_push` for v claims every unclaimed neighbour with `round`, after which v has pushed to all its neighbours and the next frontier is exactly layer `round` |
| Bfs.LayerKept | src/bfs.hpp:67 | claims with r leave every other layer as it was |
| Bfs.SkipEdgeless | src/bfs.hpp:74-75 | a frontier vertex without edges, which `for_each_active_batch` never calls, has pushed to all its neighbours already |
| Bfs.ExpandStep | src/bfs.hpp:63-75 | the k-th call of a round's trace keeps the round state and the count |
| Bfs.Expand | src/bfs.hpp:73-75 | one round of pushes over the previous layer's trace leaves every vertex of that layer pushed and the next frontier equal to layer `round` |
| Bfs.NextRound | src/bfs.hpp:73 | before a round's pushes no vertex holds the new round number |
| Bfs.Started | src/bfs.hpp:60-62 | after claiming the start with 0 it alone is layer 0 and one vertex is claimed |
| Bfs.Finished | src/bfs.hpp:72 | with layer r empty, every claimed vertex holds less than r and has pushed to all its neighbours |
| Bfs.Round | src/bfs.hpp:72-78 | one iteration (pushes, `clear`, swap) keeps the search state with the frontiers swapped, and lowers unclaimed vertices plus one for a non-empty next frontier |
| Bfs.WalkBound | src/bfs.hpp:51-81 | in the final labelling every walk from the start ends at a claimed vertex whose value is at most the walk's length |
| Bfs.WalkTo | src/bfs.hpp:51-81 | every claimed vertex ends a walk from the start exactly as long as its value, so values are exact distances |
| Bfs.Setup | src/bfs.hpp:53-62 | with the frontiers zeroed as corrected (`Frontier.Bitmap.Zeroed`, see Findings), two cleared frontiers and a `NULLVERT` table, then the start set and claimed with 0, establish the search state |
| Bfs.Run | src/bfs.hpp:51-81 | with the corrected buffer and zeroed frontiers (see Findings), `bfs_kernel::operator()` terminates within `|V|` rounds with a breadth-first labelling: the start holds 0, every claimed vertex pushed to all its neighbours, every other claim witnessed one round closer, every value below the round count |
| ConnectedComponents.UpdateAtomic | src/connected_components.hpp:35-68 | the guarded compare-and-swap loop stores p exactly when p is below the current label, so the label becomes the smaller of the two |
| ConnectedComponents.ReachTrans | src/connected_components.hpp:93-110 | reachability along out-edges is transitive |
| ConnectedComponents.Shortcut | src/connected_components.hpp:53-63 | `vertex_map_shortcut` replaces v's label by its label's label, reports whether it changed, and keeps a labelling a labelling with v's label no larger |
| ConnectedComponents.LabelSum | src/connected_components.hpp:98 | the label sum is at least the last label |
| ConnectedComponents.SumUpdate | src/connected_components.hpp:98 | replacing one label changes the sum by the difference |
| ConnectedComponents.Lower | src/connected_components.hpp:97-100 | lowering w's label to that of an in-neighbour keeps the labelling, puts w in the next frontier, and drops the label sum by at least one |
| ConnectedComponents.Offer | src/connected_components.hpp:97-100 | one step of `CC_push`: w's label is at most v's afterwards, labels only drop, and the round state holds |
| ConnectedComponents.OfferedGrow | src/connected_components.hpp:96-101 | labels that only drop keep every offered neighbour offered |
| ConnectedComponents.PushedSettles | src/connected_components.hpp:93-102 | once every neighbour of v holds a label no larger than v's, v is settled |
| ConnectedComponents.Push | src/connected_components.hpp:93-102 | `CC_push` for v offers v's label to every neighbour, after which v is settled or back in the next frontier |
| ConnectedComponents.SkipEdgeless | src/connected_components.hpp:106-107 | frontier vertices without edges, which are never called, are settled |
| ConnectedComponents.SkipGap | src/connected_components.hpp:106-107 | between two calls of the trace the frontier vertices have no edges, so the sweep moves on |
| ConnectedComponents.ExpandStep | src/connected_components.hpp:93-107 | the k-th call of a round's trace keeps the round state |
| ConnectedComponents.Expand | src/connected_components.hpp:106-107 | after one round of pushes every vertex outside the next frontier is settled, within the same bound |
| ConnectedComponents.Round | src/connected_components.hpp:105-110 | one iteration (pushes, `clear`, swap) keeps the loop state and lowers the label sum plus one for a non-empty next frontier |
| ConnectedComponents.InitLabels | src/connected_components.hpp:87-91 | every vertex is labelled with its own id |
| ConnectedComponents.OwnLabels | src/connected_components.hpp:87-91 | labelling every vertex with its own id is a labelling |
| ConnectedComponents.AllInFrontier | src/connected_components.hpp:104 | with every vertex in the frontier nothing needs to be settled yet |
| ConnectedComponents.Setup | src/connected_components.hpp:80-104 | with the frontiers zeroed as corrected (see Findings), own labels, two cleared frontiers and `set_all()` establish the loop state |
| ConnectedComponents.Run | src/connected_components.hpp:78-111 | with the corrected buffer and zeroed frontiers (see Findings), the kernel terminates with every label at most its vertex's id and naming a vertex that reaches it, and no edge leading to a larger label |
| ConnectedComponents.AlongWalk | src/connected_components.hpp:78-111 | in the final labelling, labels never rise along a walk |
| ConnectedComponents.LeastSource | src/connected_components.hpp:78-111 | each vertex ends labelled with the least id from which it can be reached |
| ConnectedComponents.ReachBack | src/connected_components.hpp:78-111 | in a graph storing every edge both ways, walks can be reversed |
| ConnectedComponents.SameLabelIffConnected | src/connected_components.hpp:78-111 | on an undirected graph two vertices share a final label if and only if a walk joins them |
| ConnectedComponents.SharedGrow | src/connected_components.hpp:141-150 | one more label is counted non-trivial exactly when more than one vertex holds it |
| ConnectedComponents.Tally | src/connected_components.hpp:125-134 | `comp_counts` has a key for each label held and counts its holders |
| ConnectedComponents.Census | src/connected_components.hpp:135-154 | the second loop counts the labels, those held by more than one vertex, and finds the largest count |
| ConnectedComponents.CountComponents | src/connected_components.hpp:120-157 | `print_top_n` reports the number of distinct labels, how many are shared, that the rest are held by one vertex each, and the largest holder count |
| ConnectedComponents.SplitCensus | src/connected_components.hpp:139-152 | every label is held by one vertex or by more than one, so total is trivial plus non-trivial |
| KCore.Decrement32 | src/kcore.hpp:38 | the `uint32_t` decrement of `fetch_sub(1)` keeps a 32-bit value below 2^32 and a 32-bit increment restores it; from a positive value it goes down |
| KCore.SubtractDegree | src/kcore.hpp:38 | `fetch_sub(1)` returns the degree before and stores it decremented, wrapping from 0 to 2^32 - 1 |
| KCore.HitsNone | src/kcore.hpp:71-75 | no neighbour lies in the empty set |
| KCore.HitsAdd | src/kcore.hpp:71-75 | adding v to a set adds the neighbour entries equal to v |
| KCore.HitsDisjoint | src/kcore.hpp:71-75 | entries in two disjoint sets are counted apart, all of them when the sets cover every entry |
| KCore.HitsMissed | src/kcore.hpp:71-75 | adding a set no entry lies in changes nothing |
| KCore.Absorb | src/kcore.hpp:71-75 | on an undirected graph, peeling v takes from w's live edges exactly the edges between w and v |
| KCore.Reserve | src/kcore.hpp:71-75 | while v pushes, w keeps live its edges to v and its edges into any dense set avoiding v and the peeled vertices |
| KCore.EdgeBack | src/kcore.hpp:71-75 | on an undirected graph a neighbour has an edge of its own |
| KCore.PeelEdgeless | src/kcore.hpp:79-80 | peeling edgeless vertices leaves every vertex's live edges as they were |
| KCore.Room | src/kcore.hpp:72-73 | when v counts off an edge to w, w's degree is at least 1, and above k when w is in a dense set: the decrement never wraps and never drops a dense vertex below k |
| KCore.PrefixCount | src/kcore.hpp:71-75 | the entries before position i equal to s[i] are fewer than all of them |
| KCore.Decremented | src/kcore.hpp:72-74 | counting off an edge to w lowers w's degree by one and adds w to the next frontier exactly when its degree was k |
| KCore.Decrement | src/kcore.hpp:72-74 | one step of `kcore_push` keeps the round's balance of degrees, owed decrements and frontiers |
| KCore.Pushed | src/kcore.hpp:68-76 | once v has pushed along all its edges, v is peeled |
| KCore.Push | src/kcore.hpp:68-76 | `kcore_push` for frontier vertex v peels v and keeps the round state |
| KCore.SkipEdgeless | src/kcore.hpp:79-80 | frontier vertices without edges are peeled without a push |
| KCore.SkipGap | src/kcore.hpp:79-80 | between two calls of the trace the frontier vertices have no edges, so the sweep moves on |
| KCore.ExpandStep | src/kcore.hpp:68-80 | the j-th call of a round's trace keeps the round state |
| KCore.Expand | src/kcore.hpp:79-80 | after one round of pushes every frontier vertex is peeled |
| KCore.ActiveBelow | src/bitmap.hpp:75-79 | a frontier holds vertex ids only |
| KCore.Begin | src/kcore.hpp:78-80 | at the start of a round nothing is owed and the next frontier is empty |
| KCore.Finish | src/kcore.hpp:81-82 | at the end of a round the frontier is peeled and the next frontier holds exactly the vertices newly below k |
| KCore.Pass | src/kcore.hpp:79-80 | the pushes of one round peel the frontier, every degree counts the edges to vertices not peeled, and the next frontier holds the vertices whose degree dropped below k |
| KCore.Round | src/kcore.hpp:78-83 | one iteration keeps the loop state with the frontiers swapped and leaves fewer vertices unpeeled |
| KCore.Shrinks | src/kcore.hpp:78-83 | peeling a non-empty set of unpeeled vertices leaves fewer unpeeled |
| KCore.InitDegrees | src/kcore.hpp:60-66 | every degree is set to `get_num_edges(v)` and the frontier holds exactly the vertices of out-degree below k |
| KCore.LowsNext | src/kcore.hpp:64 | passing v adds it to the low vertices exactly when its out-degree is below k |
| KCore.InitVertex | src/kcore.hpp:62-64 | one iteration of the set-up loop sets v's degree and its frontier bit |
| KCore.Initial | src/kcore.hpp:60-66 | before any round the degrees count every edge and no dense set meets the first frontier |
| KCore.Setup | src/kcore.hpp:53-66 | with the frontiers zeroed as corrected (see Findings), two cleared frontiers, out-degrees and the first frontier establish the loop state |
| KCore.Finished | src/kcore.hpp:78 | when the frontier is empty, every degree counts exactly the edges into the vertices of degree at least k, and every dense set lies among them |
| KCore.Peel | src/kcore.hpp:78-83 | the round loop terminates with the peeled vertices exactly those of degree below k |
| KCore.Run | src/kcore.hpp:51-84 | with the corrected buffer and zeroed frontiers (see Findings), on an undirected graph the kernel ends with each degree equal to the vertex's edges into the k-core, the k-core dense, and every dense set inside it |
| KCore.CoreIsDense | src/kcore.hpp:92-93 | the vertices left with degree at least k each have at least k edges into that set |
| KCore.Membership | src/kcore.hpp:97-110 | `kth_core_membership` counts exactly the vertices whose degree is at least k |
| Mis.Scan | src/mis.hpp:74-91 | the verdict of `pull`'s scan over v's edges: an UNDECIDED verdict has a lower-id neighbour read UNDECIDED behind it (OUT and IN are characterised by `Mis.ScanMeaning`) |
| Mis.ScanMeaning | src/mis.hpp:74-91 | the scan of `pull` says OUT exactly when some lower-id neighbour is read IN, and IN exactly when every lower-id neighbour is read OUT |
| Mis.OutStays | src/mis.hpp:89 | once the scan of a prefix says OUT the whole scan says OUT (the `break`) |
| Mis.Pull | src/mis.hpp:67-102 | `pull(v)` stores the scan's verdict as v's flag, changes no other flag, and adds v to the next frontier exactly when the verdict is UNDECIDED |
| Mis.GreedyAt | src/mis.hpp:74-91 | once every vertex is decided, consistent flags are the greedy independent set in id order |
| Mis.MaximalIndependent | src/mis.hpp:48-140 | on an undirected graph, consistent decided flags form a maximal independent set: no two adjacent vertices both IN, every other vertex with an IN neighbour |
| Mis.Cardinality | src/mis.hpp:151-163 | `get_cardinality` counts exactly the vertices flagged IN |
| Mis.AllUndecided | src/mis.hpp:35-63 | a table of UNDECIDED flags counts every vertex as undecided |
| Mis.InitFlags | src/mis.hpp:104-114 | every vertex without edges is flagged IN and counted, every other stays UNDECIDED, and `undecided` minus the count is the number of UNDECIDED vertices |
| Mis.Pulled | src/mis.hpp:67-102 | pulling an UNDECIDED vertex keeps the flags consistent, whichever flags the parallel reads observe |
| Mis.PullPending | src/mis.hpp:69-72 | every call of a pass is on an UNDECIDED vertex not yet pulled, so the `assert(1 == 0)` branch is never reached |
| Mis.PullStep | src/mis.hpp:67-102 | after the j-th pull the pass has pulled every vertex up to it; a vertex whose lower-id neighbours were decided before the pass is decided |
| Mis.PassDone | src/mis.hpp:120-128 | after the last call the pass has pulled every vertex it selects |
| Mis.PullOne | src/mis.hpp:93-101 | the j-th call pulls its vertex and counts the verdict in `n_decided` or `next_frontier_size` |
| Mis.PullAll | src/mis.hpp:93-128 | one pass pulls every call, keeps the flags consistent, grows the next frontier by exactly the vertices left UNDECIDED, counts them, and decides a vertex when the first one's lower neighbours were decided |
| Mis.RawDelta | src/mis.hpp:62 | the written width `total_verts / divisor` is the largest d with `d * divisor <= total_verts` |
| Mis.Delta | src/mis.hpp:62 | the corrected width `max(1, total_verts / divisor)` is at least 1 and equals the written width whenever that is positive |
| Mis.NextEnd | src/mis.hpp:124 | the new window end never passes the vertex count or `end + delta - front_size`, never moves back, and moves forward while the frontier leaves room |
| Mis.NextEnd32 | src/mis.hpp:124 | the end as written in `uint32_t` is at most the vertex count |
| Mis.NextEndAgrees | src/mis.hpp:124 | while `end + delta` fits in 32 bits the written end is the intended one |
| Mis.EndWrapsBack | src/mis.hpp:124 | with 2^31 + 1 vertices and a divisor of 1 the written end falls back to 0, where the intended one stays at the last vertex |
| Mis.RawDeltaStalls | src/mis.hpp:62 | with fewer vertices than the divisor the written width is 0, and a round with an empty frontier leaves the window end where it is |
| Mis.Initially | src/mis.hpp:104-116 | before the first round the initial flags are consistent and in phase with an empty frontier and window |
| Mis.Progress | src/mis.hpp:117-124 | while a vertex is UNDECIDED, the window can still move or the frontier is not empty |
| Mis.FrontierPass | src/mis.hpp:118-122 | the frontier pass pulls exactly the frontier, all UNDECIDED, and its first vertex has every lower-id neighbour decided |
| Mis.FrontierDone | src/mis.hpp:118-134 | after the frontier pass its vertices that stayed UNDECIDED are the new frontier |
| Mis.RangePass | src/mis.hpp:125-129 | the range pass pulls every vertex with an edge in the newly opened range, all UNDECIDED |
| Mis.RangeDone | src/mis.hpp:125-130 | after the range pass the new frontier also holds the opened vertices that stayed UNDECIDED, all inside the opened range |
| Mis.SubsetSize | src/mis.hpp:123 | a subset is no larger than its superset |
| Mis.IntervalSize | src/mis.hpp:123 | a set of ids inside `[a, b)` has at most `b - a` members |
| Mis.PullFrontier | src/mis.hpp:118-122 | `if (front_size > 0)` pull the frontier: the vertices left UNDECIDED form the next frontier, a non-empty frontier decides a vertex, an empty one changes nothing |
| Mis.SweepFrontier | src/mis.hpp:119-121 | the frontier pass on a non-empty frontier decides at least one vertex and keeps the loop state |
| Mis.PullRange | src/mis.hpp:125-129 | `if (start < end)` pull the opened vertices: those left UNDECIDED join the next frontier, at most as many as were opened |
| Mis.Round | src/mis.hpp:117-139 | one iteration moves the end to `NextEnd`, keeps the frontier within `delta` (the `assert`), keeps `undecided` exact, decides a vertex when the frontier is non-empty, and changes nothing when the frontier is empty and the end stays |
| Mis.Decide | src/mis.hpp:117-139 | with a window of at least one vertex the loop terminates with every vertex IN or OUT, consistently with its lower-id neighbours |
| Mis.Run | src/mis.hpp:48-140 | with the corrected buffer, zeroed frontiers, window width and window end (see Findings), `mis_kernel::operator()` ends, under every interleaving of the parallel pulls, with every vertex decided and the IN vertices exactly the greedy independent set in id order |
| Stats.WrapAdd | src/stats.hpp:80-82 | adding into an `unsigned int` total wraps modulo 2^32 the same whether it wraps at every addition or once at the end |
| Stats.WrapStep | src/stats.hpp:79-86 | folding one more thread's tally into a wrapping total keeps it equal to the starting total plus the column sum so far, modulo 2^32 |
| Stats.TotalIdle | src/stats.hpp:83-85 | zeroed tallies add nothing to any column |
| Stats.RoundStats.constructor | src/stats.hpp:19-32 | a fresh record for `threads` workers: every per-thread counter and every run total is zero |
| Stats.RoundStats.ClearRound | src/stats.hpp:67-87 | `clear_stats_round` adds every thread's spin and function time to the `long` totals and every tally column to the wrapping 32-bit totals, zeroes all per-thread counters, and loses nothing: total plus pending counters is the same before and after |
| Stats.RoundStats.FoldTimes | src/stats.hpp:69-77 | each of the first two loops adds the sum of one time counter array to its total, zeroes the array and leaves the other total alone |
| Stats.RoundStats.FoldTallies | src/stats.hpp:79-86 | the third loop adds each column of the tallies to its total modulo 2^32 and resets every tally to zero |
| Stats.RoundStats.FoldTally | src/stats.hpp:80-85 | one iteration of the third loop extends the folded prefix by thread i's tally |
| Stats.ClearIdempotent | src/stats.hpp:67-87 | after a clear, a second clear adds nothing to any total |
| Stats.TimespecDiff | src/stats.hpp:100-108 | `timespec_diff` yields exactly the difference of the two instants in nanoseconds, normal (`0 <= nsec < 1e9`) when both inputs are, with no borrow when the nanoseconds do not go negative |
| Stats.NormalUnique | src/stats.hpp:100-108 | a normal reading is the only normal reading of its instant, so the difference of normal readings is canonical |
| Connection.BuildQpAttr | src/connection_utils.cpp:71-92 | a reliable-connected queue pair with 16000 send and 10 receive entries (within the device's 16351), one scatter-gather entry each way and no implicit signalling; it shares the context's completion queue exactly when it is qp0 |
| Connection.BuildParams | src/connection_utils.cpp:63-69 | initiator depth and responder resources 1, receiver-not-ready retry count 7 |
| Connection.EventName | src/connection_utils.cpp:95-148 | the fallback text is returned exactly for a value the switch does not list |
| Connection.ListedNames | src/connection_utils.cpp:97-146 | every listed event's name starts with `RDMA_CM_EVENT_` |
| Connection.FitAt | src/connection_utils.cpp:165-207 | each recorded answer is the event's answer with the latch and the context as they stood before it |
| Connection.FitStep | src/connection_utils.cpp:165-207 | answering the next event with the current latch and context extends the record |
| Connection.Runtime.constructor | src/connection_utils.cpp:18 | at program start there is no shared context and no connection |
| Connection.Runtime.BuildContext | src/connection_utils.cpp:41-61 | the first call creates the context for the device with zero connections; a later call for the same device changes nothing; one for another device fails |
| Connection.Runtime.EventLoop | src/connection_utils.cpp:151-208 | events are answered in order; hooks run only for the first event of their kind; every ESTABLISHED adds a connection; the context is built once, for the first building event's device. The loop stops when the channel is used up, at the first DISCONNECTED with `exit_on_disconnect`, or at an unhandled kind, a second device, or an ESTABLISHED with no context, after making the connect-hook call that event makes |
| Connection.Runtime.Step | src/connection_utils.cpp:165-207 | one turn of the loop answers the next event or stops, keeping the loop's invariant |
| Connection.Runtime.AnswerAddrResolved | src/connection_utils.cpp:171-178 | ADDR_RESOLVED builds the context if needed and the queue pair (qp0 for the first one), runs the pre-connect hook for the first one only, and resolves the route |
| Connection.Runtime.AnswerRoute | src/connection_utils.cpp:179-181 | ROUTE_RESOLVED connects with the `build_params` parameters |
| Connection.Runtime.AnswerConnectRequest | src/connection_utils.cpp:182-188 | CONNECT_REQUEST builds as ADDR_RESOLVED does, with its own latch, and accepts |
| Connection.Runtime.AnswerEstablished | src/connection_utils.cpp:189-193 | ESTABLISHED runs the connect hook for the first one only and adds one connection; with no context the hook still runs, and the loop stops before the counter's null update |
| Connection.Runtime.AnswerDisconnected | src/connection_utils.cpp:194-202 | DISCONNECTED destroys the queue pair and the id, runs the disconnect hook for the first one only, and ends the loop with `exit_on_disconnect` |
| Connection.ContextStep | src/connection_utils.cpp:41-61 | a building event creates the context or finds it on the same device; ESTABLISHED needs the context and adds a connection; other events leave it alone |
| Connection.FirstBy | src/connection_utils.cpp:159-163 | the latch of the event's kind is clear exactly when it is the first event of that kind |
| Connection.HooksOnce | src/connection_utils.cpp:171-202 | a later event of the same kind never calls the pre-connect, connect or disconnect hook |
| CsrConvert.BelowAt | util/main.cpp:85-91 | in a list sorted by source, the edges below row r are exactly the first k when edge k-1 is below r and edge k is not |
| CsrConvert.BelowNext | util/main.cpp:85-91 | the slices of consecutive vertices are adjacent: row v+1 starts v's out-degree after row v |
| CsrConvert.BelowAll | util/main.cpp:97-99 | past the largest source every edge is below, so the trailing rows hold the edge count |
| CsrConvert.FillRows | util/main.cpp:85-99 | the row loops set each filled row to the number of edges whose source is below it |
| CsrConvert.EdgeListToCsr | util/main.cpp:73-101 | for a list sorted by source, `idx[v]` is the number of edges with a source below v, whatever the index's initial fill; `dest` and the weights list the targets and weights in input order |
| CsrConvert.UnweightedToCsr | util/main.cpp:142-170 | the unweighted converter yields the same index and destinations; its `|E| - 1` initial fill never shows |
| CsrConvert.CsrRoundTrip | util/main.cpp:73-101 | read back by the runtime with the edge count as total, the produced index passes the runtime's checks, and `get_num_edges(v)` is v's number of input edges, when every out-degree fits 32 bits |
| CsrConvert.ReadEdges | util/main.cpp:178-184 | the reading loop lists each edge, followed by its reverse with `make-undirected`; `max_vert` is the largest endpoint read, or 0 for an empty file |
| CsrConvert.ListedEndpoints | util/main.cpp:178-184 | every listed edge, forward or reversed, has both endpoints at most `max_vert` |
| CsrConvert.SortedListReady | util/main.cpp:189-195 | any reordering of the listed edges (the sort) meets the converter's requirement that every source is at most `max_vert` |
| CsrConvert.UndirectedSymmetric | util/main.cpp:180-182 | with `make-undirected` every edge occurs exactly as often as its reverse |
| CsrConvert.DirectedAsRead | util/main.cpp:178-179 | without `make-undirected` the list is the input as read |
| CsrConvert.UndirectedLength | util/main.cpp:179-182 | with `make-undirected` the list is twice as long as the input |
| GrFormat.LittleEndian | util/fg2gr.cpp:25-33 | the value `read_one` reinterprets from w bytes is below 256^w; `GrFormat.EncodeDecode` writes it back to the same bytes |
| GrFormat.Encode | util/fg2gr.cpp:35-38 | `write_one` stores exactly w bytes; `GrFormat.DecodeEncode` reads them back as the value |
| GrFormat.DecodeEncode | util/fg2gr.cpp:25-38 | writing a value that fits in w bytes and reading it back yields the value |
| GrFormat.EncodeDecode | util/fg2gr.cpp:25-38 | reading w bytes and writing the value back reproduces the bytes |
| GrFormat.ReadOne | util/fg2gr.cpp:25-33 | `read_one` succeeds exactly when `width` bytes are left; it yields their little-endian value (below 256^width) and moves past them, otherwise it reports "can't read index data" |
| GrFormat.NumElements | util/fg2gr.cpp:18-23 | the number of whole elements the file holds: they fit, and one more would not |
| GrFormat.WriteHeader | util/fg2gr.cpp:71-80 | the header is 32 bytes, four 8-byte words; what they read back as is stated by `LayoutHeader` |
| GrFormat.WriteAs | util/fg2gr.cpp:41-62 | `write_as` copies exactly the next n values' bytes when they are there; otherwise it stops with the error after a strict prefix of them |
| GrFormat.Convert | util/fg2gr.cpp:99-137 | a missing input fails with nothing written; an index too short for one entry fails after the header; otherwise the output is the header, index entries 1 .. n-1, the edge count, the edges and the padding |
| GrFormat.WriteBody | util/fg2gr.cpp:130-136 | after the first entry is skipped, the body is the remaining index entries, then the edge count, the edges and the padding |
| GrFormat.LayoutAligned | util/fg2gr.cpp:127-136 | the output is header plus one word per vertex plus the padded edges, a whole number of 8-byte words |
| GrFormat.Entries | util/fg2gr.cpp:130-131 | the index is read as its whole 8-byte entries, in order |
| GrFormat.IndexTable | util/fg2gr.cpp:118-119 | the index and the edge file read as the runtime's table |
| GrFormat.LayoutHeader | util/fg2gr.cpp:71-80 | the header reads back as version 1, no edge data, the vertex count and the edge count |
| GrFormat.LayoutEnds | util/fg2gr.cpp:130-132 | word 4 + k of the output is where vertex k's edges end in the table: the next index entry, or the edge count for the last vertex |
| GrFormat.OffsetWord | util/fg2gr.cpp:130-132 | word 4 + k is index entry k + 1, or the edge count after the last entry |
| GrFormat.LayoutEdges | util/fg2gr.cpp:135 | after the end offsets, `uint32_t` number j is edge j of the `.adj` file |
| GrFormat.TrailerEdge | util/fg2gr.cpp:132-135 | within the trailer, edge j follows the 8-byte edge count |
| GrFormat.DotAt | util/fg2gr.cpp:104-109 | the extension starts at a '.' with no '/' after it and no later '.', so at the last '.' of the last path component; there is none (-1) exactly when every '.' has a '/' after it |
| GrFormat.DotAtAppend | util/fg2gr.cpp:104-109 | appending an extension makes it the path's extension |
| GrFormat.ReplaceExtension | util/fg2gr.cpp:106-108 | `replace_extension` drops the old extension, if any, and appends the new one |
| GrFormat.OutPath | util/fg2gr.cpp:104-109 | the output path ends in `.sgr` for a symmetric graph and `.gr` otherwise |
| GrFormat.OutPathIdempotent | util/fg2gr.cpp:104-109 | naming the output of an output path again changes nothing |
| MaxDegree.Gap | util/memusage.cpp:40 | `off - prev_off` in `uint64_t`: below 2^64 and the true difference when the offsets do not decrease |
| MaxDegree.MaxGapIsMaximum | util/memusage.cpp:32-47 | the fold bounds every gap between consecutive entries and equals one of them (0 for no entries) |
| MaxDegree.FoldStep | util/memusage.cpp:40-41 | one more entry extends the fold by its gap |
| MaxDegree.FoldEntry | util/memusage.cpp:35-42 | one iteration reads entry i and extends the fold to the first i + 1 entries |
| MaxDegree.NextEntry | util/memusage.cpp:35-39 | the read at entry i yields index entry i and moves past it |
| MaxDegree.MaxDegreeOf | util/memusage.cpp:24-48 | `max_degree` returns the fold of the gaps over all whole entries |
| MaxDegree.ReportingMaxDegree | util/maxd.cpp:18-43 | the same fold with a progress line; for an index of 1 to 99 entries the divisor `num_vertices / 100` is 0 and the first iteration divides by zero, otherwise it returns the fold |
| MaxDegree.MaxGapBoundsDegrees | util/memusage.cpp:24-48 | on a valid table whose first entry is 0, the fold bounds the out-degree of every vertex but the last and equals one of them; with one vertex it is 0 |
| MaxDegree.LastVertexIgnored | util/memusage.cpp:34-45 | the last vertex's degree never counts: one vertex with 5 edges gives 0 |
| MaxDegree.TotalMemory | util/memusage.cpp:83 | the estimate is computed in `uint64_t` and so is always below 2^64 |
| MaxDegree.DefaultEstimate | util/memusage.cpp:57-83 | with the default options the estimate is 12 bytes per vertex plus 160 per unit of the largest degree |
| MaxDegree.MemoryCoversBuffers | util/memusage.cpp:83 | without overflow the estimate is the index table, the vertex data, and one kernel edge buffer per thread of `edgewindow * max` entries of 4 bytes |
| MaxDegree.MemoryMonotone | util/memusage.cpp:83 | more threads or a larger degree never lower the estimate while it does not overflow |

## Left out

- RDMA verbs and connection-manager calls: they are foreign library calls. Reads are modelled as work-request records delivered at once as copies out of the adjacency array; connection-manager calls become recorded `Action`s that are assumed to succeed.
- The sentinel spin-waits, memory fences and `clock_gettime` timing in the batch loops (src/bitmap.hpp:319-329, src/edgemap.hpp:241-244): these are memory-ordering and timing concerns. A read's data is present once it is posted, so each spin-wait ends at once.
- TBB parallelism: one worker runs the batch loops and the kernels. `combinable` counters become a sequence indexed by thread id, and the compare-and-swap retry loops become single updates. The MIS pulls of one pass are the exception: which flag each pull observes is a parameter (`sees`), so the proofs cover every interleaving of reads.
- `poll_cq`, `rc_init`, `rc_client_loop`, `rc_server_loop`, `rc_disconnect`, `rc_die` and the accessors `rc_get_pd` and `rc_get_num_connections` (src/connection_utils.cpp:211-303): these are a completion-queue poller thread and network setup around `event_loop`. Address resolution, listening and thread creation are foreign calls.
- `src/client_runtime.cpp` and `src/server_runtime.cpp` (messaging, threads, NUMA binding, mmap copies) and `include/messages.hpp` (a wire layout) are not part of this model.
- `src/pagerank_delta.hpp`, the floating-point and gigabyte printing in `src/stats.hpp` and `util/memusage.cpp:85`, and the weights of `edge_list_to_w_csr` as floats: these are floating point. Weights are carried as an arbitrary value type `W`.
- Memory registration, mmap and huge pages in `src/mmap_util.hpp`, `get_vertex_table` and `src/graph_kernel.hpp`: these are I/O. Only the buffer-sizing rule of `src/graph_kernel.hpp:42` is modelled.
- Reading and writing files, the `oneapi::dpl::sort` call and the progress output in `util/main.cpp`, `util/fg2gr.cpp`, `util/maxd.cpp` and `util/memusage.cpp`: these are I/O and library calls. Files are byte sequences, and the sort is represented by its result: any permutation that is sorted by source.
- Command-line parsing in every program: option values are parameters.
- Stats.RoundStats.ClearRound: the `long` time totals are unbounded integers; their 64-bit overflow is not modelled.
- Stats.TimespecDiff: the `time_t`/`long` fields are unbounded integers; overflow is not modelled.
- CsrConvert.EdgeListToCsr: requires `max_vert + 1 < 2^32`. At `max_vert = 2^32 - 1`, which a single edge naming vertex 4294967295 gives, the `uint32_t` sum `max_vert + 1` at util/main.cpp:74 and :143 is 0: `idx` is empty, the store `idx[0] = 0` (:80, :150) is out of bounds, and the `uint32_t` row counter would wrap so that the row loop never ends. That input is not modelled.
- CsrConvert.EdgeListToCsr: requires the list sorted by source, the order the converter's loop depends on. The caller sorts unless given the `sorted` option, and `CsrConvert.SortedListReady` shows that any reordering of the listed edges meets the other requirement.
- KCore.Run: requires every edge to be stored in both directions. On a directed graph a vertex can receive more decrements than its out-degree, and its 32-bit degree wraps below 0.
- Mis.Pull: requires the pulled vertex not to be OUT, an assertion in the source.
- Mis.Run: requires `divisor > 0`, since the source divides by it.
- Batches.ForEachBatch: requires every selected vertex to fit the edge buffer on its own. Otherwise `pack_window` returns the range start and the loop never advances; the kernels meet this through `GraphKernel.KernelBuffer`.
- Window.PackWindow: requires the edge buffer's size in bytes to fit 32 bits (`Window.Addressable`), so that no `uint32_t` `sge.length` wraps. The source does not check this. With a buffer of 2^30 entries or more, a coalesced read's length at src/bitmap.hpp:167-168 could wrap, and that case is not modelled.
- Window.PackStep: tests the fit exactly. The source's 32-bit sum `total_edges + n_out_edge` at src/bitmap.hpp:157 agrees with the exact test whenever the vertex fits the buffer (`Window.FitTestExact`), as the batch drivers require. A vertex of more than 2^32 - `edge_buf_size` edges would make the sum wrap, and that case is not modelled.
- Batches.ForEachBatch: requires the edge buffer's size in bytes to fit 32 bits, as `Window.PackWindow` does.
- Batches.ForEachBatch: returns the reads, vertices and windows of this pass as unbounded integers. The source adds them into per-thread `unsigned` tallies (src/bitmap.hpp:186-188, 195-197), whose 32-bit wrap is not modelled.
- Batches.ForEachActiveBatch: requires the edge buffer's size in bytes to fit 32 bits, as `Window.PackWindow` does.
- Batches.ForEachRange: requires the edge buffer's size in bytes to fit 32 bits, as `Window.PackWindow` does.
- EdgeReads.MakeWRs: requires the batch's size in bytes to fit 32 bits, so that `edges * 4` at src/edgemap.hpp:169 does not wrap. The source does not check this.
- EdgeReads.RunBatch: requires the edge buffer's size in bytes to fit 32 bits, as `EdgeReads.MakeWRs` needs.
- EdgeReads.EdgeMapRange: requires the edge buffer's size in bytes to fit 32 bits, as `EdgeReads.MakeWRs` needs.
- EdgeReads.EdgeMapRange: requires a non-empty buffer. With `edge_buf_size` 0, `next_batch` hands out nothing and leaves its cursor where it was (`EdgeMap.NextBatch.Next`), so `edgemap` would spin forever at src/edgemap.hpp:229. Nothing in the source calls `edgemap`, and the kernels' buffer is never empty.
- EdgeReads.Coalesce: interval ends are unbounded integers. In the source the coalesced `end` (src/edgemap.hpp:120) is 32 bits and may wrap; every use takes `end - start` in 32 bits, which still gives the width (`EdgeReads.WrappedEndKeepsWidth`).
- GraphKernel.KernelBuffer: requires the corrected buffer's size in bytes to fit 32 bits, that is `edgewindow * max_out_degree` below 2^30. The source does not check this.
- Bfs.Run: requires the kernel buffer's size in bytes to fit 32 bits, as `GraphKernel.KernelBuffer` does.
- ConnectedComponents.Run: requires the kernel buffer's size in bytes to fit 32 bits, as `GraphKernel.KernelBuffer` does.
- KCore.Run: requires the kernel buffer's size in bytes to fit 32 bits, as `GraphKernel.KernelBuffer` does.
- Mis.Run: requires the kernel buffer's size in bytes to fit 32 bits, as `GraphKernel.KernelBuffer` does.
- Frontier.Bitmap.NumSet: sums the counters as unbounded integers. The source combines them with `std::plus<uint32_t>`, which agrees while the population is below 2^32, as it is whenever the counters agree with the bits of fewer than 2^32 vertices.
- EdgeReads.EdgeMapRange: hands out the edges of each sub-range's first vertex even when its bit is clear, as `next_batch` does (src/edgemap.hpp:69, 77; `EdgeReads.StartUntested`). No corrected cursor is modelled, because nothing in the source calls `edgemap`.
- ConnectedComponents.CountComponents: requires at least one vertex, because `print_top_n` reads the largest entry of its list. The printing of the top-n components is output.
- EdgeReads.Len: an interval with `end < start` has length 0 here, where the source's `size_t` subtraction would wrap. No interval `next_batch` produces is like that.
- GrFormat.ReplaceExtension: models `replace_extension` on plain strings; the special cases of `.` and `..` file names are not modelled.
- GrFormat.Convert: a short read inside `write_as` cannot occur, because the counts come from the file sizes; `GrFormat.WriteAs` still models the error path.
- MaxDegree.MaxDegreeOf: the short read at util/memusage.cpp:37-39 cannot occur for the same reason, and is not modelled as a separate outcome.

## Findings

| source | as written | input that shows it | evidently intended | confidence | as-written member | corrected member |
|---|---|---|---|---|---|---|
| src/graph_kernel.hpp:42 | `edge_buf_size = edgewindow * max_out_degree`, a `uint32_t` product that can be 0 | a graph with one vertex and no edges (or `edgewindow` 0): the buffer has 0 entries, `pack_window` over `[0, 1)` returns 0 as the next start, and `for_each_active_batch` never advances | a buffer of at least one entry that holds every vertex's list | not executed | GraphKernel.EdgelessBufferStalls | GraphKernel.KernelBuffer |
| src/bitmap.hpp:52-55 | the constructor allocates the words with `new unsigned long[n]`, which leaves them uninitialised | a first word that the allocator left holding 1: `get_bit(0)` is true while `is_empty()` is also true, so BFS from vertex 0 finds its start already set, counts nothing and stops at once | words value-initialised to 0 | not executed | Frontier.StaleWordBreaksCount | Frontier.Bitmap.Zeroed |
| src/mis.hpp:62 | `delta = total_verts / divisor`, 0 when `divisor > total_verts` | 5 vertices with edges and divisor 10: `delta` is 0, so once the frontier is empty `end` never moves and the loop spins while vertices are undecided | a window that opens at least one vertex per round | not executed | Mis.RawDeltaStalls | Mis.Delta |
| src/mis.hpp:124 | `end + delta - front_size` computed in `uint32_t` | 2^31 + 1 vertices, divisor 1, `end` at `total_verts` (the window fully open) and 2 vertices in the frontier: the sum is 2^32, which wraps to 0, so `end` drops back to 0 | `end = min(total_verts, end + delta - front_size)` without wrap | not executed | Mis.EndWrapsBack | Mis.NextEnd |
| util/maxd.cpp:38 | the progress line computes `i % (num_vertices / 100)` | an index file of 50 entries: `num_vertices / 100` is 0 and the first iteration divides by zero | progress printed only when the divisor is nonzero; the fold itself, as in `util/memusage.cpp` | not executed | MaxDegree.ReportingMaxDegree | MaxDegree.MaxDegreeOf |
| util/memusage.cpp:34-45 | `max_degree` folds the gaps between consecutive index entries, so the last vertex's degree, which ends at the edge count, is never counted (util/maxd.cpp:18-43 likewise) | an index file with one vertex of 5 edges: the fold gives 0, so "Max outdegree" and the memory estimate under-report | the largest degree over every vertex, as `get_max_out_degree` computes it | not executed | MaxDegree.LastVertexIgnored | Csr.MaxOutDegree |
