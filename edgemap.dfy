/**
 * The `edgemap` driver of `src/edgemap.hpp`: `next_batch` cuts the active
 * vertices' adjacency lists into intervals that fill the edge buffer, a
 * vertex's list possibly spanning several batches; the intervals of a batch
 * are signed, coalesced into reads, turned into work requests, posted in
 * signalled windows and then handed to the function one interval at a time.
 */
module EdgeMap {
  import opened Csr
  import opened Frontier
  import opened Window
  import opened Batches

  /** `v_interval`: edges `[start, end)` of vertex v, whose degree is d. */
  datatype Interval = Interval(v: nat, d: nat, start: nat, end: nat)

  /** Edge k (counting from 0 within v's adjacency list) of vertex v. */
  datatype Slot = Slot(v: nat, k: nat)

  function Min(a: nat, b: nat): nat { if a <= b then a else b }

  /** Edges `a .. b-1` of vertex v. */
  function Own(v: nat, a: nat, b: nat): (r: seq<Slot>)
    ensures a <= b ==> |r| == b - a
    decreases b - a
  {
    if b <= a then [] else Own(v, a, b - 1) + [Slot(v, b - 1)]
  }

  lemma OwnSame(v: nat, a: nat, b: nat, c: nat)
    requires b == c
    ensures Own(v, a, b) == Own(v, a, c)
  {
  }

  lemma {:induction false} OwnSplit(v: nat, a: nat, m: nat, b: nat)
    requires a <= m <= b
    ensures Own(v, a, b) == Own(v, a, m) + Own(v, m, b)
    decreases b - m
  {
    if m < b {
      OwnSplit(v, a, m, b - 1);
    }
  }

  // ---------------------------------------------------------------------
  // What the batches must cover
  // ---------------------------------------------------------------------

  /** Every edge of every selected vertex of `[lo, hi)`, vertex by vertex. */
  function PackedSlots(t: Table, sel: Selection, lo: nat, hi: nat): seq<Slot>
    requires Valid(t) && lo <= hi <= |t.offsets|
    decreases hi - lo
  {
    if hi == lo then []
    else if Chosen(sel, hi - 1) then PackedSlots(t, sel, lo, hi - 1) + Own(hi - 1, 0, NumEdges(t, hi - 1))
    else PackedSlots(t, sel, lo, hi - 1)
  }

  lemma {:induction false} PackedSlotsSplit(t: Table, sel: Selection, lo: nat, mid: nat, hi: nat)
    requires Valid(t) && lo <= mid <= hi <= |t.offsets|
    ensures PackedSlots(t, sel, lo, hi) == PackedSlots(t, sel, lo, mid) + PackedSlots(t, sel, mid, hi)
    decreases hi - mid
  {
    if mid < hi {
      PackedSlotsSplit(t, sel, lo, mid, hi - 1);
    }
  }

  /**
   * What a cursor at edge e of vertex v still has to hand out in a range
   * ending at `end`: the rest of v's edges, then every edge of each later
   * active vertex.
   */
  function Remaining(t: Table, bits: seq<bool>, v: nat, e: nat, end: nat): seq<Slot>
    requires Valid(t) && end <= |t.offsets|
    requires v < end ==> e <= NumEdges(t, v)
  {
    if end <= v then []
    else Own(v, e, NumEdges(t, v)) + PackedSlots(t, ActiveOnly(bits), v + 1, end)
  }

  /**
   * What `next_set` returns from `[a, e)`: the smallest active index, or `e`
   * when there is none.
   */
  function FirstActive(bits: seq<bool>, a: nat, e: nat): (r: nat)
    ensures r == e || (a <= r < e && Chosen(ActiveOnly(bits), r))
    ensures a <= e ==> a <= r <= e
    ensures forall u :: a <= u < r ==> !Chosen(ActiveOnly(bits), u)
    decreases e - a
  {
    if e <= a then e
    else if Chosen(ActiveOnly(bits), a) then a
    else FirstActive(bits, a + 1, e)
  }

  /**
   * Jumping to the next active vertex loses nothing: what is left from
   * there is every edge of the active vertices of `[a, end)`.
   */
  lemma {:induction false} Advance(t: Table, bits: seq<bool>, a: nat, end: nat)
    requires Valid(t) && a <= end <= |t.offsets|
    ensures Remaining(t, bits, FirstActive(bits, a, end), 0, end) == PackedSlots(t, ActiveOnly(bits), a, end)
    decreases end - a
  {
    if a < end {
      var sel := ActiveOnly(bits);
      PackedSlotsSplit(t, sel, a, a + 1, end);
      assert PackedSlots(t, sel, a, a) == [];
      if !Chosen(sel, a) {
        Advance(t, bits, a + 1, end);
      }
    }
  }

  // ---------------------------------------------------------------------
  // Intervals
  // ---------------------------------------------------------------------

  /** The edges a list of intervals covers, interval after interval. */
  function Pieces(vec: seq<Interval>): seq<Slot>
  {
    if vec == [] then [] else Pieces(vec[..|vec| - 1]) + Own(vec[|vec| - 1].v, vec[|vec| - 1].start, vec[|vec| - 1].end)
  }

  lemma PiecesSnoc(vec: seq<Interval>, iv: Interval)
    ensures Pieces(vec + [iv]) == Pieces(vec) + Own(iv.v, iv.start, iv.end)
  {
    assert (vec + [iv])[..|vec|] == vec;
  }

  /**
   * The shape of one `next_batch` result: each interval a nonempty piece
   * of a real vertex's list with its true degree; every interval but the
   * first starts at edge 0, every interval but the last runs to the end of
   * its list, and the vertices strictly increase.
   */
  predicate Shaped(t: Table, vec: seq<Interval>)
    requires Valid(t)
  {
    if vec == [] then true
    else
      && Shaped(t, vec[..|vec| - 1])
      && Piece(t, vec[|vec| - 1])
      && (|vec| > 1 ==> Follows(vec[|vec| - 2], vec[|vec| - 1]))
  }

  /** A nonempty piece of a real vertex's list, with its true degree. */
  predicate Piece(t: Table, iv: Interval)
    requires Valid(t)
  {
    iv.v < |t.offsets| && iv.d == NumEdges(t, iv.v) && iv.start < iv.end <= iv.d
  }

  /** b comes right after a in a batch: a runs to the end of its list, b starts a later one. */
  predicate Follows(a: Interval, b: Interval)
  {
    a.end == a.d && a.v < b.v && b.start == 0
  }

  /** One more interval that starts where a full one ended keeps a batch well shaped. */
  lemma ShapedSnoc(t: Table, vec: seq<Interval>, iv: Interval)
    requires Valid(t) && Shaped(t, vec)
    requires Piece(t, iv)
    requires vec != [] ==> Follows(vec[|vec| - 1], iv)
    ensures Shaped(t, vec + [iv])
  {
    assert (vec + [iv])[..|vec|] == vec;
  }

  lemma Assoc(a: seq<Slot>, b: seq<Slot>, c: seq<Slot>)
    ensures a + b + c == a + (b + c)
  {
  }

  /**
   * What holds between two passes of `next_batch`'s loop, which started out
   * owing `left`: the intervals cut so far are well shaped, hold `edges`
   * edges, and together with what the cursor at edge e of vertex v still
   * owes make up `left`.
   */
  ghost predicate Progress(t: Table, bits: seq<bool>, left: seq<Slot>, end: nat, capacity: nat,
                           vec: seq<Interval>, v: nat, e: nat, edges: nat)
  {
    && Valid(t) && end <= |t.offsets|
    && Shaped(t, vec)
    && (v < end ==> e == 0 || e < NumEdges(t, v))
    && edges == |Pieces(vec)| <= capacity
    && Pieces(vec) + Remaining(t, bits, v, e, end) == left
    && (vec != [] && edges < capacity ==>
          e == 0 && vec[|vec| - 1].v < v && vec[|vec| - 1].end == vec[|vec| - 1].d)
  }

  /**
   * A vertex without edges: moving the cursor to the next active vertex
   * hands out nothing and loses nothing.
   */
  lemma ZeroStep(t: Table, bits: seq<bool>, left: seq<Slot>, end: nat, capacity: nat,
                 vec: seq<Interval>, v: nat, e: nat, edges: nat)
    requires Progress(t, bits, left, end, capacity, vec, v, e, edges)
    requires v < end && edges < capacity && NumEdges(t, v) == 0
    ensures Progress(t, bits, left, end, capacity, vec, FirstActive(bits, v + 1, end), 0, edges)
  {
    Advance(t, bits, v + 1, end);
  }

  /**
   * A full take: the rest of v's edges, from e on, go into one interval,
   * and the cursor moves to the next active vertex.
   */
  lemma FullStep(t: Table, bits: seq<bool>, left: seq<Slot>, end: nat, capacity: nat,
                 vec: seq<Interval>, v: nat, e: nat, edges: nat, take: nat,
                 vec': seq<Interval>, v': nat, edges': nat)
    requires Progress(t, bits, left, end, capacity, vec, v, e, edges)
    requires v < end && 0 < take == NumEdges(t, v) - e && edges + take <= capacity
    requires vec' == vec + [Interval(v, NumEdges(t, v), e, e + take)]
    requires v' == FirstActive(bits, v + 1, end) && edges' == edges + take
    ensures Progress(t, bits, left, end, capacity, vec', v', 0, edges')
  {
    var iv := Interval(v, NumEdges(t, v), e, e + take);
    Advance(t, bits, v + 1, end);
    PiecesSnoc(vec, iv);
    ShapedSnoc(t, vec, iv);
    OwnSame(v, e, e + take, NumEdges(t, v));
    Assoc(Pieces(vec), Own(v, e, NumEdges(t, v)), PackedSlots(t, ActiveOnly(bits), v + 1, end));
  }

  /**
   * A partial take: the buffer fills up inside v's list, the interval of
   * its edges from e on takes what fits, and the cursor stays on v.
   */
  lemma PartialStep(t: Table, bits: seq<bool>, left: seq<Slot>, end: nat, capacity: nat,
                    vec: seq<Interval>, v: nat, e: nat, edges: nat, take: nat)
    requires Progress(t, bits, left, end, capacity, vec, v, e, edges)
    requires v < end && 0 < take < NumEdges(t, v) - e && edges + take == capacity
    ensures Progress(t, bits, left, end, capacity, vec + [Interval(v, NumEdges(t, v), e, e + take)],
                     v, e + take, edges + take)
  {
    var iv := Interval(v, NumEdges(t, v), e, e + take);
    OwnSplit(v, e, e + take, NumEdges(t, v));
    PiecesSnoc(vec, iv);
    ShapedSnoc(t, vec, iv);
    var rest := PackedSlots(t, ActiveOnly(bits), v + 1, end);
    Assoc(Pieces(vec), Own(v, e, e + take), Own(v, e + take, NumEdges(t, v)) + rest);
    Assoc(Own(v, e, e + take), Own(v, e + take, NumEdges(t, v)), rest);
  }

  // ---------------------------------------------------------------------
  // next_set and next_batch
  // ---------------------------------------------------------------------

  /** `next_set`: a cursor over the set bits of `[fromInclusive, endExclusive)`. */
  class NextSet {
    const b: Bitmap
    var fromInclusive: nat
    const endExclusive: nat

    constructor (t_b: Bitmap, t_start: nat, t_end: nat)
      ensures b == t_b && fromInclusive == t_start && endExclusive == t_end
    {
      b := t_b;
      fromInclusive := t_start;
      endExclusive := t_end;
    }

    /**
     * Returns the smallest set index at or after the cursor and moves the
     * cursor past it; returns `endExclusive`, with the cursor there, when
     * none is left.
     */
    method Next() returns (r: nat)
      requires b.Sized() && endExclusive <= b.size
      modifies this
      ensures r == FirstActive(b.Bits(), old(fromInclusive), endExclusive)
      ensures r < endExclusive ==> fromInclusive == r + 1
      ensures r == endExclusive && old(fromInclusive) <= endExclusive ==> fromInclusive == endExclusive
    {
      ghost var bits := b.Bits();
      while fromInclusive < endExclusive
        invariant old(fromInclusive) <= endExclusive ==> fromInclusive <= endExclusive
        invariant FirstActive(bits, old(fromInclusive), endExclusive) == FirstActive(bits, fromInclusive, endExclusive)
        decreases endExclusive - fromInclusive
      {
        var prev := fromInclusive;
        fromInclusive := fromInclusive + 1;
        if b.Get(prev) {
          return prev;
        }
      }
      return endExclusive;
    }
  }

  /**
   * `next_batch`: a cursor at edge `curE` of vertex `curV` that cuts the
   * edges of the active vertices of the range into batches of at most
   * `capacity` edges.
   */
  class NextBatch {
    const b: Bitmap
    var curV: nat
    var curE: nat
    const end: nat
    const capacity: nat

    /** Starts at edge 0 of `t_start`, which is taken whether or not its bit is set. */
    constructor (t_b: Bitmap, t_start: nat, t_end: nat, t_capacity: nat)
      ensures b == t_b && curV == t_start && curE == 0 && end == t_end && capacity == t_capacity
    {
      b := t_b;
      curV := t_start;
      curE := 0;
      end := t_end;
      capacity := t_capacity;
    }

    /** `is_done()`. */
    predicate IsDone()
      reads this
    {
      curV >= end
    }

    /** The cursor is inside the range and inside its vertex's list. */
    ghost predicate Cursor(t: Table)
      reads this
    {
      && Valid(t) && end <= |t.offsets| && b.Sized() && end <= b.size
      && (curV < end ==> curE == 0 || curE < NumEdges(t, curV))
    }

    /** What the cursor still has to hand out. */
    ghost function Left(t: Table): seq<Slot>
      reads this, b.data
      requires Cursor(t)
    {
      Remaining(t, b.Bits(), curV, curE, end)
    }

    /** Decreases with every call on a cursor that is not done. */
    ghost function Measure(t: Table): nat
      reads this, b.data
      requires Cursor(t)
    {
      |Left(t)| + if curV < end then 1 else 0
    }

    /**
     * Between two passes of `operator()`'s loop: besides `Progress`, the
     * bitmap is unchanged and `next_set` resumes right after v.
     */
    ghost predicate Pass(t: Table, bits: seq<bool>, left: seq<Slot>, getNext: NextSet,
                         vec: seq<Interval>, v: nat, e: nat, edges: nat)
      reads getNext, b.data
    {
      && Progress(t, bits, left, end, capacity, vec, v, e, edges)
      && b.Sized() && end <= b.size && b.Bits() == bits
      && getNext.b == b && getNext.endExclusive == end
      && (v < end ==> getNext.fromInclusive == v + 1)
    }

    /**
     * One pass of `operator()`'s loop: skip an edgeless vertex, or cut the
     * next interval of v's list, as much of it as fits.
     */
    method Step(t: Table, ghost bits: seq<bool>, ghost left: seq<Slot>, getNext: NextSet,
                vec: seq<Interval>, v: nat, e: nat, edges: nat)
      returns (vec': seq<Interval>, v': nat, e': nat, edges': nat)
      requires Pass(t, bits, left, getNext, vec, v, e, edges) && v < end && edges < capacity
      modifies getNext
      ensures Pass(t, bits, left, getNext, vec', v', e', edges')
      ensures v < v' <= end || (v' == v && edges < edges' == capacity)
    {
      var d := NumEdges(t, v);
      if d == 0 {
        v' := Skip(t, bits, left, getNext, vec, v, e, edges);
        return vec, v', 0, edges;
      }
      var take := Min(d - e, capacity - edges);
      if take == d - e {
        vec', v', edges' := TakeAll(t, bits, left, getNext, vec, v, e, edges, take);
        e' := 0;
      } else {
        vec', e', edges' := TakePart(t, bits, left, getNext, vec, v, e, edges, take);
        v' := v;
      }
    }

    /** An edgeless vertex: the cursor moves on to the next active one. */
    method Skip(t: Table, ghost bits: seq<bool>, ghost left: seq<Slot>, getNext: NextSet,
                vec: seq<Interval>, v: nat, e: nat, edges: nat)
      returns (v': nat)
      requires Pass(t, bits, left, getNext, vec, v, e, edges) && v < end && edges < capacity
      requires NumEdges(t, v) == 0
      modifies getNext
      ensures Pass(t, bits, left, getNext, vec, v', 0, edges)
      ensures v < v' <= end
    {
      ZeroStep(t, bits, left, end, capacity, vec, v, e, edges);
      v' := getNext.Next();
      assert b.Bits() == bits;
      assert v' == FirstActive(bits, v + 1, end);
    }

    /** The rest of v's list fits: it becomes one interval and the cursor moves on. */
    method TakeAll(t: Table, ghost bits: seq<bool>, ghost left: seq<Slot>, getNext: NextSet,
                   vec: seq<Interval>, v: nat, e: nat, edges: nat, take: nat)
      returns (vec': seq<Interval>, v': nat, edges': nat)
      requires Pass(t, bits, left, getNext, vec, v, e, edges) && v < end
      requires 0 < take == NumEdges(t, v) - e && edges + take <= capacity
      modifies getNext
      ensures Pass(t, bits, left, getNext, vec', v', 0, edges')
      ensures v < v' <= end
    {
      vec' := vec + [Interval(v, NumEdges(t, v), e, e + take)];
      edges' := edges + take;
      v' := getNext.Next();
      assert v' == FirstActive(bits, v + 1, end);
      FullStep(t, bits, left, end, capacity, vec, v, e, edges, take, vec', v', edges');
    }

    /** The buffer fills up inside v's list: the interval takes what fits and the cursor stays on v. */
    method TakePart(t: Table, ghost bits: seq<bool>, ghost left: seq<Slot>, getNext: NextSet,
                    vec: seq<Interval>, v: nat, e: nat, edges: nat, take: nat)
      returns (vec': seq<Interval>, e': nat, edges': nat)
      requires Pass(t, bits, left, getNext, vec, v, e, edges) && v < end
      requires 0 < take < NumEdges(t, v) - e && edges + take == capacity
      ensures Pass(t, bits, left, getNext, vec', v, e', edges')
      ensures edges' == capacity
    {
      PartialStep(t, bits, left, end, capacity, vec, v, e, edges, take);
      vec' := vec + [Interval(v, NumEdges(t, v), e, e + take)];
      edges' := edges + take;
      e' := e + take;
    }

    /**
     * `operator()`: hands out the next `min(capacity, left)` edges as
     * intervals, vertex by vertex, and leaves the cursor after them.  With
     * no capacity it hands out nothing and the cursor stays put.
     */
    method Next(t: Table) returns (vec: seq<Interval>)
      requires Cursor(t)
      modifies this
      ensures Cursor(t) && Shaped(t, vec)
      ensures Pieces(vec) + Left(t) == old(Left(t))
      ensures |Pieces(vec)| == Min(capacity, |old(Left(t))|)
      ensures old(curV) < end && capacity > 0 ==> Measure(t) < old(Measure(t))
      ensures capacity == 0 ==> vec == [] && curV == old(curV) && curE == old(curE)
    {
      ghost var bits := b.Bits();
      ghost var left := Left(t);
      vec := [];
      var getNext := new NextSet(b, curV + 1, end);
      var edges: nat := 0;
      var v: nat, e: nat := curV, curE;
      while v < end && edges < capacity
        modifies getNext
        invariant Pass(t, bits, left, getNext, vec, v, e, edges)
        invariant curV < end ==> v <= end
        invariant capacity == 0 ==> v == curV && e == curE
        decreases end - v, capacity - edges
      {
        vec, v, e, edges := Step(t, bits, left, getNext, vec, v, e, edges);
      }
      curV, curE := v, e;
    }
  }
}
