/**
 * `mis_kernel`: a maximal independent set, decided in vertex-id order.
 *
 * Every vertex starts UNDECIDED, except that a vertex without edges is IN
 * from the start.  A window of vertex ids opens `delta` vertices at a time;
 * in each round the vertices still UNDECIDED inside the window (the
 * frontier) and then the vertices the window has just opened are pulled.
 * A pull looks only at lower-id neighbours: one of them IN makes the vertex
 * OUT, one of them UNDECIDED leaves it UNDECIDED (it joins the next
 * frontier), and otherwise it is IN.
 *
 * The pulls of a pass run in parallel, so the flag a pull reads for a
 * lower-id vertex of the same pass is either the flag written by that
 * vertex's own pull or the one it had before the pass, UNDECIDED.  The
 * model runs the pulls of a pass in increasing id order and lets a
 * scheduling parameter `sees` choose, read by read, which of the two a
 * pull observes; every choice is covered by the proofs.
 */
module Mis {
  import opened Csr
  import opened Window
  import opened Frontier
  import opened Batches
  import opened GraphKernel

  /** `MatchFlag`. */
  datatype Flag = Undecided | In | Out

  // ---------------------------------------------------------------------
  // One pull
  // ---------------------------------------------------------------------

  /**
   * One parallel pass of `pull`: over the vertices of `[lo, hi)` that `sel`
   * selects; `sees(v, w)` says whether the pull of v observes the flag the
   * same pass has written for w.
   */
  datatype Pass = Pass(sel: Selection, lo: nat, hi: nat, sees: (nat, nat) -> bool)

  /** The pass pulls w: w is in its range, selected, and has an edge. */
  predicate InPass(t: Table, p: Pass, w: nat)
    requires Valid(t)
  {
    p.lo <= w < p.hi && w < |t.offsets| && Chosen(p.sel, w) && NumEdges(t, w) > 0
  }

  /** The vertices a pass pulls. */
  ghost function PassSet(t: Table, p: Pass): set<nat>
    requires Valid(t)
  {
    set w | 0 <= w < |t.offsets| && InPass(t, p, w)
  }

  /**
   * The flag the pull of v reads for w: a vertex the same pass pulls may
   * still be seen with its flag from before the pass, which was UNDECIDED.
   */
  function Read(t: Table, p: Pass, flags: seq<Flag>, v: nat, w: nat): Flag
    requires Valid(t) && w < |flags|
  {
    if InPass(t, p, w) && !p.sees(v, w) then Undecided else flags[w]
  }

  /**
   * The verdict the scan of `pull` reaches for v over `edges`: higher ids
   * and OUT neighbours change nothing, an UNDECIDED lower-id neighbour makes
   * v UNDECIDED, and an IN one makes it OUT, which ends the scan.  An
   * UNDECIDED verdict has a lower-id neighbour read UNDECIDED behind it.
   */
  function Scan(t: Table, p: Pass, flags: seq<Flag>, v: nat, edges: seq<nat>): (r: Flag)
    requires Valid(t) && forall i :: 0 <= i < |edges| ==> edges[i] < |flags|
    ensures r == Undecided ==>
      exists i :: 0 <= i < |edges| && edges[i] < v && Read(t, p, flags, v, edges[i]) == Undecided
  {
    if edges == [] then In
    else
      var f := Scan(t, p, flags, v, edges[..|edges| - 1]);
      var w := edges[|edges| - 1];
      if f == Out || w >= v then f
      else match Read(t, p, flags, v, w)
        case Undecided => Undecided
        case In => Out
        case Out => f
  }

  /**
   * What the scan decides: OUT exactly when some lower-id neighbour is read
   * IN, IN exactly when every lower-id neighbour is read OUT.
   */
  lemma {:induction false} ScanMeaning(t: Table, p: Pass, flags: seq<Flag>, v: nat, edges: seq<nat>)
    requires Valid(t) && forall i :: 0 <= i < |edges| ==> edges[i] < |flags|
    ensures Scan(t, p, flags, v, edges) == Out <==>
      exists i :: 0 <= i < |edges| && edges[i] < v && Read(t, p, flags, v, edges[i]) == In
    ensures Scan(t, p, flags, v, edges) == In <==>
      forall i :: 0 <= i < |edges| && edges[i] < v ==> Read(t, p, flags, v, edges[i]) == Out
  {
    if edges != [] {
      var e := edges[..|edges| - 1];
      var last := |edges| - 1;
      ScanMeaning(t, p, flags, v, e);
      assert forall i :: 0 <= i < |e| ==> e[i] == edges[i];
      if Scan(t, p, flags, v, edges) == In {
        forall i | 0 <= i < |edges| && edges[i] < v
          ensures Read(t, p, flags, v, edges[i]) == Out
        {
          if i < last {
            assert e[i] == edges[i];
          }
        }
      }
    }
  }

  /** Once the scan of a prefix says OUT, the whole scan says OUT. */
  lemma OutStays(t: Table, p: Pass, flags: seq<Flag>, v: nat, edges: seq<nat>, i: nat)
    requires Valid(t) && forall j :: 0 <= j < |edges| ==> edges[j] < |flags|
    requires i <= |edges| && Scan(t, p, flags, v, edges[..i]) == Out
    ensures Scan(t, p, flags, v, edges) == Out
  {
    ScanMeaning(t, p, flags, v, edges[..i]);
    var j :| 0 <= j < i && edges[..i][j] < v && Read(t, p, flags, v, edges[..i][j]) == In;
    ScanMeaning(t, p, flags, v, edges);
  }

  /**
   * `pull(v, edges)`: scan the lower-id neighbours, stopping at the first
   * one read IN; an UNDECIDED verdict puts v in the next frontier; the
   * verdict becomes v's flag.  Pulling an OUT vertex is a broken assertion
   * of the source, so it is a precondition here.
   */
  method Pull(t: Table, p: Pass, flags: array<Flag>, next: Bitmap, v: nat, edges: seq<nat>)
    returns (f: Flag)
    requires Valid(t) && flags.Length == |t.offsets| && v < flags.Length && flags[v] != Out
    requires forall i :: 0 <= i < |edges| ==> edges[i] < flags.Length
    requires next.Valid() && next.size == flags.Length && flags as object != next.data as object
    modifies flags, next`counters, next.data
    ensures f == Scan(t, p, old(flags[..]), v, edges)
    ensures flags[..] == old(flags[..])[v := f]
    ensures next.Valid()
    ensures next.Active() == old(next.Active()) + (if f == Undecided then {v} else {})
  {
    f := In;
    var i := 0;
    while i < |edges| && f != Out
      invariant 0 <= i <= |edges|
      invariant f == Scan(t, p, flags[..], v, edges[..i])
    {
      var w := edges[i];
      assert edges[..i + 1][..i] == edges[..i];
      if w < v {
        var seen := if InPass(t, p, w) && !p.sees(v, w) then Undecided else flags[w];
        match seen
        case Undecided => f := Undecided;
        case In => f := Out;
        case Out =>
      }
      i := i + 1;
    }
    if f == Out {
      OutStays(t, p, flags[..], v, edges, i);
    } else {
      assert edges[..i] == edges;
    }
    if f == Undecided {
      var _ := next.SetBit(v, 0);
    }
    flags[v] := f;
  }

  // ---------------------------------------------------------------------
  // The independent set the flags describe
  // ---------------------------------------------------------------------

  /** The neighbours of v with a lower id: the ones its pull looks at. */
  ghost function Lower(t: Table, adj: seq<nat>, v: nat): (r: set<nat>)
    requires Valid(t) && |adj| == t.totalEdges && v < |t.offsets|
    ensures forall w :: w in r ==> w < v
  {
    set j | 0 <= j < NumEdges(t, v) && Neighbours(t, adj, v)[j] < v :: Neighbours(t, adj, v)[j]
  }

  /**
   * v's flag agrees with its lower-id neighbours: IN only when all of them
   * are OUT, OUT only when one of them is IN.
   */
  ghost predicate Justified(t: Table, adj: seq<nat>, flags: seq<Flag>, v: nat)
    requires Valid(t) && |adj| == t.totalEdges && v < |t.offsets| == |flags|
  {
    && (flags[v] == In ==> forall w :: w in Lower(t, adj, v) ==> flags[w] == Out)
    && (flags[v] == Out ==> exists w :: w in Lower(t, adj, v) && flags[w] == In)
  }

  /** Every decided vertex is justified. */
  ghost predicate Consistent(t: Table, adj: seq<nat>, flags: seq<Flag>)
    requires Valid(t) && |adj| == t.totalEdges
  {
    && |flags| == |t.offsets|
    && forall v {:trigger Justified(t, adj, flags, v)} :: 0 <= v < |t.offsets| ==> Justified(t, adj, flags, v)
  }

  /**
   * The greedy maximal independent set in id order: v joins it when none of
   * its lower-id neighbours has.
   */
  ghost predicate Greedy(t: Table, adj: seq<nat>, v: nat)
    requires Valid(t) && |adj| == t.totalEdges && v < |t.offsets|
    decreases v
  {
    forall w :: w in Lower(t, adj, v) ==> !Greedy(t, adj, w)
  }

  /** Once every vertex is decided, consistent flags are the greedy set. */
  lemma {:induction false} GreedyAt(t: Table, adj: seq<nat>, flags: seq<Flag>, v: nat)
    requires Valid(t) && |adj| == t.totalEdges && Consistent(t, adj, flags)
    requires Undecided !in flags && v < |flags|
    ensures flags[v] == In <==> Greedy(t, adj, v)
    decreases v
  {
    forall w | w in Lower(t, adj, v)
      ensures flags[w] == In <==> Greedy(t, adj, w)
    {
      GreedyAt(t, adj, flags, w);
    }
    assert Justified(t, adj, flags, v);
    assert flags[v] in flags;
  }

  /** u has w among its neighbours. */
  ghost predicate Adjacent(t: Table, adj: seq<nat>, u: nat, w: nat)
    requires Valid(t) && |adj| == t.totalEdges
  {
    u < |t.offsets| && w < |t.offsets| && w in Neighbours(t, adj, u)
  }

  /** Every edge has its reverse: the graph is undirected. */
  ghost predicate Undirected(t: Table, adj: seq<nat>)
    requires Valid(t) && |adj| == t.totalEdges
  {
    forall u, w {:trigger Adjacent(t, adj, u, w)} :: Adjacent(t, adj, u, w) ==> Adjacent(t, adj, w, u)
  }

  /**
   * On an undirected graph, consistent and fully decided flags form a
   * maximal independent set: no two adjacent distinct vertices are both IN,
   * and every vertex that is not IN has an IN neighbour.
   */
  lemma MaximalIndependent(t: Table, adj: seq<nat>, flags: seq<Flag>)
    requires Valid(t) && |adj| == t.totalEdges && Undirected(t, adj)
    requires Consistent(t, adj, flags) && Undecided !in flags
    ensures forall u: nat, w: nat :: Adjacent(t, adj, u, w) && u != w && flags[u] == In ==> flags[w] != In
    ensures forall u :: 0 <= u < |flags| && flags[u] != In ==>
      exists w: nat :: Adjacent(t, adj, u, w) && flags[w] == In
  {
    forall u: nat, w: nat | Adjacent(t, adj, u, w) && u != w && flags[u] == In
      ensures flags[w] != In
    {
      assert Adjacent(t, adj, w, u);
      var nu := Neighbours(t, adj, u);
      var nw := Neighbours(t, adj, w);
      if w < u {
        var j :| 0 <= j < |nu| && nu[j] == w;
        assert w in Lower(t, adj, u);
        assert Justified(t, adj, flags, u);
      } else {
        var j :| 0 <= j < |nw| && nw[j] == u;
        assert u in Lower(t, adj, w);
        assert Justified(t, adj, flags, w);
      }
    }
    forall u | 0 <= u < |flags| && flags[u] != In
      ensures exists w: nat :: Adjacent(t, adj, u, w) && flags[w] == In
    {
      assert flags[u] in flags;
      assert Justified(t, adj, flags, u);
      var w :| w in Lower(t, adj, u) && flags[w] == In;
      var nu := Neighbours(t, adj, u);
      var j :| 0 <= j < NumEdges(t, u) && nu[j] < u && nu[j] == w;
      assert Adjacent(t, adj, u, w);
    }
  }

  /** The vertices flagged IN. */
  ghost function Members(flags: seq<Flag>): set<nat>
  {
    set v | 0 <= v < |flags| && flags[v] == In
  }

  /**
   * `get_cardinality`: the number of vertices flagged IN, as the reduction
   * over the vertex range sums it.
   */
  method Cardinality(flags: array<Flag>) returns (count: nat)
    ensures count == |Members(flags[..])| && count <= flags.Length
  {
    count := 0;
    var i := 0;
    while i < flags.Length
      invariant 0 <= i <= flags.Length
      invariant count == |Members(flags[..i])| && count <= i
    {
      assert flags[..i + 1] == flags[..i] + [flags[i]];
      if flags[i] == In {
        assert Members(flags[..i + 1]) == Members(flags[..i]) + {i};
        count := count + 1;
      } else {
        assert Members(flags[..i + 1]) == Members(flags[..i]);
      }
      i := i + 1;
    }
    assert flags[..i] == flags[..];
  }

  // ---------------------------------------------------------------------
  // Before the loop
  // ---------------------------------------------------------------------

  /** The flag of v before the first round: IN without edges, UNDECIDED otherwise. */
  function Initial(t: Table, v: nat): Flag
    requires Valid(t) && v < |t.offsets|
  {
    if NumEdges(t, v) == 0 then In else Undecided
  }

  /** A sequence of UNDECIDED flags counts all its entries as UNDECIDED. */
  lemma {:induction false} AllUndecided(s: seq<Flag>)
    requires forall i :: 0 <= i < |s| ==> s[i] == Undecided
    ensures multiset(s)[Undecided] == |s|
  {
    if s != [] {
      AllUndecided(s[..|s| - 1]);
      assert s == s[..|s| - 1] + [s[|s| - 1]];
    }
  }

  /**
   * The zero-degree loop of `operator()`: every vertex without edges is
   * flagged IN and counted, so that `undecided` minus the count is the
   * number of UNDECIDED vertices.
   */
  method InitFlags(t: Table, flags: array<Flag>) returns (zeros: nat)
    requires Valid(t) && flags.Length == |t.offsets|
    requires forall v :: 0 <= v < flags.Length ==> flags[v] == Undecided
    modifies flags
    ensures forall v :: 0 <= v < flags.Length ==> flags[v] == Initial(t, v)
    ensures zeros + multiset(flags[..])[Undecided] == flags.Length
  {
    AllUndecided(flags[..]);
    zeros := 0;
    var v := 0;
    while v < flags.Length
      invariant 0 <= v <= flags.Length
      invariant forall u :: 0 <= u < v ==> flags[u] == Initial(t, u)
      invariant forall u :: v <= u < flags.Length ==> flags[u] == Undecided
      invariant zeros + multiset(flags[..])[Undecided] == flags.Length
    {
      var d := NumEdges(t, v);
      if d == 0 {
        flags[v] := In;
        zeros := zeros + 1;
      }
      v := v + 1;
    }
  }

  // ---------------------------------------------------------------------
  // One pass
  // ---------------------------------------------------------------------

  /** A pass may start: the flags are consistent and every vertex it pulls is UNDECIDED. */
  ghost predicate Ready(t: Table, adj: seq<nat>, p: Pass, fl0: seq<Flag>)
    requires Valid(t) && |adj| == t.totalEdges
  {
    && Consistent(t, adj, fl0)
    && forall u {:trigger InPass(t, p, u)} :: 0 <= u < |t.offsets| && InPass(t, p, u) ==> fl0[u] == Undecided
  }

  /**
   * Vertex u during a pass that has pulled every vertex below `upto`: a
   * pulled vertex is in U exactly when it stayed UNDECIDED; any other vertex
   * keeps its flag from before the pass.
   */
  ghost predicate Tracked(t: Table, p: Pass, fl0: seq<Flag>, fl: seq<Flag>, U: set<nat>, upto: nat, u: nat)
    requires Valid(t) && u < |fl0| == |fl|
  {
    if InPass(t, p, u) && u < upto then (u in U <==> fl[u] == Undecided)
    else fl[u] == fl0[u] && u !in U
  }

  /**
   * The state of a pass below `upto`: the flags stay consistent, and
   * `decided` is the number of vertices the pass has decided.
   */
  ghost predicate Pulling(t: Table, adj: seq<nat>, p: Pass, fl0: seq<Flag>, fl: seq<Flag>, U: set<nat>,
                          upto: nat, decided: nat)
    requires Valid(t) && |adj| == t.totalEdges
  {
    && |fl0| == |t.offsets| && Consistent(t, adj, fl)
    && (forall u {:trigger Tracked(t, p, fl0, fl, U, upto, u)} :: 0 <= u < |t.offsets| ==>
          Tracked(t, p, fl0, fl, U, upto, u))
    && (forall u :: u in U ==> u < |t.offsets|)
    && multiset(fl)[Undecided] + decided == multiset(fl0)[Undecided]
  }

  /** Every lower-id neighbour of v was decided before the pass. */
  ghost predicate Unblocked(t: Table, adj: seq<nat>, fl0: seq<Flag>, v: nat)
    requires Valid(t) && |adj| == t.totalEdges
  {
    v < |t.offsets| == |fl0| && forall w :: w in Lower(t, adj, v) ==> fl0[w] != Undecided
  }

  /**
   * Pulling an UNDECIDED vertex keeps the flags consistent, whatever the
   * pull reads: a read IN or OUT is the vertex's current flag.
   */
  lemma Pulled(t: Table, adj: seq<nat>, p: Pass, fl: seq<Flag>, v: nat)
    requires Graph(t, adj) && Consistent(t, adj, fl) && v < |fl| && fl[v] == Undecided
    ensures forall i :: 0 <= i < NumEdges(t, v) ==> Neighbours(t, adj, v)[i] < |fl|
    ensures Consistent(t, adj, fl[v := Scan(t, p, fl, v, Neighbours(t, adj, v))])
  {
    NeighboursAreVertices(t, adj, v);
    var nv := Neighbours(t, adj, v);
    var f := Scan(t, p, fl, v, nv);
    var fl' := fl[v := f];
    ScanMeaning(t, p, fl, v, nv);
    forall u | 0 <= u < |t.offsets|
      ensures Justified(t, adj, fl', u)
    {
      assert Justified(t, adj, fl, u);
      if u == v {
        if f == In {
          forall w | w in Lower(t, adj, v)
            ensures fl'[w] == Out
          {
            var i :| 0 <= i < NumEdges(t, v) && nv[i] < v && nv[i] == w;
            assert Read(t, p, fl, v, nv[i]) == Out;
          }
        } else if f == Out {
          var i :| 0 <= i < |nv| && nv[i] < v && Read(t, p, fl, v, nv[i]) == In;
          assert nv[i] in Lower(t, adj, v);
          assert fl'[nv[i]] == In;
        }
      } else if fl[u] == In {
        forall w | w in Lower(t, adj, u)
          ensures fl'[w] == Out
        {
          assert fl[w] == Out;
        }
      } else if fl[u] == Out {
        var w :| w in Lower(t, adj, u) && fl[w] == In;
        assert fl'[w] == In;
      }
    }
  }

  /** The j-th call of a pass is on an UNDECIDED vertex (so never on an OUT one) that the pass has not pulled yet. */
  lemma PullPending(t: Table, adj: seq<nat>, p: Pass, trace: seq<Call>, j: nat, fl0: seq<Flag>, fl: seq<Flag>,
                    U: set<nat>, decided: nat)
    requires Graph(t, adj) && j < |trace|
    requires FrontierTrace(t, adj, PassSet(t, p), trace) && Ready(t, adj, p, fl0)
    requires Pulling(t, adj, p, fl0, fl, U, Upto(trace, j), decided)
    ensures trace[j].v < |fl| && fl[trace[j].v] == Undecided && trace[j].v !in U
    ensures trace[j].edges == Neighbours(t, adj, trace[j].v)
    ensures forall i :: 0 <= i < |trace[j].edges| ==> trace[j].edges[i] < |fl|
  {
    var v := trace[j].v;
    assert Visits(t, adj, trace[j]);
    assert Called(trace, v);
    assert InPass(t, p, v);
    assert Tracked(t, p, fl0, fl, U, Upto(trace, j), v);
    NeighboursAreVertices(t, adj, v);
  }

  /**
   * After the pull of the j-th call with verdict f, the pass has pulled
   * every vertex up to it; when every lower-id neighbour was decided before
   * the pass, the verdict is IN or OUT.
   */
  lemma PullStep(t: Table, adj: seq<nat>, p: Pass, trace: seq<Call>, j: nat, fl0: seq<Flag>, fl: seq<Flag>,
                 U: set<nat>, decided: nat, f: Flag, U': set<nat>, decided': nat)
    requires Graph(t, adj) && j < |trace|
    requires FrontierTrace(t, adj, PassSet(t, p), trace) && Ready(t, adj, p, fl0)
    requires Pulling(t, adj, p, fl0, fl, U, Upto(trace, j), decided)
    requires trace[j].v < |fl| && trace[j].edges == Neighbours(t, adj, trace[j].v)
    requires forall i :: 0 <= i < |trace[j].edges| ==> trace[j].edges[i] < |fl|
    requires f == Scan(t, p, fl, trace[j].v, trace[j].edges)
    requires U' == (if f == Undecided then U + {trace[j].v} else U)
    requires decided' == decided + if f == Undecided then 0 else 1
    ensures Unblocked(t, adj, fl0, trace[j].v) ==> f != Undecided
    ensures Pulling(t, adj, p, fl0, fl[trace[j].v := f], U', Upto(trace, j + 1), decided')
  {
    var v := trace[j].v;
    assert Visits(t, adj, trace[j]);
    assert Called(trace, v);
    assert InPass(t, p, v);
    assert Tracked(t, p, fl0, fl, U, Upto(trace, j), v);
    Pulled(t, adj, p, fl, v);
    var nv := Neighbours(t, adj, v);
    var fl' := fl[v := f];
    var upto := v + 1;
    forall u | 0 <= u < |t.offsets|
      ensures Tracked(t, p, fl0, fl', U', upto, u)
    {
      assert Tracked(t, p, fl0, fl, U, Upto(trace, j), u);
      if Upto(trace, j) <= u < v {
        TraceGap(trace, j, u);
        assert !Called(trace, u);
      }
    }
    if Unblocked(t, adj, fl0, v) {
      ScanMeaning(t, p, fl, v, nv);
      forall i | 0 <= i < |nv| && nv[i] < v
        ensures Read(t, p, fl, v, nv[i]) != Undecided
      {
        var w := nv[i];
        assert w in Lower(t, adj, v);
        assert Tracked(t, p, fl0, fl, U, Upto(trace, j), w);
      }
    }
  }

  /** After the last call, the pass has pulled every vertex it selects. */
  lemma PassDone(t: Table, adj: seq<nat>, p: Pass, trace: seq<Call>, fl0: seq<Flag>, fl: seq<Flag>,
                 U: set<nat>, decided: nat)
    requires Valid(t) && |adj| == t.totalEdges
    requires FrontierTrace(t, adj, PassSet(t, p), trace)
    requires Pulling(t, adj, p, fl0, fl, U, Upto(trace, |trace|), decided)
    ensures Pulling(t, adj, p, fl0, fl, U, |t.offsets|, decided)
  {
    var n := |t.offsets|;
    forall u | 0 <= u < n
      ensures Tracked(t, p, fl0, fl, U, n, u)
    {
      assert Tracked(t, p, fl0, fl, U, Upto(trace, |trace|), u);
      if Upto(trace, |trace|) <= u {
        TraceGap(trace, |trace|, u);
        assert !Called(trace, u);
      }
    }
  }

  /**
   * The state of a pass after j calls, over the arrays: the flags as
   * `Pulling` says, the next frontier grown by U, and `grown` its size.
   */
  ghost predicate Sweeping(t: Table, adj: seq<nat>, p: Pass, trace: seq<Call>, j: nat, fl0: seq<Flag>,
                           A0: set<nat>, flags: array<Flag>, next: Bitmap, U: set<nat>, decided: nat, grown: nat)
    reads flags, next, next.data
    requires Valid(t) && |adj| == t.totalEdges
  {
    && j <= |trace| && flags.Length == |t.offsets|
    && next.Valid() && next.size == |t.offsets| && flags as object != next.data as object
    && Pulling(t, adj, p, fl0, flags[..], U, Upto(trace, j), decided)
    && next.Active() == A0 + U && grown == |U|
    && (j > 0 && Unblocked(t, adj, fl0, trace[0].v) ==> decided > 0)
  }

  /**
   * The j-th call of a pass: `pull` on its vertex, then `n_decided` or
   * `next_frontier_size` counts the verdict.
   */
  method PullOne(t: Table, adj: seq<nat>, p: Pass, trace: seq<Call>, j: nat, ghost fl0: seq<Flag>,
                 ghost A0: set<nat>, flags: array<Flag>, next: Bitmap, ghost U: set<nat>, decided: nat, grown: nat)
    returns (ghost U': set<nat>, decided': nat, grown': nat)
    requires Graph(t, adj) && j < |trace|
    requires FrontierTrace(t, adj, PassSet(t, p), trace) && Ready(t, adj, p, fl0)
    requires Sweeping(t, adj, p, trace, j, fl0, A0, flags, next, U, decided, grown)
    modifies flags, next`counters, next.data
    ensures Sweeping(t, adj, p, trace, j + 1, fl0, A0, flags, next, U', decided', grown')
  {
    var v := trace[j].v;
    ghost var fl := flags[..];
    PullPending(t, adj, p, trace, j, fl0, fl, U, decided);
    var f := Pull(t, p, flags, next, v, trace[j].edges);
    U', decided', grown' := U, decided, grown;
    if f == Undecided {
      AddOneCardinality(U, v);
      U' := U + {v};
      grown' := grown + 1;
    } else {
      decided' := decided + 1;
    }
    PullStep(t, adj, p, trace, j, fl0, fl, U, decided, f, U', decided');
  }

  /**
   * One pass: `pull` on every call of the trace, counting the decided
   * vertices (`n_decided`) and the ones put in the next frontier
   * (`next_frontier_size`).
   */
  method PullAll(t: Table, adj: seq<nat>, p: Pass, trace: seq<Call>, flags: array<Flag>, next: Bitmap)
    returns (decided: nat, grown: nat, ghost U: set<nat>)
    requires Graph(t, adj) && flags.Length == |t.offsets|
    requires FrontierTrace(t, adj, PassSet(t, p), trace) && Ready(t, adj, p, flags[..])
    requires next.Valid() && next.size == |t.offsets| && flags as object != next.data as object
    modifies flags, next`counters, next.data
    ensures Pulling(t, adj, p, old(flags[..]), flags[..], U, |t.offsets|, decided)
    ensures next.Valid() && next.Active() == old(next.Active()) + U && grown == |U|
    ensures trace != [] && Unblocked(t, adj, old(flags[..]), trace[0].v) ==> decided > 0
  {
    ghost var fl0 := flags[..];
    ghost var A0 := next.Active();
    decided, grown, U := 0, 0, {};
    var j := 0;
    while j < |trace|
      invariant Sweeping(t, adj, p, trace, j, fl0, A0, flags, next, U, decided, grown)
    {
      U, decided, grown := PullOne(t, adj, p, trace, j, fl0, A0, flags, next, U, decided, grown);
      j := j + 1;
    }
    PassDone(t, adj, p, trace, fl0, flags[..], U, decided);
  }

  // ---------------------------------------------------------------------
  // The delta window
  // ---------------------------------------------------------------------

  /**
   * `total_verts / divisor`, the window width as written: the largest
   * width that fits `divisor` times into the vertex count.
   */
  function RawDelta(n: nat, divisor: nat): (d: nat)
    requires divisor > 0
    ensures d * divisor <= n < (d + 1) * divisor
  {
    n / divisor
  }

  /**
   * The window width the loop needs, `max(1, total_verts / divisor)`: at
   * least one vertex, and the written width whenever that is not 0.
   */
  function Delta(n: nat, divisor: nat): (d: nat)
    requires divisor > 0
    ensures d >= 1
    ensures RawDelta(n, divisor) > 0 ==> d == RawDelta(n, divisor)
  {
    if n / divisor == 0 then 1 else n / divisor
  }

  /**
   * The new window end, `min(total_verts, end + delta - front_size)`
   * computed without wrap-around: the window reaches `delta` vertices past
   * the frontier's room, never beyond the vertex count, and it moves
   * forward whenever the frontier leaves room in it.
   */
  function NextEnd(n: nat, end: nat, delta: nat, frontSize: nat): (e: nat)
    requires frontSize <= delta
    ensures e <= n && e <= end + delta - frontSize
    ensures end <= n ==> end <= e
    ensures end < n && frontSize < delta ==> end < e
  {
    if end + delta - frontSize < n then end + delta - frontSize else n
  }

  /** The same end as `operator()` computes it in `uint32_t`: the sum wraps modulo 2^32. */
  function NextEnd32(n: nat, end: nat, delta: nat, frontSize: nat): (e: nat)
    requires frontSize <= delta
    ensures e <= n
  {
    var x := (end + delta - frontSize) % UINT32_LIMIT;
    if x < n then x else n
  }

  /** While `end + delta` fits in 32 bits the written end is the intended one. */
  lemma NextEndAgrees(n: nat, end: nat, delta: nat, frontSize: nat)
    requires frontSize <= delta && end + delta < UINT32_LIMIT
    ensures NextEnd32(n, end, delta, frontSize) == NextEnd(n, end, delta, frontSize)
  {
  }

  /**
   * With 2^31 + 1 vertices and a divisor of 1, a window already open to
   * every vertex (`end` at `total_verts`) with two vertices in the frontier
   * falls back to 0 as written, instead of staying at `total_verts`.
   */
  lemma EndWrapsBack()
    ensures NextEnd32(0x8000_0001, 0x8000_0001, RawDelta(0x8000_0001, 1), 2) == 0
    ensures NextEnd(0x8000_0001, 0x8000_0001, Delta(0x8000_0001, 1), 2) == 0x8000_0001
  {
  }

  /**
   * With fewer vertices than the divisor the written width is 0, and a
   * round with an empty frontier leaves the window end where it is: no
   * vertex is ever pulled again, so `undecided` never reaches 0 once some
   * vertex has an edge.
   */
  lemma RawDeltaStalls(n: nat, divisor: nat, end: nat)
    requires 0 < n < divisor && end <= n
    ensures RawDelta(n, divisor) == 0
    ensures NextEnd(n, end, RawDelta(n, divisor), 0) == end
  {
  }

  // ---------------------------------------------------------------------
  // Rounds
  // ---------------------------------------------------------------------

  /**
   * Vertex u at the head of a round with window end `end` and frontier F:
   * inside the window the UNDECIDED vertices are those of F, and they have
   * edges; past the window every vertex keeps its initial flag.
   */
  ghost predicate Phase(t: Table, fl: seq<Flag>, F: set<nat>, end: nat, u: nat)
    requires Valid(t) && u < |t.offsets| == |fl|
  {
    if u < end then (fl[u] == Undecided <==> u in F) && (fl[u] == Undecided ==> NumEdges(t, u) > 0)
    else fl[u] == Initial(t, u)
  }

  /** The flags at the head of a round: consistent, and every vertex in its phase. */
  ghost predicate Head(t: Table, adj: seq<nat>, fl: seq<Flag>, F: set<nat>, end: nat)
    requires Valid(t) && |adj| == t.totalEdges
  {
    && Consistent(t, adj, fl) && end <= |t.offsets|
    && (forall u :: u in F ==> u < end)
    && (forall u {:trigger Phase(t, fl, F, end, u)} :: 0 <= u < |t.offsets| ==> Phase(t, fl, F, end, u))
  }

  /** Before the first round every vertex has its initial flag. */
  lemma Initially(t: Table, adj: seq<nat>, fl: seq<Flag>)
    requires Valid(t) && |adj| == t.totalEdges && |fl| == |t.offsets|
    requires forall v :: 0 <= v < |fl| ==> fl[v] == Initial(t, v)
    ensures Head(t, adj, fl, {}, 0)
  {
    forall v | 0 <= v < |t.offsets|
      ensures Justified(t, adj, fl, v)
    {
      if fl[v] == In {
        assert Lower(t, adj, v) == {};
      }
    }
    forall u | 0 <= u < |t.offsets|
      ensures Phase(t, fl, {}, 0, u)
    {
    }
  }

  /** While a vertex is UNDECIDED, the window has room to move or the frontier is not empty. */
  lemma Progress(t: Table, adj: seq<nat>, fl: seq<Flag>, F: set<nat>, end: nat)
    requires Valid(t) && |adj| == t.totalEdges && Head(t, adj, fl, F, end)
    requires multiset(fl)[Undecided] > 0
    ensures end < |t.offsets| || F != {}
  {
    assert Undecided in fl;
    var u :| 0 <= u < |fl| && fl[u] == Undecided;
    assert Phase(t, fl, F, end, u);
  }

  /**
   * The frontier pass over `[0, end)`: its trace pulls exactly the frontier,
   * every vertex of which is UNDECIDED, and its first vertex, the lowest of
   * the frontier, has every lower-id neighbour decided.
   */
  lemma FrontierPass(t: Table, adj: seq<nat>, fl: seq<Flag>, F: set<nat>, end: nat, p: Pass,
                     trace: seq<Call>, frontier: Bitmap)
    requires Graph(t, adj) && Head(t, adj, fl, F, end) && F != {}
    requires frontier.Sized() && frontier.size == |t.offsets| && frontier.Active() == F
    requires p.sel == ActiveOnly(frontier.Bits()) && p.lo == 0 && p.hi == end
    requires forall v :: 0 <= v < end ==>
      ((exists k :: 0 <= k < |trace| && trace[k].v == v) <==> frontier.Get(v) && NumEdges(t, v) > 0)
    requires forall j, k :: 0 <= j < k < |trace| ==> trace[j].v < trace[k].v
    requires forall k :: 0 <= k < |trace| ==> 0 <= trace[k].v < end
    requires forall k :: 0 <= k < |trace| ==>
      trace[k].v < |t.offsets| && trace[k].edges == Neighbours(t, adj, trace[k].v)
    ensures FrontierTrace(t, adj, PassSet(t, p), trace) && Ready(t, adj, p, fl)
    ensures forall u :: 0 <= u < |t.offsets| ==> (InPass(t, p, u) <==> u in F)
    ensures trace != [] && Unblocked(t, adj, fl, trace[0].v)
  {
    forall u | 0 <= u < |t.offsets|
      ensures InPass(t, p, u) <==> u in F
      ensures InPass(t, p, u) <==> u < end && Called(trace, u)
      ensures InPass(t, p, u) ==> fl[u] == Undecided
    {
      assert frontier.Get(u) <==> u in frontier.Active();
      assert Phase(t, fl, F, end, u);
    }
    forall k | 0 <= k < |trace|
      ensures Visits(t, adj, trace[k])
    {
    }
    var u :| u in F;
    assert InPass(t, p, u);
    var v0 := trace[0].v;
    forall w | w in Lower(t, adj, v0)
      ensures fl[w] != Undecided
    {
      forall k | 0 <= k < |trace|
        ensures trace[k].v != w
      {
        if k > 0 {
          assert trace[0].v < trace[k].v;
        }
      }
      assert !Called(trace, w);
      assert Phase(t, fl, F, end, w);
    }
  }

  /** After the frontier pass, the frontier's vertices that stayed UNDECIDED are the new frontier. */
  lemma FrontierDone(t: Table, adj: seq<nat>, p: Pass, fl0: seq<Flag>, fl1: seq<Flag>, F: set<nat>,
                     U1: set<nat>, end: nat, d1: nat)
    requires Graph(t, adj) && Head(t, adj, fl0, F, end)
    requires forall u :: 0 <= u < |t.offsets| ==> (InPass(t, p, u) <==> u in F)
    requires Pulling(t, adj, p, fl0, fl1, U1, |t.offsets|, d1)
    ensures Head(t, adj, fl1, U1, end) && U1 <= F
  {
    forall u | 0 <= u < |t.offsets|
      ensures Phase(t, fl1, U1, end, u)
    {
      assert Phase(t, fl0, F, end, u);
      assert Tracked(t, p, fl0, fl1, U1, |t.offsets|, u);
    }
    forall u | u in U1
      ensures u in F
    {
      assert Tracked(t, p, fl0, fl1, U1, |t.offsets|, u);
    }
  }

  /** The range pass over `[end, end')`: its trace pulls every vertex there with an edge, all UNDECIDED. */
  lemma RangePass(t: Table, adj: seq<nat>, fl: seq<Flag>, F: set<nat>, end: nat, end': nat, p: Pass,
                  trace: seq<Call>)
    requires Graph(t, adj) && Head(t, adj, fl, F, end) && end <= end' <= |t.offsets|
    requires p.sel == EveryVertex && p.lo == end && p.hi == end'
    requires forall v :: end <= v < end' ==>
      ((exists k :: 0 <= k < |trace| && trace[k].v == v) <==> NumEdges(t, v) > 0)
    requires forall j, k :: 0 <= j < k < |trace| ==> trace[j].v < trace[k].v
    requires forall k :: 0 <= k < |trace| ==> end <= trace[k].v < end'
    requires forall k :: 0 <= k < |trace| ==>
      trace[k].v < |t.offsets| && trace[k].edges == Neighbours(t, adj, trace[k].v)
    ensures FrontierTrace(t, adj, PassSet(t, p), trace) && Ready(t, adj, p, fl)
  {
    forall u | 0 <= u < |t.offsets|
      ensures InPass(t, p, u) <==> end <= u < end' && Called(trace, u)
      ensures InPass(t, p, u) ==> fl[u] == Undecided
    {
      assert Phase(t, fl, F, end, u);
    }
    forall k | 0 <= k < |trace|
      ensures Visits(t, adj, trace[k])
    {
    }
  }

  /** After the range pass, the new frontier also holds the opened vertices that stayed UNDECIDED. */
  lemma RangeDone(t: Table, adj: seq<nat>, p: Pass, fl1: seq<Flag>, fl2: seq<Flag>, F: set<nat>,
                  U2: set<nat>, end: nat, end': nat, d2: nat)
    requires Graph(t, adj) && Head(t, adj, fl1, F, end) && end <= end' <= |t.offsets|
    requires p.sel == EveryVertex && p.lo == end && p.hi == end'
    requires Pulling(t, adj, p, fl1, fl2, U2, |t.offsets|, d2)
    ensures Head(t, adj, fl2, F + U2, end') && F !! U2
    ensures forall u :: u in U2 ==> end <= u < end'
  {
    forall u | 0 <= u < |t.offsets|
      ensures Phase(t, fl2, F + U2, end', u)
    {
      assert Phase(t, fl1, F, end, u);
      assert Tracked(t, p, fl1, fl2, U2, |t.offsets|, u);
    }
    forall u | u in U2
      ensures end <= u < end'
    {
      assert Tracked(t, p, fl1, fl2, U2, |t.offsets|, u);
    }
  }

  /** A subset is no larger than its superset. */
  lemma SubsetSize(A: set<nat>, B: set<nat>)
    requires A <= B
    ensures |A| <= |B|
  {
    assert B == A + (B - A);
  }

  /** A set of ids inside `[a, b)` has at most `b - a` members. */
  lemma {:induction false} IntervalSize(S: set<nat>, a: nat, b: nat)
    requires a <= b && forall u :: u in S ==> a <= u < b
    ensures |S| <= b - a
    decreases b - a
  {
    if a < b {
      IntervalSize(S - {b - 1}, a, b - 1);
      assert S <= (S - {b - 1}) + {b - 1};
      SubsetSize(S, (S - {b - 1}) + {b - 1});
    } else {
      assert S == {};
    }
  }

  /** The arrays of the kernel: sized for the graph, and no two of them the same. */
  ghost predicate Arrays(t: Table, flags: array<Flag>, frontier: Bitmap, next: Bitmap, buf: array<nat>)
    reads frontier, next
  {
    && Valid(t) && flags.Length == |t.offsets| && buf.Length > 0 && Addressable(buf.Length)
    && (forall v :: 0 <= v < |t.offsets| ==> NumEdges(t, v) <= buf.Length)
    && frontier.Valid() && frontier.size == |t.offsets|
    && next.Valid() && next.size == |t.offsets|
    && frontier != next && frontier.data != next.data
    && buf as object != frontier.data as object && buf as object != next.data as object
    && flags as object != frontier.data as object && flags as object != next.data as object
    && flags as object != buf as object
  }

  /**
   * The frontier pass, `if (front_size > 0)`: `for_each_active_batch` over
   * `[0, end)` with `pull`.  The frontier's vertices that stay UNDECIDED
   * form the next frontier, and a non-empty frontier always has a vertex
   * decided.
   */
  method PullFrontier(t: Table, adj: seq<nat>, flags: array<Flag>, frontier: Bitmap, next: Bitmap,
                      buf: array<nat>, end: nat, frontSize: nat, window: nat, peer: Peer, coalescing: bool,
                      sees: (nat, nat) -> bool)
    returns (decided: nat, grown: nat, ghost U: set<nat>)
    requires Graph(t, adj) && window > 0
    requires Arrays(t, flags, frontier, next, buf) && next.Active() == {}
    requires Head(t, adj, flags[..], frontier.Active(), end) && frontSize == |frontier.Active()|
    modifies flags, next`counters, next.data, buf
    ensures Arrays(t, flags, frontier, next, buf) && frontier.Active() == old(frontier.Active())
    ensures Head(t, adj, flags[..], U, end) && next.Active() == U
    ensures grown == |U| <= frontSize
    ensures multiset(flags[..])[Undecided] + decided == old(multiset(flags[..])[Undecided])
    ensures frontSize > 0 ==> decided > 0
    ensures frontSize == 0 ==> decided == 0 && grown == 0 && flags[..] == old(flags[..])
  {
    decided, grown, U := 0, 0, {};
    if frontSize > 0 {
      decided, grown, U := SweepFrontier(t, adj, flags, frontier, next, buf, end, window, peer, coalescing, sees);
    }
  }

  /** The body of the frontier pass, for a frontier that is not empty. */
  method SweepFrontier(t: Table, adj: seq<nat>, flags: array<Flag>, frontier: Bitmap, next: Bitmap,
                       buf: array<nat>, end: nat, window: nat, peer: Peer, coalescing: bool,
                       sees: (nat, nat) -> bool)
    returns (decided: nat, grown: nat, ghost U: set<nat>)
    requires Graph(t, adj) && window > 0
    requires Arrays(t, flags, frontier, next, buf) && next.Active() == {}
    requires Head(t, adj, flags[..], frontier.Active(), end) && frontier.Active() != {}
    modifies flags, next`counters, next.data, buf
    ensures Arrays(t, flags, frontier, next, buf) && frontier.Active() == old(frontier.Active())
    ensures Head(t, adj, flags[..], U, end) && next.Active() == U
    ensures grown == |U| <= |frontier.Active()|
    ensures multiset(flags[..])[Undecided] + decided == old(multiset(flags[..])[Undecided])
    ensures decided > 0
  {
    ghost var fl0 := flags[..];
    ghost var F := frontier.Active();
    var trace, wrs, verts, sends := ForEachActiveBatch(frontier, t, adj, 0, end, window, peer, coalescing, buf);
    var p := Pass(ActiveOnly(frontier.Bits()), 0, end, sees);
    FrontierPass(t, adj, fl0, F, end, p, trace, frontier);
    decided, grown, U := PullAll(t, adj, p, trace, flags, next);
    FrontierDone(t, adj, p, fl0, flags[..], F, U, end, decided);
    SubsetSize(U, F);
  }

  /**
   * The range pass, `if (start < end)`: `for_each_range` over the vertices
   * `[start, end')` the window has just opened, with `pull`.  Those that
   * stay UNDECIDED join the next frontier F.
   */
  method PullRange(t: Table, adj: seq<nat>, flags: array<Flag>, frontier: Bitmap, next: Bitmap,
                   buf: array<nat>, start: nat, end': nat, window: nat, peer: Peer, coalescing: bool,
                   sees: (nat, nat) -> bool, ghost F: set<nat>)
    returns (decided: nat, grown: nat, ghost U: set<nat>)
    requires Graph(t, adj) && window > 0 && start <= end' <= |t.offsets|
    requires Arrays(t, flags, frontier, next, buf) && next.Active() == F
    requires Head(t, adj, flags[..], F, start)
    modifies flags, next`counters, next.data, buf
    ensures Arrays(t, flags, frontier, next, buf) && frontier.Active() == old(frontier.Active())
    ensures Head(t, adj, flags[..], F + U, end') && next.Active() == F + U && F !! U
    ensures grown == |U| <= end' - start
    ensures multiset(flags[..])[Undecided] + decided == old(multiset(flags[..])[Undecided])
    ensures start == end' ==> decided == 0 && grown == 0 && flags[..] == old(flags[..])
  {
    ghost var fl0 := flags[..];
    decided, grown, U := 0, 0, {};
    if start < end' {
      var trace, wrs, verts, sends := ForEachRange(t, adj, start, end', window, peer, coalescing, buf);
      var p := Pass(EveryVertex, start, end', sees);
      RangePass(t, adj, fl0, F, start, end', p, trace);
      decided, grown, U := PullAll(t, adj, p, trace, flags, next);
      RangeDone(t, adj, p, fl0, flags[..], F, U, start, end', decided);
      IntervalSize(U, start, end');
    } else {
      assert F + U == F;
    }
  }

  /**
   * One iteration of the `while (undecided > 0)` loop: pull the frontier,
   * move the window end, pull the vertices it has opened.  The new frontier
   * is what stayed UNDECIDED, and it fits the window (`front_size <=
   * delta`); a non-empty frontier always has a vertex decided, and a round
   * with an empty frontier and a window end that does not move changes
   * nothing.
   */
  method Round(t: Table, adj: seq<nat>, flags: array<Flag>, frontier: Bitmap, next: Bitmap, buf: array<nat>,
               start: nat, end: nat, delta: nat, frontSize: nat, window: nat, peer: Peer, coalescing: bool,
               sees: (nat, nat) -> bool)
    returns (end': nat, decided: nat, frontSize': nat)
    requires Graph(t, adj) && window > 0
    requires Arrays(t, flags, frontier, next, buf) && next.Active() == {}
    requires Head(t, adj, flags[..], frontier.Active(), end) && frontSize == |frontier.Active()|
    requires start == end && frontSize <= delta
    modifies flags, next`counters, next.data, buf
    ensures Arrays(t, flags, frontier, next, buf) && frontier.Active() == old(frontier.Active())
    ensures Head(t, adj, flags[..], next.Active(), end') && frontSize' == |next.Active()| && frontSize' <= delta
    ensures end' == NextEnd(|t.offsets|, end, delta, frontSize)
    ensures multiset(flags[..])[Undecided] + decided == old(multiset(flags[..])[Undecided])
    ensures frontSize > 0 ==> decided > 0
    ensures frontSize == 0 && end' == end ==> decided == 0 && frontSize' == 0 && flags[..] == old(flags[..])
  {
    var d1, g1, d2, g2;
    ghost var U1, U2;
    d1, g1, U1 := PullFrontier(t, adj, flags, frontier, next, buf, end, frontSize, window, peer, coalescing, sees);
    end' := NextEnd(|t.offsets|, end, delta, frontSize);
    d2, g2, U2 := PullRange(t, adj, flags, frontier, next, buf, start, end', window, peer, coalescing, sees, U1);
    decided := d1 + d2;
    frontSize' := g1 + g2;
  }

  /**
   * The `while (undecided > 0)` loop: rounds until no vertex is UNDECIDED,
   * swapping the frontiers after clearing the old one.  With a window of at
   * least one vertex every round either decides a vertex or moves the
   * window end forward.
   */
  method Decide(t: Table, adj: seq<nat>, flags: array<Flag>, frontier0: Bitmap, next0: Bitmap, buf: array<nat>,
                delta: nat, undecided0: nat, window: nat, peer: Peer, coalescing: bool,
                sees: (nat, nat, nat) -> bool)
    requires Graph(t, adj) && window > 0 && delta > 0
    requires Arrays(t, flags, frontier0, next0, buf) && frontier0.Active() == {} && next0.Active() == {}
    requires Head(t, adj, flags[..], {}, 0) && undecided0 == multiset(flags[..])[Undecided]
    modifies flags, frontier0`counters, frontier0.data, next0`counters, next0.data, buf
    ensures Consistent(t, adj, flags[..]) && Undecided !in flags[..]
  {
    var frontier, next := frontier0, next0;
    var start, end, frontSize, undecided := 0, 0, 0, undecided0;
    var round := 0;
    while undecided > 0
      invariant (frontier == frontier0 && next == next0) || (frontier == next0 && next == frontier0)
      invariant Arrays(t, flags, frontier, next, buf) && next.Active() == {}
      invariant Head(t, adj, flags[..], frontier.Active(), end) && frontSize == |frontier.Active()|
      invariant start == end && frontSize <= delta
      invariant undecided == multiset(flags[..])[Undecided]
      decreases multiset(flags[..])[Undecided], |t.offsets| - end
    {
      Progress(t, adj, flags[..], frontier.Active(), end);
      var end', decided, frontSize' := Round(t, adj, flags, frontier, next, buf, start, end, delta, frontSize,
                                             window, peer, coalescing, (v: nat, w: nat) => sees(round, v, w));
      start, end := end', end';
      undecided := undecided - decided;
      frontSize := frontSize';
      frontier.Clear();
      frontier, next := next, frontier;
      round := round + 1;
    }
  }

  /**
   * `mis_kernel::operator()`: flag the vertices without edges IN, then run
   * the window loop with `delta = max(1, |V| / divisor)`.  Whatever the
   * interleaving of the pulls, every vertex ends IN or OUT, consistently
   * with its lower-id neighbours, and the IN vertices are exactly the greedy
   * independent set in id order.
   */
  method Run(t: Table, adj: seq<nat>, divisor: nat, edgeWindow: nat, window: nat, peer: Peer, coalescing: bool,
             sees: (nat, nat, nat) -> bool)
    returns (flags: array<Flag>)
    requires Graph(t, adj) && divisor > 0 && window > 0 && Addressable(KernelBufferSize(t, edgeWindow))
    ensures flags.Length == |t.offsets|
    ensures Undecided !in flags[..] && Consistent(t, adj, flags[..])
    ensures forall v :: 0 <= v < flags.Length ==> (flags[v] == In <==> Greedy(t, adj, v))
  {
    var n := |t.offsets|;
    var buf := KernelBuffer(t, edgeWindow);
    var frontier := new Bitmap.Zeroed(n, 1);
    var next := new Bitmap.Zeroed(n, 1);
    flags := new Flag[n](_ => Undecided);
    var delta := Delta(n, divisor);
    var zeros := InitFlags(t, flags);
    var undecided := n - zeros;
    Initially(t, adj, flags[..]);
    Decide(t, adj, flags, frontier, next, buf, delta, undecided, window, peer, coalescing, sees);
    forall v | 0 <= v < flags.Length
      ensures flags[v] == In <==> Greedy(t, adj, v)
    {
      GreedyAt(t, adj, flags[..], v);
    }
  }
}
