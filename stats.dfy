/**
 * Per-round statistics (`stats.hpp`).  Every worker thread keeps its own
 * spin time, function time and (work requests, vertices, sends) tally; at
 * the end of a round `clear_stats_round` folds each thread's counters into
 * the run totals and zeroes them.  `timespec_diff` subtracts two clock
 * readings with a borrow from the seconds.
 */
module Stats {
  import opened Csr

  /** Nanoseconds per second. */
  const NANOS: int := 1_000_000_000

  /** One thread's `(wrs, verts, sends)` tuple of `unsigned int`s. */
  datatype Tally = Tally(wrs: nat, verts: nat, sends: nat)

  /** The tally every thread starts a round with. */
  const Idle := Tally(0, 0, 0)

  predicate Word(x: int) { 0 <= x < UINT32_LIMIT }

  predicate TallyWords(c: Tally) { Word(c.wrs) && Word(c.verts) && Word(c.sends) }

  /** The sum of a sequence, folded from the front. */
  function Sum(xs: seq<int>): int
  {
    if |xs| == 0 then 0 else Sum(xs[..|xs| - 1]) + xs[|xs| - 1]
  }

  /** The three components of a tally. */
  datatype Column = WrsColumn | VertsColumn | SendsColumn

  function Get(c: Tally, col: Column): nat
  {
    match col
    case WrsColumn => c.wrs
    case VertsColumn => c.verts
    case SendsColumn => c.sends
  }

  /** The sum of one component over a sequence of tallies. */
  function Total(cs: seq<Tally>, col: Column): int
  {
    if |cs| == 0 then 0 else Total(cs[..|cs| - 1], col) + Get(cs[|cs| - 1], col)
  }

  /** `n` zeroes. */
  function Zeros(n: nat): (z: seq<int>)
    ensures |z| == n && forall i :: 0 <= i < n ==> z[i] == 0
  {
    seq(n, _ => 0)
  }

  /** The sum of a sequence of zeroes is zero. */
  lemma {:induction false} SumZeros(xs: seq<int>)
    requires forall i :: 0 <= i < |xs| ==> xs[i] == 0
    ensures Sum(xs) == 0
  {
    if |xs| > 0 {
      SumZeros(xs[..|xs| - 1]);
    }
  }

  /** Summing a prefix one element further adds that element. */
  lemma SumStep(xs: seq<int>, i: nat)
    requires i < |xs|
    ensures Sum(xs[..i + 1]) == Sum(xs[..i]) + xs[i]
  {
    assert xs[..i + 1][..i] == xs[..i];
  }

  /** Adding into an `unsigned int` wraps modulo 2^32 at every step or once at the end alike. */
  lemma WrapAdd(a: int, b: int)
    ensures (a % UINT32_LIMIT + b) % UINT32_LIMIT == (a + b) % UINT32_LIMIT
  {
    var q := a / UINT32_LIMIT;
    assert a == q * UINT32_LIMIT + a % UINT32_LIMIT;
    assert a + b == (a % UINT32_LIMIT + b) + q * UINT32_LIMIT;
  }

  /** One step of a wrapping 32-bit accumulation of one column of `cs`, started from `base`. */
  lemma WrapStep(cs: seq<Tally>, col: Column, i: nat, base: int, acc: int)
    requires i < |cs| && acc == (base + Total(cs[..i], col)) % UINT32_LIMIT
    ensures (acc + Get(cs[i], col)) % UINT32_LIMIT == (base + Total(cs[..i + 1], col)) % UINT32_LIMIT
  {
    assert cs[..i + 1][..i] == cs[..i];
    WrapAdd(base + Total(cs[..i], col), Get(cs[i], col));
  }

  /** Idle tallies add nothing to any column. */
  lemma {:induction false} TotalIdle(cs: seq<Tally>, col: Column)
    requires forall i :: 0 <= i < |cs| ==> cs[i] == Idle
    ensures Total(cs, col) == 0
  {
    if |cs| > 0 {
      TotalIdle(cs[..|cs| - 1], col);
    }
  }

  /**
   * `FG_stats`: the per-thread counters (one array slot per thread) and the
   * run totals.  The spin and function times are `long`s; the tally
   * totals are `unsigned int`s.
   */
  class RoundStats {
    var spin: array<int>
    var work: array<int>
    var tallies: array<Tally>
    var totalSpin: int
    var totalWork: int
    var wrs: nat
    var verts: nat
    var sends: nat

    ghost predicate Valid()
      reads this, tallies
    {
      && spin != work
      && spin as object != tallies as object && work as object != tallies as object
      && spin.Length == work.Length == tallies.Length
      && Word(wrs) && Word(verts) && Word(sends)
      && forall i :: 0 <= i < tallies.Length ==> TallyWords(tallies[i])
    }

    /** Every thread's counters are zero, as after `clear_stats_round`. */
    ghost predicate Quiet()
      reads this, spin, work, tallies
    {
      && (forall i :: 0 <= i < spin.Length ==> spin[i] == 0)
      && (forall i :: 0 <= i < work.Length ==> work[i] == 0)
      && (forall i :: 0 <= i < tallies.Length ==> tallies[i] == Idle)
    }

    /** A fresh statistics record for `threads` workers: everything zero. */
    constructor (threads: nat)
      ensures Valid() && Quiet() && fresh(spin) && fresh(work) && fresh(tallies)
      ensures spin.Length == threads
      ensures totalSpin == 0 && totalWork == 0 && wrs == 0 && verts == 0 && sends == 0
    {
      spin := new int[threads](_ => 0);
      work := new int[threads](_ => 0);
      tallies := new Tally[threads](_ => Idle);
      totalSpin, totalWork := 0, 0;
      wrs, verts, sends := 0, 0, 0;
    }

    /**
     * `clear_stats_round`: each thread's spin and function time is added
     * to the run total and zeroed, and each thread's tally is added
     * component by component to the 32-bit totals (which wrap) and zeroed.
     * Nothing counted is lost: a total plus the still-pending per-thread
     * counters is the same before and after.
     */
    method ClearRound()
      requires Valid()
      modifies this, spin, work, tallies
      ensures Valid() && Quiet()
      ensures spin == old(spin) && work == old(work) && tallies == old(tallies)
      ensures totalSpin == old(totalSpin) + Sum(old(spin[..]))
      ensures totalWork == old(totalWork) + Sum(old(work[..]))
      ensures wrs == (old(wrs) + Total(old(tallies[..]), WrsColumn)) % UINT32_LIMIT
      ensures verts == (old(verts) + Total(old(tallies[..]), VertsColumn)) % UINT32_LIMIT
      ensures sends == (old(sends) + Total(old(tallies[..]), SendsColumn)) % UINT32_LIMIT
      ensures totalSpin + Sum(spin[..]) == old(totalSpin + Sum(spin[..]))
      ensures totalWork + Sum(work[..]) == old(totalWork + Sum(work[..]))
    {
      FoldTimes(spin, true);
      FoldTimes(work, false);
      FoldTallies();
      SumZeros(spin[..]);
      SumZeros(work[..]);
    }

    /** The first two loops of `clear_stats_round`, over one of the time counters. */
    method FoldTimes(times: array<int>, isSpin: bool)
      requires Valid() && times == (if isSpin then spin else work)
      modifies this`totalSpin, this`totalWork, times
      ensures Valid()
      ensures forall i :: 0 <= i < times.Length ==> times[i] == 0
      ensures isSpin ==> totalSpin == old(totalSpin) + Sum(old(times[..])) && totalWork == old(totalWork)
      ensures !isSpin ==> totalWork == old(totalWork) + Sum(old(times[..])) && totalSpin == old(totalSpin)
    {
      ghost var before := times[..];
      var i := 0;
      while i < times.Length
        invariant 0 <= i <= times.Length
        invariant forall k :: 0 <= k < i ==> times[k] == 0
        invariant forall k :: i <= k < times.Length ==> times[k] == before[k]
        invariant isSpin ==> totalSpin == old(totalSpin) + Sum(before[..i]) && totalWork == old(totalWork)
        invariant !isSpin ==> totalWork == old(totalWork) + Sum(before[..i]) && totalSpin == old(totalSpin)
      {
        SumStep(before, i);
        if isSpin {
          totalSpin := totalSpin + times[i];
        } else {
          totalWork := totalWork + times[i];
        }
        times[i] := 0;
        i := i + 1;
      }
      assert before[..i] == before;
    }

    /** The third loop of `clear_stats_round`, over the `(wrs, verts, sends)` tallies. */
    method FoldTallies()
      requires Valid()
      modifies this`wrs, this`verts, this`sends, tallies
      ensures Valid()
      ensures forall i :: 0 <= i < tallies.Length ==> tallies[i] == Idle
      ensures wrs == (old(wrs) + Total(old(tallies[..]), WrsColumn)) % UINT32_LIMIT
      ensures verts == (old(verts) + Total(old(tallies[..]), VertsColumn)) % UINT32_LIMIT
      ensures sends == (old(sends) + Total(old(tallies[..]), SendsColumn)) % UINT32_LIMIT
    {
      ghost var before := tallies[..];
      ghost var base := Tally(wrs, verts, sends);
      var i := 0;
      while i < tallies.Length
        invariant Folding(before, base, i)
      {
        FoldTally(before, base, i);
        i := i + 1;
      }
      assert before[..i] == before;
    }

    /**
     * The third loop's invariant after `i` threads: their tallies are
     * zeroed and added, with wrap-around, to the totals that stood at
     * `base`; the rest are as they were.
     */
    ghost predicate Folding(before: seq<Tally>, base: Tally, i: nat)
      reads this, tallies
    {
      && Valid() && |before| == tallies.Length && i <= |before|
      && (forall k :: 0 <= k < i ==> tallies[k] == Idle)
      && (forall k :: i <= k < |before| ==> tallies[k] == before[k])
      && wrs == (base.wrs + Total(before[..i], WrsColumn)) % UINT32_LIMIT
      && verts == (base.verts + Total(before[..i], VertsColumn)) % UINT32_LIMIT
      && sends == (base.sends + Total(before[..i], SendsColumn)) % UINT32_LIMIT
    }

    /** One iteration of the third loop: fold thread i's tally. */
    method FoldTally(ghost before: seq<Tally>, ghost base: Tally, i: nat)
      requires Folding(before, base, i) && i < tallies.Length
      modifies this`wrs, this`verts, this`sends, tallies
      ensures Folding(before, base, i + 1)
    {
      var c := tallies[i];
      WrapStep(before, WrsColumn, i, base.wrs, wrs);
      WrapStep(before, VertsColumn, i, base.verts, verts);
      WrapStep(before, SendsColumn, i, base.sends, sends);
      wrs := (wrs + c.wrs) % UINT32_LIMIT;
      verts := (verts + c.verts) % UINT32_LIMIT;
      sends := (sends + c.sends) % UINT32_LIMIT;
      tallies[i] := Idle;
    }
  }

  /**
   * Clearing twice in a row is clearing once: after a clear every
   * per-thread counter is zero, so a second fold adds nothing to any
   * total.
   */
  lemma ClearIdempotent(spin: seq<int>, work: seq<int>, tallies: seq<Tally>, wrs: nat)
    requires (forall i :: 0 <= i < |spin| ==> spin[i] == 0) && (forall i :: 0 <= i < |work| ==> work[i] == 0)
    requires forall i :: 0 <= i < |tallies| ==> tallies[i] == Idle
    requires Word(wrs)
    ensures Sum(spin) == 0 && Sum(work) == 0
    ensures (wrs + Total(tallies, WrsColumn)) % UINT32_LIMIT == wrs
    ensures Total(tallies, VertsColumn) == 0 && Total(tallies, SendsColumn) == 0
  {
    SumZeros(spin);
    SumZeros(work);
    TotalIdle(tallies, WrsColumn);
    TotalIdle(tallies, VertsColumn);
    TotalIdle(tallies, SendsColumn);
  }

  /** A `timespec`: seconds and nanoseconds, both signed. */
  datatype Timespec = Timespec(sec: int, nsec: int)

  /** A reading whose nanoseconds lie in `[0, 1e9)`, as `clock_gettime` returns. */
  predicate Normal(x: Timespec) { 0 <= x.nsec < NANOS }

  /** The instant a reading denotes, in nanoseconds. */
  function Nanos(x: Timespec): int { x.sec * NANOS + x.nsec }

  /**
   * `timespec_diff`: `a - b`, borrowing one second when the nanoseconds
   * go negative.  The result denotes exactly the difference of the two
   * instants, and is normal when both inputs are.
   */
  method TimespecDiff(a: Timespec, b: Timespec) returns (r: Timespec)
    ensures Nanos(r) == Nanos(a) - Nanos(b)
    ensures Normal(a) && Normal(b) ==> Normal(r)
    ensures a.nsec >= b.nsec ==> r.nsec == a.nsec - b.nsec
  {
    r := Timespec(a.sec - b.sec, a.nsec - b.nsec);
    if r.nsec < 0 {
      r := r.(sec := r.sec - 1);
      r := r.(nsec := r.nsec + NANOS);
    }
  }

  /**
   * A normal reading is the only normal reading of its instant, so the
   * result of `timespec_diff` on normal inputs is the canonical form of
   * the difference.
   */
  lemma NormalUnique(x: Timespec, y: Timespec)
    requires Normal(x) && Normal(y) && Nanos(x) == Nanos(y)
    ensures x == y
  {
  }
}
