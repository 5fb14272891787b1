/**
 * The frontier bitmap `famgraph::Bitmap` (bitmap.hpp): a word array with one
 * bit per vertex and a population counter kept per worker thread.  The
 * model runs one worker at a time; the per-thread counters of
 * `tbb::combinable` become a sequence indexed by thread id.
 */
module Frontier {

  /** Bits per word of `data` (`unsigned long`). */
  const WORD_BITS: nat := 64

  /** `WORD_OFFSET(i)`: the word that holds bit i, which covers ids `64 * w .. 64 * w + 63`. */
  function WordOffset(i: nat): (w: nat)
    ensures w * WORD_BITS <= i < (w + 1) * WORD_BITS
  {
    i / WORD_BITS
  }

  /** `BIT_OFFSET(i)`: the position of bit i inside its word, as a shift amount. */
  function BitOffset(i: nat): (pos: bv7)
    ensures pos < 64 && pos as nat == i % WORD_BITS
  {
    PositionRoundTrip(i % WORD_BITS);
    (i % WORD_BITS) as bv7
  }

  /** A bit position survives the conversion to a shift amount and back. */
  lemma PositionRoundTrip(r: nat)
    requires r < WORD_BITS
    ensures (r as bv7) as nat == r && r as bv7 < 64
  {
    assert (r as bv7) as nat == r;
  }

  /** A word with every bit set, as `set_all` writes it. */
  const ALL_ONES: bv64 := 0xffff_ffff_ffff_ffff

  /** Sum of a sequence of counters (`combine(std::plus)`). */
  function Sum(s: seq<nat>): nat
  {
    if s == [] then 0 else Sum(s[..|s| - 1]) + s[|s| - 1]
  }

  /** A sum of counters is at least each of them, and 0 exactly when they all are. */
  lemma {:induction false} SumBounds(s: seq<nat>)
    ensures forall k :: 0 <= k < |s| ==> s[k] <= Sum(s)
    ensures Sum(s) == 0 <==> forall k :: 0 <= k < |s| ==> s[k] == 0
  {
    if s != [] {
      var front := s[..|s| - 1];
      SumBounds(front);
      assert forall k :: 0 <= k < |front| ==> front[k] == s[k];
    }
  }

  /** The ids `0 .. n-1`. */
  function Below(n: nat): set<nat>
  {
    if n == 0 then {} else Below(n - 1) + {n - 1}
  }

  lemma {:induction false} BelowMembers(n: nat)
    ensures forall i: nat :: i in Below(n) <==> i < n
  {
    if n > 0 {
      BelowMembers(n - 1);
    }
  }

  lemma {:induction false} BelowSize(n: nat)
    ensures |Below(n)| == n
  {
    if n > 0 {
      BelowSize(n - 1);
      BelowMembers(n - 1);
    }
  }

  /** Changing one counter changes the sum by the same amount. */
  lemma {:induction false} SumUpdate(s: seq<nat>, k: nat, x: nat)
    requires k < |s|
    ensures Sum(s[k := x]) + s[k] == Sum(s) + x
    decreases |s|
  {
    var t := s[k := x];
    if k == |s| - 1 {
      assert t[..|t| - 1] == s[..|s| - 1];
    } else {
      assert t[..|t| - 1] == s[..|s| - 1][k := x];
      SumUpdate(s[..|s| - 1], k, x);
    }
  }

  /** A sequence of zeros sums to zero. */
  lemma {:induction false} SumZeros(s: seq<nat>)
    requires forall k :: 0 <= k < |s| ==> s[k] == 0
    ensures Sum(s) == 0
    decreases |s|
  {
    if s != [] {
      SumZeros(s[..|s| - 1]);
    }
  }

  /** Adding an element grows a set by one exactly when it was absent. */
  lemma AddOneCardinality(s: set<nat>, i: nat)
    ensures |s + {i}| == |s| + if i in s then 0 else 1
  {
    if i in s {
      assert s + {i} == s;
    } else {
      assert s !! {i};
    }
  }

  /** Two distinct ids that share a word sit at distinct bit positions. */
  lemma DistinctBitOffsets(i: nat, j: nat)
    requires WordOffset(i) == WordOffset(j) && i != j
    ensures BitOffset(i) != BitOffset(j)
  {
    assert i == WORD_BITS * WordOffset(i) + i % WORD_BITS;
    assert j == WORD_BITS * WordOffset(j) + j % WORD_BITS;
  }

  /** Whether bit `pos` of a word is set. */
  function HasBit(x: bv64, pos: bv7): bool
    requires pos < 64
  {
    x & (1 << pos) != 0
  }

  /** The word with bit `pos` ORed in (`__sync_fetch_and_or`). */
  function WithBit(x: bv64, pos: bv7): bv64
    requires pos < 64
  {
    x | (1 << pos)
  }

  /** ORing in bit a sets bit a and leaves every other bit as it was. */
  lemma WithBitEffect(x: bv64, a: bv7, b: bv7)
    requires a < 64 && b < 64
    ensures HasBit(WithBit(x, a), b) == (a == b || HasBit(x, b))
  {
    if a == b {
      OrSetsBit(x, a);
    } else {
      OrKeepsOtherBits(x, a, b);
    }
  }

  lemma OrKeepsOtherBits(x: bv64, a: bv7, b: bv7)
    requires a < 64 && b < 64 && a != b
    ensures (x | (1 << a)) & (1 << b) == x & (1 << b)
  {
  }

  lemma OrSetsBit(x: bv64, a: bv7)
    requires a < 64
    ensures (x | (1 << a)) & (1 << a) != 0
  {
  }

  /** Bit i of a word array, as `get_bit` reads it. */
  function GetIn(words: seq<bv64>, i: nat): bool
    requires WordOffset(i) < |words|
  {
    HasBit(words[WordOffset(i)], BitOffset(i))
  }

  /** The ids below `size` whose bit is set in `words`. */
  ghost function ActiveIn(words: seq<bv64>, size: nat): set<nat>
    requires WordOffset(size) < |words|
  {
    set i: nat | i < size && GetIn(words, i)
  }

  /** ORing bit i into its word sets bit i and keeps every other bit. */
  lemma OrIntoWords(words: seq<bv64>, i: nat)
    requires WordOffset(i) < |words|
    ensures var after := words[WordOffset(i) := WithBit(words[WordOffset(i)], BitOffset(i))];
      && GetIn(after, i)
      && forall j :: WordOffset(j) < |words| && j != i ==> GetIn(after, j) == GetIn(words, j)
  {
    var w := WordOffset(i);
    var after := words[w := WithBit(words[w], BitOffset(i))];
    forall j | WordOffset(j) < |words| && j != i
      ensures GetIn(after, j) == GetIn(words, j)
    {
      if WordOffset(j) == w {
        DistinctBitOffsets(i, j);
        WithBitEffect(words[w], BitOffset(i), BitOffset(j));
      }
    }
    WithBitEffect(words[w], BitOffset(i), BitOffset(i));
  }

  /** Setting bit i and no other adds exactly i to the active set. */
  lemma ActiveGrowsByOne(words: seq<bv64>, after: seq<bv64>, size: nat, i: nat)
    requires WordOffset(size) < |words| == |after| && i < size
    requires GetIn(after, i)
    requires forall j :: WordOffset(j) < |words| && j != i ==> GetIn(after, j) == GetIn(words, j)
    ensures ActiveIn(after, size) == ActiveIn(words, size) + {i}
  {
    forall j: nat
      ensures j in ActiveIn(after, size) <==> j in ActiveIn(words, size) + {i}
    {
      if j < size {
        assert WordOffset(j) <= WordOffset(size);
      }
    }
  }

  /**
   * ORing bit i into its word sets bit i, keeps every other bit, and so adds
   * exactly i to the active set.
   */
  lemma SetBitInWords(words: seq<bv64>, size: nat, i: nat)
    requires WordOffset(size) < |words| && i < size
    ensures var after := words[WordOffset(i) := WithBit(words[WordOffset(i)], BitOffset(i))];
      && GetIn(after, i)
      && (forall j :: 0 <= j < size && j != i ==> GetIn(after, j) == GetIn(words, j))
      && ActiveIn(after, size) == ActiveIn(words, size) + {i}
  {
    assert WordOffset(i) <= WordOffset(size);
    OrIntoWords(words, i);
    var after := words[WordOffset(i) := WithBit(words[WordOffset(i)], BitOffset(i))];
    ActiveGrowsByOne(words, after, size, i);
    forall j | 0 <= j < size && j != i
      ensures GetIn(after, j) == GetIn(words, j)
    {
      assert WordOffset(j) <= WordOffset(size);
    }
  }

  /** A word of all ones has every bit set; the zero word has none. */
  lemma FullAndEmptyWords(pos: bv7)
    requires pos < 64
    ensures HasBit(ALL_ONES, pos) && !HasBit(0, pos)
  {
  }

  class Bitmap {
    /** Number of vertices the bitmap covers. */
    const size: nat
    /** `WORD_OFFSET(size) + 1` words. */
    const data: array<bv64>
    /** The per-thread population counters; the population is their sum. */
    var counters: seq<nat>

    /** The word array has one word per 64 ids, plus one. */
    predicate Sized()
    {
      data.Length == WordOffset(size) + 1
    }

    ghost predicate Valid()
      reads this
    {
      Sized() && |counters| > 0
    }

    /** `get_bit(i)`: whether vertex i is in the set. */
    function Get(i: nat): (b: bool)
      reads data
      requires Sized() && i < size
      ensures b <==> i in Active()
    {
      GetIn(data[..], i)
    }

    /** The bits of vertices `0 .. size-1`, as `get_bit` reads them. */
    function Bits(): (r: seq<bool>)
      reads data
      requires Sized()
      ensures |r| == size && forall i :: 0 <= i < size ==> r[i] == Get(i)
    {
      var words := data[..];
      seq(size, i requires 0 <= i < size => GetIn(words, i))
    }

    /** The set of vertices whose bit is set. */
    ghost function Active(): set<nat>
      reads data
      requires Sized()
    {
      ActiveIn(data[..], size)
    }

    /**
     * `num_set()`: the population, as the counters report it: at least
     * each thread's count, and 0 exactly when every count is.
     */
    function NumSet(): (n: nat)
      reads this
      ensures forall k :: 0 <= k < |counters| ==> counters[k] <= n
      ensures n == 0 <==> forall k :: 0 <= k < |counters| ==> counters[k] == 0
    {
      SumBounds(counters);
      Sum(counters)
    }

    /** `is_empty()`: no thread has counted a vertex. */
    function IsEmpty(): (e: bool)
      reads this
      ensures e <==> forall k :: 0 <= k < |counters| ==> counters[k] == 0
    {
      NumSet() == 0
    }

    /** The counters agree with the bits. */
    ghost predicate Counted()
      reads this, data
      requires Valid()
    {
      NumSet() == |Active()|
    }

    /**
     * The constructor allocates `WORD_OFFSET(size) + 1` words and starts
     * with no counts; like `new unsigned long[n]`, it leaves the words
     * themselves unspecified.
     */
    constructor (t_size: nat, threads: nat)
      requires threads > 0
      ensures Valid() && fresh(data)
      ensures size == t_size && counters == seq(threads, _ => 0) && NumSet() == 0
    {
      size := t_size;
      data := new bv64[WordOffset(t_size) + 1];
      counters := seq(threads, _ => 0);
      new;
      SumZeros(counters);
    }

    /**
     * The constructor with its words value-initialised, as
     * `new unsigned long[n]()` would allocate them: no bit is set and the
     * counters agree with the bits from the start.
     */
    constructor Zeroed(t_size: nat, threads: nat)
      requires threads > 0
      ensures Valid() && fresh(data)
      ensures size == t_size && counters == seq(threads, _ => 0)
      ensures Active() == {} && IsEmpty() && Counted()
    {
      size := t_size;
      data := new bv64[WordOffset(t_size) + 1](_ => 0);
      counters := seq(threads, _ => 0);
      new;
      SumZeros(counters);
      forall i | 0 <= i < size
        ensures !Get(i)
      {
        FullAndEmptyWords(BitOffset(i));
      }
      assert Active() == {};
    }

    /**
     * `__sync_fetch_and_or` on the word of i: ORs in the mask of i and
     * reports whether the bit was clear before.
     */
    method FetchOrBit(i: nat) returns (wasUnset: bool)
      requires Sized() && i < size
      modifies data
      ensures wasUnset == !old(Get(i))
      ensures data[..] == old(data[..])[WordOffset(i) := WithBit(old(data[WordOffset(i)]), BitOffset(i))]
      ensures Get(i)
      ensures Active() == old(Active()) + {i}
    {
      var w := WordOffset(i);
      var prev := data[w];
      SetBitInWords(data[..], size, i);
      data[w] := WithBit(prev, BitOffset(i));
      wasUnset := !HasBit(prev, BitOffset(i));
      assert data[..] == old(data[..])[w := WithBit(prev, BitOffset(i))];
    }

    /**
     * `set_bit(i)` as thread `tid`: sets the bit of i and, when it was clear
     * before, counts one more vertex in the caller's counter.
     */
    method SetBit(i: nat, tid: nat) returns (wasUnset: bool)
      requires Valid() && i < size && tid < |counters|
      modifies this`counters, data
      ensures Valid()
      ensures wasUnset == !old(Get(i))
      ensures Get(i)
      ensures Active() == old(Active()) + {i}
      ensures wasUnset ==> counters == old(counters)[tid := old(counters[tid]) + 1]
      ensures !wasUnset ==> counters == old(counters)
      ensures NumSet() == old(NumSet()) + if wasUnset then 1 else 0
      ensures old(Counted()) ==> Counted()
    {
      wasUnset := FetchOrBit(i);
      assert counters == old(counters);
      ghost var active := Active();
      AddOneCardinality(old(Active()), i);
      if wasUnset {
        CountOne(tid);
      }
      assert Active() == active;
    }

    /** `frontier_size.local()++` for thread `tid`. */
    method CountOne(tid: nat)
      requires tid < |counters|
      modifies this`counters
      ensures counters == old(counters)[tid := old(counters[tid]) + 1]
      ensures NumSet() == old(NumSet()) + 1
    {
      counters := counters[tid := counters[tid] + 1];
      SumUpdate(old(counters), tid, counters[tid]);
    }

    /** `clear()`: zeroes every word and drops every thread's count. */
    method Clear()
      requires Valid()
      modifies this`counters, data
      ensures Valid()
      ensures forall w :: 0 <= w < data.Length ==> data[w] == 0
      ensures |counters| == old(|counters|) && forall k :: 0 <= k < |counters| ==> counters[k] == 0
      ensures Active() == {}
      ensures NumSet() == 0 && IsEmpty()
      ensures Counted()
    {
      var w := 0;
      while w < data.Length
        invariant 0 <= w <= data.Length
        invariant counters == old(counters)
        invariant forall u :: 0 <= u < w ==> data[u] == 0
      {
        data[w] := 0;
        w := w + 1;
      }
      counters := seq(|counters|, _ => 0);
      SumZeros(counters);
      forall i | 0 <= i < size
        ensures !Get(i)
      {
        FullAndEmptyWords(BitOffset(i));
      }
      assert Active() == {};
    }

    /**
     * `set_all()` as thread `tid`: fills every word with ones and sets only
     * the caller's counter to `size`.  The population equals `size` only when
     * the other counters were already zero.
     */
    method SetAll(tid: nat)
      requires Valid() && tid < |counters|
      modifies this`counters, data
      ensures Valid()
      ensures forall w :: 0 <= w < data.Length ==> data[w] == ALL_ONES
      ensures forall i :: 0 <= i < size ==> Get(i)
      ensures Active() == Below(size) && |Active()| == size
      ensures counters == old(counters)[tid := size]
      ensures NumSet() + old(counters[tid]) == old(NumSet()) + size
      ensures old(NumSet()) == 0 ==> NumSet() == size && Counted()
    {
      var w := 0;
      while w < data.Length
        invariant 0 <= w <= data.Length
        invariant counters == old(counters)
        invariant forall u :: 0 <= u < w ==> data[u] == ALL_ONES
      {
        data[w] := ALL_ONES;
        w := w + 1;
      }
      SumUpdate(counters, tid, size);
      counters := counters[tid := size];
      forall i | 0 <= i < size
        ensures Get(i)
      {
        FullAndEmptyWords(BitOffset(i));
      }
      BelowMembers(size);
      BelowSize(size);
      assert Active() == Below(size);
      if old(NumSet()) == 0 {
        assert old(counters[tid]) <= old(NumSet()) by {
          SumUpdate(old(counters), tid, 0);
        }
      }
    }
  }

  /**
   * Set twice in a row, a bit reports a new activation only the first time,
   * and the population grows by one at most.
   */
  method SetTwice(b: Bitmap, i: nat, tid: nat) returns (first: bool, second: bool)
    requires b.Valid() && i < b.size && tid < |b.counters|
    modifies b`counters, b.data
    ensures first == !old(b.Get(i)) && !second
    ensures b.NumSet() == old(b.NumSet()) + if first then 1 else 0
  {
    first := b.SetBit(i, tid);
    second := b.SetBit(i, tid);
  }

  /**
   * The plain constructor promises nothing about the words.  A bitmap whose
   * first word was left holding 1 by the allocator reports vertex 0 as set
   * while its population is 0: bits and counters disagree before any
   * `set_bit` or `clear` has run.
   */
  lemma StaleWordBreaksCount(b: Bitmap)
    requires b.Valid() && b.size > 0 && b.data[0] == 1 && b.NumSet() == 0
    ensures b.Get(0) && b.IsEmpty() && !b.Counted()
  {
    assert 0 in b.Active();
  }

  /** With counters that agree with the bits, `is_empty()` holds iff no bit is set. */
  lemma EmptyIffNoneActive(b: Bitmap)
    requires b.Valid() && b.Counted()
    ensures b.IsEmpty() <==> b.Active() == {}
  {
  }
}
