/** The first packed-memory-array draft (impl1.cpp): a sorted array with gaps,
    made of a value store and a per-slot existence mask, cut into segments of
    `segmentSize` slots; windows of `segmentSize << level` slots are
    rebalanced when an insertion finds no free slot next to its predecessor. */
module SegmentedPma {
  import opened Slots

  // =====================================================================
  // Density model

  /** VAL_T_0: the upper density threshold of a single segment. */
  const T0: real := 1.0
  /** VAL_T_L: the upper density threshold of the whole store. */
  const TL: real := 0.5

  /** `segment_size << level`: the number of slots in a window at `level`. */
  function CapacityAt(segmentSize: nat, level: nat): (c: nat)
    ensures 1 <= segmentSize ==> segmentSize <= c
  {
    MulMonotone(1, Pow2(level), segmentSize);
    segmentSize * Pow2(level)
  }

  /** Upper threshold at `level`: linear from T0 at level 0 down to TL at level l. */
  function UpperThresholdAt(l: nat, level: nat): (t: real)
    requires 0 < l && level <= l
    ensures TL <= t <= T0
    ensures level == 0 ==> t == T0
    ensures level == l ==> t == TL
  {
    assert (level as real) / (l as real) <= 1.0;
    T0 - ((T0 - TL) * level as real) / (l as real)
  }

  /** A window at `level` holding `nElems` elements is too full when
      nElems > floor(threshold(level) * capacity(level)). */
  predicate IsOutOfBalance(segmentSize: nat, l: nat, nElems: int, level: nat): (r: bool)
    requires 0 < l && level <= l
    ensures nElems <= 0 ==> !r
    ensures nElems > CapacityAt(segmentSize, level) ==> r
  {
    var c := CapacityAt(segmentSize, level);
    ThresholdTimesCapacity(l, level, c);
    FloorOfQuotient(c * (2 * l - level), 2 * l);
    AllowedAtMost(c, 2 * l, 2 * l - level);
    (UpperThresholdAt(l, level) * CapacityAt(segmentSize, level) as real).Floor < nElems
  }

  /** floor(threshold(level) * capacity(level)) in exact integer arithmetic. */
  function Allowed(segmentSize: nat, l: nat, level: nat): (r: int)
    requires 0 < l && level <= l
    ensures 0 <= r <= CapacityAt(segmentSize, level)
  {
    AllowedAtMost(CapacityAt(segmentSize, level), 2 * l, 2 * l - level);
    CapacityAt(segmentSize, level) * (2 * l - level) / (2 * l)
  }

  lemma FloorOfQuotient(a: int, b: int)
    requires a >= 0 && b > 0
    ensures (a as real / b as real).Floor == a / b
  {
    var q, r := a / b, a % b;
    assert a == q * b + r;
    assert a as real / b as real == q as real + r as real / b as real;
    assert 0.0 <= r as real / b as real < 1.0;
  }

  /** threshold(level) * c as one rational: c * (2l - level) / (2l). */
  lemma ThresholdTimesCapacity(l: nat, level: nat, c: nat)
    requires 0 < l && level <= l
    ensures UpperThresholdAt(l, level) * c as real == (c * (2 * l - level)) as real / (2 * l) as real
  {
    var L, V, C := l as real, level as real, c as real;
    assert UpperThresholdAt(l, level) == 1.0 - (0.5 * V) / L;
    assert (1.0 - (0.5 * V) / L) * C == (2.0 * L * C - V * C) / (2.0 * L);
    assert (c * (2 * l - level)) as real == 2.0 * L * C - V * C;
  }

  /** The density test in exact arithmetic: the allowed occupancy is
      capacity * (2l - level) / (2l), all of the segment at level 0 and half
      of the store at level l, and never more than the window holds. */
  lemma OutOfBalanceExact(segmentSize: nat, l: nat, nElems: int, level: nat)
    requires 0 < l && level <= l
    ensures IsOutOfBalance(segmentSize, l, nElems, level) <==> nElems > Allowed(segmentSize, l, level)
    ensures 0 <= Allowed(segmentSize, l, level) <= CapacityAt(segmentSize, level)
    ensures level == 0 ==> Allowed(segmentSize, l, level) == segmentSize
    ensures level == l ==> Allowed(segmentSize, l, level) == CapacityAt(segmentSize, level) / 2
  {
    var c := CapacityAt(segmentSize, level);
    ThresholdTimesCapacity(l, level, c);
    FloorOfQuotient(c * (2 * l - level), 2 * l);
    AllowedBounds(c, l, level);
  }

  lemma AllowedBounds(c: nat, l: nat, level: nat)
    requires 0 < l && level <= l
    ensures 0 <= c * (2 * l - level) / (2 * l) <= c
    ensures level == 0 ==> c * (2 * l - level) / (2 * l) == c
    ensures level == l ==> c * (2 * l - level) / (2 * l) == c / 2
  {
    var m, d := 2 * l, 2 * l - level;
    AllowedAtMost(c, m, d);
    if level == 0 {
      DivModUnique(c * d, m, c, 0);
    }
    if level == l {
      AllowedHalf(c, l);
    }
  }

  lemma AllowedAtMost(c: nat, m: nat, d: nat)
    requires 0 < m && d <= m
    ensures 0 <= c * d / m <= c
  {
    MulMonotone(d, m, c);
    assert c * d < (c + 1) * m;
    DivAtMost(c * d, m, c);
  }

  lemma AllowedHalf(c: nat, l: nat)
    requires 0 < l
    ensures c * l / (2 * l) == c / 2
  {
    var h, r := c / 2, c % 2;
    assert c * l == (h * 2 + r) * l;
    assert c * l == h * (2 * l) + r * l;
    DivModUnique(c * l, 2 * l, h, r * l);
  }

  /** The fast path of `insert_element_after` makes no density test. From
      the constructor's store [e, -] (one-slot segments, l = 1), a value
      x >= e has its predecessor in slot 0, so the fast path fills the free
      slot 1; the level-1 window, which is the whole store, then holds two
      values where its threshold allows one. */
  lemma FastPathOverfills(e: int, x: int, v1: int)
    requires e <= x
    ensures LastAtMost([e, v1], [true, false], 0, 2, x) == 0
    ensures Count([true, false][1 := true], 0, 2) == 2
    ensures Allowed(1, 1, 1) == 1 && IsOutOfBalance(1, 1, 2, 1)
  {
    OutOfBalanceExact(1, 1, 2, 1);
  }

  // =====================================================================
  // Geometry

  lemma {:induction false} Pow2AboveExponent(k: nat)
    ensures Pow2(k) >= k + 1
  {
    if k > 0 { Pow2AboveExponent(k - 1); }
  }

  /** `segment_size` for a store of 2^log2n slots, log2n rounded up to a
      power of two as the class comment promises: log2n itself when it is a
      power of two (the constructor's branch), otherwise
      `1 << floor(log2(log2n << 1))` (the branch of `expand_PMA`). The
      constructor's own other branch, `floor(log2(1 << (log2n + 1)))`, is
      log2n + 1, which it never reaches since it only sees log2n = 1. */
  function SegmentSizeFor(log2n: nat): (g: nat)
    requires log2n >= 1
    ensures IsPow2(g) && log2n <= g
    ensures 1 <= log2n - Log2(g)
  {
    if IsPow2(log2n) then
      Pow2AboveExponent(Log2(log2n));
      log2n
    else
      var j := Log2(2 * log2n);
      Log2OfPow2(j);
      assert Log2(log2n) + 1 == j;
      Pow2AboveExponent(Log2(log2n));
      Pow2(j)
  }

  /** `l = log2n - log2(segment_size)`: the number of levels above a segment. */
  function LevelsFor(log2n: nat): (l: nat)
    requires log2n >= 1
    ensures 1 <= l
    ensures CapacityAt(SegmentSizeFor(log2n), l) == Pow2(log2n)
  {
    var g := SegmentSizeFor(log2n);
    Pow2Add(Log2(g), log2n - Log2(g));
    log2n - Log2(g)
  }

  /** The geometry lines of `expand_PMA` with `SegmentSizeFor` as the
      segment size (log2n itself for a power of two, as the constructor has
      it; `expand_PMA`'s own rounding otherwise): log2n is the popcount of
      size - 1, which for size = 2^k is k. */
  method SegmentGeometry(size: int, ghost k: nat) returns (g: nat, lv: nat)
    requires k >= 1 && size == Pow2(k)
    ensures g == SegmentSizeFor(k) && lv == LevelsFor(k)
    ensures IsPow2(g) && k <= g && CapacityAt(g, lv) == size
  {
    var log2n := PopCount(size - 1);
    PopCountAllOnes(k);
    g, lv := SegmentSizeFor(log2n), LevelsFor(log2n);
  }

  /** `segment_size` as `expand_PMA` recomputes it: `1 << log2n` when log2n
      is a power of two, where the constructor takes log2n itself. */
  function ExpandSegmentSizeAsWritten(log2n: nat): (g: nat)
    requires log2n >= 1
    ensures IsPow2(g)
  {
    Log2OfPow2(log2n);
    Log2OfPow2(Log2(2 * log2n));
    if IsPow2(log2n) then Pow2(log2n) else Pow2(Log2(2 * log2n))
  }

  /** With that segment size a store of 2^log2n slots, log2n a power of two
      (4 slots after the first doubling, log2n = 2), is a single segment and
      `l = log2n - log2(segment_size)` is 0: `upper_threshold_at` then
      divides by l. */
  lemma ExpandLevelsVanishAsWritten(log2n: nat)
    requires log2n >= 1 && IsPow2(log2n)
    ensures ExpandSegmentSizeAsWritten(log2n) == Pow2(log2n)
    ensures log2n - Log2(ExpandSegmentSizeAsWritten(log2n)) == 0
  {
    Log2OfPow2(log2n);
  }

  // =====================================================================
  // Positions of a rebalanced window

  /** Slot offset, within a window of c slots, of the j-th (0-based) of m
      elements: floor((j + 1) * c / m) - 1, the source's `index + (int)p - 1`
      with p accumulating c / m. */
  function SpreadSlot(j: int, c: int, m: int): (r: int)
    requires m > 0
    ensures 0 < m <= c && 0 <= j < m ==> 0 <= r <= c - m + j
    ensures 0 < m <= c && j == m - 1 ==> r == c - 1
  {
    if 0 < m <= c && 0 <= j < m then
      SpreadOffsetBounds(j, c, m);
      (j + 1) * c / m - 1
    else
      (j + 1) * c / m - 1
  }

  /** The j-th offset lies in the window and leaves room for the m - 1 - j
      elements after it; the last one takes the window's last slot. */
  lemma SpreadOffsetBounds(j: int, c: int, m: int)
    requires 0 < m <= c && 0 <= j < m
    ensures 0 <= (j + 1) * c / m - 1 <= c - m + j
    ensures j == m - 1 ==> (j + 1) * c / m - 1 == c - 1
  {
    MulMonotone(1, j + 1, c);
    MulMonotone(m, c, 1);
    DivAtLeast((j + 1) * c, m, 1);
    // (j + 1) * c <= (c - m + j + 1) * m, since the difference is (c - m) * (m - j - 1)
    assert (c - m + j + 1) * m - (j + 1) * c == (c - m) * (m - j - 1);
    MulMonotone(0, c - m, m - j - 1);
    DivAtMost((j + 1) * c, m, c - m + j + 1);
    if j == m - 1 {
      DivModUnique(m * c, m, c, 0);
    }
  }

  lemma SpreadSlotIncreasing(i: int, j: int, c: int, m: int)
    requires 0 < m <= c && 0 <= i < j < m
    ensures SpreadSlot(i, c, m) < SpreadSlot(j, c, m)
  {
    assert (j + 1) * c == (i + 1) * c + (j - i) * c;
    MulMonotone(1, j - i, c);
    DivAddLower((i + 1) * c, (j - i) * c, m);
    DivAtLeast((j - i) * c, m, 1);
  }

  /** The running numerator: after p == j * c, adding c once more lands on the
      offset of the j-th element. */
  lemma SpreadNumerator(p: int, j: int, c: int, m: int)
    requires m > 0 && p == j * c
    ensures p + c == (j + 1) * c && (p + c) / m - 1 == SpreadSlot(j, c, m)
  {
  }

  /** The first offset not yet used after placing j elements. */
  function SpreadLow(j: int, c: int, m: int): int
    requires m > 0
  {
    if j == 0 then 0 else SpreadSlot(j - 1, c, m) + 1
  }

  /** The window [lo, lo + c) lists xs, and its j-th value sits at offset
      SpreadSlot(j, c, |xs|). */
  ghost predicate EvenlySpread(vals: seq<int>, ex: seq<bool>, lo: int, c: int, xs: seq<int>)
    requires |vals| == |ex| && 0 <= lo && 0 < |xs| <= c && lo + c <= |ex|
  {
    Present(vals, ex, lo, lo + c) == xs
    && forall j :: 0 <= j < |xs| ==>
      0 <= SpreadSlot(j, c, |xs|) < c && HoldsAt(vals, ex, lo + SpreadSlot(j, c, |xs|), xs[j])
  }

  /** Slots outside [lo, hi) hold the same flags and values in both snapshots. */
  ghost predicate SameOutsideOf(v: seq<int>, f: seq<bool>, v0: seq<int>, f0: seq<bool>, lo: int, hi: int)
  {
    |v| == |f| == |v0| == |f0|
    && forall k :: 0 <= k < |f0| && !(lo <= k < hi) ==> f[k] == f0[k] && v[k] == v0[k]
  }

  /** The copy-back of a rebalance after j of the values xs are placed: they
      sit at their offsets, the rest of the window from SpreadLow(j) on is
      free, and nothing outside the window changed. */
  ghost predicate Spreading(v: seq<int>, f: seq<bool>, v0: seq<int>, f0: seq<bool>, lo: int, c: int, xs: seq<int>, j: int)
    requires |v| == |f| && 0 <= lo && 0 < |xs| <= c && lo + c <= |f| && 0 <= j <= |xs|
  {
    SameOutsideOf(v, f, v0, f0, lo, lo + c)
    && Present(v, f, lo, lo + c) == xs[..j]
    && (forall k :: lo + SpreadLow(j, c, |xs|) <= k < lo + c ==> !f[k])
    && forall i :: 0 <= i < j ==>
      0 <= SpreadSlot(i, c, |xs|) < c && HoldsAt(v, f, lo + SpreadSlot(i, c, |xs|), xs[i])
  }


  lemma SpreadStart(v: seq<int>, f: seq<bool>, lo: int, c: int, xs: seq<int>)
    requires |v| == |f| && 0 <= lo && 0 < |xs| <= c && lo + c <= |f|
    requires forall k :: lo <= k < lo + c ==> !f[k]
    ensures Spreading(v, f, v, f, lo, c, xs, 0)
  {
    PresentNone(v, f, lo, lo + c);
  }

  /** Placing the j-th value at offset SpreadSlot(j) fills a free slot and
      keeps the copy-back going. */
  lemma SpreadStep(v: seq<int>, f: seq<bool>, v0: seq<int>, f0: seq<bool>, lo: int, c: int, xs: seq<int>, j: int)
    requires |v| == |f| && 0 <= lo && 0 < |xs| <= c && lo + c <= |f| && 0 <= j < |xs|
    requires Spreading(v, f, v0, f0, lo, c, xs, j)
    ensures var q := lo + SpreadSlot(j, c, |xs|);
      lo <= q < lo + c && !f[q] && Spreading(v[q := xs[j]], f[q := true], v0, f0, lo, c, xs, j + 1)
  {
    var m := |xs|;
    var q := lo + SpreadSlot(j, c, m);
    SpreadStepFree(f, lo, c, m, j);
    PresentFillTail(v, f, lo, q, lo + c, xs[j]);
    assert xs[..j] + [xs[j]] == xs[..j + 1];
    SpreadStepPlaced(v, f, lo, c, xs, j, q);
    SameOutsideFill(v, f, v0, f0, lo, lo + c, q, xs[j]);
  }

  /** The j-th offset lies in the free tail of the window, just below
      SpreadLow(j + 1), where the free tail of the next step starts. */
  lemma SpreadStepFree(f: seq<bool>, lo: int, c: int, m: int, j: int)
    requires 0 <= lo && 0 < m <= c && lo + c <= |f| && 0 <= j < m
    requires forall k :: lo + SpreadLow(j, c, m) <= k < lo + c ==> !f[k]
    ensures var q := lo + SpreadSlot(j, c, m);
      lo + SpreadLow(j, c, m) <= q < lo + c && !f[q] && SpreadLow(j + 1, c, m) == q - lo + 1
  {
    if j > 0 {
      SpreadSlotIncreasing(j - 1, j, c, m);
    }
  }

  /** Filling a slot inside [lo, hi) keeps everything outside it the same. */
  lemma SameOutsideFill(v: seq<int>, f: seq<bool>, v0: seq<int>, f0: seq<bool>, lo: int, hi: int, q: int, x: int)
    requires SameOutsideOf(v, f, v0, f0, lo, hi) && lo <= q < hi && 0 <= q < |f|
    ensures SameOutsideOf(v[q := x], f[q := true], v0, f0, lo, hi)
  {
  }

  /** The values placed before the j-th stay where they are when the j-th
      goes to its own offset q. */
  lemma SpreadStepPlaced(v: seq<int>, f: seq<bool>, lo: int, c: int, xs: seq<int>, j: int, q: int)
    requires |v| == |f| && 0 <= lo && 0 < |xs| <= c && lo + c <= |f| && 0 <= j < |xs|
    requires q == lo + SpreadSlot(j, c, |xs|) && 0 <= q < |f|
    requires forall i :: 0 <= i < j ==>
      0 <= SpreadSlot(i, c, |xs|) < c && HoldsAt(v, f, lo + SpreadSlot(i, c, |xs|), xs[i])
    ensures forall i :: 0 <= i < j + 1 ==>
      0 <= SpreadSlot(i, c, |xs|) < c && HoldsAt(v[q := xs[j]], f[q := true], lo + SpreadSlot(i, c, |xs|), xs[i])
  {
    var m := |xs|;
    forall i | 0 <= i < j
      ensures 0 <= SpreadSlot(i, c, m) < c && HoldsAt(v[q := xs[j]], f[q := true], lo + SpreadSlot(i, c, m), xs[i])
    {
      SpreadSlotIncreasing(i, j, c, m);
    }
  }

  lemma SpreadDone(v: seq<int>, f: seq<bool>, v0: seq<int>, f0: seq<bool>, lo: int, c: int, xs: seq<int>)
    requires |v| == |f| && 0 <= lo && 0 < |xs| <= c && lo + c <= |f|
    requires Spreading(v, f, v0, f0, lo, c, xs, |xs|)
    ensures EvenlySpread(v, f, lo, c, xs) && SameOutsideOf(v, f, v0, f0, lo, lo + c)
  {
    assert xs[..|xs|] == xs;
  }

  /** The compaction pass of `rebalance(index, level)` with the slots down to
      i still to visit: the window still lists w0, slots (i, last] are free
      and every slot after last is occupied. */
  ghost predicate Compacting(v: seq<int>, f: seq<bool>, v0: seq<int>, f0: seq<bool>, lo: int, hi: int,
                             i: int, last: int, w0: seq<int>)
    requires |v| == |f| && 0 <= lo <= hi <= |f|
  {
    SameOutsideOf(v, f, v0, f0, lo, hi)
    && lo - 1 <= i <= last < hi
    && Present(v, f, lo, hi) == w0
    && (forall k :: i < k <= last ==> !f[k])
    && (forall k :: last < k < hi ==> f[k])
  }

  /** Visiting slot i: a free slot is passed over, an occupied one is moved
      to `last` (or kept when it already is there), and `last` moves left. */
  lemma CompactStep(v: seq<int>, f: seq<bool>, v0: seq<int>, f0: seq<bool>, lo: int, hi: int,
                    i: int, last: int, w0: seq<int>)
    requires |v| == |f| && 0 <= lo <= hi <= |f| && lo <= i
    requires Compacting(v, f, v0, f0, lo, hi, i, last, w0)
    ensures !f[i] ==> Compacting(v, f, v0, f0, lo, hi, i - 1, last, w0)
    ensures f[i] && i == last ==> Compacting(v, f, v0, f0, lo, hi, i - 1, last - 1, w0)
    ensures (f[i] && i < last ==>
      !f[last] && Compacting(v[last := v[i]], f[last := true][i := false], v0, f0, lo, hi, i - 1, last - 1, w0))
  {
    if f[i] && i < last {
      PresentMove(v, f, lo, hi, i, last);
    }
  }

  /** After the compaction pass the window lists w0 packed against its right
      end. */
  lemma CompactDone(v: seq<int>, f: seq<bool>, v0: seq<int>, f0: seq<bool>, lo: int, hi: int,
                    last: int, w0: seq<int>)
    requires |v| == |f| && 0 <= lo <= hi <= |f|
    requires Compacting(v, f, v0, f0, lo, hi, lo - 1, last, w0)
    ensures |w0| == hi - 1 - last
    ensures forall k :: last < k < hi ==> f[k] && v[k] == w0[k - (last + 1)]
  {
    CountNone(f, lo, last + 1);
    CountAll(f, last + 1, hi);
    CountSplit(f, lo, last + 1, hi);
    forall k | last < k < hi
      ensures f[k] && v[k] == w0[k - (last + 1)]
    {
      PresentAt(v, f, lo, hi, k);
      CountSplit(f, lo, last + 1, k);
      CountAll(f, last + 1, k);
    }
  }

  /** Values 0 .. j - 1 of xs sit at their offsets in the window at lo. */
  ghost predicate PlacedBefore(v: seq<int>, f: seq<bool>, lo: int, c: int, xs: seq<int>, j: int)
    requires |v| == |f| && 0 <= lo && 0 < |xs| <= c && lo + c <= |f| && 0 <= j <= |xs|
  {
    forall i :: 0 <= i < j ==>
      0 <= SpreadSlot(i, c, |xs|) < c && HoldsAt(v, f, lo + SpreadSlot(i, c, |xs|), xs[i])
  }

  /** Values j .. of xs are still packed at the right end of the window at lo. */
  ghost predicate PackedFrom(v: seq<int>, f: seq<bool>, lo: int, c: int, xs: seq<int>, j: int)
    requires |v| == |f| && 0 <= lo && 0 < |xs| <= c && lo + c <= |f| && 0 <= j <= |xs|
  {
    forall k :: lo + c - |xs| + j <= k < lo + c ==> f[k] && v[k] == xs[k - (lo + c - |xs|)]
  }

  /** The spread pass of `rebalance(index, level)` after j of the m packed
      values xs are moved left to their offsets: the window still lists xs,
      values j.. are still packed at the right end, and the slots between
      are free. */
  ghost predicate SpreadingLeft(v: seq<int>, f: seq<bool>, v0: seq<int>, f0: seq<bool>, lo: int, c: int, xs: seq<int>, j: int)
    requires |v| == |f| && 0 <= lo && 0 < |xs| <= c && lo + c <= |f| && 0 <= j <= |xs|
  {
    SameOutsideOf(v, f, v0, f0, lo, lo + c)
    && Present(v, f, lo, lo + c) == xs
    && PlacedBefore(v, f, lo, c, xs, j)
    && (forall k :: lo + SpreadLow(j, c, |xs|) <= k < lo + c - |xs| + j ==> !f[k])
    && PackedFrom(v, f, lo, c, xs, j)
  }

  lemma SpreadLeftStart(v: seq<int>, f: seq<bool>, v0: seq<int>, f0: seq<bool>, lo: int, hi: int,
                        last: int, w0: seq<int>)
    requires |v| == |f| && 0 <= lo <= hi <= |f| && w0 != []
    requires Compacting(v, f, v0, f0, lo, hi, lo - 1, last, w0)
    ensures |w0| <= hi - lo && SpreadingLeft(v, f, v0, f0, lo, hi - lo, w0, 0)
  {
    CompactDone(v, f, v0, f0, lo, hi, last, w0);
  }

  /** The j-th value sits in its packed slot a, and its offset b is at or
      to the left of a, with every slot in between free. */
  lemma SpreadLeftSlots(v: seq<int>, f: seq<bool>, v0: seq<int>, f0: seq<bool>, lo: int, c: int, xs: seq<int>, j: int)
    requires |v| == |f| && 0 <= lo && 0 < |xs| <= c && lo + c <= |f| && 0 <= j < |xs|
    requires SpreadingLeft(v, f, v0, f0, lo, c, xs, j)
    ensures var a, b := lo + c - |xs| + j, lo + SpreadSlot(j, c, |xs|);
      lo + SpreadLow(j, c, |xs|) <= b <= a < lo + c && f[a] && v[a] == xs[j]
      && SpreadLow(j + 1, c, |xs|) == b - lo + 1
      && forall i :: 0 <= i < j ==> SpreadSlot(i, c, |xs|) < SpreadSlot(j, c, |xs|)
  {
    var m := |xs|;
    if j > 0 {
      SpreadSlotIncreasing(j - 1, j, c, m);
    }
    forall i | 0 <= i < j
      ensures SpreadSlot(i, c, m) < SpreadSlot(j, c, m)
    {
      SpreadSlotIncreasing(i, j, c, m);
    }
  }

  /** Moving the j-th value from its packed slot a left to its offset b, or
      leaving it when b == a, keeps the spread going. */
  lemma SpreadLeftStep(v: seq<int>, f: seq<bool>, v0: seq<int>, f0: seq<bool>, lo: int, c: int, xs: seq<int>, j: int, a: int, b: int)
    requires |v| == |f| && 0 <= lo && 0 < |xs| <= c && lo + c <= |f| && 0 <= j < |xs|
    requires SpreadingLeft(v, f, v0, f0, lo, c, xs, j)
    requires a == lo + c - |xs| + j && b == lo + SpreadSlot(j, c, |xs|)
    ensures lo <= b <= a < lo + c && f[a] && v[a] == xs[j]
    ensures b == a ==> SpreadingLeft(v, f, v0, f0, lo, c, xs, j + 1)
    ensures b < a ==> !f[b] && SpreadingLeft(v[b := v[a]], f[b := true][a := false], v0, f0, lo, c, xs, j + 1)
  {
    SpreadLeftSlots(v, f, v0, f0, lo, c, xs, j);
    if b < a {
      SpreadLeftMove(v, f, v0, f0, lo, c, xs, j, a, b);
    }
  }

  lemma SpreadLeftMove(v: seq<int>, f: seq<bool>, v0: seq<int>, f0: seq<bool>, lo: int, c: int, xs: seq<int>, j: int, a: int, b: int)
    requires |v| == |f| && 0 <= lo && 0 < |xs| <= c && lo + c <= |f| && 0 <= j < |xs|
    requires SpreadingLeft(v, f, v0, f0, lo, c, xs, j)
    requires a == lo + c - |xs| + j && b == lo + SpreadSlot(j, c, |xs|)
    requires lo + SpreadLow(j, c, |xs|) <= b < a < lo + c && f[a] && v[a] == xs[j]
    requires SpreadLow(j + 1, c, |xs|) == b - lo + 1
    requires forall i :: 0 <= i < j ==> SpreadSlot(i, c, |xs|) < SpreadSlot(j, c, |xs|)
    ensures !f[b] && SpreadingLeft(v[b := v[a]], f[b := true][a := false], v0, f0, lo, c, xs, j + 1)
  {
    var m := |xs|;
    assert !f[b];
    var v2, f2 := v[b := v[a]], f[b := true][a := false];
    assert Present(v2, f2, lo, lo + c) == xs by {
      PresentMove(v, f, lo, lo + c, a, b);
    }
    assert PlacedBefore(v2, f2, lo, c, xs, j + 1) by {
      MovePlaced(v, f, lo, c, xs, j, a, b);
    }
    assert PackedFrom(v2, f2, lo, c, xs, j + 1) by {
      MovePacked(v, f, lo, c, xs, j, a, b);
    }
    assert forall k :: b < k <= a ==> !f2[k];
    assert SameOutsideOf(v2, f2, v0, f0, lo, lo + c);
  }

  lemma MovePlaced(v: seq<int>, f: seq<bool>, lo: int, c: int, xs: seq<int>, j: int, a: int, b: int)
    requires |v| == |f| && 0 <= lo && 0 < |xs| <= c && lo + c <= |f| && 0 <= j < |xs|
    requires PlacedBefore(v, f, lo, c, xs, j)
    requires b == lo + SpreadSlot(j, c, |xs|) && lo <= b < a < lo + c && v[a] == xs[j]
    requires forall i :: 0 <= i < j ==> SpreadSlot(i, c, |xs|) < SpreadSlot(j, c, |xs|)
    ensures PlacedBefore(v[b := v[a]], f[b := true][a := false], lo, c, xs, j + 1)
  {
  }

  lemma MovePacked(v: seq<int>, f: seq<bool>, lo: int, c: int, xs: seq<int>, j: int, a: int, b: int)
    requires |v| == |f| && 0 <= lo && 0 < |xs| <= c && lo + c <= |f| && 0 <= j < |xs|
    requires PackedFrom(v, f, lo, c, xs, j)
    requires a == lo + c - |xs| + j && lo <= b < a
    ensures PackedFrom(v[b := v[a]], f[b := true][a := false], lo, c, xs, j + 1)
  {
  }

  /** The slots after j steps of the spread pass that starts from v, f, each
      step moving the packed value at lo + c - m + i to offset SpreadSlot(i). */
  function SpreadLeftState(v: seq<int>, f: seq<bool>, lo: int, c: int, m: int, j: int): (r: (seq<int>, seq<bool>))
    requires |v| == |f| && 0 <= lo && 0 < m <= c && lo + c <= |f| && 0 <= j <= m
    ensures |r.0| == |r.1| == |f|
    decreases j
  {
    if j == 0 then (v, f)
    else
      var (v1, f1) := SpreadLeftState(v, f, lo, c, m, j - 1);
      var a, b := lo + c - m + j - 1, lo + SpreadSlot(j - 1, c, m);
      if b == a then (v1, f1) else (v1[b := v1[a]], f1[b := true][a := false])
  }

  /** Every state the spread pass goes through is a spreading state. */
  lemma {:induction false} SpreadLeftStateSpreading(v: seq<int>, f: seq<bool>, v0: seq<int>, f0: seq<bool>, lo: int, c: int, xs: seq<int>, j: int)
    requires |v| == |f| && 0 <= lo && 0 < |xs| <= c && lo + c <= |f| && 0 <= j <= |xs|
    requires SpreadingLeft(v, f, v0, f0, lo, c, xs, 0)
    ensures var r := SpreadLeftState(v, f, lo, c, |xs|, j); SpreadingLeft(r.0, r.1, v0, f0, lo, c, xs, j)
    decreases j
  {
    if j > 0 {
      SpreadLeftStateSpreading(v, f, v0, f0, lo, c, xs, j - 1);
      var s := SpreadLeftState(v, f, lo, c, |xs|, j - 1);
      var a, b := lo + c - |xs| + j - 1, lo + SpreadSlot(j - 1, c, |xs|);
      SpreadLeftStep(s.0, s.1, v0, f0, lo, c, xs, j - 1, a, b);
      assert SpreadLeftState(v, f, lo, c, |xs|, j) == (if b == a then s else (s.0[b := s.0[a]], s.1[b := true][a := false]));
    }
  }

  /** Step j of the spread pass moves an occupied slot a to a free slot b,
      or leaves it when b == a. */
  lemma SpreadLeftNext(v: seq<int>, f: seq<bool>, v0: seq<int>, f0: seq<bool>, lo: int, c: int, xs: seq<int>, j: int, a: int, b: int)
    requires |v| == |f| && 0 <= lo && 0 < |xs| <= c && lo + c <= |f| && 0 <= j < |xs|
    requires SpreadingLeft(v, f, v0, f0, lo, c, xs, 0)
    requires a == lo + c - |xs| + j && b == lo + SpreadSlot(j, c, |xs|)
    ensures var (v1, f1) := SpreadLeftState(v, f, lo, c, |xs|, j);
      lo <= b <= a < lo + c && f1[a] && (b < a ==> !f1[b])
      && SpreadLeftState(v, f, lo, c, |xs|, j + 1) == (if b == a then (v1, f1) else (v1[b := v1[a]], f1[b := true][a := false]))
  {
    SpreadLeftStateSpreading(v, f, v0, f0, lo, c, xs, j);
    var (v1, f1) := SpreadLeftState(v, f, lo, c, |xs|, j);
    SpreadLeftStep(v1, f1, v0, f0, lo, c, xs, j, a, b);
  }

  /** At its end the spread pass has placed xs evenly and touched nothing
      outside the window. */
  lemma SpreadLeftEnd(v: seq<int>, f: seq<bool>, v0: seq<int>, f0: seq<bool>, lo: int, c: int, xs: seq<int>)
    requires |v| == |f| && 0 <= lo && 0 < |xs| <= c && lo + c <= |f|
    requires SpreadingLeft(v, f, v0, f0, lo, c, xs, 0)
    ensures var (v1, f1) := SpreadLeftState(v, f, lo, c, |xs|, |xs|);
      EvenlySpread(v1, f1, lo, c, xs) && SameOutsideOf(v1, f1, v0, f0, lo, lo + c)
  {
    SpreadLeftStateSpreading(v, f, v0, f0, lo, c, xs, |xs|);
  }

  /** A window whose listing is unchanged, with every other slot put, leaves
      the whole listing unchanged. */
  lemma WindowKept(v0: seq<int>, e0: seq<bool>, v1: seq<int>, e1: seq<bool>, lo: int, hi: int)
    requires |v1| == |e1| && 0 <= lo <= hi <= |e1|
    requires SameOutsideOf(v1, e1, v0, e0, lo, hi)
    requires Present(v1, e1, lo, hi) == Present(v0, e0, lo, hi)
    ensures Present(v1, e1, 0, |e1|) == Present(v0, e0, 0, |e0|)
  {
    WindowReplaced(v0, e0, v1, e1, lo, hi);
    WindowReplaced(v0, e0, v0, e0, lo, hi);
  }

  // =====================================================================
  // Merging the new element

  /** The merge of `rebalance(index, level, e)`: walking the window from right
      to left, `e` is placed just after the rightmost value smaller than it. */
  function MergeFromRight(w: seq<int>, e: int): (r: seq<int>)
    ensures |r| == |w| + 1
    decreases |w|
  {
    if w == [] then [e]
    else if w[|w| - 1] < e then w + [e]
    else MergeFromRight(w[..|w| - 1], e) + [w[|w| - 1]]
  }

  /** The merge holds the window's values and e, nothing else. */
  lemma {:induction false} MergeFromRightMultiset(w: seq<int>, e: int)
    ensures multiset(MergeFromRight(w, e)) == multiset(w) + multiset{e}
    decreases |w|
  {
    if w != [] && w[|w| - 1] >= e {
      MergeFromRightMultiset(w[..|w| - 1], e);
      assert w == w[..|w| - 1] + [w[|w| - 1]];
    }
  }

  /** The merge of `expand_PMA`: walking left to right, `e` goes just before
      the first value greater than it. */
  function MergeFromLeft(xs: seq<int>, e: int): (r: seq<int>)
    ensures |r| == |xs| + 1
    decreases |xs|
  {
    if xs == [] then [e]
    else if xs[0] > e then [e] + xs
    else [xs[0]] + MergeFromLeft(xs[1..], e)
  }

  /** That merge holds the values and e, nothing else. */
  lemma {:induction false} MergeFromLeftMultiset(xs: seq<int>, e: int)
    ensures multiset(MergeFromLeft(xs, e)) == multiset(xs) + multiset{e}
    decreases |xs|
  {
    if xs != [] && xs[0] <= e {
      MergeFromLeftMultiset(xs[1..], e);
      assert xs == [xs[0]] + xs[1..];
    }
  }

  lemma {:induction false} MergeFromRightSorted(w: seq<int>, e: int)
    requires Sorted(w)
    ensures Sorted(MergeFromRight(w, e))
    decreases |w|
  {
    if w != [] && w[|w| - 1] >= e {
      var f := w[..|w| - 1];
      MergeFromRightSorted(f, e);
      assert Sorted(f);
      MergeFromRightMultiset(f, e);
      forall x | x in MergeFromRight(f, e) ensures x <= w[|w| - 1] {
        assert x in multiset(MergeFromRight(f, e));
        if x != e {
          assert x in multiset(f);
          var k :| 0 <= k < |f| && f[k] == x;
          assert w[k] == x;
        }
      }
      SortedConcat(MergeFromRight(f, e), [w[|w| - 1]]);
    } else if w != [] {
      SortedConcat(w, [e]);
    }
  }

  lemma {:induction false} MergeFromLeftSorted(xs: seq<int>, e: int)
    requires Sorted(xs)
    ensures Sorted(MergeFromLeft(xs, e))
    decreases |xs|
  {
    if xs != [] && xs[0] <= e {
      MergeFromLeftSorted(xs[1..], e);
      MergeFromLeftMultiset(xs[1..], e);
      assert Sorted(xs[1..]);
      forall y | y in MergeFromLeft(xs[1..], e) ensures xs[0] <= y {
        assert y in multiset(MergeFromLeft(xs[1..], e));
        if y != e {
          assert y in multiset(xs[1..]);
          var k :| 0 <= k < |xs[1..]| && xs[1..][k] == y;
          assert xs[k + 1] == y;
        }
      }
      SortedConcat([xs[0]], MergeFromLeft(xs[1..], e));
    } else if xs != [] {
      assert forall y | y in xs :: e < y by {
        forall y | y in xs ensures e < y {
          var k :| 0 <= k < |xs| && xs[k] == y;
          assert xs[0] <= xs[k];
        }
      }
      SortedConcat([e], xs);
    }
  }

  lemma MergeFromRightSmallerLast(w: seq<int>, v: int, e: int)
    requires v < e
    ensures MergeFromRight(w + [v], e) == w + [v] + [e]
  {
  }

  lemma MergeFromRightLargerLast(w: seq<int>, v: int, e: int)
    requires e <= v
    ensures MergeFromRight(w + [v], e) == MergeFromRight(w, e) + [v]
  {
    assert (w + [v])[..|w|] == w;
  }

  /** The state of the right-to-left pass of `rebalance(index, level, e)`
      with slots [index, i] still to visit: what is already pushed, read
      backwards, completes the merge of the rest with e. */
  ghost predicate Collected(vals: seq<int>, ex: seq<bool>, index: int, i: int, e: int,
                            inserted: bool, pushed: seq<int>, merged: seq<int>)
    requires |vals| == |ex| && 0 <= index <= i + 1 <= |ex|
  {
    (inserted ==> Present(vals, ex, index, i + 1) + Reversed(pushed) == merged)
    && (!inserted ==> MergeFromRight(Present(vals, ex, index, i + 1), e) + Reversed(pushed) == merged)
  }

  /** One slot of that pass: an empty slot changes nothing. */
  lemma CollectEmpty(vals: seq<int>, ex: seq<bool>, index: int, i: int, e: int,
                     inserted: bool, pushed: seq<int>, merged: seq<int>)
    requires |vals| == |ex| && 0 <= index <= i < |ex| && !ex[i]
    requires Collected(vals, ex, index, i, e, inserted, pushed, merged)
    ensures Collected(vals, ex, index, i - 1, e, inserted, pushed, merged)
  {
    assert Present(vals, ex, index, i + 1) == Present(vals, ex, index, i);
  }

  /** The first element smaller than e: e is pushed, then the element. */
  lemma CollectInsert(vals: seq<int>, ex: seq<bool>, index: int, i: int, e: int,
                      pushed: seq<int>, merged: seq<int>)
    requires |vals| == |ex| && 0 <= index <= i < |ex| && ex[i] && vals[i] < e
    requires Collected(vals, ex, index, i, e, false, pushed, merged)
    ensures Collected(vals, ex, index, i - 1, e, true, pushed + [e] + [vals[i]], merged)
  {
    var before, v, r := Present(vals, ex, index, i), vals[i], Reversed(pushed);
    assert Present(vals, ex, index, i + 1) == before + [v];
    MergeFromRightSmallerLast(before, v, e);
    ReversedSnoc(pushed + [e], v);
    ReversedSnoc(pushed, e);
    assert before + [v] + [e] + r == before + ([v] + ([e] + r));
  }

  /** Any other element is pushed alone. */
  lemma CollectKeep(vals: seq<int>, ex: seq<bool>, index: int, i: int, e: int,
                    inserted: bool, pushed: seq<int>, merged: seq<int>)
    requires |vals| == |ex| && 0 <= index <= i < |ex| && ex[i] && (inserted || e <= vals[i])
    requires Collected(vals, ex, index, i, e, inserted, pushed, merged)
    ensures Collected(vals, ex, index, i - 1, e, inserted, pushed + [vals[i]], merged)
  {
    var before, v, r := Present(vals, ex, index, i), vals[i], Reversed(pushed);
    assert Present(vals, ex, index, i + 1) == before + [v];
    ReversedSnoc(pushed, v);
    if inserted {
      assert before + [v] + r == before + ([v] + r);
    } else {
      MergeFromRightLargerLast(before, v, e);
      var m := MergeFromRight(before, e);
      assert m + [v] + r == m + ([v] + r);
    }
  }

  /** What that pass pushes from slot i down to slot index, given what it
      has pushed so far. */
  function CollectPass(vals: seq<int>, ex: seq<bool>, index: int, i: int, e: int,
                       inserted: bool, pushed: seq<int>): seq<int>
    requires |vals| == |ex| && 0 <= index <= i + 1 <= |ex|
    decreases i - index + 1
  {
    if i < index then (if inserted then pushed else pushed + [e])
    else if ex[i] && !inserted && vals[i] < e then
      CollectPass(vals, ex, index, i - 1, e, true, pushed + [e] + [vals[i]])
    else if ex[i] then
      CollectPass(vals, ex, index, i - 1, e, inserted, pushed + [vals[i]])
    else
      CollectPass(vals, ex, index, i - 1, e, inserted, pushed)
  }

  /** What one slot adds to that pass: whether e has now been pushed, and
      what has been pushed so far. */
  function CollectNext(here: bool, v: int, e: int, inserted: bool, pushed: seq<int>): (r: (bool, seq<int>))
    ensures r.0 == (inserted || (here && v < e))
    ensures |r.1| == |pushed| + (if here then 1 else 0) + (if r.0 && !inserted then 1 else 0)
  {
    if here && !inserted && v < e then (true, pushed + [e] + [v])
    else if here then (inserted, pushed + [v])
    else (inserted, pushed)
  }

  /** The pass, one slot at a time. */
  lemma CollectPassStep(vals: seq<int>, ex: seq<bool>, index: int, i: int, e: int,
                        inserted: bool, pushed: seq<int>)
    requires |vals| == |ex| && 0 <= index <= i < |ex|
    ensures var (ins, p) := CollectNext(ex[i], vals[i], e, inserted, pushed);
            CollectPass(vals, ex, index, i, e, inserted, pushed) == CollectPass(vals, ex, index, i - 1, e, ins, p)
  { }

  /** Run over a whole window from nothing pushed, the pass yields the merge
      of e into the window's values, read backwards. */
  lemma CollectWhole(vals: seq<int>, ex: seq<bool>, index: int, hi: int, e: int)
    requires |vals| == |ex| && 0 <= index <= hi <= |ex|
    ensures Reversed(CollectPass(vals, ex, index, hi - 1, e, false, [])) == MergeFromRight(Present(vals, ex, index, hi), e)
  {
    var merged := MergeFromRight(Present(vals, ex, index, hi), e);
    assert merged + Reversed([]) == merged;
    CollectPassMerges(vals, ex, index, hi - 1, e, false, [], merged);
  }

  /** The pass completes the merge: read backwards, all it pushes is the
      window's values with e placed after the rightmost value smaller than e. */
  lemma {:induction false} CollectPassMerges(vals: seq<int>, ex: seq<bool>, index: int, i: int, e: int,
                                             inserted: bool, pushed: seq<int>, merged: seq<int>)
    requires |vals| == |ex| && 0 <= index <= i + 1 <= |ex|
    requires Collected(vals, ex, index, i, e, inserted, pushed, merged)
    ensures Reversed(CollectPass(vals, ex, index, i, e, inserted, pushed)) == merged
    decreases i - index + 1
  {
    if i < index {
      CollectDone(vals, ex, index, e, inserted, pushed, merged);
    } else if ex[i] && !inserted && vals[i] < e {
      CollectInsert(vals, ex, index, i, e, pushed, merged);
      CollectPassMerges(vals, ex, index, i - 1, e, true, pushed + [e] + [vals[i]], merged);
    } else if ex[i] {
      CollectKeep(vals, ex, index, i, e, inserted, pushed, merged);
      CollectPassMerges(vals, ex, index, i - 1, e, inserted, pushed + [vals[i]], merged);
    } else {
      CollectEmpty(vals, ex, index, i, e, inserted, pushed, merged);
      CollectPassMerges(vals, ex, index, i - 1, e, inserted, pushed, merged);
    }
  }

  /** The end of that pass: when e was never pushed, pushing it last completes the merge. */
  lemma CollectDone(vals: seq<int>, ex: seq<bool>, index: int, e: int,
                    inserted: bool, pushed: seq<int>, merged: seq<int>)
    requires |vals| == |ex| && 0 <= index <= |ex|
    requires Collected(vals, ex, index, index - 1, e, inserted, pushed, merged)
    ensures Reversed(if inserted then pushed else pushed + [e]) == merged
  {
    if !inserted {
      ReversedSnoc(pushed, e);
    }
  }

  /** When everything in `a` is at most e and `b` starts above e, the
      left-to-right merge puts e between them. */
  lemma {:induction false} MergeFromLeftSplit(a: seq<int>, b: seq<int>, e: int)
    requires forall x :: x in a ==> x <= e
    requires b == [] || b[0] > e
    ensures MergeFromLeft(a + b, e) == a + [e] + b
    decreases |a|
  {
    if a != [] {
      assert (a + b)[0] == a[0] && (a + b)[1..] == a[1..] + b;
      assert a[0] in a;
      forall x | x in a[1..] ensures x <= e { assert x in a; }
      MergeFromLeftSplit(a[1..], b, e);
      assert [a[0]] + (a[1..] + [e] + b) == a + [e] + b;
    } else {
      assert a + b == b;
    }
  }

  /** Inserting e inside the window keeps the whole listing sorted when
      everything left of the window is at most e and everything right of it
      is above e. */
  lemma SortedAfterWindowMerge(a: seq<int>, w: seq<int>, b: seq<int>, merged: seq<int>, e: int)
    requires Sorted(a + w + b) && Sorted(merged)
    requires multiset(merged) == multiset(w) + multiset{e}
    requires forall x :: x in a ==> x <= e
    requires forall y :: y in b ==> e < y
    ensures Sorted(a + merged + b)
  {
    SortedParts(a + w, b);
    SortedParts(a, w);
    forall x, y | x in a && y in merged ensures x <= y {
      assert y in multiset(merged);
      if y != e {
        assert y in multiset(w);
        assert y in w;
      }
    }
    SortedConcat(a, merged);
    forall x, y | x in a + merged && y in b ensures x <= y {
      if x !in a {
        assert x in multiset(merged);
        if x != e {
          assert x in multiset(w);
          assert x in w;
          assert x in a + w;
        }
      } else {
        assert x in a + w;
      }
    }
    SortedConcat(a + merged, b);
  }


  /** A window whose listing became `merged` while every other slot stayed
      put: the whole listing splices merged in, and when merged holds one
      element more than the old window, so does the store. */
  lemma WindowSpliced(v0: seq<int>, e0: seq<bool>, v1: seq<int>, e1: seq<bool>, lo: int, hi: int, merged: seq<int>)
    requires |v1| == |e1| && 0 <= lo <= hi <= |e1|
    requires SameOutsideOf(v1, e1, v0, e0, lo, hi)
    requires Present(v1, e1, lo, hi) == merged && |merged| == Count(e0, lo, hi) + 1
    ensures Present(v1, e1, 0, |e1|) == Present(v0, e0, 0, lo) + merged + Present(v0, e0, hi, |e0|)
    ensures Count(e1, 0, |e1|) == Count(e0, 0, |e0|) + 1
  {
    WindowReplaced(v0, e0, v1, e1, lo, hi);
    CountSplit(e0, 0, lo, |e0|);
    CountSplit(e0, lo, hi, |e0|);
  }

  /** The whole of `rebalance(index, level, e)` on snapshots: the window
      cleared (flags f1) and then refilled evenly with the merge of its old
      listing and e leaves the other slots alone and splices that merge into
      the listing. */
  lemma WindowRebalanced(v0: seq<int>, f0: seq<bool>, f1: seq<bool>, v2: seq<int>, f2: seq<bool>,
                         lo: int, c: int, hi: int, e: int, merged: seq<int>)
    requires |v0| == |f0| && 0 <= lo && 0 < c && hi == lo + c && hi <= |f0| && Count(f0, lo, hi) < c
    requires f1 == Cleared(f0, lo, hi) && merged == MergeFromRight(Present(v0, f0, lo, hi), e)
    requires SameOutsideOf(v2, f2, v0, f1, lo, hi)
    requires EvenlySpread(v2, f2, lo, c, merged)
    ensures SameOutsideOf(v2, f2, v0, f0, lo, hi)
    ensures Present(v2, f2, 0, |f2|) == Splice(v0, f0, lo, hi, e)
    ensures Count(f2, 0, |f2|) == Count(f0, 0, |f0|) + 1
  {
    forall k | 0 <= k < |f0| && !(lo <= k < hi)
      ensures f2[k] == f0[k] && v2[k] == v0[k]
    {
      ClearedAt(f0, lo, hi, k);
    }
    WindowSpliced(v0, f0, v2, f2, lo, hi, merged);
  }

  /** The listing of v, f with the window [lo, hi) replaced by the merge of
      its listing with e. */
  ghost function Splice(v: seq<int>, f: seq<bool>, lo: int, hi: int, e: int): seq<int>
    requires |v| == |f| && 0 <= lo <= hi <= |f|
  {
    Present(v, f, 0, lo) + MergeFromRight(Present(v, f, lo, hi), e) + Present(v, f, hi, |f|)
  }

  /** Filling the free slot q with e splices e into the listing where the
      empty window [q, q + 1) stood. */
  lemma FreeSlotSplice(v: seq<int>, f: seq<bool>, q: int, e: int)
    requires |v| == |f| && 0 <= q < |f| && !f[q]
    ensures Present(v[q := e], f[q := true], 0, |f|) == Splice(v, f, q, q + 1, e)
    ensures Count(f[q := true], 0, |f|) == Count(f, 0, |f|) + 1
  {
    PresentUpdate(v, f, 0, q, |f|, e, true);
    CountAround(f, 0, q, |f|);
    PresentNone(v, f, q, q + 1);
  }

  /** Filling the free slot q with e adds e to the elements. */
  lemma FreeSlotMultiset(v: seq<int>, f: seq<bool>, e: int, q: int)
    requires |v| == |f| && 0 <= q < |f| && !f[q]
    ensures multiset(Present(v[q := e], f[q := true], 0, |f|)) == multiset(Present(v, f, 0, |f|)) + multiset{e}
  {
    FreeSlotSplice(v, f, q, e);
    SpliceMultiset(v, f, e, q, q + 1);
  }

  /** Filling the free slot after pos with e keeps the elements sorted when
      pos is the last slot at most e. */
  lemma FreeSlotSorted(v: seq<int>, f: seq<bool>, e: int, pos: int)
    requires |v| == |f| && -1 <= pos && pos + 1 < |f| && !f[pos + 1]
    requires Sorted(Present(v, f, 0, |f|)) && IsLastAtMost(v, f, 0, |f|, e, pos)
    ensures Sorted(Present(v[pos + 1 := e], f[pos + 1 := true], 0, |f|))
  {
    var q := pos + 1;
    var ys := Splice(v, f, q, q + 1, e);
    WindowInsert(v, f, e, pos, q, q + 1, Present(v, f, 0, |f|), ys);
    FreeSlotSplice(v, f, q, e);
    SortedSame(ys, Present(v[q := e], f[q := true], 0, |f|));
  }

  /** Splicing the merge of e into a window adds e to the elements and
      removes nothing. */
  lemma SpliceMultiset(v: seq<int>, f: seq<bool>, e: int, lo: int, hi: int)
    requires |v| == |f| && 0 <= lo <= hi <= |f|
    ensures multiset(Splice(v, f, lo, hi, e)) == multiset(Present(v, f, 0, |f|)) + multiset{e}
  {
    PresentSplit(v, f, 0, lo, |f|);
    PresentSplit(v, f, lo, hi, |f|);
    MergeFromRightMultiset(Present(v, f, lo, hi), e);
  }

  /** Splicing the merge of e into the window [lo, hi) of a sorted listing
      keeps it sorted when everything before the window is at most e and
      everything after it above e. */
  lemma SpliceSorted(v: seq<int>, f: seq<bool>, e: int, lo: int, hi: int)
    requires |v| == |f| && 0 <= lo <= hi <= |f|
    requires Sorted(Present(v, f, 0, |f|))
    requires AllAtMost(Present(v, f, 0, lo), e) && AllAbove(Present(v, f, hi, |f|), e)
    ensures Sorted(Splice(v, f, lo, hi, e))
  {
    var n := |f|;
    var xs, a, w, b := Present(v, f, 0, n), Present(v, f, 0, lo), Present(v, f, lo, hi), Present(v, f, hi, n);
    PresentSplit3(v, f, 0, lo, hi, n);
    WindowMergeSorted(xs, a, w, b, e, Splice(v, f, lo, hi, e));
  }

  /** Merging e into a window [lo, hi) around the slot after pos adds
      e to the elements and, when pos is the last slot at most e, keeps a
      sorted listing sorted. */
  lemma WindowInsert(v: seq<int>, f: seq<bool>, e: int, pos: int, lo: int, hi: int, xs: seq<int>, ys: seq<int>)
    requires |v| == |f| && 0 <= lo <= pos + 1 <= hi <= |f|
    requires xs == Present(v, f, 0, |f|) && ys == Splice(v, f, lo, hi, e)
    ensures multiset(ys) == multiset(xs) + multiset{e}
    ensures Sorted(xs) && IsLastAtMost(v, f, 0, |f|, e, pos) ==> Sorted(ys)
  {
    SpliceMultiset(v, f, e, lo, hi);
    if Sorted(xs) && IsLastAtMost(v, f, 0, |f|, e, pos) {
      SpliceBounds(v, f, e, pos, lo, hi);
      SpliceSorted(v, f, e, lo, hi);
    }
  }

  /** Around a window [lo, hi) holding the slot after pos (or pos itself),
      where pos is the last slot at most e, the elements before the window
      are at most e and those after it above e. */
  lemma SpliceBounds(v: seq<int>, f: seq<bool>, e: int, pos: int, lo: int, hi: int)
    requires |v| == |f| && 0 <= lo <= pos + 1 <= hi <= |f|
    requires IsLastAtMost(v, f, 0, |f|, e, pos) && Sorted(Present(v, f, 0, |f|))
    ensures AllAtMost(Present(v, f, 0, lo), e) && AllAbove(Present(v, f, hi, |f|), e)
  {
    forall i | 0 <= i < lo && f[i] ensures v[i] <= e {
      if i < pos {
        SortedSlots(v, f, 0, |f|, i, pos);
      }
    }
    PresentAllAtMost(v, f, 0, lo, e);
    PresentAllGreater(v, f, hi, |f|, e);
  }

  /** Merging e into the middle part w of a sorted listing keeps it sorted
      when everything before w is at most e and everything after it above e. */
  lemma WindowMergeSorted(xs: seq<int>, a: seq<int>, w: seq<int>, b: seq<int>, e: int, ys: seq<int>)
    requires Sorted(xs) && xs == a + (w + b)
    requires AllAtMost(a, e) && AllAbove(b, e)
    requires ys == a + MergeFromRight(w, e) + b
    ensures Sorted(ys)
  {
    assert xs == a + w + b;
    SortedParts(a + w, b);
    SortedParts(a, w);
    MergeFromRightSorted(w, e);
    MergeFromRightMultiset(w, e);
    SortedAfterWindowMerge(a, w, b, MergeFromRight(w, e), e);
  }

  // =====================================================================
  // Searching

  /** r is the first occupied slot of [lo, hi) holding a value at most e, or -1 if none. */
  ghost predicate IsFirstAtMost(vals: seq<int>, ex: seq<bool>, lo: int, hi: int, e: int, r: int)
    requires |vals| == |ex| && 0 <= lo <= hi <= |ex|
  {
    if r == -1 then forall i :: lo <= i < hi && ex[i] ==> vals[i] > e
    else lo <= r < hi && ex[r] && vals[r] <= e && forall i :: lo <= i < r && ex[i] ==> vals[i] > e
  }

  /** r is the last occupied slot of [lo, hi) holding a value at most e, or -1 if none. */
  ghost predicate IsLastAtMost(vals: seq<int>, ex: seq<bool>, lo: int, hi: int, e: int, r: int)
    requires |vals| == |ex| && 0 <= lo <= hi <= |ex|
  {
    if r == -1 then forall i :: lo <= i < hi && ex[i] ==> vals[i] > e
    else lo <= r < hi && ex[r] && vals[r] <= e && forall i :: r < i < hi && ex[i] ==> vals[i] > e
  }

  /** The last occupied slot of [lo, hi) holding a value at most e, or -1:
      the reference definition of a segment scan. */
  function LastAtMost(vals: seq<int>, ex: seq<bool>, lo: int, hi: int, e: int): (r: int)
    requires |vals| == |ex| && 0 <= lo <= hi <= |ex|
    ensures r == -1 || (lo <= r < hi && ex[r] && vals[r] <= e)
    decreases hi - lo
  {
    if lo == hi then -1
    else if ex[hi - 1] && vals[hi - 1] <= e then hi - 1
    else LastAtMost(vals, ex, lo, hi - 1, e)
  }

  /** LastAtMost is the one answer IsLastAtMost accepts. */
  lemma {:induction false} LastAtMostCorrect(vals: seq<int>, ex: seq<bool>, lo: int, hi: int, e: int)
    requires |vals| == |ex| && 0 <= lo <= hi <= |ex|
    ensures IsLastAtMost(vals, ex, lo, hi, e, LastAtMost(vals, ex, lo, hi, e))
    ensures forall r :: IsLastAtMost(vals, ex, lo, hi, e, r) ==> r == LastAtMost(vals, ex, lo, hi, e)
    decreases hi - lo
  {
    if lo < hi {
      LastAtMostCorrect(vals, ex, lo, hi - 1, e);
      forall r | IsLastAtMost(vals, ex, lo, hi, e, r) ensures r == LastAtMost(vals, ex, lo, hi, e) {
        if !(ex[hi - 1] && vals[hi - 1] <= e) && r != hi - 1 {
          assert IsLastAtMost(vals, ex, lo, hi - 1, e, r);
        }
      }
    }
  }

  /** The first slot of segment v when segments hold g slots: v * g, built
      up by addition. */
  function SegmentStart(v: nat, g: nat): nat
    decreases v
  {
    if v == 0 then 0 else SegmentStart(v - 1, g) + g
  }

  lemma {:induction false} SegmentStartProduct(v: nat, g: nat)
    ensures SegmentStart(v, g) == v * g
  {
    if v > 0 { SegmentStartProduct(v - 1, g); }
  }

  /** Segment i ends no later than a later segment j starts. */
  lemma {:induction false} SegmentsOrdered(i: nat, j: nat, g: nat)
    requires i < j
    ensures SegmentStart(i, g) + g <= SegmentStart(j, g)
    decreases j
  {
    if i < j - 1 { SegmentsOrdered(i, j - 1, g); }
  }

  /** Every slot below SegmentStart(k, g) lies in one of the first k segments. */
  lemma {:induction false} SegmentOf(i: int, g: nat, k: nat) returns (j: nat)
    requires 0 <= i < SegmentStart(k, g)
    ensures j < k && SegmentStart(j, g) <= i < SegmentStart(j, g) + g
    decreases k
  {
    if i >= SegmentStart(k - 1, g) {
      j := k - 1;
    } else {
      j := SegmentOf(i, g, k - 1);
    }
  }

  /** A slot past the end of segment m lies in a later segment. */
  lemma SegmentAfter(i: int, j: nat, m: nat, g: nat)
    requires SegmentStart(m, g) + g <= i < SegmentStart(j, g) + g
    ensures m < j
  {
    if j < m {
      SegmentsOrdered(j, m, g);
    }
  }

  /** The scan result of segment m, or -1 for a segment outside the slots. */
  ghost function SegmentLast(vals: seq<int>, ex: seq<bool>, g: nat, m: nat, e: int): int
  {
    var lo := SegmentStart(m, g);
    if |vals| == |ex| && lo + g <= |ex| then LastAtMost(vals, ex, lo, lo + g, e) else -1
  }

  /** Per-segment flags of the segment-level search: segment m holds a value at most e. */
  ghost function SegmentFlags(vals: seq<int>, ex: seq<bool>, g: nat, nseg: nat, e: int): (has: seq<bool>)
    ensures |has| == nseg
  {
    if nseg == 0 then [] else SegmentFlags(vals, ex, g, nseg - 1, e) + [SegmentLast(vals, ex, g, nseg - 1, e) != -1]
  }

  lemma {:induction false} SegmentFlagsAt(vals: seq<int>, ex: seq<bool>, g: nat, nseg: nat, e: int, m: nat)
    requires m < nseg
    ensures SegmentFlags(vals, ex, g, nseg, e)[m] == (SegmentLast(vals, ex, g, m, e) != -1)
  {
    if m < nseg - 1 {
      SegmentFlagsAt(vals, ex, g, nseg - 1, e, m);
    }
  }

  /** The binary search of `upper_bound` over segment flags, with the upper
      end at the last segment: probe lo + (hi - lo + 1) / 2, move right when
      the probed segment holds a value at most the key. */
  function SegmentSearch(has: seq<bool>, lo: int, hi: int): (m: int)
    requires 0 <= lo <= hi < |has|
    ensures lo <= m <= hi
    decreases hi - lo
  {
    if lo == hi then lo
    else
      var mid := lo + (hi - lo + 1) / 2;
      if has[mid] then SegmentSearch(has, mid, hi) else SegmentSearch(has, lo, mid - 1)
  }

  /** The flags hold on a prefix of the segments and fail on the rest. */
  ghost predicate PrefixClosed(has: seq<bool>)
  {
    forall i, j :: 0 <= i < j < |has| && has[j] ==> has[i]
  }

  lemma SegmentSearchStep(has: seq<bool>, lo: int, hi: int)
    requires 0 <= lo < hi < |has|
    ensures has[lo + (hi - lo + 1) / 2] ==> SegmentSearch(has, lo, hi) == SegmentSearch(has, lo + (hi - lo + 1) / 2, hi)
    ensures !has[lo + (hi - lo + 1) / 2] ==> SegmentSearch(has, lo, hi) == SegmentSearch(has, lo, lo + (hi - lo + 1) / 2 - 1)
  {
  }

  /** Flags of the segments holding a value at most e, pointwise. */
  ghost predicate FlagsOf(has: seq<bool>, vals: seq<int>, ex: seq<bool>, g: nat, e: int)
  {
    forall m {:trigger SegmentLast(vals, ex, g, m, e)} :: 0 <= m < |has| ==> has[m] == (SegmentLast(vals, ex, g, m, e) != -1)
  }

  /** The flags, built without exposing their recursive definition. */
  lemma SegmentFlagsPointwise(vals: seq<int>, ex: seq<bool>, g: nat, nseg: nat, e: int) returns (has: seq<bool>)
    ensures |has| == nseg && FlagsOf(has, vals, ex, g, e)
  {
    has := SegmentFlags(vals, ex, g, nseg, e);
    forall m | 0 <= m < nseg ensures has[m] == (SegmentLast(vals, ex, g, m, e) != -1) {
      SegmentFlagsAt(vals, ex, g, nseg, e, m);
    }
  }

  /** Flags given pointwise are the segment flags. */
  lemma FlagsOfSegmentFlags(has: seq<bool>, vals: seq<int>, ex: seq<bool>, g: nat, nseg: nat, e: int)
    requires |has| == nseg && FlagsOf(has, vals, ex, g, e)
    ensures has == SegmentFlags(vals, ex, g, nseg, e)
  {
    var flags := SegmentFlags(vals, ex, g, nseg, e);
    forall m | 0 <= m < nseg ensures has[m] == flags[m] {
      SegmentFlagsAt(vals, ex, g, nseg, e, m);
    }
  }

  /** The search only moves its lower end onto a segment whose flag holds. */
  lemma {:induction false} SegmentSearchLands(has: seq<bool>, lo: int, hi: int)
    requires 0 <= lo <= hi < |has| && (lo == 0 || has[lo])
    ensures var m := SegmentSearch(has, lo, hi); m == 0 || has[m]
    decreases hi - lo
  {
    if lo != hi {
      var mid := lo + (hi - lo + 1) / 2;
      if has[mid] {
        SegmentSearchLands(has, mid, hi);
      } else {
        SegmentSearchLands(has, lo, mid - 1);
      }
    }
  }

  /** One probe of the segment search: the scan of the middle segment decides
      which half still holds the segment the search settles on. */
  lemma SegmentProbe(has: seq<bool>, vals: seq<int>, ex: seq<bool>, g: nat, e: int, lo: int, hi: int, pos: int)
    requires 0 <= lo < hi < |has| && FlagsOf(has, vals, ex, g, e)
    requires pos == SegmentLast(vals, ex, g, lo + (hi - lo + 1) / 2, e)
    ensures var mid := lo + (hi - lo + 1) / 2;
      SegmentSearch(has, lo, hi) == if pos == -1 then SegmentSearch(has, lo, mid - 1) else SegmentSearch(has, mid, hi)
  {
    SegmentSearchStep(has, lo, hi);
  }

  /** Once a flag fails, every later flag fails too. */
  lemma PrefixClosedTail(has: seq<bool>, k: int)
    requires PrefixClosed(has) && 0 <= k < |has| && !has[k]
    ensures forall j :: k <= j < |has| ==> !has[j]
  {
  }

  /** On prefix-closed flags the search finds the last segment whose flag holds. */
  lemma {:induction false} SegmentSearchRightmost(has: seq<bool>, lo: int, hi: int)
    requires 0 <= lo <= hi < |has| && PrefixClosed(has)
    requires lo == 0 || has[lo]
    requires forall j :: hi < j < |has| ==> !has[j]
    ensures forall j :: SegmentSearch(has, lo, hi) < j < |has| ==> !has[j]
    decreases hi - lo
  {
    if lo < hi {
      var mid := lo + (hi - lo + 1) / 2;
      SegmentSearchStep(has, lo, hi);
      if has[mid] {
        SegmentSearchRightmost(has, mid, hi);
      } else {
        PrefixClosedTail(has, mid);
        SegmentSearchRightmost(has, lo, mid - 1);
      }
    }
  }

  /** The segment numbers `upper_bound` as written probes, starting from
      r = store.size() / segment_size (one past the last segment); the list
      stops at the first probe outside the store. */
  function ProbesAsWritten(has: seq<bool>, lo: int, hi: int): (ps: seq<int>)
    requires 0 <= lo <= hi <= |has|
    ensures |ps| >= 1
    ensures forall k :: 0 <= k < |ps| ==> lo <= ps[k] <= hi
    ensures forall k :: 0 <= k < |ps| - 1 ==> ps[k] < |has|
    decreases hi - lo
  {
    if lo == hi then [lo]
    else
      var mid := lo + (hi - lo + 1) / 2;
      if mid >= |has| then [mid]
      else [mid] + (if has[mid] then ProbesAsWritten(has, mid, hi) else ProbesAsWritten(has, lo, mid - 1))
  }

  /** With r starting one past the last segment, a key at least every stored
      value (every flag set) makes the search probe segment nseg, whose slots
      lie past the end of the store. */
  lemma {:induction false} ProbesAsWrittenLeaveStore(has: seq<bool>, lo: int)
    requires 0 <= lo < |has|
    requires forall m :: 0 <= m < |has| ==> has[m]
    ensures var ps := ProbesAsWritten(has, lo, |has|); ps[|ps| - 1] == |has|
    decreases |has| - lo
  {
    var mid := lo + (|has| - lo + 1) / 2;
    if mid < |has| {
      ProbesAsWrittenLeaveStore(has, mid);
    }
  }

  lemma DivExact(a: int, g: int)
    requires g > 0 && a % g == 0
    ensures (a / g) * g == a
  {
    assert a == (a / g) * g + a % g;
  }

  /** A segment whose flag fails holds only values above e. */
  lemma SegmentAbove(vals: seq<int>, ex: seq<bool>, g: nat, nseg: nat, e: int, j: nat)
    requires |vals| == |ex| == SegmentStart(nseg, g) && j < nseg
    requires !SegmentFlags(vals, ex, g, nseg, e)[j]
    ensures SegmentStart(j, g) + g <= |ex|
      && forall i :: SegmentStart(j, g) <= i < SegmentStart(j, g) + g && ex[i] ==> vals[i] > e
  {
    SegmentsOrdered(j, nseg, g);
    SegmentFlagsAt(vals, ex, g, nseg, e, j);
    LastAtMostCorrect(vals, ex, SegmentStart(j, g), SegmentStart(j, g) + g, e);
  }

  /** The last match of a range is the last match of the whole store when
      nothing after the range matches and, if the range has none, nothing
      before it does either. */
  lemma LastAtMostWiden(vals: seq<int>, ex: seq<bool>, lo: int, hi: int, e: int, r: int)
    requires |vals| == |ex| && 0 <= lo <= hi <= |ex| && IsLastAtMost(vals, ex, lo, hi, e, r)
    requires forall i :: hi <= i < |ex| && ex[i] ==> vals[i] > e
    requires r == -1 ==> forall i :: 0 <= i < lo && ex[i] ==> vals[i] > e
    ensures IsLastAtMost(vals, ex, 0, |ex|, e, r)
  {
  }

  /** The scan of a segment m yields the last match of the whole store when
      m is the first segment or its flag holds, and no later flag holds. */
  lemma LastFlaggedSegmentFindsPredecessor(vals: seq<int>, ex: seq<bool>, g: nat, nseg: nat, e: int, m: nat)
    requires |vals| == |ex| == SegmentStart(nseg, g) && m < nseg
    requires m == 0 || SegmentFlags(vals, ex, g, nseg, e)[m]
    requires forall j :: m < j < nseg ==> !SegmentFlags(vals, ex, g, nseg, e)[j]
    ensures IsLastAtMost(vals, ex, 0, |ex|, e, SegmentLast(vals, ex, g, m, e))
  {
    var lo := SegmentStart(m, g);
    var r := SegmentLast(vals, ex, g, m, e);
    SegmentsOrdered(m, nseg, g);
    LastAtMostCorrect(vals, ex, lo, lo + g, e);
    SegmentFlagsAt(vals, ex, g, nseg, e, m);
    forall i | lo + g <= i < |ex| && ex[i] ensures vals[i] > e {
      var j := SegmentOf(i, g, nseg);
      SegmentAfter(i, j, m, g);
      SegmentAbove(vals, ex, g, nseg, e, j);
    }
    LastAtMostWiden(vals, ex, lo, lo + g, e, r);
  }

  /** When the segment flags are prefix-closed, the scan of the segment the
      search settles on yields the last occupied slot of the whole store
      holding a value at most e. */
  lemma SegmentSearchFindsPredecessor(vals: seq<int>, ex: seq<bool>, g: nat, nseg: nat, e: int)
    requires |vals| == |ex| == SegmentStart(nseg, g) && nseg > 0
    requires PrefixClosed(SegmentFlags(vals, ex, g, nseg, e))
    ensures IsLastAtMost(vals, ex, 0, |ex|, e, SegmentLast(vals, ex, g, SegmentSearch(SegmentFlags(vals, ex, g, nseg, e), 0, nseg - 1), e))
  {
    var has := SegmentFlags(vals, ex, g, nseg, e);
    SegmentSearchRightmost(has, 0, nseg - 1);
    SegmentSearchLands(has, 0, nseg - 1);
    LastFlaggedSegmentFindsPredecessor(vals, ex, g, nseg, e, SegmentSearch(has, 0, nseg - 1));
  }

  /** Some slot of [lo, hi) is occupied. */
  ghost predicate HasOccupied(ex: seq<bool>, lo: int, hi: int)
  {
    exists i :: lo <= i < hi && 0 <= i < |ex| && ex[i]
  }

  /** In a sorted store, a range holding a value at most e makes every
      earlier non-empty range hold one too. */
  lemma EarlierRangeAtMost(vals: seq<int>, ex: seq<bool>, lo1: int, hi1: int, lo2: int, hi2: int, e: int)
    requires |vals| == |ex| && 0 <= lo1 <= hi1 <= lo2 <= hi2 <= |ex|
    requires Sorted(Present(vals, ex, 0, |ex|))
    requires HasOccupied(ex, lo1, hi1) && LastAtMost(vals, ex, lo2, hi2, e) != -1
    ensures LastAtMost(vals, ex, lo1, hi1, e) != -1
  {
    var t := LastAtMost(vals, ex, lo2, hi2, e);
    var u :| lo1 <= u < hi1 && 0 <= u < |ex| && ex[u];
    SortedSlots(vals, ex, 0, |ex|, u, t);
    LastAtMostCorrect(vals, ex, lo1, hi1, e);
  }

  /** In a sorted store whose every segment holds an element, the segment
      flags are prefix-closed, so the segment search is exact. */
  lemma SortedFullSegmentsPrefixClosed(vals: seq<int>, ex: seq<bool>, g: nat, nseg: nat, e: int)
    requires |vals| == |ex| == SegmentStart(nseg, g)
    requires Sorted(Present(vals, ex, 0, |ex|)) && SegmentsOccupied(ex, g, nseg)
    ensures PrefixClosed(SegmentFlags(vals, ex, g, nseg, e))
  {
    var has := SegmentFlags(vals, ex, g, nseg, e);
    forall i, j | 0 <= i < j < |has| && has[j] ensures has[i] {
      SegmentsOrdered(i, j, g);
      SegmentsOrdered(j, nseg, g);
      SegmentFlagsAt(vals, ex, g, nseg, e, i);
      SegmentFlagsAt(vals, ex, g, nseg, e, j);
      EarlierRangeAtMost(vals, ex, SegmentStart(i, g), SegmentStart(i, g) + g, SegmentStart(j, g), SegmentStart(j, g) + g, e);
    }
  }

  // =====================================================================
  // Windows

  /** Window capacities double from level to level, and the window at every
      level up to l tiles the whole store. */
  lemma CapacityNested(g: nat, level: nat, l: nat)
    requires 1 <= g && level <= l
    ensures 1 <= CapacityAt(g, level) <= CapacityAt(g, l)
    ensures CapacityAt(g, l) % CapacityAt(g, level) == 0
    ensures CapacityAt(g, level + 1) == 2 * CapacityAt(g, level)
  {
    var c := CapacityAt(g, level);
    assert CapacityAt(g, level + 1) == 2 * c;
    MulMonotone(1, g, Pow2(level));
    var k := Pow2(l - level);
    assert CapacityAt(g, l) == k * c by {
      Pow2Add(level, l - level);
      assert Pow2(l) == Pow2(level) * k;
    }
    MulMonotone(1, k, c);
    DivModUnique(k * c, c, k, 0);
  }

  /** A window no larger than the store is at a level no higher than l. */
  lemma CapacityBelow(g: nat, level: nat, l: nat)
    requires 1 <= g && CapacityAt(g, level) <= CapacityAt(g, l)
    ensures level <= l
  {
    if level > l {
      CapacityNested(g, l, level);
      CapacityNested(g, l + 1, level);
    }
  }

  /** The number of elements in the aligned window of w slots around slot i
      (clipped to the store). */
  function WindowCount(ex: seq<bool>, i: int, w: int): nat
    requires 0 <= i < |ex| && 0 < w
  {
    var lo := AlignDown(i, w);
    assert 0 <= lo <= i by { AlignDownBounds(i, w); }
    Count(ex, lo, if lo + w <= |ex| then lo + w else |ex|)
  }

  /** The count of `smallest_interval_in_balance` as written: its loops run
      up to and including `right`, so the window [left, right) is counted
      together with slot `right`, the first slot of the next window. */
  function WindowCountAsWritten(ex: seq<bool>, left: int, right: int): (r: nat)
    requires 0 <= left <= right < |ex|
    ensures r == Count(ex, left, right) + (if ex[right] then 1 else 0)
  {
    CountAround(ex, left, right, right + 1);
    Count(ex, left, right + 1)
  }

  /** A window that starts at an aligned slot and fits counts exactly its own slots. */
  lemma WindowCountAligned(ex: seq<bool>, i: int, w: int)
    requires 0 <= i && 0 < w && i % w == 0 && i + w <= |ex|
    ensures WindowCount(ex, i, w) == Count(ex, i, i + w)
  {
  }

  /** The window around slot i, given where it starts, when it fits. */
  lemma WindowCountAt(ex: seq<bool>, i: int, w: int, left: int)
    requires 0 <= i < |ex| && 0 < w && left == AlignDown(i, w) && 0 <= left && left + w <= |ex|
    ensures WindowCount(ex, i, w) == Count(ex, left, left + w)
  {
  }

  /** The inclusive bound counts one element too many whenever the slot just
      after the window is occupied: with segments of 2 slots and l = 1, the
      flags [true, false, true, false] and the insertion point 0, the count
      as written is 2 for a segment that holds 1, so the segment is judged
      out of balance although one more element fits. At the top level the
      slot after the window is the end of the store, which is read as well. */
  lemma SmallestIntervalOvercounts(ex: seq<bool>)
    requires |ex| == 4 && ex[0] && !ex[1] && ex[2]
    ensures WindowCountAsWritten(ex, 0, 2) == 2
    ensures WindowCount(ex, 0, 2) == 1
    ensures IsOutOfBalance(2, 1, WindowCountAsWritten(ex, 0, 2) + 1, 0)
    ensures !IsOutOfBalance(2, 1, WindowCount(ex, 0, 2) + 1, 0)
  {
    assert Count(ex, 0, 2) == 1 && Count(ex, 0, 3) == 2 by {
      assert Count(ex, 0, 1) == 1;
    }
    WindowCountAligned(ex, 0, 2);
    TwoSlotSegmentHoldsTwo();
  }

  /** With segments of 2 slots and l = 1, a segment may hold 2 elements. */
  lemma TwoSlotSegmentHoldsTwo()
    ensures IsOutOfBalance(2, 1, 3, 0) && !IsOutOfBalance(2, 1, 2, 0)
  {
    OutOfBalanceExact(2, 1, 3, 0);
    OutOfBalanceExact(2, 1, 2, 0);
  }

  /** The insertion point of `smallest_interval_in_balance`: one past the
      end of the store stands for its last slot. */
  function InsertionSlot(index: int, n: int): int
  {
    if index == n then n - 1 else index
  }

  /** The window of the escalation after `level` steps (level -1: the slot
      i alone, as a half-open range). */
  ghost predicate WindowAt(i: int, g: nat, level: int, start: int, end: int)
    requires 1 <= g
  {
    if level < 0 then start == i && end == i + 1
    else start == AlignDown(i, CapacityAt(g, level)) && end == start + CapacityAt(g, level)
  }

  /** One escalation step: the aligned window twice the size (or the segment,
      from the slot alone) contains the current window and fits in the store. */
  lemma WindowGrow(i: int, g: nat, l: nat, level: int, start: int, end: int, n: int)
    requires 1 <= g && -1 <= level && level + 1 <= l && n == CapacityAt(g, l) && 0 <= i < n
    requires WindowAt(i, g, level, start, end)
    ensures var sz := CapacityAt(g, level + 1); var left := start - start % sz;
      left == AlignDown(i, sz) && 0 <= left <= start && end <= left + sz <= n
  {
    var sz := CapacityAt(g, level + 1);
    CapacityNested(g, level + 1, l);
    AlignDownFits(i, sz, n);
    if level < 0 {
      AlignDownBounds(i, sz);
    } else {
      var w := CapacityAt(g, level);
      CapacityNested(g, level, l);
      AlignDownNested(i, w);
      AlignDownBounds(i, w);
      AlignDownBounds(start, sz);
    }
  }

  /** The aligned window at `level` around slot i, with one more element,
      is over its threshold (in the exact form of OutOfBalanceExact). */
  ghost predicate Crowded(ex: seq<bool>, i: int, g: nat, l: nat, level: nat)
    requires 0 <= i < |ex| && 1 <= g && 0 < l && level <= l
  {
    WindowCount(ex, i, CapacityAt(g, level)) + 1 > Allowed(g, l, level)
  }

  /** Every window below `level` around slot i is crowded. */
  ghost predicate CrowdedBelow(ex: seq<bool>, i: int, g: nat, l: nat, level: int)
    requires 0 <= i < |ex| && 1 <= g && 0 < l && level <= l + 1
  {
    forall lv :: 0 <= lv < level ==> Crowded(ex, i, g, l, lv)
  }

  /** The window `smallest_interval_in_balance` reports: the aligned window at
      `level` around slot i, inside the store, not crowded, with every smaller
      window crowded. */
  ghost predicate FoundWindow(ex: seq<bool>, i: int, g: nat, l: nat, level: int, start: int)
    requires 0 <= i < |ex| && 1 <= g && 0 < l
  {
    0 <= level <= l
    && start == AlignDown(i, CapacityAt(g, level)) && start % CapacityAt(g, level) == 0
    && 0 <= start <= i < start + CapacityAt(g, level) <= |ex|
    && !Crowded(ex, i, g, l, level)
    && CrowdedBelow(ex, i, g, l, level)
  }

  /** One escalation step as a whole: the aligned window at level + 1 (level
      -1: the slot alone) contains the current one, fits in the store, and
      counts its elements in three parts. */
  lemma EscalationWindow(ex: seq<bool>, i: int, g: nat, l: nat, level: int, start: int, end: int, sz: int)
    requires 1 <= g && -1 <= level && |ex| == CapacityAt(g, l) && 0 <= start <= i < end <= |ex|
    requires sz == CapacityAt(g, level + 1) && sz <= |ex|
    requires WindowAt(i, g, level, start, end)
    ensures level + 1 <= l
    ensures var left := start - start % sz;
      WindowAt(i, g, level + 1, left, left + sz) && 0 <= left <= start && end <= left + sz <= |ex|
      && Count(ex, left, left + sz) == Count(ex, left, start) + Count(ex, start, end) + Count(ex, end, left + sz)
      && CapacityAt(g, level + 2) == 2 * sz
  {
    CapacityBelow(g, level + 1, l);
    WindowGrow(i, g, l, level, start, end, |ex|);
    var left := start - start % sz;
    CountSplit(ex, left, start, end);
    CountSplit(ex, left, end, left + sz);
    CapacityNested(g, level + 1, l);
  }

  /** A step of the escalation that ends it: the window just counted fits one more element. */
  lemma EscalationFound(ex: seq<bool>, i: int, g: nat, l: nat, level: nat, start: int, count: int)
    requires 1 <= g && 0 < l && level <= l && 0 <= i < |ex|
    requires start == AlignDown(i, CapacityAt(g, level)) && 0 <= start && start + CapacityAt(g, level) <= |ex|
    requires count == Count(ex, start, start + CapacityAt(g, level))
    requires !IsOutOfBalance(g, l, count + 1, level) && CrowdedBelow(ex, i, g, l, level)
    ensures FoundWindow(ex, i, g, l, level, start)
  {
    var w := CapacityAt(g, level);
    AlignDownBounds(i, w);
    WindowCountAt(ex, i, w, start);
    OutOfBalanceExact(g, l, count + 1, level);
  }

  /** A step of the escalation that goes on: the window just counted is crowded. */
  lemma EscalationCrowded(ex: seq<bool>, i: int, g: nat, l: nat, level: nat, start: int, count: int)
    requires 1 <= g && 0 < l && level <= l && 0 <= i < |ex|
    requires start == AlignDown(i, CapacityAt(g, level)) && 0 <= start && start + CapacityAt(g, level) <= |ex|
    requires count == Count(ex, start, start + CapacityAt(g, level))
    requires IsOutOfBalance(g, l, count + 1, level) && CrowdedBelow(ex, i, g, l, level)
    ensures CrowdedBelow(ex, i, g, l, level + 1)
  {
    WindowCountAt(ex, i, CapacityAt(g, level), start);
    OutOfBalanceExact(g, l, count + 1, level);
    assert Crowded(ex, i, g, l, level);
  }

  /** The test of one escalation step, stated on the loop's own window: an
      in-balance window is the one reported, an out-of-balance one extends the
      crowded levels. */
  lemma EscalationDecided(ex: seq<bool>, i: int, g: nat, l: nat, level: nat, start: int, end: int, count: int)
    requires 1 <= g && 0 < l && level <= l && 0 <= start <= i < end <= |ex|
    requires WindowAt(i, g, level, start, end) && count == Count(ex, start, end)
    requires CrowdedBelow(ex, i, g, l, level)
    ensures !IsOutOfBalance(g, l, count + 1, level) ==> FoundWindow(ex, i, g, l, level, start)
    ensures IsOutOfBalance(g, l, count + 1, level) ==> CrowdedBelow(ex, i, g, l, level + 1)
  {
    if IsOutOfBalance(g, l, count + 1, level) {
      EscalationCrowded(ex, i, g, l, level, start, count);
    } else {
      EscalationFound(ex, i, g, l, level, start, count);
    }
  }

  /** The window the escalation reports holds fewer elements than slots, so
      the merge of one more element fits in it. */
  lemma FoundWindowRoom(ex: seq<bool>, i: int, g: nat, l: nat, level: nat, start: int)
    requires 0 <= i < |ex| && 1 <= g && 0 < l && level <= l
    requires start == AlignDown(i, CapacityAt(g, level)) && 0 <= start && start + CapacityAt(g, level) <= |ex|
    requires !Crowded(ex, i, g, l, level)
    ensures Count(ex, start, start + CapacityAt(g, level)) < CapacityAt(g, level)
  {
    WindowCountAt(ex, i, CapacityAt(g, level), start);
    RoomBelowThreshold(ex, i, g, l, level);
  }

  /** A window that is not crowded has a free slot. */
  lemma RoomBelowThreshold(ex: seq<bool>, i: int, g: nat, l: nat, level: nat)
    requires 0 <= i < |ex| && 1 <= g && 0 < l && level <= l
    requires !Crowded(ex, i, g, l, level)
    ensures WindowCount(ex, i, CapacityAt(g, level)) < CapacityAt(g, level)
  {
    AllowedBounds(CapacityAt(g, level), l, level);
  }

  /** The window at every level is made of whole segments. */
  lemma CapacitySegmented(g: nat, level: nat)
    requires 1 <= g
    ensures CapacityAt(g, level) % g == 0
  {
    DivModUnique(g * Pow2(level), g, Pow2(level), 0);
  }

  // =====================================================================
  // Occupied segments

  /** Every one of the first nseg segments of g slots holds an element. */
  ghost predicate SegmentsOccupied(ex: seq<bool>, g: nat, nseg: nat)
  {
    forall v: nat :: v < nseg ==> HasOccupied(ex, SegmentStart(v, g), SegmentStart(v, g) + g)
  }

  /** The segment search of `upper_bound` is exact in a sorted store whose
      segments all hold an element, and in any store of one or two segments:
      the scan of the segment it settles on yields the last occupied slot of
      the whole store holding a value at most e. */
  lemma SegmentSearchExact(vals: seq<int>, ex: seq<bool>, g: nat, nseg: nat, e: int)
    requires |vals| == |ex| == SegmentStart(nseg, g) && nseg > 0
    requires nseg <= 2 || (Sorted(Present(vals, ex, 0, |ex|)) && SegmentsOccupied(ex, g, nseg))
    ensures IsLastAtMost(vals, ex, 0, |ex|, e, SegmentLast(vals, ex, g, SegmentSearch(SegmentFlags(vals, ex, g, nseg, e), 0, nseg - 1), e))
  {
    if nseg > 2 {
      SortedFullSegmentsPrefixClosed(vals, ex, g, nseg, e);
      SegmentSearchFindsPredecessor(vals, ex, g, nseg, e);
    } else {
      var has := SegmentFlags(vals, ex, g, nseg, e);
      SegmentSearchLands(has, 0, nseg - 1);
      if nseg == 2 {
        SegmentSearchStep(has, 0, 1);
      }
      LastFlaggedSegmentFindsPredecessor(vals, ex, g, nseg, e, SegmentSearch(has, 0, nseg - 1));
    }
  }

  /** Filling a slot keeps every segment occupied. */
  lemma FillKeepsSegmentsOccupied(ex: seq<bool>, q: int, g: nat, nseg: nat)
    requires 0 <= q < |ex| && SegmentsOccupied(ex, g, nseg)
    ensures SegmentsOccupied(ex[q := true], g, nseg)
  {
    forall v: nat | v < nseg
      ensures HasOccupied(ex[q := true], SegmentStart(v, g), SegmentStart(v, g) + g)
    {
      var i :| SegmentStart(v, g) <= i < SegmentStart(v, g) + g && 0 <= i < |ex| && ex[i];
      assert ex[q := true][i];
    }
  }

  /** With m values spread over c <= 4m slots, every block of g >= 4 slots
      inside the window receives one: the first j with (j + 1) c >= (b + 1) m
      lands at offset b to b + 3. */
  lemma SpreadHitsBlock(b: int, g: int, c: int, m: int) returns (j: int)
    requires 0 < m <= c <= 4 * m && 4 <= g && 0 <= b && b + g <= c
    ensures 0 <= j < m && b <= SpreadSlot(j, c, m) < b + g
  {
    var t := FirstReaching(b, c, m);
    QuotientNear(t * c, b, c, m);
    j := t - 1;
  }

  /** The least t >= 1 with t c >= (b + 1) m, for b < c: it is at most m. */
  lemma FirstReaching(b: int, c: int, m: int) returns (t: int)
    requires 0 < m && 0 <= b < c
    ensures 1 <= t <= m && (b + 1) * m <= t * c < (b + 1) * m + c
  {
    var q := (b + 1) * m + c - 1;
    t := q / c;
    MulMonotone(1, b + 1, m);
    MulMonotone(b + 1, c, m);
    assert q == t * c + q % c;
    DivAtLeast(q, c, 1);
    assert (m + 1) * c == m * c + c;
    DivAtMost(q, c, m);
  }

  /** A numerator between (b + 1) m and (b + 1) m + c, with c <= 4m, gives a
      quotient by m between b + 1 and b + 4. */
  lemma QuotientNear(x: int, b: int, c: int, m: int)
    requires 0 < m && c <= 4 * m && (b + 1) * m <= x < (b + 1) * m + c
    ensures b + 1 <= x / m <= b + 4
  {
    DivAtLeast(x, m, b + 1);
    assert (b + 5) * m == (b + 1) * m + 4 * m;
    DivAtMost(x, m, b + 4);
  }

  /** A window [lo, lo + c) spread evenly with at most four slots per value
      has an element in every block of g >= 4 slots inside it; a window that
      is a single block has one in it. */
  lemma SpreadFillsBlock(v: seq<int>, f: seq<bool>, lo: int, c: int, xs: seq<int>, b: int, g: int)
    requires |v| == |f| && 0 <= lo && 0 < |xs| <= c && lo + c <= |f| && EvenlySpread(v, f, lo, c, xs)
    requires 0 <= b && b + g <= c
    requires (4 <= g && c <= 4 * |xs|) || (b == 0 && g == c)
    ensures HasOccupied(f, lo + b, lo + b + g)
  {
    var j := 0;
    if !(b == 0 && g == c) {
      j := SpreadHitsBlock(b, g, c, |xs|);
    }
    assert HoldsAt(v, f, lo + SpreadSlot(j, c, |xs|), xs[j]);
  }

  /** A segment lies wholly before, wholly after or wholly inside an aligned
      window of whole segments. */
  lemma SegmentInOrOut(v: nat, g: nat, lo: int, c: int)
    requires 1 <= g <= c && 0 <= lo && lo % c == 0 && c % g == 0
    ensures v * g + g <= lo || lo + c <= v * g || (lo <= v * g && v * g + g <= lo + c)
  {
    var p, q := c / g, lo / c;
    DivExact(c, g);
    DivExact(lo, c);
    var a := q * p;
    assert lo == a * g by {
      assert q * (p * g) == (q * p) * g;
    }
    assert (v + 1) * g == v * g + g;
    assert (a + p) * g == a * g + p * g;
    if v < a {
      MulMonotone(v + 1, a, g);
    } else if v >= a + p {
      MulMonotone(a + p, v, g);
    } else {
      MulMonotone(a, v, g);
      MulMonotone(v + 1, a + p, g);
    }
  }

  /** An aligned window of whole segments, spread evenly with at most four
      slots per value (or a single segment), with the flags outside it
      unchanged, keeps every segment occupied. */
  lemma WindowKeepsSegmentsOccupied(f0: seq<bool>, v2: seq<int>, f2: seq<bool>, g: nat, nseg: nat, lo: int, c: int, xs: seq<int>)
    requires 1 <= g <= c && |f0| == |f2| == |v2| && 0 <= lo && lo % c == 0 && c % g == 0 && lo + c <= |f0|
    requires SegmentsOccupied(f0, g, nseg)
    requires 0 < |xs| <= c && EvenlySpread(v2, f2, lo, c, xs)
    requires (4 <= g && c <= 4 * |xs|) || c == g
    requires forall k :: 0 <= k < |f0| && !(lo <= k < lo + c) ==> f2[k] == f0[k]
    ensures SegmentsOccupied(f2, g, nseg)
  {
    forall v: nat | v < nseg
      ensures HasOccupied(f2, SegmentStart(v, g), SegmentStart(v, g) + g)
    {
      SegmentStartProduct(v, g);
      SegmentInOrOut(v, g, lo, c);
      var s := v * g;
      if lo <= s && s + g <= lo + c {
        SpreadFillsBlock(v2, f2, lo, c, xs, s - lo, g);
      } else {
        var i :| s <= i < s + g && 0 <= i < |f0| && f0[i];
        assert f2[i];
      }
    }
  }

  /** Rebalancing the window `smallest_interval_in_balance` reports, in a
      store of segments of four slots or more that are all occupied, keeps
      them occupied: once that window holds xs, its old elements and e,
      spread evenly, with the rest of the store unchanged, every segment
      is occupied. */
  lemma WindowRebalanceFilled(v0: seq<int>, f0: seq<bool>, v2: seq<int>, f2: seq<bool>, i: int, g: nat, l: nat, level: nat, start: int, c: int, nseg: nat, xs: seq<int>)
    requires |v0| == |f0| == |v2| == |f2| && 0 <= i < |f0| && 4 <= g && 0 < l && |f0| == CapacityAt(g, l)
    requires FoundWindow(f0, i, g, l, level, start) && c == CapacityAt(g, level)
    requires SegmentsOccupied(f0, g, nseg)
    requires |xs| == Count(f0, start, start + c) + 1 && |xs| <= c
    requires SameOutsideOf(v2, f2, v0, f0, start, start + c) && EvenlySpread(v2, f2, start, c, xs)
    ensures SegmentsOccupied(f2, g, nseg)
  {
    if level >= 1 {
      FoundWindowDense(f0, i, g, l, level, start);
    }
    CapacitySegmented(g, level);
    WindowKeepsSegmentsOccupied(f0, v2, f2, g, nseg, start, c, xs);
  }

  /** The window the escalation reports at a level k >= 1 holds, with the
      element to insert, more than a quarter of its slots: the window of
      level k - 1 around the insertion point was crowded, so at least half
      full. */
  lemma FoundWindowDense(ex: seq<bool>, i: int, g: nat, l: nat, level: nat, start: int)
    requires 0 <= i < |ex| && 1 <= g && 0 < l && 1 <= level
    requires FoundWindow(ex, i, g, l, level, start)
    ensures CapacityAt(g, level) <= 4 * (Count(ex, start, start + CapacityAt(g, level)) + 1)
  {
    var h, c := CapacityAt(g, level - 1), CapacityAt(g, level);
    assert c == 2 * h;
    assert Crowded(ex, i, g, l, level - 1);
    AllowedAtLeastHalf(g, l, level - 1);
    WindowCountInside(ex, i, h, start);
    assert h == 2 * (h / 2) + h % 2;
  }

  /** Below the top level a window may hold at least half of its slots. */
  lemma AllowedAtLeastHalf(g: nat, l: nat, level: nat)
    requires 0 < l && level <= l
    ensures CapacityAt(g, level) / 2 <= Allowed(g, l, level)
  {
    var h := CapacityAt(g, level);
    AllowedHalf(h, l);
    assert h * l <= h * (2 * l - level) by {
      MulMonotone(l, 2 * l - level, h);
    }
    DivMonotone(h * l, h * (2 * l - level), 2 * l);
  }

  /** The aligned window of h slots around slot i lies inside the aligned
      window of 2h slots around it, so it counts no more elements. */
  lemma WindowCountInside(ex: seq<bool>, i: int, h: int, start: int)
    requires 0 <= i < |ex| && 0 < h && start == AlignDown(i, 2 * h) && 0 <= start && start + 2 * h <= |ex|
    ensures WindowCount(ex, i, h) <= Count(ex, start, start + 2 * h)
  {
    var s1 := AlignDown(i, h);
    AlignDownNested(i, h);
    AlignDownBounds(i, h);
    AlignDownBounds(s1, 2 * h);
    WindowCountAt(ex, i, h, s1);
    CountSplit(ex, start, s1, start + 2 * h);
    CountSplit(ex, s1, s1 + h, start + 2 * h);
  }

  /** When even the whole store is crowded it holds at least half as many
      elements as slots, so with the element to insert its double holds at
      least a quarter. */
  lemma CrowdedStoreDense(ex: seq<bool>, i: int, g: nat, l: nat)
    requires 0 <= i < |ex| && 1 <= g && 0 < l && |ex| == CapacityAt(g, l)
    requires CrowdedBelow(ex, i, g, l, l + 1)
    ensures 2 * |ex| <= 4 * (Count(ex, 0, |ex|) + 1)
  {
    assert Crowded(ex, i, g, l, l);
    OutOfBalanceExact(g, l, 0, l);
    DivModUnique(i, |ex|, 0, i);
    assert WindowCount(ex, i, |ex|) == Count(ex, 0, |ex|);
    assert |ex| == 2 * (|ex| / 2) + |ex| % 2;
  }

  /** With `SegmentSizeFor`, a store of 2^k slots has more than two segments
      only when they hold at least four slots each. */
  lemma WideSegments(k: nat)
    requires k >= 1
    ensures Pow2(k) > 2 * SegmentSizeFor(k) ==> 4 <= SegmentSizeFor(k)
  {
    var g := SegmentSizeFor(k);
    if g < 4 && Pow2(k) > 2 * g {
      assert Pow2(3) == 8 && Log2(3) == 1;
      assert false;
    }
  }

  /** A store of 2^k slots in segments of `SegmentSizeFor(k)` slots, spread
      evenly with at most four slots per value, has every segment occupied
      once it has more than two. */
  lemma SpreadStoreFilled(v: seq<int>, f: seq<bool>, k: nat, nseg: nat, xs: seq<int>)
    requires k >= 1 && |v| == |f| == Pow2(k) && SegmentStart(nseg, SegmentSizeFor(k)) == |f|
    requires 0 < |xs| <= |f| <= 4 * |xs| && EvenlySpread(v, f, 0, |f|, xs)
    ensures nseg > 2 ==> 4 <= SegmentSizeFor(k) && SegmentsOccupied(f, SegmentSizeFor(k), nseg)
  {
    var g := SegmentSizeFor(k);
    SegmentStartProduct(nseg, g);
    if nseg > 2 {
      MulMonotone(3, nseg, g);
      WideSegments(k);
      forall u: nat | u < nseg
        ensures HasOccupied(f, SegmentStart(u, g), SegmentStart(u, g) + g)
      {
        SpreadFillsSegment(v, f, g, nseg, xs, u);
      }
    }
  }

  /** Segment u of such a store holds an element. */
  lemma SpreadFillsSegment(v: seq<int>, f: seq<bool>, g: nat, nseg: nat, xs: seq<int>, u: nat)
    requires 4 <= g && |v| == |f| == nseg * g && u < nseg
    requires 0 < |xs| <= |f| <= 4 * |xs| && EvenlySpread(v, f, 0, |f|, xs)
    ensures HasOccupied(f, SegmentStart(u, g), SegmentStart(u, g) + g)
  {
    SegmentInside(u, g, nseg);
    SpreadFillsBlock(v, f, 0, |f|, xs, u * g, g);
  }

  /** Segment u of nseg starts at u g and ends by nseg g. */
  lemma SegmentInside(u: nat, g: nat, nseg: nat)
    requires u < nseg
    ensures SegmentStart(u, g) == u * g && u * g + g <= nseg * g
  {
    SegmentStartProduct(u, g);
    MulMonotone(u + 1, nseg, g);
  }

  // =====================================================================
  // The element counter

  /** A slot edit: `insert_element_at` fills a slot, `delete_element_at`
      clears one. */
  datatype SlotEdit = Fill(slot: nat) | Clear(slot: nat)

  /** Edits that fill only free slots and clear only occupied ones, inside
      the flags. */
  predicate Legal(f: seq<bool>, edits: seq<SlotEdit>)
    decreases |edits|
  {
    edits == []
    || (edits[0].slot < |f| && f[edits[0].slot] != edits[0].Fill?
        && Legal(f[edits[0].slot := edits[0].Fill?], edits[1..]))
  }

  /** The flags after the edits, in order. */
  function Apply(f: seq<bool>, edits: seq<SlotEdit>): (r: seq<bool>)
    requires Legal(f, edits)
    ensures |r| == |f|
    decreases |edits|
  {
    if edits == [] then f else Apply(f[edits[0].slot := edits[0].Fill?], edits[1..])
  }

  /** `s` after the edits as the source keeps it: `insert_element_at` adds
      one and `delete_element_at` leaves it alone. */
  function CounterAsWritten(s: int, edits: seq<SlotEdit>): (r: int)
    ensures s <= r <= s + |edits|
    decreases |edits|
  {
    if edits == [] then s else CounterAsWritten(if edits[0].Fill? then s + 1 else s, edits[1..])
  }

  /** `rebalance(0, 1, e)` on the whole two-slot store, holding one element
      below e, clears slot 0 and refills slots 0 and 1: two elements, but the counter
      written that way says three. */
  lemma CounterAsWrittenDrifts()
    ensures var f, edits := [true, false], [Clear(0), Fill(0), Fill(1)];
      Legal(f, edits) && Count(Apply(f, edits), 0, 2) == 2 && CounterAsWritten(1, edits) == 3
  {
    var f, edits := [true, false], [Clear(0), Fill(0), Fill(1)];
    assert edits[1..] == [Fill(0), Fill(1)] && edits[1..][1..] == [Fill(1)];
    assert Apply(f, edits) == [true, true];
  }

  /** `s` after the edits with `delete_element_at` taking one off. */
  function Counter(s: int, edits: seq<SlotEdit>): int
    decreases |edits|
  {
    if edits == [] then s else Counter(if edits[0].Fill? then s + 1 else s - 1, edits[1..])
  }

  /** That counter stays equal to the number of occupied slots through any
      legal run of edits. */
  lemma {:induction false} CounterTracksCount(f: seq<bool>, edits: seq<SlotEdit>)
    requires Legal(f, edits)
    ensures Counter(Count(f, 0, |f|), edits) == Count(Apply(f, edits), 0, |f|)
    decreases |edits|
  {
    if edits != [] {
      var k, b := edits[0].slot, edits[0].Fill?;
      var g := f[k := b];
      CountAround(f, 0, k, |f|);
      CountAround(g, 0, k, |f|);
      CountFrame(f, g, 0, k);
      CountFrame(f, g, k + 1, |f|);
      CounterTracksCount(g, edits[1..]);
    }
  }

  // =====================================================================
  // Doubling

  /** The length `expand_PMA` gives the new flags: s + 1. */
  function NewFlagsLengthAsWritten(s: nat): (r: nat)
    ensures r > s
  {
    s + 1
  }

  /** The new store has twice the slots of the old one, and the whole-store
      rebalance that follows reads every one of their flags; but a valid
      array holds at most as many elements as slots, so the new flags stop
      short of the end. */
  lemma NewFlagsTooShort(a: PackedMemoryArray)
    requires a.Valid()
    ensures NewFlagsLengthAsWritten(a.s) < 2 * a.store.Length
  {
    Pow2Monotone(1, a.lgN);
  }

  // =====================================================================
  // The array

  class PackedMemoryArray {
    /** The values; a slot's value is meaningful only while its flag is set. */
    var store: array<int>
    /** The existence bitmask (`exists`), one flag per slot of `store`. */
    var occupied: array<bool>
    /** The number of elements. */
    var s: nat
    /** Slots per segment, the smallest window. */
    var segmentSize: nat
    /** Levels above a segment: the whole store is the window at level l. */
    var l: nat
    /** log2 of the number of slots. */
    ghost var lgN: nat

    ghost predicate Valid()
      reads this, store, occupied
    {
      1 <= lgN && store.Length == Pow2(lgN) && occupied.Length == store.Length
      && s == Count(occupied[..], 0, occupied.Length)
    }

    /** The store is cut into whole segments. */
    ghost predicate Segmented()
      reads this, store
    {
      1 <= segmentSize <= store.Length && store.Length % segmentSize == 0
    }

    /** The number of segments. */
    function Segments(): (n: nat)
      reads this, store
      requires Segmented()
      ensures 1 <= n && SegmentStart(n, segmentSize) == store.Length
    {
      DivExact(store.Length, segmentSize);
      SegmentStartProduct(store.Length / segmentSize, segmentSize);
      store.Length / segmentSize
    }

    /** The store is the window at level l; the flags match the store. */
    ghost predicate Sized()
      reads this, store, occupied
    {
      store.Length == occupied.Length && 1 <= segmentSize && 1 <= l
      && store.Length == CapacityAt(segmentSize, l)
    }

    /** Segments of at least one slot, at least one level above them, and
        the window at the top level as large as the store. The constructor
        and `Regrow` set the exact values `SegmentSizeFor` and `LevelsFor`
        give; the operations need only these facts. */
    ghost predicate Geometry()
      reads this
    {
      1 <= lgN && 1 <= segmentSize && 1 <= l && CapacityAt(segmentSize, l) == Pow2(lgN)
    }

    /** The same arrays and the same geometry as the given ones. */
    ghost predicate Shape(st: array<int>, ex: array<bool>, lg: nat, g: nat, lv: nat)
      reads this
    {
      store == st && occupied == ex && lgN == lg && segmentSize == g && l == lv
    }

    /** The elements, left to right. */
    ghost function Elements(): (xs: seq<int>)
      reads this, store, occupied
      requires Valid()
      ensures |xs| == s
    {
      Present(store[..], occupied[..], 0, store.Length)
    }

    /** Once the store has more than two segments, they hold at least four
        slots each and every one of them holds an element. */
    ghost predicate Filled()
      reads this, store, occupied
      requires Valid()
    {
      Segmented() && (Segments() > 2 ==> 4 <= segmentSize && SegmentsOccupied(occupied[..], segmentSize, Segments()))
    }

    /** The invariant `insert_element` keeps: the elements are sorted and
        the store is filled, which makes the segment search exact. */
    ghost predicate Ordered()
      reads this, store, occupied
      requires Valid()
    {
      Sorted(Elements()) && Filled()
    }

    /** The listing of the slots [lo, hi). */
    ghost function Range(lo: int, hi: int): seq<int>
      reads this, store, occupied
      requires Valid() && 0 <= lo <= hi <= store.Length
    {
      Present(store[..], occupied[..], lo, hi)
    }

    /** A store of c = 2 slots holding e; one segment of one slot, l = 1. */
    constructor (e: int)
      ensures Valid() && Geometry() && Elements() == [e] && fresh(store) && fresh(occupied)
      ensures Ordered()
      ensures store.Length == 2 && segmentSize == 1 && l == 1
      ensures occupied[0] && store[0] == e && !occupied[1] && s == 1
    {
      store := new int[2];
      occupied := new bool[2](_ => false);
      s := 0;
      lgN := 1;
      segmentSize := SegmentSizeFor(1);
      l := LevelsFor(1);
      new;
      CountNone(occupied[..], 0, 2);
      CountNone(occupied[..], 1, 2);
      InsertElementAt(e, 0);
      PresentPacked(store[..], occupied[..], 1, 2);
      assert Elements() == [e];
      TwoSegmentsFilled();
    }

    /** A store of two segments is filled, whatever its flags. */
    lemma TwoSegmentsFilled()
      requires Valid() && 1 <= segmentSize && store.Length == 2 * segmentSize
      ensures Filled() && Segments() == 2
    {
      assert store.Length / segmentSize == 2;
    }

    method InsertElementAt(e: int, index: int)
      requires Valid() && 0 <= index < store.Length && !occupied[index]
      modifies this, store, occupied
      ensures Valid() && Shape(old(store), old(occupied), old(lgN), old(segmentSize), old(l))
      ensures store[..] == old(store[..])[index := e]
      ensures occupied[..] == old(occupied[..])[index := true]
      ensures s == old(s) + 1
    {
      ghost var vals, ex := store[..], occupied[..];
      CountAround(ex, 0, index, store.Length);
      store[index] := e;
      occupied[index] := true;
      s := s + 1;
      PresentUpdate(vals, ex, 0, index, store.Length, e, true);
      assert store[..] == vals[index := e] && occupied[..] == ex[index := true];
    }

    /** Clears the flag of an occupied slot; the element count drops by one. */
    method DeleteElementAt(index: int)
      requires Valid() && 0 <= index < store.Length && occupied[index]
      modifies this, occupied
      ensures Valid() && Shape(old(store), old(occupied), old(lgN), old(segmentSize), old(l))
      ensures store[..] == old(store[..])
      ensures occupied[..] == old(occupied[..])[index := false]
      ensures s == old(s) - 1
    {
      ghost var vals, ex := store[..], occupied[..];
      CountAround(ex, 0, index, store.Length);
      occupied[index] := false;
      s := s - 1;
      PresentUpdate(vals, ex, 0, index, store.Length, vals[index], false);
      assert occupied[..] == ex[index := false];
    }

    /** An `insert_element_at(store[from], to)` followed by clearing the
        flag at `from`: the element moves to a free slot. As compiled
        (OPTIMIZE defined) the rebalance clears the flag directly
        (impl1.cpp:441, 466) rather than through `delete_element_at`;
        either way the source leaves s one too high, and the model keeps
        s, as `CounterTracksCount` does. */
    method MoveElement(from: int, to: int)
      requires Valid() && 0 <= from < store.Length && 0 <= to < store.Length && from != to
      requires occupied[from] && !occupied[to]
      modifies this, store, occupied
      ensures Valid() && Shape(old(store), old(occupied), old(lgN), old(segmentSize), old(l)) && s == old(s)
      ensures store[..] == old(store[..])[to := old(store[from])]
      ensures occupied[..] == old(occupied[..])[to := true][from := false]
    {
      var v := store[from];
      InsertElementAt(v, to);
      DeleteElementAt(from);
    }

    /** The element at an occupied slot: the one of rank Count(0, index). */
    method ElemAt(index: int) returns (r: int)
      requires Valid() && 0 <= index < store.Length && occupied[index]
      ensures Count(occupied[..], 0, index) < |Elements()| && r == Elements()[Count(occupied[..], 0, index)]
    {
      r := store[index];
      PresentAt(store[..], occupied[..], 0, store.Length, index);
    }

    /** Left-to-right scan for e that gives up at the first larger element. */
    method Find(e: int) returns (r: int)
      requires Valid()
      ensures -1 <= r < store.Length
      ensures r >= 0 ==> occupied[r] && store[r] == e && e in Elements()
      ensures r >= 0 ==> forall i :: 0 <= i < r && occupied[i] ==> store[i] < e
      ensures Sorted(Elements()) ==> (r == -1 <==> e !in Elements())
    {
      var i := 0;
      while i < store.Length
        invariant 0 <= i <= store.Length
        invariant forall j :: 0 <= j < i && occupied[j] ==> store[j] < e
      {
        if occupied[i] {
          if store[i] == e {
            PresentAt(store[..], occupied[..], 0, store.Length, i);
            return i;
          } else if store[i] > e {
            if Sorted(Elements()) {
              forall j | i < j < store.Length && occupied[j] ensures store[j] > e {
                SortedSlots(store[..], occupied[..], 0, store.Length, i, j);
              }
              PresentAvoids(store[..], occupied[..], 0, store.Length, e);
            }
            return -1;
          }
        }
        i := i + 1;
      }
      PresentAvoids(store[..], occupied[..], 0, store.Length, e);
      return -1;
    }

    /** `upper_bound_in_segment` as written: the FIRST occupied slot of segment
        v holding a value at most e. */
    method UpperBoundInSegmentAsWritten(e: int, v: int) returns (r: int)
      requires store.Length == occupied.Length && 0 <= v && SegmentStart(v, segmentSize) + segmentSize <= store.Length
      ensures var lo := SegmentStart(v, segmentSize); IsFirstAtMost(store[..], occupied[..], lo, lo + segmentSize, e, r)
    {
      var lo := v * segmentSize;
      SegmentStartProduct(v, segmentSize);
      var i := lo;
      while i < lo + segmentSize
        invariant lo <= i <= lo + segmentSize
        invariant forall j :: lo <= j < i && occupied[j] ==> store[j] > e
      {
        if occupied[i] && store[i] <= e {
          return i;
        }
        i := i + 1;
      }
      return -1;
    }

    /** The segment scan: the LAST occupied slot of segment v holding a value
        at most e, or -1. */
    method UpperBoundInSegment(e: int, v: int) returns (r: int)
      requires store.Length == occupied.Length && Segmented() && 0 <= v < Segments()
      ensures r == SegmentLast(store[..], occupied[..], segmentSize, v, e)
      ensures store[..] == old(store[..]) && occupied[..] == old(occupied[..])
    {
      SegmentsOrdered(v, Segments(), segmentSize);
      var lo := v * segmentSize;
      SegmentStartProduct(v, segmentSize);
      var i := lo;
      r := -1;
      while i < lo + segmentSize
        invariant lo <= i <= lo + segmentSize
        invariant r == LastAtMost(store[..], occupied[..], lo, i, e)
      {
        if occupied[i] && store[i] <= e {
          r := i;
        }
        i := i + 1;
      }
      LastAtMostCorrect(store[..], occupied[..], lo, lo + segmentSize, e);
    }

    /** Flags of the segments holding a value at most e. */
    ghost function Flags(e: int): seq<bool>
      reads this, store, occupied
      requires store.Length == occupied.Length && Segmented()
    {
      SegmentFlags(store[..], occupied[..], segmentSize, Segments(), e)
    }

    /** The segment the binary search of `upper_bound` settles on. */
    ghost function SearchedSegment(e: int): (m: int)
      reads this, store, occupied
      requires store.Length == occupied.Length && Segmented()
      ensures 0 <= m < Segments() && SegmentStart(m, segmentSize) + segmentSize <= store.Length
    {
      var m := SegmentSearch(Flags(e), 0, Segments() - 1);
      SegmentsOrdered(m, Segments(), segmentSize);
      m
    }

    /** The binary search of `upper_bound` over the segments: the last
        segment it probes without finding a value at most e moves the upper
        end below it, any other moves the lower end to it. */
    method SearchSegments(e: int) returns (v: int)
      requires store.Length == occupied.Length && Segmented()
      ensures v == SearchedSegment(e)
    {
      var nseg := Segments();
      ghost var vals, ex := store[..], occupied[..];
      ghost var has := SegmentFlagsPointwise(vals, ex, segmentSize, nseg, e);
      var lo: int, hi: int := 0, nseg - 1;
      while lo != hi
        invariant 0 <= lo <= hi < nseg
        invariant store[..] == vals && occupied[..] == ex
        invariant SegmentSearch(has, lo, hi) == SegmentSearch(has, 0, nseg - 1)
        decreases hi - lo
      {
        var mid := lo + (hi - lo + 1) / 2;
        var pos := UpperBoundInSegment(e, mid);
        SegmentProbe(has, vals, ex, segmentSize, e, lo, hi, pos);
        if pos == -1 {
          hi := mid - 1;
        } else {
          lo := mid;
        }
      }
      FlagsOfSegmentFlags(has, vals, ex, segmentSize, nseg, e);
      v := lo;
    }

    /** `upper_bound`: binary search over the segments (from the last segment
        down), then the scan of the segment it settles on. */
    method UpperBound(e: int) returns (r: int)
      requires store.Length == occupied.Length && Segmented()
      ensures r == -1 || (0 <= r < store.Length && occupied[r] && store[r] <= e)
      ensures r == SegmentLast(store[..], occupied[..], segmentSize, SearchedSegment(e), e)
      ensures Segments() <= 2 || (Sorted(Present(store[..], occupied[..], 0, store.Length)) && SegmentsOccupied(occupied[..], segmentSize, Segments()))
        ==> IsLastAtMost(store[..], occupied[..], 0, store.Length, e, r)
    {
      var v := SearchSegments(e);
      r := UpperBoundInSegment(e, v);
      if Segments() <= 2 || (Sorted(Present(store[..], occupied[..], 0, store.Length)) && SegmentsOccupied(occupied[..], segmentSize, Segments())) {
        SearchedSegmentExact(e);
      }
    }

    /** The segment the search settles on holds the last element at most e
        when there are at most two segments, or when the elements are sorted
        and every segment is occupied. */
    lemma SearchedSegmentExact(e: int)
      requires store.Length == occupied.Length && Segmented()
      requires Segments() <= 2 || (Sorted(Present(store[..], occupied[..], 0, store.Length)) && SegmentsOccupied(occupied[..], segmentSize, Segments()))
      ensures IsLastAtMost(store[..], occupied[..], 0, store.Length, e, SegmentLast(store[..], occupied[..], segmentSize, SearchedSegment(e), e))
    {
      SegmentSearchExact(store[..], occupied[..], segmentSize, Segments(), e);
    }

    /** The number of occupied slots in [lo, hi). */
    method CountOccupied(lo: int, hi: int) returns (c: nat)
      requires 0 <= lo <= hi <= occupied.Length
      ensures c == Count(occupied[..], lo, hi)
    {
      c := 0;
      var k := lo;
      while k < hi
        invariant lo <= k <= hi
        invariant c == Count(occupied[..], lo, k)
      {
        if occupied[k] {
          c := c + 1;
        }
        k := k + 1;
      }
    }

    /** `smallest_interval_in_balance`: doubles an aligned window around the
        insertion point, counting its elements incrementally, until the window
        can take one more element; returns 1 with that window, or -1 when even
        the whole store cannot. The slot at the insertion point is occupied
        (the count starts at 1 for it); the window is counted as a half-open
        range. */
    method SmallestIntervalInBalance(index: int) returns (r: int, nodeIndex: int, nodeLevel: int)
      requires Sized() && 0 <= index <= store.Length && occupied[InsertionSlot(index, store.Length)]
      ensures r == 1 || r == -1
      ensures r == 1 ==> FoundWindow(occupied[..], InsertionSlot(index, store.Length), segmentSize, l, nodeLevel, nodeIndex)
      ensures r == -1 ==> (nodeIndex == -1 && nodeLevel == -1
        && CrowdedBelow(occupied[..], InsertionSlot(index, store.Length), segmentSize, l, l + 1))
    {
      var i := InsertionSlot(index, store.Length);
      ghost var ex := occupied[..];
      var level := -1;
      var start, end := i, i + 1;
      var count := 1;
      assert Count(ex, i, i + 1) == 1;
      var sz := segmentSize;
      while sz <= store.Length
        invariant -1 <= level <= l
        invariant sz == CapacityAt(segmentSize, level + 1)
        invariant WindowAt(i, segmentSize, level, start, end) && 0 <= start <= i < end <= store.Length
        invariant count == Count(ex, start, end)
        invariant CrowdedBelow(ex, i, segmentSize, l, level + 1)
      {
        EscalationWindow(ex, i, segmentSize, l, level, start, end, sz);
        var left := start - start % sz;
        var right := left + sz;
        var c1 := CountOccupied(left, start);
        var c2 := CountOccupied(end, right);
        count := count + c1 + c2;
        start, end := left, right;
        level := level + 1;
        EscalationDecided(ex, i, segmentSize, l, level, start, end, count);
        if !IsOutOfBalance(segmentSize, l, count + 1, level) {
          return 1, start, level;
        }
        sz := sz * 2;
      }
      if level < l {
        CapacityNested(segmentSize, level + 1, l);
      }
      return -1, -1, -1;
    }

    /** The flags and values outside the window [lo, hi) are those of the given snapshot. */
    ghost predicate SameOutside(vals: seq<int>, ex: seq<bool>, lo: int, hi: int)
      reads this, store, occupied
    {
      |vals| == store.Length && |ex| == occupied.Length
      && forall k :: 0 <= k < occupied.Length && !(lo <= k < hi) ==>
        k < store.Length && occupied[k] == ex[k] && store[k] == vals[k]
    }

    /** One slot of that pass: an occupied slot i is pushed onto what has
        been collected, preceded by e when e has not been pushed yet and the
        slot's value is smaller than e, and the slot is cleared. */
    method CollectSlot(i: int, e: int, inserted: bool, pushed: seq<int>) returns (inserted': bool, pushed': seq<int>)
      requires Valid() && 0 <= i < store.Length
      modifies this, occupied
      ensures Valid() && Shape(old(store), old(occupied), old(lgN), old(segmentSize), old(l))
      ensures store[..] == old(store[..])
      ensures occupied[..] == old(occupied[..])[i := false]
      ensures (inserted', pushed') == CollectNext(old(occupied[i]), old(store[i]), e, inserted, pushed)
    {
      inserted', pushed' := inserted, pushed;
      if occupied[i] {
        var v := store[i];
        if !inserted && v < e {
          pushed' := pushed' + [e];
          inserted' := true;
        }
        pushed' := pushed' + [v];
        DeleteElementAt(i);
      }
    }

    /** First pass of `rebalance(index, level, e)`: from the right end of the
        window [index, index + c) to its left end, every element is pushed
        onto `levelCopy` and its slot cleared; e is pushed just before the
        first element smaller than it, or last. */
    method CollectWindow(index: int, c: int, e: int) returns (levelCopy: seq<int>)
      requires Valid() && 0 <= index && 0 < c && index + c <= store.Length
      modifies this, occupied
      ensures Valid() && Shape(old(store), old(occupied), old(lgN), old(segmentSize), old(l))
      ensures store[..] == old(store[..])
      ensures occupied[..] == Cleared(old(occupied[..]), index, index + c)
      ensures Reversed(levelCopy) == MergeFromRight(old(Range(index, index + c)), e)
    {
      ghost var vals, ex := store[..], occupied[..];
      levelCopy := CollectSlots(index, c, e);
      assert Reversed(levelCopy) == MergeFromRight(Present(vals, ex, index, index + c), e) by {
        CollectWhole(vals, ex, index, index + c, e);
      }
    }

    /** The loop of that pass, slot by slot from the right end of the window. */
    method CollectSlots(index: int, c: int, e: int) returns (levelCopy: seq<int>)
      requires Valid() && 0 <= index && 0 < c && index + c <= store.Length
      modifies this, occupied
      ensures Valid() && Shape(old(store), old(occupied), old(lgN), old(segmentSize), old(l))
      ensures store[..] == old(store[..])
      ensures occupied[..] == Cleared(old(occupied[..]), index, index + c)
      ensures levelCopy == CollectPass(old(store[..]), old(occupied[..]), index, index + c - 1, e, false, [])
    {
      ghost var vals, ex := store[..], occupied[..];
      ghost var result := CollectPass(vals, ex, index, index + c - 1, e, false, []);
      ghost var flags := ex;
      var inserted := false;
      levelCopy := [];
      var i := index + c - 1;
      while i >= index
        invariant index - 1 <= i < index + c
        invariant Valid() && Shape(old(store), old(occupied), old(lgN), old(segmentSize), old(l))
        invariant store[..] == vals && occupied[..] == flags
        invariant flags == Cleared(ex, i + 1, index + c)
        invariant CollectPass(vals, ex, index, i, e, inserted, levelCopy) == result
      {
        ClearedStep(ex, i + 1, index + c);
        CollectPassStep(vals, ex, index, i, e, inserted, levelCopy);
        inserted, levelCopy := CollectSlot(i, e, inserted, levelCopy);
        flags := flags[i := false];
        i := i - 1;
      }
      if !inserted {
        levelCopy := levelCopy + [e];
      }
    }

    /** Second pass of `rebalance(index, level, e)`: the collected values are
        written back from the last one pushed to the first, the j-th of them
        at offset floor((j + 1) * c / m) - 1 of the empty window. The source
        accumulates c / m in a double; here the running sum is kept exact as
        the numerator p over m. */
    method SpreadCopy(index: int, c: int, levelCopy: seq<int>)
      requires Valid() && 0 <= index && 0 < |levelCopy| <= c && index + c <= store.Length
      requires forall k :: index <= k < index + c ==> !occupied[k]
      modifies this, store, occupied
      ensures Valid() && Shape(old(store), old(occupied), old(lgN), old(segmentSize), old(l))
      ensures SameOutsideOf(store[..], occupied[..], old(store[..]), old(occupied[..]), index, index + c)
      ensures EvenlySpread(store[..], occupied[..], index, c, Reversed(levelCopy))
      ensures s == old(s) + |levelCopy|
    {
      ghost var v0, f0 := store[..], occupied[..];
      ghost var vals, flags := v0, f0;
      ghost var xs := Reversed(levelCopy);
      var m := |levelCopy|;
      SpreadStart(vals, flags, index, c, xs);
      var p := 0;
      var i := m - 1;
      ghost var j := 0;
      while i >= 0
        invariant -1 <= i < m && j == m - 1 - i && p == j * c
        invariant Valid() && Shape(old(store), old(occupied), old(lgN), old(segmentSize), old(l))
        invariant store[..] == vals && occupied[..] == flags
        invariant s == old(s) + j
        invariant Spreading(vals, flags, v0, f0, index, c, xs, j)
      {
        SpreadNumerator(p, j, c, m);
        p := p + c;
        var correctIndex := index + p / m - 1;
        SpreadStep(vals, flags, v0, f0, index, c, xs, j);
        ReversedAt(levelCopy, j);
        assert correctIndex == index + SpreadSlot(j, c, |xs|) && levelCopy[i] == xs[j];
        InsertElementAt(levelCopy[i], correctIndex);
        vals, flags := vals[correctIndex := levelCopy[i]], flags[correctIndex := true];
        i, j := i - 1, j + 1;
      }
      SpreadDone(vals, flags, v0, f0, index, c, xs);
    }

    /** `rebalance(index, level, e)`: the window of level `level` starting at
        `index` is emptied and refilled, evenly spread, with its elements and
        e, e placed among them as the collect pass finds it. The window must
        have room for e: with c + 1 values the first offset is -1. */
    method RebalanceInsert(index: int, level: nat, e: int)
      requires Valid() && level <= l && 0 <= index && index + CapacityAt(segmentSize, level) <= store.Length
      requires Count(occupied[..], index, index + CapacityAt(segmentSize, level)) < CapacityAt(segmentSize, level)
      modifies this, store, occupied
      ensures Valid() && Shape(old(store), old(occupied), old(lgN), old(segmentSize), old(l))
      ensures var c := CapacityAt(segmentSize, level);
        SameOutsideOf(store[..], occupied[..], old(store[..]), old(occupied[..]), index, index + c)
        && EvenlySpread(store[..], occupied[..], index, c, MergeFromRight(old(Range(index, index + c)), e))
      ensures Elements() == Splice(old(store[..]), old(occupied[..]), index, index + CapacityAt(segmentSize, level), e)
      ensures s == old(s) + 1
    {
      ghost var v0, f0 := store[..], occupied[..];
      var c := CapacityAt(segmentSize, level);
      ghost var merged := MergeFromRight(Range(index, index + c), e);
      var levelCopy := CollectWindow(index, c, e);
      ghost var f1 := occupied[..];
      forall k | index <= k < index + c
        ensures !occupied[k]
      {
        ClearedAt(f0, index, index + c, k);
      }
      SpreadCopy(index, c, levelCopy);
      WindowRebalanced(v0, f0, f1, store[..], occupied[..], index, c, index + c, e, merged);
    }

    /** First pass of `rebalance(index, level)`: from the right end of the
        window [index, index + c) to its left end, every element is moved to
        the rightmost free slot, keeping their order; `last` ends just left
        of the packed run of `count` elements. */
    method CompactWindow(index: int, c: int) returns (last: int, count: int)
      requires Valid() && 0 <= index && 0 <= c && index + c <= store.Length
      modifies this, store, occupied
      ensures Valid() && Shape(old(store), old(occupied), old(lgN), old(segmentSize), old(l)) && s == old(s)
      ensures count == index + c - 1 - last == |old(Range(index, index + c))|
      ensures Compacting(store[..], occupied[..], old(store[..]), old(occupied[..]), index, index + c,
                         index - 1, last, old(Range(index, index + c)))
    {
      ghost var v0, f0 := store[..], occupied[..];
      ghost var w0 := Range(index, index + c);
      ghost var vals, flags := v0, f0;
      last := index + c - 1;
      count := 0;
      var i := last;
      while i >= index
        invariant Valid() && Shape(old(store), old(occupied), old(lgN), old(segmentSize), old(l))
        invariant store[..] == vals && occupied[..] == flags && s == old(s)
        invariant Compacting(vals, flags, v0, f0, index, index + c, i, last, w0)
        invariant count == index + c - 1 - last
      {
        CompactStep(vals, flags, v0, f0, index, index + c, i, last, w0);
        var here := occupied[i];
        if here {
          if i != last {
            MoveElement(i, last);
            vals, flags := vals[last := vals[i]], flags[last := true][i := false];
          }
          last := last - 1;
          count := count + 1;
        }
        i := i - 1;
      }
      CompactDone(vals, flags, v0, f0, index, index + c, last, w0);
    }

    /** Second pass of `rebalance(index, level)`: the packed elements are
        moved, left to right, to their evenly spread offsets; an element
        already at its offset stays. v0, f0 and w0 are the slots and the
        window's listing before the first pass. */
    method SpreadLeft(index: int, c: int, last: int, count: int, ghost v0: seq<int>, ghost f0: seq<bool>, ghost w0: seq<int>)
      requires Valid() && 0 <= index && 0 <= c && index + c <= store.Length && count == index + c - 1 - last
      requires Compacting(store[..], occupied[..], v0, f0, index, index + c, index - 1, last, w0) && 0 < count
      modifies this, store, occupied
      ensures Valid() && Shape(old(store), old(occupied), old(lgN), old(segmentSize), old(l)) && s == old(s)
      ensures SameOutsideOf(store[..], occupied[..], v0, f0, index, index + c)
      ensures EvenlySpread(store[..], occupied[..], index, c, w0)
    {
      ghost var v1, f1 := store[..], occupied[..];
      CompactDone(v1, f1, v0, f0, index, index + c, last, w0);
      SpreadLeftStart(v1, f1, v0, f0, index, index + c, last, w0);
      SpreadLeftSlots(index, c, last, count, v0, f0, w0);
      SpreadLeftEnd(v1, f1, v0, f0, index, c, w0);
    }

    /** The loop of that pass: step j moves the value packed at slot
        last + 1 + j to its offset. */
    method SpreadLeftSlots(index: int, c: int, last: int, count: int, ghost v0: seq<int>, ghost f0: seq<bool>, ghost w0: seq<int>)
      requires Valid() && 0 <= index && 0 < count == |w0| <= c && index + c <= store.Length && last == index + c - 1 - count
      requires SpreadingLeft(store[..], occupied[..], v0, f0, index, c, w0, 0)
      modifies this, store, occupied
      ensures Valid() && Shape(old(store), old(occupied), old(lgN), old(segmentSize), old(l)) && s == old(s)
      ensures (store[..], occupied[..]) == SpreadLeftState(old(store[..]), old(occupied[..]), index, c, count, count)
    {
      ghost var v1, f1 := store[..], occupied[..];
      var p := 0;
      var actual := last;
      var j := 0;
      while j < count
        invariant 0 <= j <= count && actual == last + j
        invariant p == j * c
        invariant Valid() && Shape(old(store), old(occupied), old(lgN), old(segmentSize), old(l)) && s == old(s)
        invariant (store[..], occupied[..]) == SpreadLeftState(v1, f1, index, c, count, j)
      {
        SpreadNumerator(p, j, c, count);
        p := p + c;
        actual := actual + 1;
        var correct := index + p / count - 1;
        SpreadLeftNext(v1, f1, v0, f0, index, c, w0, j, actual, correct);
        if correct != actual {
          MoveElement(actual, correct);
        }
        j := j + 1;
      }
    }

    /** `rebalance(index, level)`: the elements of the window of level
        `level` at `index` are first packed against its right end, keeping
        their order, and then moved left to their evenly spread offsets. */
    method Rebalance(index: int, level: nat)
      requires Valid() && level <= l && 0 <= index && index + CapacityAt(segmentSize, level) <= store.Length
      modifies this, store, occupied
      ensures Valid() && Shape(old(store), old(occupied), old(lgN), old(segmentSize), old(l))
      ensures var c := CapacityAt(segmentSize, level);
        SameOutsideOf(store[..], occupied[..], old(store[..]), old(occupied[..]), index, index + c)
        && Range(index, index + c) == old(Range(index, index + c))
        && (old(Range(index, index + c)) != [] ==> EvenlySpread(store[..], occupied[..], index, c, old(Range(index, index + c))))
      ensures Elements() == old(Elements()) && s == old(s)
    {
      var c := CapacityAt(segmentSize, level);
      ghost var v0, f0 := store[..], occupied[..];
      ghost var w0 := Range(index, index + c);
      var last, count := CompactWindow(index, c);
      if count > 0 {
        SpreadLeft(index, c, last, count, v0, f0, w0);
      }
      WindowKept(v0, f0, store[..], occupied[..], index, index + c);
    }

    /** `expand_PMA(e)`: e is merged into a fresh store of twice the size,
        the geometry is recomputed for it, and the whole store is rebalanced.
        The new flags cover the whole new store and the segment size is
        log2n when that is a power of two (see Findings in the README). */
    method ExpandPma(e: int)
      requires Valid()
      modifies this
      ensures Valid() && Geometry() && fresh(store) && fresh(occupied)
      ensures lgN == old(lgN) + 1 && store.Length == 2 * old(store.Length)
      ensures Elements() == MergeFromLeft(old(Elements()), e) && s == old(s) + 1
      ensures EvenlySpread(store[..], occupied[..], 0, store.Length, Elements())
      ensures multiset(Elements()) == multiset(old(Elements())) + multiset{e}
      ensures old(Sorted(Elements())) ==> Sorted(Elements())
      ensures store.Length <= 4 * s ==> Filled()
    {
      ghost var xs0 := Elements();
      Regrow(e);
      RebalanceAll();
      CapacitySegmented(segmentSize, l);
      if store.Length <= 4 * s {
        SpreadStoreFilled(store[..], occupied[..], lgN, Segments(), Elements());
      }
      assert multiset(Elements()) == multiset(xs0) + multiset{e} by {
        MergeFromLeftMultiset(xs0, e);
      }
      assert Sorted(xs0) ==> Sorted(Elements()) by {
        if Sorted(xs0) {
          MergeFromLeftSorted(xs0, e);
        }
      }
    }

    /** The final `rebalance(0, l)` of `expand_PMA(e)`: the window at the
        top level is the whole store. */
    method RebalanceAll()
      requires Valid() && Geometry() && s > 0
      modifies this, store, occupied
      ensures Valid() && Shape(old(store), old(occupied), old(lgN), old(segmentSize), old(l)) && Geometry()
      ensures Elements() == old(Elements()) && s == old(s)
      ensures EvenlySpread(store[..], occupied[..], 0, store.Length, Elements())
    {
      ghost var w := Elements();
      Rebalance(0, l);
      assert Range(0, store.Length) == w;
    }

    /** Everything of `expand_PMA(e)` before its final rebalance: the merged
        copy replaces the store and the geometry follows the new size,
        log2n being `popcount(size - 1)`. */
    method Regrow(e: int)
      requires Valid()
      modifies this
      ensures Valid() && Geometry() && fresh(store) && fresh(occupied)
      ensures lgN == old(lgN) + 1 && store.Length == 2 * old(store.Length)
      ensures Elements() == MergeFromLeft(old(Elements()), e) && s == old(s) + 1
      ensures segmentSize == SegmentSizeFor(lgN) && l == LevelsFor(lgN)
    {
      var newStore, newOccupied, count := MergedCopy(e);
      ghost var merged := MergeFromLeft(Elements(), e);
      assert newStore.Length == Pow2(lgN + 1);
      assert Count(newOccupied[..], 0, newOccupied.Length) == count
          && Present(newStore[..], newOccupied[..], 0, newStore.Length) == merged by {
        PackedFlagsHold(newStore[..], newStore.Length, count);
        assert newStore[..][..count] == newStore[..count];
      }
      var g, lv := SegmentGeometry(newStore.Length, lgN + 1);
      store, occupied, s, lgN := newStore, newOccupied, s + 1, lgN + 1;
      segmentSize, l := g, lv;
    }

    /** The copy loops of `expand_PMA(e)`: the elements up to the first one
        greater than e, then e, then the rest go to the front of a fresh
        store of twice the size; its flags mark exactly that prefix. */
    method MergedCopy(e: int) returns (newStore: array<int>, newOccupied: array<bool>, count: int)
      requires Valid()
      ensures fresh(newStore) && fresh(newOccupied)
      ensures newStore.Length == newOccupied.Length == 2 * store.Length
      ensures count == s + 1 && newOccupied[..] == PackedFlags(2 * store.Length, count)
      ensures newStore[..count] == MergeFromLeft(Elements(), e)
    {
      ghost var vals, ex := store[..], occupied[..];
      var n := store.Length;
      newStore := new int[2 * n];
      newOccupied := new bool[2 * n](_ => false);
      assert newOccupied[..] == PackedFlags(2 * n, 0);
      var i;
      i, count := CopyAtMost(e, newStore, newOccupied);
      ghost var at := i;
      ghost var before := newStore[..count];
      PresentAllAtMost(vals, ex, 0, at, e);
      // The element we wanted.
      PackedFlagsStep(2 * n, count);
      newOccupied[count] := true;
      newStore[count] := e;
      assert newStore[..count + 1] == before + [e];
      count := count + 1;
      count := CopyRest(i, newStore, newOccupied, count);
      PresentSplit(vals, ex, 0, at, n);
      CountSplit(ex, 0, at, n);
      if at < n {
        PresentAt(vals, ex, at, n, at);
      }
      MergeFromLeftSplit(before, Present(vals, ex, at, n), e);
    }

    /** First copy loop of `expand_PMA(e)`: the elements of slots [0, i)
        are copied to the front of dst, where slot i is the first one holding
        an element greater than e, or the end of the store. */
    method CopyAtMost(e: int, dst: array<int>, dstFlags: array<bool>) returns (i: int, count: int)
      requires Valid() && dst != store && dstFlags != occupied
      requires dst.Length == dstFlags.Length == 2 * store.Length && dstFlags[..] == PackedFlags(dst.Length, 0)
      modifies dst, dstFlags
      ensures 0 <= i <= store.Length && count == Count(occupied[..], 0, i)
      ensures i < store.Length ==> occupied[i] && store[i] > e
      ensures forall k :: 0 <= k < i && occupied[k] ==> store[k] <= e
      ensures dstFlags[..] == PackedFlags(dst.Length, count) && dst[..count] == Present(store[..], occupied[..], 0, i)
    {
      ghost var vals, ex := store[..], occupied[..];
      var n := store.Length;
      count := 0;
      i := 0;
      while i < n && !(occupied[i] && store[i] > e)
        invariant 0 <= i <= n && count == Count(ex, 0, i) <= i
        invariant dstFlags[..] == PackedFlags(2 * n, count)
        invariant dst[..count] == Present(vals, ex, 0, i)
        invariant forall k :: 0 <= k < i && ex[k] ==> vals[k] <= e
      {
        if occupied[i] {
          var v := store[i];
          PackedFlagsStep(2 * n, count);
          dstFlags[count] := true;
          dst[count] := v;
          assert dst[..count + 1] == dst[..count] + [v];
          count := count + 1;
        }
        i := i + 1;
      }
    }

    /** Second copy loop of `expand_PMA(e)`: the elements of slots [i, end)
        follow the count values already at the front of dst. */
    method CopyRest(i: int, dst: array<int>, dstFlags: array<bool>, count: int) returns (total: int)
      requires Valid() && dst != store && dstFlags != occupied && 0 <= i <= store.Length
      requires dst.Length == dstFlags.Length == 2 * store.Length && dstFlags[..] == PackedFlags(dst.Length, count)
      requires Count(occupied[..], 0, i) < count <= i + 1
      modifies dst, dstFlags
      ensures total == count + Count(occupied[..], i, store.Length)
      ensures dstFlags[..] == PackedFlags(dst.Length, total)
      ensures dst[..total] == old(dst[..count]) + Present(store[..], occupied[..], i, store.Length)
    {
      ghost var vals, ex := store[..], occupied[..];
      ghost var prefix := dst[..count];
      var n := store.Length;
      total := count;
      var j := i;
      while j < n
        invariant i <= j <= n && total == count + Count(ex, i, j) <= j + 1
        invariant dstFlags[..] == PackedFlags(2 * n, total)
        invariant dst[..total] == prefix + Present(vals, ex, i, j)
      {
        if occupied[j] {
          var v := store[j];
          PackedFlagsStep(2 * n, total);
          ghost var before := dst[..total];
          dstFlags[total] := true;
          dst[total] := v;
          assert dst[..total + 1] == before + [v];
          AppendAssoc(prefix, Present(vals, ex, i, j), [v]);
          total := total + 1;
        }
        j := j + 1;
      }
    }

    /** `insert_element_after(e, after, pos)`: e goes into the slot after pos
        when that slot is free, and otherwise through InsertRebalancing. pos
        is -1 (e goes first) or an occupied slot. */
    method InsertElementAfter(e: int, pos: int)
      requires Valid() && Geometry()
      requires pos == -1 || (0 <= pos < store.Length && occupied[pos])
      modifies this, store, occupied
      ensures Valid() && Geometry() && s == old(s) + 1
      ensures multiset(Elements()) == multiset(old(Elements())) + multiset{e}
      ensures old(Ordered()) && IsLastAtMost(old(store[..]), old(occupied[..]), 0, old(store.Length), e, pos) ==> Ordered()
      ensures old(pos + 1 < store.Length && !occupied[pos + 1]) ==>
        && store == old(store) && occupied == old(occupied)
        && store[..] == old(store[..])[pos + 1 := e] && occupied[..] == old(occupied[..])[pos + 1 := true]
    {
      var insertAt := pos + 1;
      if insertAt < store.Length && !occupied[insertAt] {
        InsertIntoFreeSlot(e, pos);
      } else {
        InsertRebalancing(e, pos);
      }
    }

    /** The fast path of `insert_element_after`: the slot after pos is
        free and e goes there. */
    method InsertIntoFreeSlot(e: int, pos: int)
      requires Valid() && Geometry()
      requires -1 <= pos && pos + 1 < store.Length && !occupied[pos + 1]
      modifies store, occupied, this
      ensures Valid() && Geometry() && s == old(s) + 1
      ensures multiset(Elements()) == multiset(old(Elements())) + multiset{e}
      ensures old(Ordered()) && IsLastAtMost(old(store[..]), old(occupied[..]), 0, old(store.Length), e, pos) ==> Ordered()
      ensures store == old(store) && occupied == old(occupied)
      ensures store[..] == old(store[..])[pos + 1 := e] && occupied[..] == old(occupied[..])[pos + 1 := true]
    {
      var insertAt := pos + 1;
      FreeSlotMultiset(store[..], occupied[..], e, insertAt);
      if Sorted(Elements()) && IsLastAtMost(store[..], occupied[..], 0, store.Length, e, pos) {
        FreeSlotSorted(store[..], occupied[..], e, pos);
      }
      ghost var wasFilled := Filled();
      if wasFilled && Segments() > 2 {
        FillKeepsSegmentsOccupied(occupied[..], insertAt, segmentSize, Segments());
      }
      InsertElementAt(e, insertAt);
    }

    /** The slow path of `insert_element_after`, when the slot after pos is
        taken or past the end: the smallest window around it that can take
        one more element is rebalanced with e merged in or, when not even the
        whole store can, the store doubles. */
    method InsertRebalancing(e: int, pos: int)
      requires Valid() && Geometry()
      requires pos == -1 || (0 <= pos < store.Length && occupied[pos])
      requires pos + 1 == store.Length || occupied[pos + 1]
      modifies this, store, occupied
      ensures Valid() && Geometry() && s == old(s) + 1
      ensures multiset(Elements()) == multiset(old(Elements())) + multiset{e}
      ensures old(Ordered()) && IsLastAtMost(old(store[..]), old(occupied[..]), 0, old(store.Length), e, pos) ==> Ordered()
    {
      var insertAt := pos + 1;
      var r, nodeIndex, nodeLevel := SmallestIntervalInBalance(insertAt);
      if r == -1 {
        CrowdedStoreDense(occupied[..], InsertionSlot(insertAt, store.Length), segmentSize, l);
        ExpandPma(e);
      } else {
        InsertInWindow(e, pos, nodeIndex, nodeLevel);
      }
    }

    /** The rebalancing branch of the slow path: the window at nodeLevel
        starting at nodeIndex, the one `smallest_interval_in_balance` reports
        around the slot after pos, is rebalanced with e merged in. */
    method InsertInWindow(e: int, pos: int, nodeIndex: int, nodeLevel: nat)
      requires Valid() && Geometry() && nodeLevel <= l
      requires 0 <= nodeIndex <= pos + 1 <= nodeIndex + CapacityAt(segmentSize, nodeLevel) <= store.Length
      requires FoundWindow(occupied[..], InsertionSlot(pos + 1, store.Length), segmentSize, l, nodeLevel, nodeIndex)
      modifies this, store, occupied
      ensures Valid() && Geometry() && s == old(s) + 1
      ensures multiset(Elements()) == multiset(old(Elements())) + multiset{e}
      ensures old(Ordered()) && IsLastAtMost(old(store[..]), old(occupied[..]), 0, old(store.Length), e, pos) ==> Ordered()
    {
      ghost var v0, f0, xs0 := store[..], occupied[..], Elements();
      ghost var i := InsertionSlot(pos + 1, store.Length);
      ghost var c := CapacityAt(segmentSize, nodeLevel);
      ghost var hi := nodeIndex + c;
      ghost var wasFilled := Filled();
      FoundWindowRoom(f0, i, segmentSize, l, nodeLevel, nodeIndex);
      ghost var xs := MergeFromRight(Range(nodeIndex, hi), e);
      assert |xs| == Count(f0, nodeIndex, hi) + 1 <= c;
      label Before:
      RebalanceInsert(nodeIndex, nodeLevel, e);
      assert xs == MergeFromRight(old@Before(Range(nodeIndex, nodeIndex + c)), e);
      WindowInsert(v0, f0, e, pos, nodeIndex, hi, xs0, Elements());
      if wasFilled && Segments() > 2 {
        WindowRebalanceFilled(v0, f0, store[..], occupied[..], i, segmentSize, l, nodeLevel, nodeIndex, c, Segments(), xs);
      }
    }

    /** `insert_element(e)`: e goes after the last element at most e, which
        keeps the elements sorted. */
    method InsertElement(e: int)
      requires Valid() && Geometry()
      modifies this, store, occupied
      ensures Valid() && Geometry() && s == old(s) + 1
      ensures multiset(Elements()) == multiset(old(Elements())) + multiset{e}
      ensures old(Ordered()) ==> Ordered()
    {
      CapacitySegmented(segmentSize, l);
      var pos := UpperBound(e);
      InsertElementAfter(e, pos);
    }
  }
}
