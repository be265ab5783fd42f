/** The second draft (pma_tests/impl2.cpp): a packed memory array cut into
    chunks of `chunkSize` slots. A chunk with room takes a new value by a
    sorted merge packed at its left end; a full chunk makes the insert look
    for the smallest aligned window of chunks that is under its density
    threshold, spread that window evenly and start over, and when even the
    whole array is too dense the array doubles. */
module ChunkedPma {
  import opened Slots

  // ---------------------------------------------------------------------
  // Integer logarithm and chunk geometry.

  /** `log2(n)`: the number of halvings that bring n down to 1. */
  method FloorLog2(n: int) returns (lg2: nat)
    ensures lg2 == Log2(n)
    ensures n >= 1 ==> Pow2(lg2) <= n < 2 * Pow2(lg2)
    ensures n <= 1 ==> lg2 == 0
  {
    var m := n;
    lg2 := 0;
    while m > 1
      invariant lg2 + Log2(m) == Log2(n)
      decreases m
    {
      m := m / 2;
      lg2 := lg2 + 1;
    }
  }

  /** The chunk size of a store of `capacity` slots, `1 << log2(log2(capacity) * 2)`. */
  function ChunkSizeFor(capacity: int): (g: nat)
    ensures IsPow2(g)
  {
    Log2OfPow2(Log2(Log2(capacity) * 2));
    Pow2(Log2(Log2(capacity) * 2))
  }

  lemma {:induction false} Pow2Exceeds(j: nat)
    ensures j < Pow2(j)
  {
    if j > 0 { Pow2Exceeds(j - 1); }
  }

  lemma Pow2Split(c: nat, k: nat)
    requires c <= k
    ensures Pow2(k) == Pow2(k - c) * Pow2(c)
  {
    Pow2Add(c, k - c);
  }

  /** The chunk size of a store of 2^k slots is 2^c with 1 <= c <= k, and
      c >= 2 once the store has four slots; it exceeds k. */
  lemma ChunkExponent(k: nat) returns (c: nat)
    requires k >= 1
    ensures 1 <= c <= k && ChunkSizeFor(Pow2(k)) == Pow2(c) && Log2(Pow2(k)) == k
    ensures k >= 2 ==> c >= 2
    ensures k < Pow2(c)
  {
    Log2OfPow2(k);
    assert Log2(2 * k) == 1 + Log2(k) by { assert (2 * k) / 2 == k; }
    Pow2Exceeds(Log2(k));
    c := 1 + Log2(k);
  }

  /** `left_interval_boundary(i, w)`: the start of the aligned block of
      width w that holds slot i. */
  function LeftIntervalBoundary(i: int, w: int): (b: int)
    requires 0 <= i && w > 0
    ensures 0 <= b <= i < b + w && b % w == 0
  {
    AlignDownBounds(i, w);
    (i / w) * w
  }

  /** The geometry `init_vars` derives from a capacity of 2^lgn slots:
      2^nlevels chunks of 2^(lgn - nlevels) slots, with at least two slots
      per chunk, and at least four once the store has four slots. */
  ghost predicate GeometryOf(capacity: int, chunkSize: int, nchunks: int, nlevels: int, lgn: int)
  {
    && 0 <= nlevels < lgn && capacity == Pow2(lgn) && 2 <= capacity
    && chunkSize == Pow2(lgn - nlevels) && 2 <= chunkSize
    && nchunks == Pow2(nlevels) && 1 <= nchunks
    && (2 <= lgn ==> 4 <= chunkSize)
  }

  /** `init_vars(capacity)` on a power of two capacity >= 2: the chunk size
      is a power of two with more slots than lgn, the chunks tile the store
      exactly, their number is 2^nlevels, and lgn is log2 of the capacity. */
  lemma InitVarsGeometry(capacity: int, chunkSize: int, nchunks: int, nlevels: int, lgn: int)
    requires capacity > 1 && IsPow2(capacity)
    requires chunkSize == ChunkSizeFor(capacity) && nchunks == capacity / chunkSize
    requires nlevels == Log2(nchunks) && lgn == Log2(capacity)
    ensures GeometryOf(capacity, chunkSize, nchunks, nlevels, lgn)
    ensures IsPow2(chunkSize) && nchunks * chunkSize == capacity && lgn < chunkSize
  {
    var k := Log2(capacity);
    assert Pow2(k) == capacity;
    if k == 0 {
      assert false;
    }
    var c := ChunkExponent(k);
    Pow2Split(c, k);
    DivModUnique(capacity, chunkSize, Pow2(k - c), 0);
    Log2OfPow2(k - c);
    Pow2Monotone(1, c);
    Pow2Monotone(1, k);
    if k >= 2 { Pow2Monotone(2, c); }
  }

  /** The chunks tile the store. */
  lemma GeometryTiles(capacity: int, chunkSize: int, nchunks: int, nlevels: int, lgn: int)
    requires GeometryOf(capacity, chunkSize, nchunks, nlevels, lgn)
    ensures 2 <= chunkSize && nchunks * chunkSize == capacity
  {
    Pow2Add(nlevels, lgn - nlevels);
  }

  /** An aligned block of 2^level chunks around a slot of the store lies
      inside the store. */
  lemma WindowFits(i: int, g: int, level: nat, nlevels: nat, lgn: nat, n: int)
    requires level <= nlevels < lgn && g == Pow2(lgn - nlevels) && n == Pow2(lgn) && 0 <= i < n
    ensures Pow2(level) * g >= 1
    ensures LeftIntervalBoundary(i, Pow2(level) * g) + Pow2(level) * g <= n
  {
    var p, q := Pow2(level), Pow2(nlevels - level);
    var w := p * g;
    MulMonotone(1, p, g);
    Pow2Add(level, lgn - nlevels);
    Pow2Add(level + (lgn - nlevels), nlevels - level);
    assert n == w * q;
    DivModUnique(n, w, q, 0);
    AlignDownFits(i, w, n);
    AlignDownBounds(i, w);
  }

  // ---------------------------------------------------------------------
  // Density threshold.

  /** `upper_threshold_at(level)`: 1 at the chunk level, falling by
      1/(2 lgn) per level. */
  function UpperThreshold(level: int, lgn: int): (t: real)
    requires lgn > 0
    ensures level == 0 ==> t == 1.0
    ensures level == lgn ==> t == 0.5
    ensures 0 <= level <= lgn ==> 0.5 <= t <= 1.0
  {
    1.0 - (0.5 * level as real) / lgn as real
  }

  /** sz occupied slots out of w keep a window of the given level below
      its upper threshold. */
  predicate InLimit(sz: int, w: int, level: int, lgn: int): (r: bool)
    requires w > 0 && lgn > 0
    ensures 0 <= level <= lgn && 2 * sz < w ==> r
    ensures 0 <= level && sz >= w ==> !r
  {
    ThresholdExact(sz, w, level, lgn);
    sz as real / w as real < UpperThreshold(level, lgn)
  }

  /** The window of 2^level chunks of g slots that holds slot i lies
      inside the store and is filled below the upper threshold of its
      level. */
  ghost predicate WindowInLimit(ex: seq<bool>, i: int, level: nat, g: int, lgn: int)
    requires 0 <= i < |ex| && g > 0 && lgn > 0
  {
    MulMonotone(1, Pow2(level), g);
    var w := Pow2(level) * g;
    var left := LeftIntervalBoundary(i, w);
    left + w <= |ex| && InLimit(Count(ex, left, left + w), w, level, lgn)
  }

  /** Doubling the chunk count doubles the window width (a helper that
      keeps the nonlinear product out of its callers' contexts). */
  lemma DoubleWindow(p: int, g: int)
    ensures (2 * p) * g == 2 * (p * g)
  {
  }

  /** The density test `sz / w < threshold(level)` in integers. */
  lemma ThresholdExact(sz: int, w: int, level: int, lgn: int)
    requires w > 0 && lgn > 0
    ensures (sz as real / w as real < UpperThreshold(level, lgn)) <==> 2 * lgn * sz < w * (2 * lgn - level)
  {
    var W, L, S, V := w as real, lgn as real, sz as real, level as real;
    var c := 2.0 * W * L;
    assert c > 0.0;
    assert (S / W) * c == 2.0 * L * S;
    assert UpperThreshold(level, lgn) * c == c - W * V;
    assert (S / W < UpperThreshold(level, lgn)) <==> (S / W) * c < UpperThreshold(level, lgn) * c;
    assert (2 * lgn * sz) as real == 2.0 * L * S;
    assert (w * (2 * lgn - level)) as real == c - W * V;
  }

  // ---------------------------------------------------------------------
  // Even placement.

  /** Offset of the i-th of m values spread over w slots: floor(i * w / m). */
  function SpacedSlot(i: int, w: int, m: int): (r: int)
    requires m > 0
    ensures 0 <= i < m <= w ==> 0 <= r < w
  {
    if 0 <= i < m <= w then
      SpacedOffsetBounds(i, w, m);
      i * w / m
    else
      i * w / m
  }

  /** With m <= w values, the i-th offset lies inside the window. */
  lemma SpacedOffsetBounds(i: int, w: int, m: int)
    requires 0 <= i < m <= w
    ensures 0 <= i * w / m < w
  {
    MulMonotone(0, i, w);
    DivAtLeast(i * w, m, 0);
    MulMonotone(i + 1, m, w);
    assert i * w < w * m;
    DivAtMost(i * w, m, w - 1);
  }

  /** With m <= w values the offsets strictly increase. */
  lemma SpacedSlotIncreasing(i: int, j: int, w: int, m: int)
    requires 0 <= i < j && 0 < m <= w
    ensures SpacedSlot(i, w, m) < SpacedSlot(j, w, m)
  {
    var a := i * w;
    DivModUnique(a + m, m, a / m + 1, a % m) by { assert a == (a / m) * m + a % m; }
    MulMonotone(i + 1, j, w);
    DivMonotone(a + m, j * w, m);
  }

  /** First offset not yet claimed once j values are placed. */
  function FreeFrom(j: int, w: int, m: int): int
    requires 0 <= j <= m
  {
    if j == 0 then 0 else SpacedSlot(j - 1, w, m) + 1
  }

  /** Slot k is free. */
  ghost predicate FreeAt(f: seq<bool>, k: int)
    requires 0 <= k < |f|
  {
    !f[k]
  }

  /** The window [lo, hi) of width w holds the first j of xs, the i-th at
      offset SpacedSlot(i), and nothing from offset FreeFrom(j) on. */
  ghost predicate Placing(v: seq<int>, f: seq<bool>, lo: int, w: int, hi: int, xs: seq<int>, j: int)
    requires |v| == |f| && 0 <= lo && hi == lo + w && hi <= |f| && |xs| <= w && 0 <= j <= |xs|
  {
    && Present(v, f, lo, hi) == xs[..j]
    && (forall i {:trigger SpacedSlot(i, w, |xs|)} :: 0 <= i < j ==> 0 <= SpacedSlot(i, w, |xs|) < w && HoldsAt(v, f, lo + SpacedSlot(i, w, |xs|), xs[i]))
    && (forall k :: lo + FreeFrom(j, w, |xs|) <= k < hi ==> FreeAt(f, k))
  }

  /** All of xs spread evenly over the window [lo, hi). */
  ghost predicate EvenlySpread(v: seq<int>, f: seq<bool>, lo: int, w: int, hi: int, xs: seq<int>)
    requires |v| == |f| && 0 <= lo && hi == lo + w && hi <= |f| && |xs| <= w
  {
    Placing(v, f, lo, w, hi, xs, |xs|)
  }

  /** An empty window starts the placement. */
  lemma PlacingStart(v: seq<int>, f: seq<bool>, lo: int, w: int, hi: int, xs: seq<int>)
    requires |v| == |f| && 0 <= lo && hi == lo + w && hi <= |f| && |xs| <= w
    requires forall k :: lo <= k < hi ==> !f[k]
    ensures Placing(v, f, lo, w, hi, xs, 0)
  {
    PresentNone(v, f, lo, hi);
    forall k | lo <= k < hi ensures FreeAt(f, k) { }
  }

  /** Writing the j-th value at its offset, a free slot, extends the placement. */
  lemma PlacingStep(v: seq<int>, f: seq<bool>, lo: int, w: int, hi: int, xs: seq<int>, j: int, q: int)
    requires |v| == |f| && 0 <= lo && hi == lo + w && hi <= |f| && |xs| <= w && 0 <= j < |xs|
    requires Placing(v, f, lo, w, hi, xs, j)
    requires q == lo + SpacedSlot(j, w, |xs|)
    ensures lo <= q < hi && !f[q]
    ensures Placing(v[q := xs[j]], f[q := true], lo, w, hi, xs, j + 1)
  {
    var m := |xs|;
    if j > 0 { SpacedSlotIncreasing(j - 1, j, w, m); }
    assert FreeAt(f, q);
    var v2, f2 := v[q := xs[j]], f[q := true];
    forall k | q <= k < hi ensures !f[k] { assert FreeAt(f, k); }
    forall k | lo + FreeFrom(j + 1, w, m) <= k < hi ensures FreeAt(f2, k) { assert FreeAt(f, k); }
    assert Present(v2, f2, lo, hi) == xs[..j + 1] by {
      PresentFillTail(v, f, lo, q, hi, xs[j]);
      assert xs[..j] + [xs[j]] == xs[..j + 1];
    }
    forall i | 0 <= i < j + 1
      ensures 0 <= SpacedSlot(i, w, m) < w && HoldsAt(v2, f2, lo + SpacedSlot(i, w, m), xs[i])
    {
      if i < j { SpacedSlotIncreasing(i, j, w, m); }
    }
  }

  // ---------------------------------------------------------------------
  // Windows whose contents are replaced.

  /** A window whose first |xs| slots are occupied, holding xs, and whose
      other slots are free lists xs. */
  lemma {:induction false} PresentPackedAt(vals: seq<int>, ex: seq<bool>, lo: int, hi: int, xs: seq<int>)
    requires |vals| == |ex| && 0 <= lo && lo + |xs| <= hi <= |ex|
    requires forall k :: lo <= k < hi ==> (ex[k] <==> k < lo + |xs|)
    requires forall j :: 0 <= j < |xs| ==> vals[lo + j] == xs[j]
    ensures Present(vals, ex, lo, hi) == xs
    decreases hi - lo
  {
    if hi > lo + |xs| {
      PresentPackedAt(vals, ex, lo, hi - 1, xs);
    } else if hi > lo {
      var ys := xs[..|xs| - 1];
      PresentPackedAt(vals, ex, lo, hi - 1, ys);
      assert xs == ys + [xs[|xs| - 1]];
    }
  }

  /** Multiset bookkeeping for WindowRefilled, kept apart from the
      sequence facts of its caller. */
  lemma MultisetReplace(a: multiset<int>, y: multiset<int>, w: multiset<int>, b: multiset<int>, extra: multiset<int>)
    requires y == w + extra
    ensures a + y + b == a + w + b + extra
  {
  }

  /** The listing of the whole store after the window [lo, hi) changed
      from ws to ys, the rest untouched. */
  lemma WindowRefilled(v0: seq<int>, f0: seq<bool>, v2: seq<int>, f2: seq<bool>, lo: int, hi: int,
                       ws: seq<int>, ys: seq<int>, extra: multiset<int>)
    requires |v0| == |f0| == |v2| == |f2| && 0 <= lo <= hi <= |f0|
    requires forall k :: 0 <= k < |f0| && !(lo <= k < hi) ==> f2[k] == f0[k] && v2[k] == v0[k]
    requires ws == Present(v0, f0, lo, hi) && ys == Present(v2, f2, lo, hi)
    requires multiset(ys) == multiset(ws) + extra
    ensures Present(v2, f2, 0, |f2|) == Present(v0, f0, 0, lo) + ys + Present(v0, f0, hi, |f0|)
    ensures multiset(Present(v2, f2, 0, |f2|)) == multiset(Present(v0, f0, 0, |f0|)) + extra
    ensures Count(f2, 0, |f2|) == Count(f0, 0, |f0|) + |extra|
  {
    var n := |f0|;
    WindowReplaced(v0, f0, v2, f2, lo, hi);
    PresentSplit3(v0, f0, 0, lo, hi, n);
    var a, b := Present(v0, f0, 0, lo), Present(v0, f0, hi, n);
    var all0, all2 := Present(v0, f0, 0, n), Present(v2, f2, 0, n);
    AppendAssoc(a, ws, b);
    assert multiset(all2) == multiset(a) + multiset(ys) + multiset(b);
    assert multiset(all0) == multiset(a) + multiset(ws) + multiset(b);
    MultisetReplace(multiset(a), multiset(ys), multiset(ws), multiset(b), extra);
    assert |multiset(ys)| == |multiset(ws)| + |extra|;
  }

  // ---------------------------------------------------------------------
  // The sorted merge of one value into a chunk.

  /** `std::lower_bound`: the first position whose value is not below v. */
  function LowerBoundIndex(xs: seq<int>, v: int): (p: nat)
    ensures p <= |xs|
    ensures forall k :: 0 <= k < p ==> xs[k] < v
    ensures p < |xs| ==> xs[p] >= v
  {
    if xs == [] || xs[0] >= v then 0 else 1 + LowerBoundIndex(xs[1..], v)
  }

  /** `tmp.insert(std::lower_bound(...), v)`. */
  function InsertAtLowerBound(xs: seq<int>, v: int): (r: seq<int>)
    ensures |r| == |xs| + 1
    ensures multiset(r) == multiset(xs) + multiset{v}
  {
    var p := LowerBoundIndex(xs, v);
    assert xs == xs[..p] + xs[p..];
    xs[..p] + [v] + xs[p..]
  }

  /** The merge keeps a sorted chunk sorted. */
  lemma InsertAtLowerBoundKeeps(xs: seq<int>, v: int)
    ensures Sorted(xs) ==> Sorted(InsertAtLowerBound(xs, v))
  {
    var p := LowerBoundIndex(xs, v);
    var a, b := xs[..p], xs[p..];
    assert xs == a + b;
    if Sorted(xs) {
      SortedInsertBetween(a, b, v);
    }
  }

  /** v placed between a prefix below it and a suffix starting at or above
      it keeps a sorted sequence sorted. */
  lemma SortedInsertBetween(a: seq<int>, b: seq<int>, v: int)
    requires Sorted(a + b)
    requires forall k :: 0 <= k < |a| ==> a[k] < v
    requires |b| > 0 ==> b[0] >= v
    ensures Sorted(a + [v] + b)
  {
    var xs, s := a + b, a + [v] + b;
    forall i, j | 0 <= i < j < |s| ensures s[i] <= s[j] {
      if j < |a| {
        assert s[i] == xs[i] && s[j] == xs[j];
      } else if j == |a| {
        assert s[i] == a[i];
      } else {
        assert s[j] == xs[j - 1];
        if i < |a| {
          assert s[i] == xs[i];
        } else if i == |a| {
          assert xs[|a|] == b[0];
        } else {
          assert s[i] == xs[i - 1];
        }
      }
    }
  }

  // ---------------------------------------------------------------------
  // Chunks and the chunk-level search.

  /** Some occupied slot of [lo, hi) holds a value >= v. */
  ghost predicate HoldsAtLeast(vals: seq<int>, ex: seq<bool>, lo: int, hi: int, v: int)
    requires |vals| == |ex| && 0 <= lo <= hi <= |ex|
  {
    exists k :: lo <= k < hi && ex[k] && vals[k] >= v
  }

  /** Chunk m of width g lies inside a store of n * g slots. */
  lemma ChunkInside(m: int, g: int, n: int)
    requires 0 <= m < n && g >= 1
    ensures 0 <= m * g && m * g + g <= n * g
  {
    MulMonotone(0, m, g);
    MulMonotone(m + 1, n, g);
  }

  /** Chunk m ends before chunk m2 > m starts. */
  lemma ChunksOrdered(m: int, m2: int, g: int)
    requires 0 <= m < m2 && g >= 1
    ensures m * g + g <= m2 * g
  {
    MulMonotone(m + 1, m2, g);
  }

  /** Chunk m of the n chunks of width g holds a value >= v. */
  ghost predicate ChunkHolds(vals: seq<int>, ex: seq<bool>, g: int, n: int, m: int, v: int)
    requires |vals| == |ex| && g >= 1 && |ex| == n * g && 0 <= m < n
  {
    ChunkInside(m, g, n);
    HoldsAtLeast(vals, ex, m * g, m * g + g, v)
  }

  /** Chunk m has an occupied slot. */
  ghost predicate ChunkOccupied(ex: seq<bool>, g: int, n: int, m: int)
    requires g >= 1 && |ex| == n * g && 0 <= m < n
  {
    ChunkInside(m, g, n);
    Count(ex, m * g, m * g + g) > 0
  }

  /** j is where the search over chunks stops: chunk j - 1 holds no value
      >= v and chunk j (if any) does. */
  ghost predicate ChunkBoundary(vals: seq<int>, ex: seq<bool>, g: int, n: int, j: int, v: int)
    requires |vals| == |ex| && g >= 1 && |ex| == n * g
  {
    && 0 <= j <= n
    && (j == 0 || !ChunkHolds(vals, ex, g, n, j - 1, v))
    && (j == n || ChunkHolds(vals, ex, g, n, j, v))
  }

  /** In a sorted store whose every chunk is occupied, the chunk boundary is
      the first chunk holding a value >= v. */
  lemma BoundaryIsFirstChunk(vals: seq<int>, ex: seq<bool>, g: int, n: int, j: int, v: int)
    requires |vals| == |ex| && g >= 1 && |ex| == n * g
    requires Sorted(Present(vals, ex, 0, |ex|))
    requires forall m :: 0 <= m < n ==> ChunkOccupied(ex, g, n, m)
    requires ChunkBoundary(vals, ex, g, n, j, v)
    ensures forall m :: 0 <= m < j ==> !ChunkHolds(vals, ex, g, n, m, v)
  {
    forall m | 0 <= m < j - 1 ensures !ChunkHolds(vals, ex, g, n, m, v) {
      EarlierChunkBelow(vals, ex, g, n, m, j - 1, v);
    }
  }

  /** In a sorted store, a chunk before an occupied chunk that holds no
      value >= v holds none either. */
  lemma EarlierChunkBelow(vals: seq<int>, ex: seq<bool>, g: int, n: int, m: int, m2: int, v: int)
    requires |vals| == |ex| && g >= 1 && |ex| == n * g && 0 <= m < m2 < n
    requires Sorted(Present(vals, ex, 0, |ex|))
    requires ChunkOccupied(ex, g, n, m2) && !ChunkHolds(vals, ex, g, n, m2, v)
    ensures !ChunkHolds(vals, ex, g, n, m, v)
  {
    if ChunkHolds(vals, ex, g, n, m, v) {
      ChunkInside(m, g, n);
      ChunkInside(m2, g, n);
      var lo, lo2 := m * g, m2 * g;
      var k :| lo <= k < lo + g && ex[k] && vals[k] >= v;
      var k2 := CountWitness(ex, lo2, lo2 + g);
      ChunksOrdered(m, m2, g);
      SortedSlots(vals, ex, 0, |ex|, k, k2);
      assert false;
    }
  }

  /** Chunk [lo, hi) of (v2, f2) holds the listing of chunk [lo, hi) of
      (v0, f0) with v merged in at its lower bound, packed at the chunk's
      left end, and every slot outside the chunk is as in (v0, f0). */
  ghost predicate ChunkMerged(v0: seq<int>, f0: seq<bool>, v2: seq<int>, f2: seq<bool>, lo: int, hi: int, v: int)
    requires |v0| == |f0| == |v2| == |f2| && 0 <= lo <= hi <= |f0|
  {
    && Present(v2, f2, lo, hi) == InsertAtLowerBound(Present(v0, f0, lo, hi), v)
    && (forall k :: lo <= k < hi ==> (f2[k] <==> k - lo < Count(f0, lo, hi) + 1))
    && (forall k :: 0 <= k < |f2| && !(lo <= k < hi) ==> f2[k] == f0[k] && v2[k] == v0[k])
  }

  /** The chunk [lo, hi) after `insert_merge` cleared it (f1) and wrote
      ys, which is its old listing ws with v merged in, at its left end. */
  lemma MergeWritten(v0: seq<int>, f0: seq<bool>, f1: seq<bool>, v2: seq<int>, f2: seq<bool>,
                     lo: int, hi: int, ws: seq<int>, ys: seq<int>, v: int)
    requires |v0| == |f0| == |f1| == |v2| == |f2| && 0 <= lo <= hi <= |f0|
    requires ws == Present(v0, f0, lo, hi) && f1 == Cleared(f0, lo, hi)
    requires ys == InsertAtLowerBound(ws, v) && ys == Present(v2, f2, lo, hi)
    requires forall k :: lo <= k < hi ==> (f2[k] <==> k - lo < |ys|)
    requires forall k :: 0 <= k < |f2| && !(lo <= k < hi) ==> f2[k] == f1[k] && v2[k] == v0[k]
    ensures ChunkMerged(v0, f0, v2, f2, lo, hi, v)
    ensures multiset(Present(v2, f2, 0, |f2|)) == multiset(Present(v0, f0, 0, |f0|)) + multiset{v}
    ensures Count(f2, 0, |f2|) == Count(f0, 0, |f0|) + 1
    ensures Sorted(ws) ==> Sorted(ys)
  {
    InsertAtLowerBoundKeeps(ws, v);
    forall k | 0 <= k < |f0| ensures f1[k] == (f0[k] && !(lo <= k < hi)) { ClearedAt(f0, lo, hi, k); }
    WindowRefilled(v0, f0, v2, f2, lo, hi, ws, ys, multiset{v});
  }

  /** The window after `rebalance_interval` spread its listing xs over the
      cleared flags f1: the store lists what it listed before. */
  lemma WindowSpread(v0: seq<int>, f0: seq<bool>, f1: seq<bool>, v2: seq<int>, f2: seq<bool>,
                     lo: int, w: int, hi: int, xs: seq<int>)
    requires |v0| == |f0| == |f1| == |v2| == |f2| && 0 <= lo && 0 <= w && hi == lo + w && hi <= |f0|
    requires xs == Present(v0, f0, lo, hi) && f1 == Cleared(f0, lo, hi)
    requires Placing(v2, f2, lo, w, hi, xs, |xs|)
    requires forall k :: 0 <= k < |f2| && !(lo <= k < hi) ==> f2[k] == f1[k] && v2[k] == v0[k]
    ensures Present(v2, f2, lo, hi) == xs
    ensures forall k :: 0 <= k < |f2| && !(lo <= k < hi) ==> f2[k] == f0[k] && v2[k] == v0[k]
    ensures Present(v2, f2, 0, |f2|) == Present(v0, f0, 0, |f0|)
    ensures Count(f2, 0, |f2|) == Count(f0, 0, |f0|)
  {
    forall k | 0 <= k < |f0| ensures f1[k] == (f0[k] && !(lo <= k < hi)) { ClearedAt(f0, lo, hi, k); }
    assert xs[..|xs|] == xs;
    WindowRefilled(v0, f0, v2, f2, lo, hi, xs, xs, multiset{});
    PresentSplit3(v0, f0, 0, lo, hi, |f0|);
    AppendAssoc(Present(v0, f0, 0, lo), xs, Present(v0, f0, hi, |f0|));
  }

  // ---------------------------------------------------------------------
  // Occupied chunks form a suffix.

  /** Every chunk after an occupied chunk is occupied: the occupied chunks
      of the store form a suffix of it. */
  ghost predicate SuffixOccupied(ex: seq<bool>, g: int, n: int)
    requires g >= 1 && |ex| == n * g
  {
    forall m, m2 :: 0 <= m <= m2 < n && ChunkOccupied(ex, g, n, m) ==> ChunkOccupied(ex, g, n, m2)
  }

  /** A store with no occupied slot has no occupied chunk. */
  lemma EmptySuffix(ex: seq<bool>, g: int, n: int)
    requires g >= 1 && |ex| == n * g && Count(ex, 0, |ex|) == 0
    ensures SuffixOccupied(ex, g, n)
    ensures forall m :: 0 <= m < n ==> !ChunkOccupied(ex, g, n, m)
  {
    forall m | 0 <= m < n ensures !ChunkOccupied(ex, g, n, m) {
      ChunkInside(m, g, n);
      CountSplit(ex, 0, m * g, |ex|);
      CountSplit(ex, m * g, m * g + g, |ex|);
    }
  }

  /** An occupied slot makes its range occupied. */
  lemma OccupiedSlot(ex: seq<bool>, lo: int, k: int, hi: int)
    requires 0 <= lo <= k < hi <= |ex| && ex[k]
    ensures Count(ex, lo, hi) > 0
  {
    CountAround(ex, lo, k, hi);
  }

  /** With m values spread over w <= 4m slots, every block of g >= 4 slots
      inside the window gets one: the first i with i * w >= b * m lands
      before b + g. */
  lemma SpacedHitsBlock(b: int, g: int, w: int, m: int) returns (i: int)
    requires 0 < m <= w <= 4 * m && 4 <= g && 0 <= b && b + g <= w
    ensures 0 <= i < m && b <= SpacedSlot(i, w, m) < b + g
  {
    MulMonotone(0, b, m);
    var q := b * m + w - 1;
    i := q / w;
    assert q == i * w + q % w;
    DivAtLeast(q, w, 0);
    DivAtLeast(i * w, m, b);
    MulMonotone(4, g, m);
    assert (b + g - 1 + 1) * m == b * m + g * m;
    DivAtMost(i * w, m, b + g - 1);
    if i >= m {
      MulMonotone(m, i, w);
      MulMonotone(b + 4, w, m);
      assert false;
    }
  }

  /** Values spread evenly over a window of at most four times as many
      slots occupy every block of g >= 4 slots inside it. */
  lemma SpreadFillsBlock(v: seq<int>, f: seq<bool>, lo: int, w: int, xs: seq<int>, b: int, g: int)
    requires |v| == |f| && 0 <= lo && lo + w <= |f| && |xs| <= w
    requires EvenlySpread(v, f, lo, w, lo + w, xs)
    requires w <= 4 * |xs| && 4 <= g && 0 <= b && b + g <= w
    ensures Count(f, lo + b, lo + b + g) > 0
  {
    var i := SpacedHitsBlock(b, g, w, |xs|);
    var k := lo + SpacedSlot(i, w, |xs|);
    assert HoldsAt(v, f, k, xs[i]);
    OccupiedSlot(f, lo + b, k, lo + b + g);
  }

  /** The same for the chunks a spread window of p chunks starting at chunk
      a covers: every one of them is occupied. */
  lemma SpreadFillsChunks(v: seq<int>, f: seq<bool>, g: int, n: int, a: int, p: int, xs: seq<int>)
    requires |v| == |f| == n * g && 4 <= g && 0 <= a && 1 <= p && a + p <= n
    requires a * g + p * g <= |f| && |xs| <= p * g && p * g <= 4 * |xs|
    requires EvenlySpread(v, f, a * g, p * g, a * g + p * g, xs)
    ensures forall m :: a <= m < a + p ==> ChunkOccupied(f, g, n, m)
  {
    forall m | a <= m < a + p ensures ChunkOccupied(f, g, n, m) {
      SpreadFillsChunk(v, f, g, n, a, p, xs, m);
    }
  }

  /** One chunk m of those p chunks: it holds a value. */
  lemma SpreadFillsChunk(v: seq<int>, f: seq<bool>, g: int, n: int, a: int, p: int, xs: seq<int>, m: int)
    requires |v| == |f| == n * g && 4 <= g && 0 <= a && 1 <= p && a + p <= n
    requires a * g + p * g <= |f| && |xs| <= p * g && p * g <= 4 * |xs|
    requires EvenlySpread(v, f, a * g, p * g, a * g + p * g, xs)
    requires a <= m < a + p
    ensures ChunkOccupied(f, g, n, m)
  {
    ChunkInside(m, g, n);
    ChunkOffset(m, a, p, g);
    SpreadFillsBlock(v, f, a * g, p * g, xs, (m - a) * g, g);
  }

  /** Chunk m of the p chunks starting at chunk a sits at offset (m - a) g
      of their window. */
  lemma ChunkOffset(m: int, a: int, p: int, g: int)
    requires g >= 1 && a <= m < a + p
    ensures 0 <= (m - a) * g && (m - a) * g + g <= p * g
    ensures m * g == a * g + (m - a) * g
  {
    MulMonotone(0, m - a, g);
    MulMonotone(m - a + 1, p, g);
  }

  /** A chunk outside the chunks [a, b) lies outside their slots. */
  lemma ChunkOutside(m: int, g: int, a: int, b: int)
    requires 0 <= m && g >= 1 && 0 <= a <= b && !(a <= m < b)
    ensures m * g + g <= a * g || b * g <= m * g
  {
    if m < a { MulMonotone(m + 1, a, g); } else { MulMonotone(b, m, g); }
  }

  /** Chunks [a, b) refilled so that each is occupied, with every other slot
      unchanged, keep the occupied chunks a suffix, provided some chunk j0
      among them was occupied before or they run to the end of the store. */
  lemma SuffixAfterRefill(f0: seq<bool>, f2: seq<bool>, g: int, n: int, a: int, b: int, j0: int)
    requires g >= 1 && |f0| == n * g && |f2| == n * g && 0 <= a <= j0 < b <= n
    requires SuffixOccupied(f0, g, n)
    requires b == n || ChunkOccupied(f0, g, n, j0)
    requires forall k :: 0 <= k < |f0| && !(a * g <= k < b * g) ==> f2[k] == f0[k]
    requires forall m :: a <= m < b ==> ChunkOccupied(f2, g, n, m)
    ensures SuffixOccupied(f2, g, n)
  {
    forall m | 0 <= m < n && !(a <= m < b)
      ensures ChunkOccupied(f2, g, n, m) == ChunkOccupied(f0, g, n, m)
    {
      ChunkInside(m, g, n);
      ChunkOutside(m, g, a, b);
      CountFrame(f0, f2, m * g, m * g + g);
    }
    forall m, m2 | 0 <= m <= m2 < n && ChunkOccupied(f2, g, n, m)
      ensures ChunkOccupied(f2, g, n, m2)
    {
      if m2 >= b && m < b {
        assert ChunkOccupied(f0, g, n, j0);
      }
    }
  }

  /** The window of width 2w around slot i holds the window of width w
      around it, so it counts at least as many occupied slots. */
  lemma WindowCountNested(ex: seq<bool>, i: int, w: int)
    requires 0 <= i && w > 0 && LeftIntervalBoundary(i, 2 * w) + 2 * w <= |ex|
    ensures LeftIntervalBoundary(i, 2 * w) <= LeftIntervalBoundary(i, w)
    ensures LeftIntervalBoundary(i, w) + w <= LeftIntervalBoundary(i, 2 * w) + 2 * w
    ensures Count(ex, LeftIntervalBoundary(i, w), LeftIntervalBoundary(i, w) + w)
         <= Count(ex, LeftIntervalBoundary(i, 2 * w), LeftIntervalBoundary(i, 2 * w) + 2 * w)
  {
    AlignDownBounds(i, w);
    AlignDownBounds(i, 2 * w);
    AlignDownNested(i, w);
    AlignDownBounds(AlignDown(i, w), 2 * w);
    var l1, l2 := LeftIntervalBoundary(i, w), LeftIntervalBoundary(i, 2 * w);
    CountSplit(ex, l2, l1, l2 + 2 * w);
    CountSplit(ex, l1, l1 + w, l2 + 2 * w);
  }

  /** When the chunk around slot i is full and no window of levels 1 to k
      around it is within its threshold, the window of level k is at least
      half full. */
  lemma LevelBelowDense(ex: seq<bool>, i: int, g: int, k: nat, nlevels: nat, lgn: nat)
    requires k <= nlevels < lgn && g == Pow2(lgn - nlevels) && |ex| == Pow2(lgn) && 0 <= i < |ex|
    requires LeftIntervalBoundary(i, g) + g <= |ex|
    requires Count(ex, LeftIntervalBoundary(i, g), LeftIntervalBoundary(i, g) + g) == g
    requires forall lev: nat :: 1 <= lev <= k ==> !WindowInLimit(ex, i, lev, g, lgn)
    ensures Pow2(k) * g >= 1 && LeftIntervalBoundary(i, Pow2(k) * g) + Pow2(k) * g <= |ex|
    ensures Pow2(k) * g <= 2 * Count(ex, LeftIntervalBoundary(i, Pow2(k) * g), LeftIntervalBoundary(i, Pow2(k) * g) + Pow2(k) * g)
  {
    WindowFits(i, g, k, nlevels, lgn, |ex|);
    if k > 0 {
      assert !WindowInLimit(ex, i, k, g, lgn);
    }
  }

  /** A sorted listing split into a, a chunk's listing ws and b, with a at
      most v and b at least v, stays sorted when v is merged into ws at its
      lower bound. */
  lemma SortedMergeBetween(a: seq<int>, ws: seq<int>, b: seq<int>, v: int)
    requires Sorted(a + ws + b)
    requires AllAtMost(a, v - 1) && AllAbove(b, v - 1)
    ensures Sorted(a + InsertAtLowerBound(ws, v) + b)
  {
    var ys := InsertAtLowerBound(ws, v);
    SortedParts(a + ws, b);
    SortedParts(a, ws);
    InsertAtLowerBoundKeeps(ws, v);
    forall y | y in ys ensures y in ws || y == v {
      assert y in multiset(ys);
    }
    SortedConcat(a, ys);
    forall x, y | x in a + ys && y in b ensures x <= y {
      if x !in a && x != v { assert x in a + ws; }
    }
    SortedConcat(a + ys, b);
  }

  /** In a sorted store whose occupied chunks form a suffix, every occupied
      slot of the chunks before the chunk boundary j holds a value below v. */
  lemma BelowBoundary(vals: seq<int>, ex: seq<bool>, g: int, n: int, j: int, v: int, k: int)
    requires |vals| == |ex| && g >= 1 && |ex| == n * g
    requires Sorted(Present(vals, ex, 0, |ex|)) && SuffixOccupied(ex, g, n)
    requires ChunkBoundary(vals, ex, g, n, j, v)
    requires 0 <= k < j * g && ex[k]
    ensures vals[k] < v
  {
    var m := k / g;
    var lo := LeftIntervalBoundary(k, g);
    assert lo == m * g;
    if m >= j { MulMonotone(j, m, g); }
    ChunkInside(m, g, n);
    OccupiedSlot(ex, lo, k, lo + g);
    assert ChunkOccupied(ex, g, n, m);
    assert ChunkOccupied(ex, g, n, j - 1);
    if m < j - 1 {
      EarlierChunkBelow(vals, ex, g, n, m, j - 1, v);
    }
  }

  /** In a sorted store, every occupied slot after a chunk j that holds a
      value >= v holds a value >= v. */
  lemma AboveBoundary(vals: seq<int>, ex: seq<bool>, g: int, n: int, j: int, v: int, k: int)
    requires |vals| == |ex| && g >= 1 && |ex| == n * g && 0 <= j < n
    requires Sorted(Present(vals, ex, 0, |ex|))
    requires ChunkHolds(vals, ex, g, n, j, v)
    requires j * g + g <= k < |ex| && ex[k]
    ensures vals[k] >= v
  {
    ChunkInside(j, g, n);
    var k0 :| j * g <= k0 < j * g + g && ex[k0] && vals[k0] >= v;
    SortedSlots(vals, ex, 0, |ex|, k0, k);
  }

  /** `insert_merge` into the chunk where the chunk search stopped (the last
      chunk when it stopped past the end) keeps a sorted store whose
      occupied chunks form a suffix sorted, with its occupied chunks a
      suffix. */
  lemma MergeKeepsOrder(v0: seq<int>, f0: seq<bool>, v2: seq<int>, f2: seq<bool>, g: int, n: int, j: int, jm: int, v: int)
    requires |v0| == |f0| == |v2| == |f2| && g >= 1 && n >= 1 && |f0| == n * g
    requires Sorted(Present(v0, f0, 0, |f0|)) && SuffixOccupied(f0, g, n)
    requires ChunkBoundary(v0, f0, g, n, j, v) && jm == (if j == n then n - 1 else j)
    requires 0 <= jm * g && jm * g + g <= |f0|
    requires ChunkMerged(v0, f0, v2, f2, jm * g, jm * g + g, v)
    ensures Sorted(Present(v2, f2, 0, |f2|)) && SuffixOccupied(f2, g, n)
  {
    MergeKeepsSorted(v0, f0, v2, f2, g, n, j, jm, v);
    MergeFillsChunk(v0, f0, v2, f2, g, n, j, jm, v);
    MergeKeepsSuffix(f0, f2, g, n, jm);
  }

  /** The sortedness half of `MergeKeepsOrder`: the values before the chunk
      are below v and the values after it at least v. */
  lemma {:induction false} MergeKeepsSorted(v0: seq<int>, f0: seq<bool>, v2: seq<int>, f2: seq<bool>, g: int, n: int, j: int, jm: int, v: int)
    requires |v0| == |f0| == |v2| == |f2| && g >= 1 && n >= 1 && |f0| == n * g
    requires Sorted(Present(v0, f0, 0, |f0|)) && SuffixOccupied(f0, g, n)
    requires ChunkBoundary(v0, f0, g, n, j, v) && jm == (if j == n then n - 1 else j)
    requires 0 <= jm * g && jm * g + g <= |f0|
    requires ChunkMerged(v0, f0, v2, f2, jm * g, jm * g + g, v)
    ensures Sorted(Present(v2, f2, 0, |f2|))
  {
    BeforeChunkBelow(v0, f0, g, n, j, jm, v);
    AfterChunkAbove(v0, f0, g, n, j, jm, v);
    ChunkMergeSorted(v0, f0, v2, f2, jm * g, jm * g + g, v);
  }

  /** A chunk [lo, hi) merged with v, in a sorted store whose values before
      the chunk are below v and after it at least v, leaves it sorted. */
  lemma ChunkMergeSorted(v0: seq<int>, f0: seq<bool>, v2: seq<int>, f2: seq<bool>, lo: int, hi: int, v: int)
    requires |v0| == |f0| == |v2| == |f2| && 0 <= lo <= hi <= |f0|
    requires Sorted(Present(v0, f0, 0, |f0|))
    requires AllAtMost(Present(v0, f0, 0, lo), v - 1) && AllAbove(Present(v0, f0, hi, |f0|), v - 1)
    requires ChunkMerged(v0, f0, v2, f2, lo, hi, v)
    ensures Sorted(Present(v2, f2, 0, |f2|))
  {
    var N := |f0|;
    var a, ws, b := Present(v0, f0, 0, lo), Present(v0, f0, lo, hi), Present(v0, f0, hi, N);
    PresentSplit3(v0, f0, 0, lo, hi, N);
    AppendAssoc(a, ws, b);
    var ys := InsertAtLowerBound(ws, v);
    WindowRefilled(v0, f0, v2, f2, lo, hi, ws, ys, multiset{v});
    SortedMergeBetween(a, ws, b, v);
  }

  /** The listing before the chunk the insert picks is below v. */
  lemma BeforeChunkBelow(v0: seq<int>, f0: seq<bool>, g: int, n: int, j: int, jm: int, v: int)
    requires |v0| == |f0| && g >= 1 && n >= 1 && |f0| == n * g
    requires Sorted(Present(v0, f0, 0, |f0|)) && SuffixOccupied(f0, g, n)
    requires ChunkBoundary(v0, f0, g, n, j, v) && jm == (if j == n then n - 1 else j)
    requires 0 <= jm * g <= |f0|
    ensures AllAtMost(Present(v0, f0, 0, jm * g), v - 1)
  {
    forall k | 0 <= k < jm * g && f0[k] ensures v0[k] <= v - 1 {
      MulMonotone(jm, j, g);
      BelowBoundary(v0, f0, g, n, j, v, k);
    }
    PresentAllAtMost(v0, f0, 0, jm * g, v - 1);
  }

  /** The listing after the chunk the insert picks is at least v. */
  lemma AfterChunkAbove(v0: seq<int>, f0: seq<bool>, g: int, n: int, j: int, jm: int, v: int)
    requires |v0| == |f0| && g >= 1 && n >= 1 && |f0| == n * g
    requires Sorted(Present(v0, f0, 0, |f0|))
    requires ChunkBoundary(v0, f0, g, n, j, v) && jm == (if j == n then n - 1 else j)
    requires 0 <= jm * g && jm * g + g <= |f0|
    ensures AllAbove(Present(v0, f0, jm * g + g, |f0|), v - 1)
  {
    if j == n {
      assert jm * g + g == |f0|;
    }
    forall k | jm * g + g <= k < |f0| && f0[k] ensures v0[k] > v - 1 {
      AboveBoundary(v0, f0, g, n, j, v, k);
    }
    PresentAllGreater(v0, f0, jm * g + g, |f0|, v - 1);
  }

  /** The suffix half of `MergeKeepsOrder`: a merge fills the first slot of
      chunk jm, which was occupied already unless it is the last chunk, and
      changes no occupancy outside it, so the occupied chunks stay a
      suffix. */
  lemma MergeKeepsSuffix(f0: seq<bool>, f2: seq<bool>, g: int, n: int, jm: int)
    requires g >= 1 && |f0| == n * g && |f2| == n * g && 0 <= jm < n
    requires 0 <= jm * g && jm * g + g <= |f0|
    requires SuffixOccupied(f0, g, n) && f2[jm * g]
    requires jm + 1 == n || Count(f0, jm * g, jm * g + g) > 0
    requires forall k :: 0 <= k < |f0| && !(jm * g <= k < jm * g + g) ==> f2[k] == f0[k]
    ensures SuffixOccupied(f2, g, n)
  {
    var lo, hi := jm * g, jm * g + g;
    OccupiedSlot(f2, lo, lo, hi);
    assert ChunkOccupied(f2, g, n, jm);
    assert (jm + 1) * g == hi;
    SuffixAfterRefill(f0, f2, g, n, jm, jm + 1, jm);
  }

  /** A merge into chunk jm, where the chunk search stopped (or the last
      chunk), fills its first slot, changes no occupancy outside it, and
      lands in a chunk that was occupied unless it is the last one. */
  lemma MergeFillsChunk(v0: seq<int>, f0: seq<bool>, v2: seq<int>, f2: seq<bool>, g: int, n: int, j: int, jm: int, v: int)
    requires |v0| == |f0| == |v2| == |f2| && g >= 1 && n >= 1 && |f0| == n * g
    requires ChunkBoundary(v0, f0, g, n, j, v) && jm == (if j == n then n - 1 else j)
    requires 0 <= jm * g && jm * g + g <= |f0|
    requires ChunkMerged(v0, f0, v2, f2, jm * g, jm * g + g, v)
    ensures 0 <= jm < n && f2[jm * g]
    ensures jm + 1 == n || Count(f0, jm * g, jm * g + g) > 0
    ensures forall k :: 0 <= k < |f0| && !(jm * g <= k < jm * g + g) ==> f2[k] == f0[k]
  {
    MergedFront(v0, f0, v2, f2, jm * g, jm * g + g, v);
    BoundaryChunkOccupied(v0, f0, g, n, j, jm, v);
  }

  /** A merge into a non-empty range [lo, hi) occupies its first slot and
      leaves the occupancy outside it alone. */
  lemma MergedFront(v0: seq<int>, f0: seq<bool>, v2: seq<int>, f2: seq<bool>, lo: int, hi: int, v: int)
    requires |v0| == |f0| == |v2| == |f2| && 0 <= lo < hi <= |f0|
    requires ChunkMerged(v0, f0, v2, f2, lo, hi, v)
    ensures f2[lo] && forall k :: 0 <= k < |f0| && !(lo <= k < hi) ==> f2[k] == f0[k]
  {
    assert lo - lo < Count(f0, lo, hi) + 1;
  }

  /** The chunk `insert` merges into, the one where the chunk search
      stopped or the last chunk, is occupied unless it is the last chunk:
      the search stops at a chunk holding a value >= v. */
  lemma BoundaryChunkOccupied(vals: seq<int>, ex: seq<bool>, g: int, n: int, j: int, jm: int, v: int)
    requires |vals| == |ex| && g >= 1 && n >= 1 && |ex| == n * g
    requires ChunkBoundary(vals, ex, g, n, j, v) && jm == (if j == n then n - 1 else j)
    ensures 0 <= jm < n && 0 <= jm * g && jm * g + g <= |ex|
    ensures jm + 1 == n || Count(ex, jm * g, jm * g + g) > 0
  {
    ChunkInside(jm, g, n);
    if j < n {
      var k :| j * g <= k < j * g + g && ex[k] && vals[k] >= v;
      OccupiedSlot(ex, j * g, k, j * g + g);
    }
  }

  /** A store with no occupied slot: the chunk search stops past the end. */
  lemma EmptyBoundary(vals: seq<int>, ex: seq<bool>, g: int, n: int, v: int)
    requires |vals| == |ex| && g >= 1 && n >= 1 && |ex| == n * g && Count(ex, 0, |ex|) == 0
    ensures ChunkBoundary(vals, ex, g, n, n, v)
  {
    ChunkInside(n - 1, g, n);
    if ChunkHolds(vals, ex, g, n, n - 1, v) {
      var k :| (n - 1) * g <= k < (n - 1) * g + g && ex[k] && vals[k] >= v;
      OccupiedSlot(ex, 0, k, |ex|);
      assert false;
    }
  }

  /** Slot i lies in chunk jm and in the p chunks from chunk a: then a <= jm < a + p. */
  lemma ChunkInWindow(i: int, g: int, jm: int, a: int, p: int)
    requires g >= 1 && jm * g <= i < jm * g + g && a * g <= i < a * g + p * g
    ensures a <= jm < a + p
  {
    if jm < a { MulMonotone(jm + 1, a, g); }
    if jm >= a + p { MulMonotone(a + p, jm, g); }
  }

  /** The aligned window of p chunks of g slots around slot i starts at a
      chunk a and covers the chunk of i. */
  lemma WindowAligned(i: int, g: int, p: int) returns (a: int)
    requires 0 <= i && g >= 1 && p >= 1
    ensures p * g >= 1 && LeftIntervalBoundary(i, p * g) == a * g && 0 <= a <= i / g < a + p
  {
    MulMonotone(1, p, g);
    var w := p * g;
    var q := i / w;
    a := q * p;
    DivAtLeast(i, w, 0);
    MulMonotone(0, q, p);
    assert q * w == a * g;
    assert LeftIntervalBoundary(i, g) == (i / g) * g;
    assert LeftIntervalBoundary(i, w) == a * g;
    ChunkInWindow(i, g, i / g, a, p);
  }

  /** The window the escalation stopped at, at level k in 1..nlevels, with
      the chunk around slot i full, holds at least a quarter of its slots:
      the window of level k - 1 inside it is at least half full. */
  lemma {:induction false} EscalatedWindow(ex: seq<bool>, i: int, g: int, k: nat, nlevels: nat, lgn: nat)
    requires 1 <= k <= nlevels < lgn && g == Pow2(lgn - nlevels) && |ex| == Pow2(lgn) && 0 <= i < |ex|
    requires LeftIntervalBoundary(i, g) + g <= |ex|
    requires Count(ex, LeftIntervalBoundary(i, g), LeftIntervalBoundary(i, g) + g) == g
    requires forall lev: nat :: 1 <= lev < k ==> !WindowInLimit(ex, i, lev, g, lgn)
    ensures Pow2(k) * g >= 1 && LeftIntervalBoundary(i, Pow2(k) * g) + Pow2(k) * g <= |ex|
    ensures Pow2(k) * g <= 4 * Count(ex, LeftIntervalBoundary(i, Pow2(k) * g), LeftIntervalBoundary(i, Pow2(k) * g) + Pow2(k) * g)
  {
    LevelBelowDense(ex, i, g, k - 1, nlevels, lgn);
    var w := Pow2(k - 1) * g;
    DoubleWindow(Pow2(k - 1), g);
    assert Pow2(k) * g == 2 * w;
    WindowFits(i, g, k, nlevels, lgn, |ex|);
    DoubledWindowDense(ex, i, w);
  }

  /** The window of width 2w around slot i, when the window of width w
      inside it is at least half full, is at least a quarter full. */
  lemma DoubledWindowDense(ex: seq<bool>, i: int, w: int)
    requires 0 <= i && w > 0 && LeftIntervalBoundary(i, 2 * w) + 2 * w <= |ex|
    requires LeftIntervalBoundary(i, w) + w <= |ex|
    requires w <= 2 * Count(ex, LeftIntervalBoundary(i, w), LeftIntervalBoundary(i, w) + w)
    ensures 2 * w <= 4 * Count(ex, LeftIntervalBoundary(i, 2 * w), LeftIntervalBoundary(i, 2 * w) + 2 * w)
  {
    WindowCountNested(ex, i, w);
  }

  /** When the escalation ran past the last level, the chunk around slot i
      being full and no window of levels 1 to nlevels within its threshold,
      the store is at least half full. */
  lemma {:induction false} FullStoreDense(ex: seq<bool>, i: int, g: int, n: int, nlevels: int, lgn: int)
    requires GeometryOf(|ex|, g, n, nlevels, lgn) && 0 <= i < |ex|
    requires LeftIntervalBoundary(i, g) + g <= |ex|
    requires Count(ex, LeftIntervalBoundary(i, g), LeftIntervalBoundary(i, g) + g) == g
    requires forall lev: nat :: 1 <= lev < nlevels + 1 ==> !WindowInLimit(ex, i, lev, g, lgn)
    ensures |ex| <= 2 * Count(ex, 0, |ex|)
  {
    LevelBelowDense(ex, i, g, nlevels, nlevels, lgn);
    GeometryTiles(|ex|, g, n, nlevels, lgn);
    DivModUnique(i, |ex|, 0, i);
  }

  /** A window of p chunks from chunk a, around an occupied chunk jm, that
      held at least a quarter of its slots and was spread evenly, keeps the
      occupied chunks a suffix. */
  lemma {:induction false} RebalanceKeepsSuffix(v0: seq<int>, f0: seq<bool>, v2: seq<int>, f2: seq<bool>, g: int, n: int, lo: int, w: int, a: int, p: int, jm: int)
    requires |v0| == |f0| == |v2| == |f2| == n * g && 4 <= g && 0 <= a <= jm < a + p <= n
    requires lo == a * g && w == p * g && 0 <= lo && lo + w <= |f0|
    requires SuffixOccupied(f0, g, n) && ChunkOccupied(f0, g, n, jm)
    requires w <= 4 * Count(f0, lo, lo + w)
    requires EvenlySpread(v2, f2, lo, w, lo + w, Present(v0, f0, lo, lo + w))
    requires forall k :: 0 <= k < |f2| && !(lo <= k < lo + w) ==> f2[k] == f0[k]
    ensures SuffixOccupied(f2, g, n)
  {
    SpreadFillsChunks(v2, f2, g, n, a, p, Present(v0, f0, lo, lo + w));
    assert (a + p) * g == lo + w;
    SuffixAfterRefill(f0, f2, g, n, a, a + p, jm);
  }

  /** A store of four or more slots that `resize` filled evenly with at
      least a quarter as many values as slots has every chunk occupied. */
  lemma {:induction false} ResizeFillsChunks(v: seq<int>, f: seq<bool>, g: int, n: int, nl: int, lgn: int, xs: seq<int>)
    requires |v| == |f| && GeometryOf(|f|, g, n, nl, lgn) && 4 <= |f|
    requires |xs| <= |f| <= 4 * |xs|
    requires EvenlySpread(v, f, 0, |f|, |f|, xs)
    ensures n * g == |f| && SuffixOccupied(f, g, n)
  {
    GeometryTiles(|f|, g, n, nl, lgn);
    if lgn < 2 {
      Pow2Monotone(lgn, 1);
    }
    SpreadFillsChunks(v, f, g, n, 0, n, xs);
  }

  /** p chunks from chunk a that end inside a store of n chunks end by chunk n. */
  lemma ChunksFit(a: int, p: int, g: int, n: int)
    requires g >= 1 && a * g + p * g <= n * g
    ensures a + p <= n
  {
    assert a * g + p * g == (a + p) * g;
    if a + p > n { MulMonotone(n + 1, a + p, g); }
  }

  /** Slot l starts the chunk `insert` merges v into: the chunk where the
      chunk search stopped, or the last chunk when the search ran past the
      end of the store. */
  ghost predicate MergeTarget(vals: seq<int>, ex: seq<bool>, g: int, n: int, l: int, v: int)
  {
    && |vals| == |ex| && g >= 1 && |ex| == n * g
    && 0 <= l && l % g == 0 && l / g < n
    && (ChunkBoundary(vals, ex, g, n, l / g, v) || (l / g == n - 1 && ChunkBoundary(vals, ex, g, n, n, v)))
  }

  /** lower_bound stopped at slot i (the end of the store when it is
      empty); the chunk around i, or around the last slot when i is the
      end, is the merge target. */
  lemma {:induction false} PickedMergeTarget(v0: seq<int>, f0: seq<bool>, g: int, n: int, i: int, l: int, v: int)
    requires |v0| == |f0| && g >= 1 && n >= 1 && |f0| == n * g
    requires 0 <= i <= |f0| && i % g == 0
    requires Count(f0, 0, |f0|) == 0 ==> i == |f0|
    requires Count(f0, 0, |f0|) != 0 ==> ChunkBoundary(v0, f0, g, n, i / g, v)
    requires l == LeftIntervalBoundary(if i == |f0| then i - 1 else i, g)
    ensures MergeTarget(v0, f0, g, n, l, v)
  {
    var jm := PickedChunk(i, g, n);
    if Count(f0, 0, |f0|) == 0 {
      DivModUnique(i, g, n, 0);
      EmptyBoundary(v0, f0, g, n, v);
    }
    DivModUnique(l, g, jm, 0);
  }

  /** The chunk boundary j behind a merge target l: l starts chunk j, or
      the last chunk when j is past the end. */
  lemma TargetBoundary(vals: seq<int>, ex: seq<bool>, g: int, n: int, l: int, v: int) returns (j: int)
    requires MergeTarget(vals, ex, g, n, l, v)
    ensures ChunkBoundary(vals, ex, g, n, j, v) && l / g == (if j == n then n - 1 else j)
    ensures l == (l / g) * g
  {
    assert l == (l / g) * g + l % g;
    j := if ChunkBoundary(vals, ex, g, n, l / g, v) then l / g else n;
  }

  /** Merging v into its merge target keeps a sorted store whose occupied
      chunks form a suffix so. */
  lemma {:induction false} MergeIntoKeepsOrder(v0: seq<int>, f0: seq<bool>, v2: seq<int>, f2: seq<bool>, g: int, n: int, l: int, v: int)
    requires |v0| == |f0| == |v2| == |f2| && g >= 1 && n >= 1 && |f0| == n * g
    requires MergeTarget(v0, f0, g, n, l, v)
    requires Sorted(Present(v0, f0, 0, |f0|)) && SuffixOccupied(f0, g, n)
    requires l + g <= |f0| && ChunkMerged(v0, f0, v2, f2, l, l + g, v)
    ensures Sorted(Present(v2, f2, 0, |f2|)) && SuffixOccupied(f2, g, n)
  {
    var j := TargetBoundary(v0, f0, g, n, l, v);
    MergeKeepsOrder(v0, f0, v2, f2, g, n, j, l / g, v);
  }

  /** One rebalance step of `insert`: the escalation stopped at a level in
      1..nlevels around a full chunk, where v was to be merged, and the
      window it stopped at, which held the values xs, is spread evenly with
      nothing outside it changing. A sorted store whose occupied chunks
      formed a suffix keeps them a suffix, and every chunk v may then be
      merged into has a free slot. */
  lemma {:induction false} RebalanceStep(v0: seq<int>, f0: seq<bool>, i: int, g: int, n: int, nlevels: int, lgn: int, level: nat,
                                         l: int, w: int, hi: int, xs: seq<int>, v: int)
    requires |v0| == |f0| && GeometryOf(|f0|, g, n, nlevels, lgn) && n * g == |f0| && 0 <= i < |f0|
    requires 1 <= level <= nlevels
    requires LeftIntervalBoundary(i, g) + g <= |f0|
    requires Count(f0, LeftIntervalBoundary(i, g), LeftIntervalBoundary(i, g) + g) == g
    requires forall lev: nat :: 1 <= lev < level ==> !WindowInLimit(f0, i, lev, g, lgn)
    requires WindowInLimit(f0, i, level, g, lgn)
    requires MergeTarget(v0, f0, g, n, LeftIntervalBoundary(i, g), v)
    requires w == Pow2(level) * g && l == LeftIntervalBoundary(i, w) && hi == l + w && hi <= |f0|
    requires Sorted(Present(v0, f0, 0, |f0|)) && SuffixOccupied(f0, g, n) && lgn < g
    requires xs == Present(v0, f0, l, hi)
    ensures forall v2: seq<int>, f2: seq<bool> {:trigger EvenlySpread(v2, f2, l, w, hi, xs)} ::
              |v2| == |f2| == |f0| && EvenlySpread(v2, f2, l, w, hi, xs)
              && (forall k :: 0 <= k < |f2| && !(l <= k < hi) ==> f2[k] == f0[k] && v2[k] == v0[k])
              && Present(v2, f2, 0, |f2|) == Present(v0, f0, 0, |f0|)
              ==> SuffixOccupied(f2, g, n) && TargetsHaveRoom(v2, f2, g, n, v)
  {
    var p := Pow2(level);
    EscalatedWindow(f0, i, g, level, nlevels, lgn);
    var a := WindowAligned(i, g, p);
    ChunksFit(a, p, g, n);
    assert LeftIntervalBoundary(i, g) == (i / g) * g;
    forall v2: seq<int>, f2: seq<bool> | |v2| == |f2| == |f0| && EvenlySpread(v2, f2, l, w, hi, xs)
      && (forall k :: 0 <= k < |f2| && !(l <= k < hi) ==> f2[k] == f0[k] && v2[k] == v0[k])
      && Present(v2, f2, 0, |f2|) == Present(v0, f0, 0, |f0|)
      ensures SuffixOccupied(f2, g, n) && TargetsHaveRoom(v2, f2, g, n, v)
    {
      RebalanceKeepsSuffix(v0, f0, v2, f2, g, n, l, p * g, a, p, i / g);
      RebalanceLeavesRoom(v0, f0, v2, f2, i, g, n, nlevels, lgn, level, l, w, v);
    }
  }

  /** One resize step of `insert`: the escalation ran past the last level
      around a full chunk, and the store was doubled and spread evenly.
      Every chunk of the new store is occupied, and the chunk a restart
      merges x into has a free slot. */
  lemma {:induction false} ResizeStep(f0: seq<bool>, i: int, g: int, n: int, nlevels: int, lgn: int, v: seq<int>, f: seq<bool>, g2: int, n2: int, nl2: int, lgn2: int, xs: seq<int>, x: int)
    requires GeometryOf(|f0|, g, n, nlevels, lgn) && 0 <= i < |f0|
    requires LeftIntervalBoundary(i, g) + g <= |f0|
    requires Count(f0, LeftIntervalBoundary(i, g), LeftIntervalBoundary(i, g) + g) == g
    requires forall lev: nat :: 1 <= lev < nlevels + 1 ==> !WindowInLimit(f0, i, lev, g, lgn)
    requires |xs| == Count(f0, 0, |f0|)
    requires |v| == |f| == 2 * |f0| && GeometryOf(|f|, g2, n2, nl2, lgn2)
    requires EvenlySpread(v, f, 0, |f|, |f|, xs)
    ensures n2 * g2 == |f| && SuffixOccupied(f, g2, n2)
    ensures TargetsHaveRoom(v, f, g2, n2, x)
  {
    FullStoreDense(f0, i, g, n, nlevels, lgn);
    ResizeFillsChunks(v, f, g2, n2, nl2, lgn2, xs);
    ResizeLeavesRoom(v, f, g2, n2, nl2, lgn2, xs, x);
  }

  /** The chunk `insert` merges into: lower_bound's slot i, moved back by one
      when it is the end of the store, lies in chunk jm, the chunk where the
      search stopped or the last chunk. */
  lemma PickedChunk(i: int, g: int, n: int) returns (jm: int)
    requires g >= 1 && n >= 1 && 0 <= i <= n * g && i % g == 0
    ensures jm == (if i / g == n then n - 1 else i / g) && 0 <= jm < n
    ensures LeftIntervalBoundary(if i == n * g then i - 1 else i, g) == jm * g
  {
    assert i == (i / g) * g;
    if i == n * g {
      DivModUnique(i, g, n, 0);
      DivModUnique(i - 1, g, n - 1, g - 1);
      jm := n - 1;
    } else {
      DivModUnique(i, g, i / g, 0);
      if i / g >= n { MulMonotone(n, i / g, g); }
      jm := i / g;
    }
  }

  // ---------------------------------------------------------------------
  // Room in the merge target after a restart.

  /** Every chunk `insert` may merge v into has a free slot. */
  ghost predicate TargetsHaveRoom(vals: seq<int>, ex: seq<bool>, g: int, n: int, v: int)
  {
    forall l :: MergeTarget(vals, ex, g, n, l, v) && l + g <= |ex| ==> Count(ex, l, l + g) < g
  }

  /** A full merge target leaves the targets without room. */
  lemma FullTarget(vals: seq<int>, ex: seq<bool>, g: int, n: int, l: int, v: int)
    requires MergeTarget(vals, ex, g, n, l, v) && l + g <= |ex| && Count(ex, l, l + g) >= g
    ensures !TargetsHaveRoom(vals, ex, g, n, v)
  {
  }

  /** The first of m values spread over w slots whose offset is at least t:
      all earlier values land before t, all later ones at t or after. */
  lemma FirstSpacedAtLeast(t: int, w: int, m: int) returns (i: int)
    requires 0 < m <= w && 0 <= t <= w
    ensures 0 <= i <= m && t * m <= i * w < t * m + w
    ensures forall j :: 0 <= j < i ==> SpacedSlot(j, w, m) < t
    ensures forall j :: i <= j < m ==> t <= SpacedSlot(j, w, m)
  {
    MulMonotone(0, t, m);
    var q := t * m + w - 1;
    i := q / w;
    assert q == i * w + q % w;
    if i > m {
      MulMonotone(m + 1, i, w);
      MulMonotone(t, w, m);
      assert false;
    }
    forall j | 0 <= j < i ensures SpacedSlot(j, w, m) < t {
      SpacedBefore(j, i, t, w, m);
    }
    forall j | i <= j < m ensures t <= SpacedSlot(j, w, m) {
      SpacedFrom(j, i, t, w, m);
    }
  }

  /** A value spread before the i-th, with i w < t m + w, lands before t. */
  lemma SpacedBefore(j: int, i: int, t: int, w: int, m: int)
    requires 0 <= j < i <= m <= w && i * w < t * m + w
    ensures SpacedSlot(j, w, m) < t
  {
    MulMonotone(j, i - 1, w);
    assert (i - 1) * w == i * w - w;
    assert t * m == (t - 1 + 1) * m;
    DivAtMost(j * w, m, t - 1);
  }

  /** A value spread at or after the i-th, with t m <= i w, lands at t or
      after. */
  lemma SpacedFrom(j: int, i: int, t: int, w: int, m: int)
    requires 0 <= i <= j < m <= w && t * m <= i * w
    ensures t <= SpacedSlot(j, w, m)
  {
    MulMonotone(i, j, w);
    DivAtLeast(j * w, m, t);
  }

  /** The spread values with indices i0 to i1 - 1, when they land in the
      offsets [a, c) of the window, occupy at least i1 - i0 of its slots. */
  lemma {:induction false} SpacedCountAtLeast(v: seq<int>, f: seq<bool>, lo: int, w: int, xs: seq<int>, i0: int, i1: int, a: int, c: int)
    requires |v| == |f| && 0 <= lo && lo + w <= |f| && |xs| <= w
    requires EvenlySpread(v, f, lo, w, lo + w, xs)
    requires 0 <= i0 <= i1 <= |xs| && 0 <= a <= c <= w
    requires forall i :: i0 <= i < i1 ==> a <= SpacedSlot(i, w, |xs|) < c
    ensures Count(f, lo + a, lo + c) >= i1 - i0
    decreases i1 - i0
  {
    if i0 < i1 {
      var m := |xs|;
      var s := SpacedSlot(i1 - 1, w, m);
      assert HoldsAt(v, f, lo + s, xs[i1 - 1]);
      forall i | i0 <= i < i1 - 1 ensures a <= SpacedSlot(i, w, m) < s {
        SpacedSlotIncreasing(i, i1 - 1, w, m);
      }
      SpacedCountAtLeast(v, f, lo, w, xs, i0, i1 - 1, a, s);
      CountAround(f, lo + a, lo + s, lo + c);
    }
  }

  /** The upper-bound partner of SpreadFillsBlock: values spread evenly over
      a window of p blocks of g slots, at most g - 1 per block on average,
      leave a free slot in every block of g slots inside it. The values
      before the block and after it fill their own parts, which leaves fewer
      than g for the block. */
  lemma SpreadLeavesRoom(v: seq<int>, f: seq<bool>, lo: int, w: int, xs: seq<int>, b: int, g: int, p: int)
    requires |v| == |f| && 0 <= lo && lo + w <= |f| && |xs| <= w
    requires EvenlySpread(v, f, lo, w, lo + w, xs)
    requires 1 <= g && 0 <= b && b + g <= w && w == p * g && |xs| <= (g - 1) * p
    ensures Count(f, lo + b, lo + b + g) < g
  {
    var m := |xs|;
    assert Count(f, lo, lo + w) == m;
    CountSplit(f, lo, lo + b, lo + w);
    CountSplit(f, lo + b, lo + b + g, lo + w);
    if m > 0 {
      var ib := FirstSpacedAtLeast(b, w, m);
      var ie := FirstSpacedAtLeast(b + g, w, m);
      SpacedCountAtLeast(v, f, lo, w, xs, 0, ib, 0, b);
      SpacedCountAtLeast(v, f, lo, w, xs, ie, m, b + g, w);
      FewerThanBlock(ib, ie, b, g, w, m, p);
    }
  }

  /** The spread indices that land in a block of g slots, from the first
      at offset b or later to the first at offset b + g or later, number
      fewer than g when the m values average at most g - 1 per block. */
  lemma FewerThanBlock(ib: int, ie: int, b: int, g: int, w: int, m: int, p: int)
    requires w > 0 && g >= 1 && w == p * g && m <= (g - 1) * p
    requires b * m <= ib * w && ie * w < (b + g) * m + w
    ensures ie - ib < g
  {
    if ie - ib >= g {
      MulMonotone(g, ie - ib, w);
      assert (ie - ib) * w == ie * w - ib * w;
      assert (b + g) * m == b * m + g * m;
      assert (g - 1) * p == p * g - p;
      MulMonotone(p, w - m, g);
      assert false;
    }
  }

  /** A window of 2^k >= 2 chunks of g > lgn slots that is under the
      threshold of level k holds at most g - 1 values per chunk on
      average. */
  lemma LimitLeavesRoom(m: int, k: nat, g: int, lgn: int)
    requires 1 <= k && 1 <= lgn < g && 0 <= m
    requires 2 * lgn * m < (Pow2(k) * g) * (2 * lgn - k)
    ensures m <= (g - 1) * Pow2(k)
  {
    var p := Pow2(k);
    var w := p * g;
    var q := (g - 1) * p;
    assert q == w - p;
    WideChunksDense(k, g, lgn);
    assert w * (2 * lgn - k) == w * (2 * lgn) - k * w;
    DenseBelowLimit(m, 2 * lgn, w, p, k * w, q);
  }

  /** The linear core of LimitLeavesRoom, over its products: L m < w L - kw
      and L (p - 1) <= kw give m <= w - p. */
  lemma DenseBelowLimit(m: int, L: int, w: int, p: int, kw: int, q: int)
    requires L * m < w * L - kw && L * (p - 1) <= kw && 0 <= L && q == w - p
    ensures m <= q
  {
    if m > q {
      MulMonotone(q + 1, m, L);
    }
  }

  /** The window of 2^k chunks of g > lgn slots is dense enough at level
      k >= 1: 2 lgn (2^k - 1) <= k 2^k g. */
  lemma WideChunksDense(k: nat, g: int, lgn: int)
    requires 1 <= k && 1 <= lgn < g
    ensures 2 * lgn * (Pow2(k) - 1) <= k * (Pow2(k) * g)
  {
    var p := Pow2(k);
    if k >= 2 {
      Pow2Monotone(2, k);
      MulMonotone(2, k, p);
    }
    assert k * p >= 2 * p - 2;
    MulMonotone(2 * p - 2, k * p, g);
    MulMonotone(lgn, g, 2 * p - 2);
    assert k * (p * g) == (k * p) * g;
    assert 2 * lgn * (p - 1) == lgn * (2 * p - 2);
  }

  /** At most half of p blocks of g >= 2 slots filled leaves at most g - 1
      values per block on average. */
  lemma HalfLeavesRoom(m: int, p: int, g: int)
    requires 0 <= 2 * m <= p * g && 2 <= g && 0 <= p
    ensures m <= (g - 1) * p
  {
    MulMonotone(2, g, p);
    assert (g - 1) * p == g * p - p;
  }

  /** A merge target for v found after the chunks [a, a + p) were respread,
      in a store that stayed sorted with its occupied chunks a suffix, lies
      among those chunks when the merge target before the respread did. */
  lemma TargetInWindow(v0: seq<int>, f0: seq<bool>, v2: seq<int>, f2: seq<bool>, g: int, n: int, a: int, p: int, l0: int, l2: int, v: int)
    returns (m2: int)
    requires |v0| == |f0| == |v2| == |f2| && g >= 1 && |f0| == n * g && 0 <= a && 1 <= p && a + p <= n
    requires 0 <= a * g && a * g + p * g <= |f0|
    requires MergeTarget(v0, f0, g, n, l0, v) && a <= l0 / g < a + p
    requires MergeTarget(v2, f2, g, n, l2, v)
    requires Sorted(Present(v0, f0, 0, |f0|)) && SuffixOccupied(f0, g, n)
    requires Sorted(Present(v2, f2, 0, |f2|)) && SuffixOccupied(f2, g, n)
    requires Present(v2, f2, a * g, a * g + p * g) == Present(v0, f0, a * g, a * g + p * g)
    requires forall k :: 0 <= k < |f2| && !(a * g <= k < a * g + p * g) ==> f2[k] == f0[k] && v2[k] == v0[k]
    ensures m2 == l2 / g && a <= m2 < a + p && l2 == m2 * g
  {
    var _ := TargetBoundary(v2, f2, g, n, l2, v);
    m2 := l2 / g;
    TargetNotBefore(v0, f0, v2, f2, g, n, a, p, l0, l2, v);
    TargetNotAfter(v0, f0, v2, f2, g, n, a, p, l0, l2, v);
  }

  /** The new merge target is not before the respread chunks: that chunk is
      unchanged and would have held a value >= v before the old target. */
  lemma TargetNotBefore(v0: seq<int>, f0: seq<bool>, v2: seq<int>, f2: seq<bool>, g: int, n: int, a: int, p: int, l0: int, l2: int, v: int)
    requires |v0| == |f0| == |v2| == |f2| && g >= 1 && |f0| == n * g && 0 <= a && 1 <= p && a + p <= n
    requires MergeTarget(v0, f0, g, n, l0, v) && a <= l0 / g
    requires MergeTarget(v2, f2, g, n, l2, v)
    requires Sorted(Present(v0, f0, 0, |f0|)) && SuffixOccupied(f0, g, n)
    requires forall k :: 0 <= k < |f2| && !(a * g <= k < a * g + p * g) ==> f2[k] == f0[k] && v2[k] == v0[k]
    ensures a <= l2 / g
  {
    var j0 := TargetBoundary(v0, f0, g, n, l0, v);
    var j2 := TargetBoundary(v2, f2, g, n, l2, v);
    var m2 := l2 / g;
    if m2 < a {
      ChunkInside(m2, g, n);
      assert HoldsAtLeast(v2, f2, m2 * g, m2 * g + g, v);
      var k :| m2 * g <= k < m2 * g + g && f2[k] && v2[k] >= v;
      ChunksOrdered(m2, a, g);
      MulMonotone(a, j0, g);
      BelowBoundary(v0, f0, g, n, j0, v, k);
      assert false;
    }
  }

  /** The new merge target is not after the respread chunks (see
      BoundaryInWindow). */
  lemma TargetNotAfter(v0: seq<int>, f0: seq<bool>, v2: seq<int>, f2: seq<bool>, g: int, n: int, a: int, p: int, l0: int, l2: int, v: int)
    requires |v0| == |f0| == |v2| == |f2| && g >= 1 && |f0| == n * g && 0 <= a && 1 <= p && a + p <= n
    requires 0 <= a * g && a * g + p * g <= |f0|
    requires MergeTarget(v0, f0, g, n, l0, v) && l0 / g < a + p && a <= l0 / g
    requires MergeTarget(v2, f2, g, n, l2, v)
    requires Sorted(Present(v2, f2, 0, |f2|)) && SuffixOccupied(f2, g, n)
    requires Present(v2, f2, a * g, a * g + p * g) == Present(v0, f0, a * g, a * g + p * g)
    ensures l2 / g < a + p
  {
    var j0 := TargetBoundary(v0, f0, g, n, l0, v);
    var j2 := TargetBoundary(v2, f2, g, n, l2, v);
    if j0 < n {
      BoundaryInWindow(v0, f0, v2, f2, g, n, a, p, j0, j2, v);
    }
  }

  /** A chunk boundary for v after the chunks [a, a + p) were respread, in a
      store that stays sorted with its occupied chunks a suffix, is not past
      them when the boundary before was among them: otherwise none of them
      would hold a value >= v, while the chunk at the old boundary did, and
      the respread kept their values. */
  lemma BoundaryInWindow(v0: seq<int>, f0: seq<bool>, v2: seq<int>, f2: seq<bool>, g: int, n: int, a: int, p: int, j0: int, j2: int, v: int)
    requires |v0| == |f0| == |v2| == |f2| && g >= 1 && |f0| == n * g && 0 <= a && 1 <= p && a + p <= n
    requires 0 <= a * g && a * g + p * g <= |f0|
    requires ChunkBoundary(v0, f0, g, n, j0, v) && a <= j0 < a + p
    requires ChunkBoundary(v2, f2, g, n, j2, v)
    requires Sorted(Present(v2, f2, 0, |f2|)) && SuffixOccupied(f2, g, n)
    requires Present(v2, f2, a * g, a * g + p * g) == Present(v0, f0, a * g, a * g + p * g)
    ensures j2 < a + p
  {
    if j2 >= a + p {
      assert (a + p) * g == a * g + p * g;
      MulMonotone(a + p, j2, g);
      WindowBelowBoundary(v2, f2, g, n, j2, a * g, a * g + p * g, v);
      var x := ChunkListed(v0, f0, g, n, j0, a, p, v);
      assert false;
    }
  }

  /** Before a chunk boundary of a sorted store whose occupied chunks form a
      suffix, every value of a range lies below v. */
  lemma WindowBelowBoundary(vals: seq<int>, ex: seq<bool>, g: int, n: int, j: int, lo: int, hi: int, v: int)
    requires |vals| == |ex| && g >= 1 && |ex| == n * g
    requires Sorted(Present(vals, ex, 0, |ex|)) && SuffixOccupied(ex, g, n)
    requires ChunkBoundary(vals, ex, g, n, j, v) && 0 <= lo <= hi <= j * g && hi <= |ex|
    ensures forall x :: x in Present(vals, ex, lo, hi) ==> x <= v - 1
  {
    forall k | lo <= k < hi && ex[k] ensures vals[k] <= v - 1 {
      BelowBoundary(vals, ex, g, n, j, v, k);
    }
    PresentAllAtMost(vals, ex, lo, hi, v - 1);
  }

  /** A chunk among the p chunks from chunk a that holds a value >= v puts
      one in the listing of their window. */
  lemma ChunkListed(vals: seq<int>, ex: seq<bool>, g: int, n: int, j: int, a: int, p: int, v: int) returns (x: int)
    requires |vals| == |ex| && g >= 1 && |ex| == n * g && 0 <= a <= j < a + p <= n
    requires a * g + p * g <= |ex|
    requires ChunkHolds(vals, ex, g, n, j, v)
    ensures x in Present(vals, ex, a * g, a * g + p * g) && x >= v
  {
    ChunkInside(j, g, n);
    assert HoldsAtLeast(vals, ex, j * g, j * g + g, v);
    var k :| j * g <= k < j * g + g && ex[k] && vals[k] >= v;
    ChunkOffset(j, a, p, g);
    PresentAt(vals, ex, a * g, a * g + p * g, k);
    x := vals[k];
  }

  /** After the rebalance step of `insert` in a sorted store whose occupied
      chunks form a suffix, every merge target for v has a free slot: it
      lies in the spread window (TargetInWindow), and that window, under the
      threshold of a level >= 1 with chunks wider than lgn, spreads at most
      g - 1 values per chunk (LimitLeavesRoom, SpreadLeavesRoom). */
  lemma RebalanceLeavesRoom(v0: seq<int>, f0: seq<bool>, v2: seq<int>, f2: seq<bool>, i: int, g: int, n: int, nlevels: int, lgn: int,
                            level: nat, l: int, w: int, v: int)
    requires |v0| == |f0| == |v2| == |f2| && GeometryOf(|f0|, g, n, nlevels, lgn) && n * g == |f0| && 0 <= i < |f0|
    requires 1 <= level <= nlevels && lgn < g
    requires w == Pow2(level) * g && l == LeftIntervalBoundary(i, w) && l + w <= |f0|
    requires WindowInLimit(f0, i, level, g, lgn)
    requires MergeTarget(v0, f0, g, n, LeftIntervalBoundary(i, g), v)
    requires Sorted(Present(v0, f0, 0, |f0|)) && SuffixOccupied(f0, g, n)
    requires Sorted(Present(v2, f2, 0, |f2|)) && SuffixOccupied(f2, g, n)
    requires EvenlySpread(v2, f2, l, w, l + w, Present(v0, f0, l, l + w))
    requires forall k :: 0 <= k < |f2| && !(l <= k < l + w) ==> f2[k] == f0[k] && v2[k] == v0[k]
    ensures TargetsHaveRoom(v2, f2, g, n, v)
  {
    var p := Pow2(level);
    var a := WindowAligned(i, g, p);
    ChunksFit(a, p, g, n);
    var l0 := LeftIntervalBoundary(i, g);
    assert l0 == (i / g) * g;
    DivModUnique(l0, g, i / g, 0);
    var xs := Present(v0, f0, l, l + w);
    ThresholdExact(|xs|, w, level, lgn);
    LimitLeavesRoom(|xs|, level, g, lgn);
    forall l2 | MergeTarget(v2, f2, g, n, l2, v) && l2 + g <= |f2| ensures Count(f2, l2, l2 + g) < g {
      RebalancedTargetRoom(v0, f0, v2, f2, g, n, a, p, l0, l2, xs, v);
    }
  }

  /** One merge target l2 after the rebalance step: it is a chunk of the
      spread window, which got at most g - 1 of the window's values. */
  lemma RebalancedTargetRoom(v0: seq<int>, f0: seq<bool>, v2: seq<int>, f2: seq<bool>, g: int, n: int, a: int, p: int,
                             l0: int, l2: int, xs: seq<int>, v: int)
    requires |v0| == |f0| == |v2| == |f2| && g >= 1 && |f0| == n * g && 0 <= a && 1 <= p && a + p <= n
    requires 0 <= a * g && a * g + p * g <= |f0|
    requires MergeTarget(v0, f0, g, n, l0, v) && a <= l0 / g < a + p
    requires MergeTarget(v2, f2, g, n, l2, v) && l2 + g <= |f2|
    requires Sorted(Present(v0, f0, 0, |f0|)) && SuffixOccupied(f0, g, n)
    requires Sorted(Present(v2, f2, 0, |f2|)) && SuffixOccupied(f2, g, n)
    requires xs == Present(v0, f0, a * g, a * g + p * g) && |xs| <= (g - 1) * p
    requires EvenlySpread(v2, f2, a * g, p * g, a * g + p * g, xs)
    requires forall k :: 0 <= k < |f2| && !(a * g <= k < a * g + p * g) ==> f2[k] == f0[k] && v2[k] == v0[k]
    ensures Count(f2, l2, l2 + g) < g
  {
    var m2 := TargetInWindow(v0, f0, v2, f2, g, n, a, p, l0, l2, v);
    ChunkOffset(m2, a, p, g);
    SpreadLeavesRoom(v2, f2, a * g, p * g, xs, (m2 - a) * g, g, p);
  }

  /** After the resize step of `insert`, every chunk of the doubled store,
      and so every merge target for v, has a free slot: at most half of the
      slots hold a value and a chunk has at least two slots. */
  lemma ResizeLeavesRoom(vals: seq<int>, ex: seq<bool>, g: int, n: int, nlevels: int, lgn: int, xs: seq<int>, v: int)
    requires |vals| == |ex| && GeometryOf(|ex|, g, n, nlevels, lgn) && 2 * |xs| <= |ex|
    requires EvenlySpread(vals, ex, 0, |ex|, |ex|, xs)
    ensures TargetsHaveRoom(vals, ex, g, n, v)
  {
    GeometryTiles(|ex|, g, n, nlevels, lgn);
    HalfLeavesRoom(|xs|, n, g);
    forall l | MergeTarget(vals, ex, g, n, l, v) && l + g <= |ex| ensures Count(ex, l, l + g) < g {
      SpreadLeavesRoom(vals, ex, 0, |ex|, xs, l, g, n);
    }
  }

  // ---------------------------------------------------------------------
  // Iteration and the is_sorted helper.

  /** Stepping an iterator from slot i to the next occupied slot j (or the
      end) takes exactly the next value of the listing after i. */
  lemma IteratorStepVisits(vals: seq<int>, ex: seq<bool>, i: int, j: int)
    requires |vals| == |ex| && 0 <= i < j <= |ex|
    requires forall k :: i < k < j ==> !ex[k]
    requires j < |ex| ==> ex[j]
    ensures Present(vals, ex, i + 1, |ex|) == if j == |ex| then [] else [vals[j]] + Present(vals, ex, j + 1, |ex|)
  {
    PresentNone(vals, ex, i + 1, j);
    PresentSplit(vals, ex, i + 1, j, |ex|);
    assert Present(vals, ex, i + 1, |ex|) == Present(vals, ex, j, |ex|);
    if j < |ex| {
      PresentAround(vals, ex, j, j, |ex|);
      assert Present(vals, ex, j, j) == [];
    }
  }

  /** Every adjacent pair in order makes the whole sequence sorted. */
  lemma {:induction false} AdjacentSorted(xs: seq<int>)
    requires forall k :: 0 < k < |xs| ==> xs[k - 1] <= xs[k]
    ensures Sorted(xs)
    decreases |xs|
  {
    if |xs| > 1 {
      var ys := xs[..|xs| - 1];
      AdjacentSorted(ys);
      forall i, j | 0 <= i < j < |xs| ensures xs[i] <= xs[j] {
        if j < |xs| - 1 {
          assert ys[i] == xs[i] && ys[j] == xs[j];
        } else if i < |xs| - 1 {
          assert ys[i] == xs[i] && ys[|xs| - 2] == xs[|xs| - 2];
        }
      }
    }
  }

  /** `is_sorted(f, l)` over the values an iterator visits, given in order:
      it compares each value with the next. */
  method IsSorted(xs: seq<int>) returns (b: bool)
    ensures b <==> Sorted(xs)
  {
    var f := 0;
    var next := f;
    while f != |xs|
      invariant 0 <= f <= |xs| && next == f
      invariant forall k :: 0 < k <= f && k < |xs| ==> xs[k - 1] <= xs[k]
      decreases |xs| - f
    {
      next := next + 1;
      if next != |xs| && xs[f] > xs[next] {
        return false;
      }
      f := next;
    }
    AdjacentSorted(xs);
    return true;
  }

  // ---------------------------------------------------------------------
  // The array.

  class Pma {
    var impl: array<int>
    var nelems: int
    var present: array<bool>
    var chunkSize: int
    var nchunks: int
    var nlevels: int
    var lgn: int

    /** The fields `init_vars` derives from the store size. */
    ghost predicate Geometry()
      reads this`impl, this`chunkSize, this`nchunks, this`nlevels, this`lgn
    {
      GeometryOf(impl.Length, chunkSize, nchunks, nlevels, lgn)
    }

    /** Two stores of equal size, the geometry of that size, and `nelems`
        counting the occupied slots. */
    ghost predicate Valid()
      reads this, impl, present
    {
      && impl.Length == present.Length
      && Geometry()
      && nelems == Count(present[..], 0, present.Length)
    }

    /** The values of the occupied slots, left to right. */
    ghost function Elements(): (xs: seq<int>)
      reads this`impl, this`present, impl, present
      requires impl.Length == present.Length
      ensures |xs| == Count(present[..], 0, present.Length)
    {
      Present(impl[..], present[..], 0, impl.Length)
    }

    /** What `insert` keeps on top of Valid: the values are sorted and the
        occupied chunks form a suffix of the store, so that the chunk search
        finds the chunk a value belongs in; and each chunk has more slots
        than lgn, as `init_vars` sizes them. */
    ghost predicate Ordered()
      reads this`impl, this`present, this`chunkSize, this`nchunks, this`nlevels, this`lgn, impl, present
      requires impl.Length == present.Length && Geometry()
    {
      GeometryTiles(impl.Length, chunkSize, nchunks, nlevels, lgn);
      Sorted(Elements()) && SuffixOccupied(present[..], chunkSize, nchunks) && lgn < chunkSize
    }

    /** `PMA(capacity)`: an empty store of `capacity` slots. */
    constructor(capacity: int)
      requires capacity > 1 && IsPow2(capacity)
      ensures Valid() && fresh(impl) && fresh(present)
      ensures impl.Length == capacity && nelems == 0 && Elements() == []
      ensures chunkSize == ChunkSizeFor(capacity) && nchunks == capacity / chunkSize
      ensures nlevels == Log2(nchunks) && lgn == Log2(capacity)
      ensures Ordered()
    {
      nelems := 0;
      impl := new int[capacity](_ => 0);
      present := new bool[capacity](_ => false);
      new;
      InitVars(capacity);
      InitVarsGeometry(capacity, chunkSize, nchunks, nlevels, lgn);
      CountNone(present[..], 0, capacity);
      EmptySuffix(present[..], chunkSize, nchunks);
    }

    /** `init_vars(capacity)`. */
    method InitVars(capacity: int)
      modifies this
      ensures chunkSize == ChunkSizeFor(capacity) && nchunks == capacity / chunkSize
      ensures nlevels == Log2(nchunks) && lgn == Log2(capacity)
      ensures impl == old(impl) && present == old(present) && nelems == old(nelems)
    {
      var lc := FloorLog2(capacity);
      var e := FloorLog2(lc * 2);
      chunkSize := Pow2(e);
      nchunks := capacity / chunkSize;
      nlevels := FloorLog2(nchunks);
      lgn := FloorLog2(capacity);
    }

    /** `get_interval_stats(left, level)`: the occupancy of the window of
        2^level chunks at `left`, and whether its density is under the
        threshold of that level. */
    method GetIntervalStats(left: int, level: nat) returns (inLimit: bool, sz: int)
      requires impl.Length == present.Length && lgn > 0 && chunkSize > 0 && 0 <= left && left + Pow2(level) * chunkSize <= impl.Length
      ensures sz == Count(present[..], left, left + Pow2(level) * chunkSize)
      ensures inLimit == InLimit(sz, Pow2(level) * chunkSize, level, lgn)
    {
      var t := UpperThreshold(level, lgn);
      var w := Pow2(level) * chunkSize;
      MulMonotone(1, Pow2(level), chunkSize);
      sz := 0;
      for i := left to left + w
        invariant sz == Count(present[..], left, i)
      {
        sz := sz + if present[i] then 1 else 0;
      }
      var q := sz as real / w as real;
      inLimit := q < t;
      assert inLimit == InLimit(sz, w, level, lgn);
    }

    /** `lb_in_chunk(l, v)`: the first occupied slot of the chunk at l whose
        value is not below v, or the end of the chunk. */
    method LbInChunk(l: int, v: int) returns (i: int)
      requires impl.Length == present.Length && chunkSize > 0 && 0 <= l && l + chunkSize <= impl.Length
      ensures l <= i <= l + chunkSize
      ensures i < l + chunkSize ==> present[i] && impl[i] >= v
      ensures forall k :: l <= k < i && present[k] ==> impl[k] < v
    {
      i := l;
      while i < l + chunkSize
        invariant l <= i <= l + chunkSize
        invariant forall k :: l <= k < i && present[k] ==> impl[k] < v
      {
        if present[i] {
          if impl[i] >= v {
            return i;
          }
        }
        i := i + 1;
      }
    }

    /** `lower_bound(v)`: the end of the store when it is empty, otherwise
        the start of the chunk where the binary search over chunks stops. */
    method LowerBound(v: int) returns (i: int)
      requires Valid()
      ensures impl[..] == old(impl[..]) && present[..] == old(present[..])
      ensures 0 <= i <= impl.Length && i % chunkSize == 0
      ensures nelems == 0 ==> i == impl.Length
      ensures nchunks * chunkSize == impl.Length
      ensures nelems != 0 ==> ChunkBoundary(impl[..], present[..], chunkSize, nchunks, i / chunkSize, v)
    {
      GeometryTiles(impl.Length, chunkSize, nchunks, nlevels, lgn);
      if nelems == 0 {
        i := impl.Length;
        DivModUnique(i, chunkSize, nchunks, 0);
      } else {
        var l := ChunkSearch(v);
        i := l * chunkSize;
        MulMonotone(l, nchunks, chunkSize);
        MulMonotone(0, l, chunkSize);
        DivModUnique(i, chunkSize, l, 0);
      }
    }

    /** The binary search over chunks of `lower_bound(v)`: each probe asks
        `lb_in_chunk` whether the chunk holds a value >= v. */
    method ChunkSearch(v: int) returns (l: int)
      requires Valid()
      ensures nchunks * chunkSize == impl.Length
      ensures ChunkBoundary(impl[..], present[..], chunkSize, nchunks, l, v)
    {
      GeometryTiles(impl.Length, chunkSize, nchunks, nlevels, lgn);
      ghost var vals, ex := impl[..], present[..];
      var r;
      l, r := 0, nchunks;
      while l != r
        invariant 0 <= l <= r <= nchunks
        invariant l == 0 || !ChunkHolds(vals, ex, chunkSize, nchunks, l - 1, v)
        invariant r == nchunks || ChunkHolds(vals, ex, chunkSize, nchunks, r, v)
        decreases r - l
      {
        var m := l + (r - l) / 2;
        ChunkInside(m, chunkSize, nchunks);
        var left := LeftIntervalBoundary(m * chunkSize, chunkSize);
        DivModUnique(m * chunkSize, chunkSize, m, 0);
        var pos := LbInChunk(left, v);
        if pos == left + chunkSize {
          l := m + 1;
        } else {
          r := m;
        }
      }
    }

    /** The collecting loop of `insert_merge` and `rebalance_interval`: it
        lists the window's values, left to right, and clears its flags. */
    method TakeWindow(left: int, w: int) returns (tmp: seq<int>)
      requires impl.Length == present.Length && 0 <= left && 0 <= w && left + w <= present.Length
      modifies present
      ensures tmp == Present(impl[..], old(present[..]), left, left + w)
      ensures present[..] == Cleared(old(present[..]), left, left + w)
    {
      ghost var f0 := present[..];
      tmp := [];
      ClearedNothing(f0, left);
      for i := left to left + w
        invariant tmp == Present(impl[..], f0, left, i)
        invariant present[..] == Cleared(f0, left, i)
      {
        ClearedGrow(f0, left, i);
        if present[i] {
          present[i] := false;
          tmp := tmp + [impl[i]];
        }
      }
    }

    /** `insert_merge(l, v)`: merge v into the chunk at l, which has a free
        slot, and pack the chunk at its left end. */
    method InsertMerge(l: int, v: int)
      requires Valid() && 0 <= l && l + chunkSize <= impl.Length
      requires Count(present[..], l, l + chunkSize) < chunkSize
      modifies this`nelems, impl, present
      ensures Valid() && impl == old(impl) && present == old(present)
      ensures chunkSize == old(chunkSize) && nchunks == old(nchunks) && nlevels == old(nlevels) && lgn == old(lgn)
      ensures nelems == old(nelems) + 1
      ensures ChunkMerged(old(impl[..]), old(present[..]), impl[..], present[..], l, l + chunkSize, v)
      ensures multiset(Elements()) == old(multiset(Elements())) + multiset{v}
      ensures old(Ordered() && MergeTarget(impl[..], present[..], chunkSize, nchunks, l, v)) ==> Ordered()
    {
      MergeIntoChunk(l, l + chunkSize, v);
      MergeKeepsOrdered((l, v));
    }

    /** The ordering half of `insert_merge`, for the merge of site.1 into
        the chunk at slot site.0: merging a value into its merge target keeps
        a sorted store whose occupied chunks form a suffix so. (The slot and
        the value travel as one pair.) */
    twostate lemma MergeKeepsOrdered(site: (int, int))
      requires old(Valid()) && Valid() && old(impl) == impl && old(present) == present
      requires old(chunkSize) == chunkSize && old(nchunks) == nchunks && old(nlevels) == nlevels && old(lgn) == lgn
      requires 0 <= site.0 && site.0 + chunkSize <= impl.Length
      requires ChunkMerged(old(impl[..]), old(present[..]), impl[..], present[..], site.0, site.0 + chunkSize, site.1)
      ensures old(Ordered() && MergeTarget(impl[..], present[..], chunkSize, nchunks, site.0, site.1)) ==> Ordered()
    {
      var (l, v) := site;
      GeometryTiles(impl.Length, chunkSize, nchunks, nlevels, lgn);
      var v0, f0 := old(impl[..]), old(present[..]);
      if old(Ordered()) && MergeTarget(v0, f0, chunkSize, nchunks, l, v) {
        assert Sorted(Present(v0, f0, 0, |f0|)) && SuffixOccupied(f0, chunkSize, nchunks);
        MergeIntoKeepsOrder(v0, f0, impl[..], present[..], chunkSize, nchunks, l, v);
      }
    }

    /** The collecting, merging and writing loops of `insert_merge`, on the
        chunk [l, hi) alone. */
    method MergeIntoChunk(l: int, hi: int, v: int)
      requires impl.Length == present.Length && 0 <= l <= hi <= impl.Length
      requires Count(present[..], l, hi) < hi - l
      modifies this`nelems, impl, present
      ensures nelems == old(nelems) + 1
      ensures ChunkMerged(old(impl[..]), old(present[..]), impl[..], present[..], l, hi, v)
      ensures multiset(Elements()) == old(multiset(Elements())) + multiset{v}
      ensures Count(present[..], 0, present.Length) == old(Count(present[..], 0, present.Length)) + 1
      ensures Sorted(old(Present(impl[..], present[..], l, hi))) ==> Sorted(Present(impl[..], present[..], l, hi))
    {
      ghost var v0, f0 := impl[..], present[..];
      ghost var ws := Present(v0, f0, l, hi);
      var tmp := TakeWindow(l, hi - l);
      ghost var f1 := present[..];
      forall k | l <= k < hi ensures !f1[k] { ClearedAt(f0, l, hi, k); }
      var p := LowerBoundIndex(tmp, v);
      tmp := tmp[..p] + [v] + tmp[p..];
      InsertAtLowerBoundKeeps(ws, v);
      WritePacked(l, hi, tmp);
      MergeWritten(v0, f0, f1, impl[..], present[..], l, hi, ws, tmp, v);
      nelems := nelems + 1;
    }

    /** The writing loop of `insert_merge`: tmp goes to the first |tmp|
        slots of the free chunk [l, hi). */
    method WritePacked(l: int, hi: int, tmp: seq<int>)
      requires impl.Length == present.Length && 0 <= l && l + |tmp| <= hi <= impl.Length
      requires forall k :: l <= k < hi ==> !present[k]
      modifies impl, present
      ensures Present(impl[..], present[..], l, hi) == tmp
      ensures forall k :: l <= k < hi ==> (present[k] <==> k - l < |tmp|)
      ensures forall k :: 0 <= k < present.Length && !(l <= k < hi) ==> present[k] == old(present[k]) && impl[k] == old(impl[k])
    {
      for i := 0 to |tmp|
        invariant forall k :: 0 <= k < present.Length ==> present[k] == (if l <= k < l + i then true else old(present[k]))
        invariant forall k :: 0 <= k < impl.Length ==> impl[k] == (if l <= k < l + i then tmp[k - l] else old(impl[k]))
      {
        present[l + i] := true;
        impl[l + i] := tmp[i];
      }
      PresentPackedAt(impl[..], present[..], l, hi, tmp);
    }

    /** `rebalance_interval(left, level)`: spread the values of the window
        of 2^level chunks at `left` evenly over it. */
    method RebalanceInterval(left: int, level: nat)
      requires Valid() && 0 <= left && left + Pow2(level) * chunkSize <= impl.Length
      modifies impl, present
      ensures Valid()
      ensures Present(impl[..], present[..], left, left + Pow2(level) * chunkSize) == old(Present(impl[..], present[..], left, left + Pow2(level) * chunkSize))
      ensures EvenlySpread(impl[..], present[..], left, Pow2(level) * chunkSize, left + Pow2(level) * chunkSize, old(Present(impl[..], present[..], left, left + Pow2(level) * chunkSize)))
      ensures forall k :: 0 <= k < present.Length && !(left <= k < left + Pow2(level) * chunkSize) ==> present[k] == old(present[k]) && impl[k] == old(impl[k])
      ensures Elements() == old(Elements())
    {
      var w := Pow2(level) * chunkSize;
      MulMonotone(0, Pow2(level), chunkSize);
      RefillWindow(left, w, left + w);
    }

    /** The window [left, hi) of w slots emptied into tmp and its values
        placed back evenly. */
    method RefillWindow(left: int, w: int, hi: int)
      requires Valid() && 0 <= left && 0 <= w && hi == left + w && hi <= impl.Length
      modifies impl, present
      ensures Valid()
      ensures Present(impl[..], present[..], left, hi) == old(Present(impl[..], present[..], left, hi))
      ensures EvenlySpread(impl[..], present[..], left, w, hi, old(Present(impl[..], present[..], left, hi)))
      ensures forall k :: 0 <= k < present.Length && !(left <= k < hi) ==> present[k] == old(present[k]) && impl[k] == old(impl[k])
      ensures Elements() == old(Elements())
    {
      ghost var v0, f0 := impl[..], present[..];
      var tmp := TakeWindow(left, w);
      assert tmp == Present(v0, f0, left, hi);
      ghost var f1 := present[..];
      forall k | left <= k < hi ensures !f1[k] { ClearedAt(f0, left, hi, k); }
      SpreadWindow(left, w, hi, tmp);
      ghost var v2, f2 := impl[..], present[..];
      WindowSpread(v0, f0, f1, v2, f2, left, w, hi, tmp);
    }

    /** The placing loop of `rebalance_interval`: the i-th value of tmp goes
        to slot left + floor(i * w / |tmp|) of the free window [left, hi). */
    method SpreadWindow(left: int, w: int, hi: int, tmp: seq<int>)
      requires impl.Length == present.Length && 0 <= left && hi == left + w && hi <= impl.Length && |tmp| <= w
      requires forall k :: left <= k < hi ==> !present[k]
      modifies impl, present
      ensures EvenlySpread(impl[..], present[..], left, w, hi, tmp)
      ensures forall k :: 0 <= k < present.Length && !(left <= k < hi) ==> present[k] == old(present[k]) && impl[k] == old(impl[k])
    {
      PlacingStart(impl[..], present[..], left, w, hi, tmp);
      for i := 0 to |tmp|
        invariant Placing(impl[..], present[..], left, w, hi, tmp, i)
        invariant forall k :: 0 <= k < present.Length && !(left <= k < hi) ==> present[k] == old(present[k]) && impl[k] == old(impl[k])
      {
        var k := i * w / |tmp| + left;
        PlacingStep(impl[..], present[..], left, w, hi, tmp, i, k);
        present[k] := true;
        impl[k] := tmp[i];
      }
    }

    /** The copy loop of `resize(capacity)`: the values, in order, placed in
        fresh arrays of `capacity` slots, the ctr-th at
        floor(ctr * capacity / nelems). */
    method SpreadInto(capacity: int) returns (tmpi: array<int>, tmpp: array<bool>)
      requires Valid() && capacity > impl.Length
      ensures fresh(tmpi) && fresh(tmpp) && tmpi.Length == tmpp.Length == capacity
      ensures Placing(tmpi[..], tmpp[..], 0, capacity, capacity, Elements(), nelems)
    {
      tmpi := new int[capacity](_ => 0);
      tmpp := new bool[capacity](_ => false);
      ghost var xs := Elements();
      var ctr := 0;
      PlacingStart(tmpi[..], tmpp[..], 0, capacity, capacity, xs);
      for i := 0 to impl.Length
        invariant ctr == Count(present[..], 0, i) && ctr <= |xs|
        invariant Placing(tmpi[..], tmpp[..], 0, capacity, capacity, xs, ctr)
      {
        if present[i] {
          PresentAt(impl[..], present[..], 0, impl.Length, i);
          var idx := ctr * capacity / nelems;
          PlacingStep(tmpi[..], tmpp[..], 0, capacity, capacity, xs, ctr, idx);
          ctr := ctr + 1;
          tmpp[idx] := true;
          tmpi[idx] := impl[i];
        }
      }
    }

    /** `resize(capacity)`: move the values, in order, to a store of
        `capacity` slots, the ctr-th at floor(ctr * capacity / nelems), and
        recompute the geometry. */
    method Resize(capacity: int)
      requires Valid() && capacity > impl.Length && IsPow2(capacity)
      modifies this
      ensures Valid() && fresh(impl) && fresh(present) && impl.Length == capacity
      ensures chunkSize == ChunkSizeFor(capacity) && nchunks == capacity / chunkSize
      ensures nlevels == Log2(nchunks) && lgn == Log2(capacity) && lgn < chunkSize
      ensures nelems == old(nelems) && Elements() == old(Elements())
      ensures EvenlySpread(impl[..], present[..], 0, capacity, capacity, old(Elements()))
    {
      var tmpi, tmpp := SpreadInto(capacity);
      impl, tmpi := tmpi, impl;
      present, tmpp := tmpp, present;
      InitVars(capacity);
      InitVarsGeometry(capacity, chunkSize, nchunks, nlevels, lgn);
    }

    /** `insert(v)`, with its restarts bounded by `fuel`: merge v into its
        chunk when the chunk has room; otherwise escalate to the smallest
        enclosing window under its threshold, rebalance it and restart, or
        double the store when no window is and restart. `done` is false
        only when the fuel ran out; on an ordered store two rounds always
        suffice, since the chunk a restart merges into has a free slot. */
    method Insert(v: int, fuel: nat) returns (done: bool)
      requires Valid()
      modifies this, impl, present
      ensures Valid() && impl.Length >= old(impl.Length)
      ensures done ==> nelems == old(nelems) + 1 && multiset(Elements()) == old(multiset(Elements())) + multiset{v}
      ensures !done ==> nelems == old(nelems) && Elements() == old(Elements())
      ensures old(Ordered()) ==> Ordered()
      ensures fuel >= 1 && old(TargetsHaveRoom(impl[..], present[..], chunkSize, nchunks, v)) ==> done
      ensures fuel >= 2 && old(Ordered()) ==> done
      decreases fuel
    {
      if fuel == 0 {
        return false;
      }
      var i, l, sz := FindChunk(v);
      if sz < chunkSize {
        InsertMerge(l, v);
        done := true;
      } else {
        FullTarget(impl[..], present[..], chunkSize, nchunks, l, v);
        var _, _ := MakeRoom(i, v);
        done := Insert(v, fuel - 1);
      }
    }

    /** The search of `insert`: lower_bound's slot, moved back by one when
        it is the end of the store, and the chunk around it, which is the
        merge target of v, with the fill ChunkFill reports for it. */
    method FindChunk(v: int) returns (i: int, l: int, sz: int)
      requires Valid()
      ensures 0 <= i < impl.Length && l == LeftIntervalBoundary(i, chunkSize) && l + chunkSize <= impl.Length
      ensures MergeTarget(impl[..], present[..], chunkSize, nchunks, l, v)
      ensures sz < chunkSize <==> Count(present[..], l, l + chunkSize) < chunkSize
    {
      i := LowerBound(v);
      ghost var i0 := i;
      if i == impl.Length {
        i := i - 1;
      }
      l, sz := ChunkFill(i);
      PickedMergeTarget(impl[..], present[..], chunkSize, nchunks, i0, l, v);
    }

    /** The quick test of `insert`: the chunk around slot i, and a fill sz
        that is below the chunk size exactly when the chunk has a free slot.
        The chunk is counted only when its last slot is occupied; when that
        slot is free the chunk has room whatever else it holds, and sz stays
        at chunkSize - 1. */
    method ChunkFill(i: int) returns (l: int, sz: int)
      requires Valid() && 0 <= i < impl.Length
      ensures impl[..] == old(impl[..]) && present[..] == old(present[..])
      ensures l == LeftIntervalBoundary(i, chunkSize) && 0 <= l && l + chunkSize <= impl.Length
      ensures sz < chunkSize <==> Count(present[..], l, l + chunkSize) < chunkSize
    {
      var w := chunkSize;
      var level := 0;
      WindowFits(i, chunkSize, 0, nlevels, lgn, impl.Length);
      l := LeftIntervalBoundary(i, w);
      sz := w - 1;
      var inLimit := false;
      if present[l + chunkSize - 1] {
        inLimit, sz := GetIntervalStats(l, level);
      } else {
        CountAround(present[..], l, l + chunkSize - 1, l + chunkSize);
      }
    }

    /** The full-chunk branch of `insert`: rebalance the first window above
        the chunk around slot i that is under its threshold, or double the
        store when none is. It returns the level it reached, nlevels + 1 when
        the store was doubled, and the start of the window it spread. On
        an ordered store the merge target of v, the full chunk, moves to a
        chunk with a free slot. */
    method MakeRoom(i: int, ghost v: int) returns (l: int, level: nat)
      requires Valid() && 0 <= i < impl.Length
      requires LeftIntervalBoundary(i, chunkSize) + chunkSize <= impl.Length
      requires Count(present[..], LeftIntervalBoundary(i, chunkSize), LeftIntervalBoundary(i, chunkSize) + chunkSize) == chunkSize
      requires MergeTarget(impl[..], present[..], chunkSize, nchunks, LeftIntervalBoundary(i, chunkSize), v)
      modifies this, impl, present
      ensures Valid() && nelems == old(nelems) && Elements() == old(Elements())
      ensures old(Ordered()) ==> Ordered()
      ensures old(Ordered()) ==> TargetsHaveRoom(impl[..], present[..], chunkSize, nchunks, v)
      ensures 1 <= level <= old(nlevels) + 1
      ensures forall lev: nat :: 1 <= lev < level ==> !WindowInLimit(old(present[..]), i, lev, old(chunkSize), old(lgn))
      ensures impl.Length == 2 * old(impl.Length) <==> forall lev: nat :: 1 <= lev <= old(nlevels) ==> !WindowInLimit(old(present[..]), i, lev, old(chunkSize), old(lgn))
      ensures level <= old(nlevels) ==> WindowInLimit(old(present[..]), i, level, old(chunkSize), old(lgn))
      ensures level <= old(nlevels) ==>
        && impl == old(impl) && present == old(present)
        && chunkSize == old(chunkSize) && nchunks == old(nchunks) && nlevels == old(nlevels) && lgn == old(lgn)
        && l == LeftIntervalBoundary(i, Pow2(level) * chunkSize) && 0 <= l && l + Pow2(level) * chunkSize <= impl.Length
        && EvenlySpread(impl[..], present[..], l, Pow2(level) * chunkSize, l + Pow2(level) * chunkSize,
                        old(Present(impl[..], present[..], l, l + Pow2(level) * chunkSize)))
        && forall k :: 0 <= k < present.Length && !(l <= k < l + Pow2(level) * chunkSize) ==> present[k] == old(present[k]) && impl[k] == old(impl[k])
      ensures level > old(nlevels) ==>
        && fresh(impl) && fresh(present) && impl.Length == 2 * old(impl.Length)
        && chunkSize == ChunkSizeFor(impl.Length) && nchunks == impl.Length / chunkSize
        && nlevels == Log2(nchunks) && lgn == Log2(impl.Length)
        && EvenlySpread(impl[..], present[..], 0, impl.Length, impl.Length, old(Elements()))
    {
      l, level := EscalateWindow(i);
      if level > nlevels {
        DoubleStore(i, v);
      } else {
        RebalanceAround(i, l, level, v);
      }
    }

    /** The doubling branch of `insert`: the chunk around slot i is full and
        no window of levels 1 to nlevels around it is within its threshold,
        so the store doubles through `resize`. */
    method DoubleStore(i: int, ghost v: int)
      requires Valid() && 0 <= i < impl.Length
      requires LeftIntervalBoundary(i, chunkSize) + chunkSize <= impl.Length
      requires Count(present[..], LeftIntervalBoundary(i, chunkSize), LeftIntervalBoundary(i, chunkSize) + chunkSize) == chunkSize
      requires forall lev: nat :: 1 <= lev < nlevels + 1 ==> !WindowInLimit(present[..], i, lev, chunkSize, lgn)
      modifies this
      ensures Valid() && fresh(impl) && fresh(present) && impl.Length == 2 * old(impl.Length)
      ensures chunkSize == ChunkSizeFor(impl.Length) && nchunks == impl.Length / chunkSize
      ensures nlevels == Log2(nchunks) && lgn == Log2(impl.Length)
      ensures nelems == old(nelems) && Elements() == old(Elements())
      ensures EvenlySpread(impl[..], present[..], 0, impl.Length, impl.Length, old(Elements()))
      ensures old(Ordered()) ==> Ordered()
      ensures TargetsHaveRoom(impl[..], present[..], chunkSize, nchunks, v)
    {
      ghost var f0, g, n, nl, lg := present[..], chunkSize, nchunks, nlevels, lgn;
      ghost var xs := Elements();
      assert IsPow2(2 * impl.Length) by { Log2OfPow2(lgn + 1); }
      Resize(2 * impl.Length);
      assert SuffixOccupied(present[..], chunkSize, nchunks) && TargetsHaveRoom(impl[..], present[..], chunkSize, nchunks, v) by {
        ResizeStep(f0, i, g, n, nl, lg, impl[..], present[..], chunkSize, nchunks, nlevels, lgn, xs, v);
      }
    }

    /** The rebalancing branch of `insert`: spread the window of 2^level
        chunks at l, the first window around the full chunk of slot i that
        is within its threshold, evenly over its slots. */
    method RebalanceAround(i: int, l: int, level: nat, ghost v: int)
      requires Valid() && 0 <= i < impl.Length && 1 <= level <= nlevels
      requires LeftIntervalBoundary(i, chunkSize) + chunkSize <= impl.Length
      requires Count(present[..], LeftIntervalBoundary(i, chunkSize), LeftIntervalBoundary(i, chunkSize) + chunkSize) == chunkSize
      requires forall lev: nat :: 1 <= lev < level ==> !WindowInLimit(present[..], i, lev, chunkSize, lgn)
      requires WindowInLimit(present[..], i, level, chunkSize, lgn)
      requires MergeTarget(impl[..], present[..], chunkSize, nchunks, LeftIntervalBoundary(i, chunkSize), v)
      requires l == LeftIntervalBoundary(i, Pow2(level) * chunkSize) && l + Pow2(level) * chunkSize <= impl.Length
      modifies impl, present
      ensures Valid() && Elements() == old(Elements())
      ensures EvenlySpread(impl[..], present[..], l, Pow2(level) * chunkSize, l + Pow2(level) * chunkSize,
                           old(Present(impl[..], present[..], l, l + Pow2(level) * chunkSize)))
      ensures forall k :: 0 <= k < present.Length && !(l <= k < l + Pow2(level) * chunkSize) ==> present[k] == old(present[k]) && impl[k] == old(impl[k])
      ensures old(Ordered()) ==> Ordered()
      ensures old(Ordered()) ==> TargetsHaveRoom(impl[..], present[..], chunkSize, nchunks, v)
    {
      ghost var v0, f0 := impl[..], present[..];
      ghost var wasOrdered := Ordered();
      ghost var w := Pow2(level) * chunkSize;
      ghost var xs := Present(v0, f0, l, l + w);
      if wasOrdered {
        GeometryTiles(impl.Length, chunkSize, nchunks, nlevels, lgn);
        RebalanceStep(v0, f0, i, chunkSize, nchunks, nlevels, lgn, level, l, w, l + w, xs, v);
      }
      RebalanceInterval(l, level);
      if wasOrdered {
        ghost var v2, f2 := impl[..], present[..];
        assert forall k :: 0 <= k < |f2| && !(l <= k < l + w) ==> f2[k] == f0[k] && v2[k] == v0[k];
        assert Present(v2, f2, 0, |f2|) == Present(v0, f0, 0, |f0|);
        assert EvenlySpread(v2, f2, l, w, l + w, xs);
      }
    }

    /** The escalation loop of `insert`: the first level above the chunk
        around slot i whose window is within its threshold, with that
        window's start, or nlevels + 1 when no level is. */
    method EscalateWindow(i: int) returns (l: int, level: nat)
      requires Valid() && 0 <= i < impl.Length
      ensures impl[..] == old(impl[..]) && present[..] == old(present[..])
      ensures 1 <= level <= nlevels + 1
      ensures forall lev: nat :: 1 <= lev < level ==> !WindowInLimit(present[..], i, lev, chunkSize, lgn)
      ensures level <= nlevels ==> WindowInLimit(present[..], i, level, chunkSize, lgn)
      ensures level <= nlevels ==> l == LeftIntervalBoundary(i, Pow2(level) * chunkSize) && l + Pow2(level) * chunkSize <= impl.Length
    {
      var w := chunkSize;
      level := 0;
      l := 0;
      while true
        invariant level <= nlevels && w == Pow2(level) * chunkSize
        invariant forall lev: nat :: 1 <= lev <= level ==> !WindowInLimit(present[..], i, lev, chunkSize, lgn)
        decreases nlevels - level
      {
        DoubleWindow(Pow2(level), chunkSize);
        w := w * 2;
        level := level + 1;
        if level > nlevels {
          return;
        }
        WindowFits(i, chunkSize, level, nlevels, lgn, impl.Length);
        l := LeftIntervalBoundary(i, w);
        var inLimit, sz := GetIntervalStats(l, level);
        assert WindowInLimit(present[..], i, level, chunkSize, lgn) == inLimit;
        if inLimit {
          return;
        }
      }
    }

    /** `size()`: the number of stored values. */
    method Size() returns (n: int)
      requires Valid()
      ensures n == |Elements()|
    {
      n := nelems;
    }
  }

  /** `PMAIterator`: a position in a store. */
  class PmaIterator {
    var pma: Pma
    var i: int

    constructor(p: Pma, start: int)
      ensures pma == p && i == start
    {
      pma := p;
      i := start;
    }

    /** `operator++`: step past the current slot to the next occupied one,
        or to the end. */
    method Next()
      requires pma.impl.Length == pma.present.Length && 0 <= i
      modifies this
      ensures pma == old(pma) && old(i) <= i
      ensures old(i) < pma.impl.Length ==> old(i) < i <= pma.impl.Length
      ensures old(i) < pma.impl.Length ==> forall k :: old(i) < k < i ==> !pma.present[k]
      ensures i < pma.impl.Length ==> pma.present[i]
      ensures old(i) >= pma.impl.Length ==> i == old(i)
    {
      if i < pma.impl.Length {
        i := i + 1;
      }
      while i < pma.impl.Length && !pma.present[i]
        invariant pma == old(pma) && old(i) <= i
        invariant old(i) < i <= pma.impl.Length || i == old(i) >= pma.impl.Length
        invariant forall k :: old(i) < k < i ==> !pma.present[k]
        decreases pma.impl.Length - i
      {
        i := i + 1;
      }
    }
  }
}
