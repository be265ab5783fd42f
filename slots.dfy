/** Vocabulary shared by both packed-memory-array drafts: powers of two, the
    integer logarithm, and a run of slots given as two parallel sequences
    (the stored values and the per-slot existence flags). */
module Slots {

  /** 2^k, the value of `1 << k`. */
  function Pow2(k: nat): (r: nat)
    ensures r >= 1
  {
    if k == 0 then 1 else 2 * Pow2(k - 1)
  }

  lemma {:induction false} Pow2Add(a: nat, b: nat)
    ensures Pow2(a + b) == Pow2(a) * Pow2(b)
  {
    if a > 0 {
      Pow2Add(a - 1, b);
      assert Pow2(a + b) == 2 * Pow2(a - 1 + b);
    }
  }

  lemma {:induction false} Pow2Monotone(a: nat, b: nat)
    requires a <= b
    ensures Pow2(a) <= Pow2(b)
  {
    if a < b { Pow2Monotone(a, b - 1); }
  }

  /** Integer base-2 logarithm, counting halvings while n > 1:
      floor(log2 n) for n >= 1, and 0 for n <= 1. */
  function Log2(n: int): (r: nat)
    ensures n >= 1 ==> Pow2(r) <= n < 2 * Pow2(r)
    ensures n <= 1 ==> r == 0
  {
    if n > 1 then 1 + Log2(n / 2) else 0
  }

  lemma {:induction false} Log2OfPow2(k: nat)
    ensures Log2(Pow2(k)) == k
  {
    if k > 0 {
      Log2OfPow2(k - 1);
      assert Pow2(k) / 2 == Pow2(k - 1);
    }
  }

  /** `x` is a power of two (the source tests `x & (x - 1) == 0`). */
  predicate IsPow2(x: int)
  {
    x >= 1 && Pow2(Log2(x)) == x
  }

  /** `__builtin_popcount(x)`: the number of one bits of x; a positive x has
      at least one and at most as many as its floor(log2 x) + 1 bits. */
  function PopCount(x: nat): (r: nat)
    ensures r <= x
    ensures x >= 1 ==> 1 <= r <= Log2(x) + 1
  {
    if x == 0 then 0 else x % 2 + PopCount(x / 2)
  }

  /** 2^k - 1 has k one bits, so `popcount(size - 1)` is log2 of a
      power-of-two size. */
  lemma {:induction false} PopCountAllOnes(k: nat)
    ensures PopCount(Pow2(k) - 1) == k
  {
    if k > 0 {
      var x := Pow2(k) - 1;
      assert x % 2 == 1 && x / 2 == Pow2(k - 1) - 1;
      PopCountAllOnes(k - 1);
    }
  }

  /** Start of the aligned block of width `w` that holds `x`: `x - x % w`. */
  function AlignDown(x: int, w: int): int
    requires w > 0
  {
    x - x % w
  }

  // ---------------------------------------------------------------------
  // Division facts used for window geometry and even spacing.

  lemma MulMonotone(x: int, y: int, m: int)
    requires x <= y && m >= 0
    ensures x * m <= y * m
  {
    assert y * m - x * m == (y - x) * m;
  }

  /** q * m <= a implies q <= a / m. */
  lemma DivAtLeast(a: int, m: int, q: int)
    requires m > 0 && q * m <= a
    ensures q <= a / m
  {
    var d := a / m;
    assert a == d * m + a % m;
    assert (q - d) * m == q * m - d * m;
    if q > d { MulMonotone(1, q - d, m); }
  }

  /** a < (q + 1) * m implies a / m <= q. */
  lemma DivAtMost(a: int, m: int, q: int)
    requires m > 0 && a < (q + 1) * m
    ensures a / m <= q
  {
    var d := a / m;
    assert a == d * m + a % m;
    assert (d - q) * m == d * m - q * m;
    if d > q { MulMonotone(1, d - q, m); }
  }

  lemma DivMonotone(a: int, b: int, m: int)
    requires m > 0 && a <= b
    ensures a / m <= b / m
  {
    assert (a / m) * m <= a by { assert a == (a / m) * m + a % m; }
    DivAtLeast(b, m, a / m);
  }

  /** a / m + b / m <= (a + b) / m. */
  lemma DivAddLower(a: int, b: int, m: int)
    requires m > 0
    ensures a / m + b / m <= (a + b) / m
  {
    assert a == (a / m) * m + a % m;
    assert b == (b / m) * m + b % m;
    assert (a / m + b / m) * m == (a / m) * m + (b / m) * m;
    DivAtLeast(a + b, m, a / m + b / m);
  }

  /** Quotient and remainder are unique. */
  lemma DivModUnique(x: int, w: int, q: int, r: int)
    requires w > 0 && x == q * w + r && 0 <= r < w
    ensures x / w == q && x % w == r
  {
    DivAtLeast(x, w, q);
    DivAtMost(x, w, q);
  }

  lemma AlignDownBounds(x: int, w: int)
    requires x >= 0 && w > 0
    ensures 0 <= AlignDown(x, w) <= x < AlignDown(x, w) + w
    ensures AlignDown(x, w) % w == 0
    ensures AlignDown(x, w) == (x / w) * w
  {
    assert x == (x / w) * w + x % w;
    DivModUnique((x / w) * w, w, x / w, 0);
  }

  /** The aligned block of width 2w around x is the one around the
      aligned block of width w around x. */
  lemma AlignDownNested(x: int, w: int)
    requires x >= 0 && w > 0
    ensures AlignDown(AlignDown(x, w), 2 * w) == AlignDown(x, 2 * w)
    ensures AlignDown(x, w) + w <= AlignDown(x, 2 * w) + 2 * w
  {
    var q := x / (2 * w);
    var r := x % (2 * w);
    assert x == q * (2 * w) + r;
    if r < w {
      DivModUnique(x, w, 2 * q, r);
      DivModUnique(x - r, 2 * w, q, 0);
    } else {
      DivModUnique(x, w, 2 * q + 1, r - w);
      DivModUnique(x - (r - w), 2 * w, q, w);
    }
  }

  /** An aligned block of width w around x < n stays inside [0, n) when w divides n. */
  lemma AlignDownFits(x: int, w: int, n: int)
    requires 0 <= x < n && w > 0 && n % w == 0
    ensures AlignDown(x, w) + w <= n
  {
    AlignDownBounds(x, w);
    assert n == (n / w) * w + n % w;
    DivAtMost(x, w, n / w - 1);
    MulMonotone(x / w + 1, n / w, w);
  }

  // ---------------------------------------------------------------------
  // Slots: values plus existence flags.

  /** Number of occupied slots in [lo, hi). */
  function Count(ex: seq<bool>, lo: int, hi: int): (r: nat)
    requires 0 <= lo <= hi <= |ex|
    ensures r <= hi - lo
    decreases hi - lo
  {
    if lo == hi then 0 else Count(ex, lo, hi - 1) + (if ex[hi - 1] then 1 else 0)
  }

  /** Values of the occupied slots in [lo, hi), left to right. */
  function Present(vals: seq<int>, ex: seq<bool>, lo: int, hi: int): (r: seq<int>)
    requires |vals| == |ex| && 0 <= lo <= hi <= |ex|
    ensures |r| == Count(ex, lo, hi)
    decreases hi - lo
  {
    if lo == hi then [] else Present(vals, ex, lo, hi - 1) + (if ex[hi - 1] then [vals[hi - 1]] else [])
  }

  lemma {:induction false} CountSplit(ex: seq<bool>, lo: int, mid: int, hi: int)
    requires 0 <= lo <= mid <= hi <= |ex|
    ensures Count(ex, lo, hi) == Count(ex, lo, mid) + Count(ex, mid, hi)
    decreases hi - mid
  {
    if mid < hi { CountSplit(ex, lo, mid, hi - 1); }
  }

  lemma {:induction false} PresentSplit(vals: seq<int>, ex: seq<bool>, lo: int, mid: int, hi: int)
    requires |vals| == |ex| && 0 <= lo <= mid <= hi <= |ex|
    ensures Present(vals, ex, lo, hi) == Present(vals, ex, lo, mid) + Present(vals, ex, mid, hi)
    decreases hi - mid
  {
    if mid < hi {
      PresentSplit(vals, ex, lo, mid, hi - 1);
    }
  }

  /** The listing of [lo, hi) cut at m1 and m2. */
  lemma PresentSplit3(vals: seq<int>, ex: seq<bool>, lo: int, m1: int, m2: int, hi: int)
    requires |vals| == |ex| && 0 <= lo <= m1 <= m2 <= hi <= |ex|
    ensures Present(vals, ex, lo, hi) == Present(vals, ex, lo, m1) + (Present(vals, ex, m1, m2) + Present(vals, ex, m2, hi))
  {
    PresentSplit(vals, ex, lo, m1, hi);
    PresentSplit(vals, ex, m1, m2, hi);
  }

  lemma {:induction false} CountFrame(e1: seq<bool>, e2: seq<bool>, lo: int, hi: int)
    requires 0 <= lo <= hi <= |e1| && hi <= |e2|
    requires forall i :: lo <= i < hi ==> e1[i] == e2[i]
    ensures Count(e1, lo, hi) == Count(e2, lo, hi)
    decreases hi - lo
  {
    if lo < hi { CountFrame(e1, e2, lo, hi - 1); }
  }

  /** The occupied values of a range depend only on that range. */
  lemma {:induction false} PresentFrame(v1: seq<int>, e1: seq<bool>, v2: seq<int>, e2: seq<bool>, lo: int, hi: int)
    requires |v1| == |e1| && |v2| == |e2| && 0 <= lo <= hi <= |e1| && hi <= |e2|
    requires forall i :: lo <= i < hi ==> e1[i] == e2[i] && (e1[i] ==> v1[i] == v2[i])
    ensures Present(v1, e1, lo, hi) == Present(v2, e2, lo, hi)
    decreases hi - lo
  {
    if lo < hi { PresentFrame(v1, e1, v2, e2, lo, hi - 1); }
  }

  lemma {:induction false} CountNone(ex: seq<bool>, lo: int, hi: int)
    requires 0 <= lo <= hi <= |ex|
    requires forall i :: lo <= i < hi ==> !ex[i]
    ensures Count(ex, lo, hi) == 0
    decreases hi - lo
  {
    if lo < hi { CountNone(ex, lo, hi - 1); }
  }

  lemma {:induction false} CountAll(ex: seq<bool>, lo: int, hi: int)
    requires 0 <= lo <= hi <= |ex|
    requires forall i :: lo <= i < hi ==> ex[i]
    ensures Count(ex, lo, hi) == hi - lo
    decreases hi - lo
  {
    if lo < hi { CountAll(ex, lo, hi - 1); }
  }

  /** A prefix of `cnt` occupied slots followed by empty ones holds vals[..cnt]. */
  lemma {:induction false} PresentPacked(vals: seq<int>, ex: seq<bool>, cnt: int, hi: int)
    requires |vals| == |ex| && 0 <= cnt <= hi <= |ex|
    requires forall i :: 0 <= i < hi ==> (ex[i] <==> i < cnt)
    ensures Present(vals, ex, 0, hi) == vals[..cnt]
    decreases hi
  {
    if hi > cnt {
      PresentPacked(vals, ex, cnt, hi - 1);
    } else if hi > 0 {
      PresentPacked(vals, ex, cnt - 1, hi - 1);
      assert vals[..cnt] == vals[..cnt - 1] + [vals[cnt - 1]];
    }
  }

  /** The flags of a store whose first cnt slots are occupied. */
  function PackedFlags(len: nat, cnt: int): (r: seq<bool>)
    ensures |r| == len
  {
    seq(len, k => k < cnt)
  }

  lemma PackedFlagsStep(len: nat, cnt: nat)
    requires cnt < len
    ensures PackedFlags(len, cnt)[cnt := true] == PackedFlags(len, cnt + 1)
  {
  }

  /** Such a store counts cnt elements, and they are its first cnt values. */
  lemma PackedFlagsHold(vals: seq<int>, len: nat, cnt: nat)
    requires |vals| == len && cnt <= len
    ensures Count(PackedFlags(len, cnt), 0, len) == cnt
    ensures Present(vals, PackedFlags(len, cnt), 0, len) == vals[..cnt]
  {
    PresentPacked(vals, PackedFlags(len, cnt), cnt, len);
  }

  lemma PresentAt(vals: seq<int>, ex: seq<bool>, lo: int, hi: int, i: int)
    requires |vals| == |ex| && 0 <= lo <= i < hi <= |ex| && ex[i]
    ensures Count(ex, lo, i) < Count(ex, lo, hi)
    ensures Present(vals, ex, lo, hi)[Count(ex, lo, i)] == vals[i]
  {
    PresentSplit(vals, ex, lo, i + 1, hi);
    assert Present(vals, ex, lo, i + 1) == Present(vals, ex, lo, i) + [vals[i]];
  }

  lemma {:induction false} PresentAllAtMost(vals: seq<int>, ex: seq<bool>, lo: int, hi: int, b: int)
    requires |vals| == |ex| && 0 <= lo <= hi <= |ex|
    requires forall i :: lo <= i < hi && ex[i] ==> vals[i] <= b
    ensures forall x :: x in Present(vals, ex, lo, hi) ==> x <= b
    decreases hi - lo
  {
    if lo < hi { PresentAllAtMost(vals, ex, lo, hi - 1, b); }
  }

  lemma {:induction false} PresentAllGreater(vals: seq<int>, ex: seq<bool>, lo: int, hi: int, b: int)
    requires |vals| == |ex| && 0 <= lo <= hi <= |ex|
    requires forall i :: lo <= i < hi && ex[i] ==> vals[i] > b
    ensures forall x :: x in Present(vals, ex, lo, hi) ==> x > b
    decreases hi - lo
  {
    if lo < hi { PresentAllGreater(vals, ex, lo, hi - 1, b); }
  }

  lemma {:induction false} PresentAvoids(vals: seq<int>, ex: seq<bool>, lo: int, hi: int, x: int)
    requires |vals| == |ex| && 0 <= lo <= hi <= |ex|
    requires forall i :: lo <= i < hi && ex[i] ==> vals[i] != x
    ensures x !in Present(vals, ex, lo, hi)
    decreases hi - lo
  {
    if lo < hi { PresentAvoids(vals, ex, lo, hi - 1, x); }
  }

  /** A range with an occupied slot count above zero has an occupied slot. */
  lemma {:induction false} CountWitness(ex: seq<bool>, lo: int, hi: int) returns (i: int)
    requires 0 <= lo <= hi <= |ex| && Count(ex, lo, hi) > 0
    ensures lo <= i < hi && ex[i]
    decreases hi - lo
  {
    if ex[hi - 1] {
      i := hi - 1;
    } else {
      i := CountWitness(ex, lo, hi - 1);
    }
  }

  lemma AppendAssoc(a: seq<int>, b: seq<int>, c: seq<int>)
    ensures a + (b + c) == a + b + c
  {
  }

  /** The count of [lo, hi) around slot i. */
  lemma CountAround(ex: seq<bool>, lo: int, i: int, hi: int)
    requires 0 <= lo <= i < hi <= |ex|
    ensures Count(ex, lo, hi) == Count(ex, lo, i) + (if ex[i] then 1 else 0) + Count(ex, i + 1, hi)
  {
    CountSplit(ex, lo, i, hi);
    CountSplit(ex, i, i + 1, hi);
  }

  /** The listing of [lo, hi) around slot i. */
  lemma PresentAround(vals: seq<int>, ex: seq<bool>, lo: int, i: int, hi: int)
    requires |vals| == |ex| && 0 <= lo <= i < hi <= |ex|
    ensures Present(vals, ex, lo, hi) == Present(vals, ex, lo, i) + (if ex[i] then [vals[i]] else []) + Present(vals, ex, i + 1, hi)
    ensures Count(ex, lo, hi) == Count(ex, lo, i) + (if ex[i] then 1 else 0) + Count(ex, i + 1, hi)
  {
    CountAround(ex, lo, i, hi);
    PresentSplit(vals, ex, lo, i, hi);
    PresentSplit(vals, ex, i, i + 1, hi);
    assert Present(vals, ex, i, i + 1) == (if ex[i] then [vals[i]] else []);
    AppendAssoc(Present(vals, ex, lo, i), Present(vals, ex, i, i + 1), Present(vals, ex, i + 1, hi));
  }

  /** Writing slot i changes the listing of [lo, hi) at slot i only. */
  lemma PresentUpdate(vals: seq<int>, ex: seq<bool>, lo: int, i: int, hi: int, v: int, b: bool)
    requires |vals| == |ex| && 0 <= lo <= i < hi <= |ex|
    ensures Present(vals[i := v], ex[i := b], lo, hi) == Present(vals, ex, lo, i) + (if b then [v] else []) + Present(vals, ex, i + 1, hi)
    ensures Count(ex[i := b], lo, hi) == Count(ex, lo, i) + (if b then 1 else 0) + Count(ex, i + 1, hi)
  {
    var v2, e2 := vals[i := v], ex[i := b];
    PresentAround(v2, e2, lo, i, hi);
    PresentFrame(vals, ex, v2, e2, lo, i);
    PresentFrame(vals, ex, v2, e2, i + 1, hi);
    CountFrame(ex, e2, lo, i);
    CountFrame(ex, e2, i + 1, hi);
  }

  /** A range without occupied slots lists nothing. */
  lemma PresentNone(vals: seq<int>, ex: seq<bool>, lo: int, hi: int)
    requires |vals| == |ex| && 0 <= lo <= hi <= |ex|
    requires forall i :: lo <= i < hi ==> !ex[i]
    ensures Present(vals, ex, lo, hi) == []
  {
    CountNone(ex, lo, hi);
  }

  /** A range whose only occupied slot is k lists the value at k. */
  lemma PresentSingle(vals: seq<int>, ex: seq<bool>, lo: int, k: int, hi: int)
    requires |vals| == |ex| && 0 <= lo <= k < hi <= |ex| && ex[k]
    requires forall i :: lo <= i < hi && i != k ==> !ex[i]
    ensures Present(vals, ex, lo, hi) == [vals[k]]
  {
    PresentAround(vals, ex, lo, k, hi);
    PresentNone(vals, ex, lo, k);
    PresentNone(vals, ex, k + 1, hi);
  }

  /** Slot q is occupied by x. */
  ghost predicate HoldsAt(v: seq<int>, f: seq<bool>, q: int, x: int)
    requires |v| == |f|
  {
    0 <= q < |f| && f[q] && v[q] == x
  }

  /** Filling slot q of a range whose tail [q, hi) is free appends to its listing. */
  lemma PresentFillTail(vals: seq<int>, ex: seq<bool>, lo: int, q: int, hi: int, v: int)
    requires |vals| == |ex| && 0 <= lo <= q < hi <= |ex|
    requires forall i :: q <= i < hi ==> !ex[i]
    ensures Present(vals[q := v], ex[q := true], lo, hi) == Present(vals, ex, lo, hi) + [v]
  {
    PresentUpdate(vals, ex, lo, q, hi, v, true);
    PresentNone(vals, ex, q + 1, hi);
    PresentNone(vals, ex, q, hi);
    PresentSplit(vals, ex, lo, q, hi);
  }

  /** Moving the value of slot a to a free slot b, across free slots only,
      leaves the listing unchanged. */
  lemma PresentMove(vals: seq<int>, ex: seq<bool>, lo: int, hi: int, a: int, b: int)
    requires |vals| == |ex| && 0 <= lo <= a < hi <= |ex| && lo <= b < hi && ex[a] && !ex[b]
    requires forall i :: (a < i < b || b < i < a) ==> !ex[i]
    ensures Present(vals[b := vals[a]], ex[b := true][a := false], lo, hi) == Present(vals, ex, lo, hi)
  {
    var v2, e2 := vals[b := vals[a]], ex[b := true][a := false];
    var first, next := if a < b then a else b, if a < b then b + 1 else a + 1;
    PresentSplit3(vals, ex, lo, first, next, hi);
    PresentSplit3(v2, e2, lo, first, next, hi);
    assert Present(v2, e2, lo, first) == Present(vals, ex, lo, first) by {
      PresentFrame(vals, ex, v2, e2, lo, first);
    }
    assert Present(v2, e2, next, hi) == Present(vals, ex, next, hi) by {
      PresentFrame(vals, ex, v2, e2, next, hi);
    }
    assert Present(vals, ex, first, next) == [vals[a]] by {
      PresentSingle(vals, ex, first, a, next);
    }
    assert Present(v2, e2, first, next) == [vals[a]] by {
      PresentSingle(v2, e2, first, b, next);
    }
  }

  /** A listing of [0, |ex|) where only the window [lo, hi) changed. */
  lemma WindowReplaced(v0: seq<int>, e0: seq<bool>, v1: seq<int>, e1: seq<bool>, lo: int, hi: int)
    requires |v0| == |e0| == |v1| == |e1| && 0 <= lo <= hi <= |e0|
    requires forall i :: 0 <= i < |e0| && !(lo <= i < hi) ==> e1[i] == e0[i] && v1[i] == v0[i]
    ensures Present(v1, e1, 0, |e1|) == Present(v0, e0, 0, lo) + Present(v1, e1, lo, hi) + Present(v0, e0, hi, |e0|)
  {
    PresentSplit(v1, e1, 0, lo, |e1|);
    PresentSplit(v1, e1, lo, hi, |e1|);
    PresentFrame(v0, e0, v1, e1, 0, lo);
    PresentFrame(v0, e0, v1, e1, hi, |e0|);
  }

  /** The flags with the range [lo, hi) cleared. */
  function Cleared(ex: seq<bool>, lo: int, hi: int): (r: seq<bool>)
    requires 0 <= lo <= hi <= |ex|
    ensures |r| == |ex|
  {
    ex[..lo] + seq(hi - lo, _ => false) + ex[hi..]
  }

  lemma ClearedAt(ex: seq<bool>, lo: int, hi: int, k: int)
    requires 0 <= lo <= hi <= |ex| && 0 <= k < |ex|
    ensures Cleared(ex, lo, hi)[k] == (ex[k] && !(lo <= k < hi))
  {
  }

  /** Clearing one more slot at the left end of the cleared range. */
  lemma ClearedStep(ex: seq<bool>, lo: int, hi: int)
    requires 0 < lo <= hi <= |ex|
    ensures Cleared(ex, lo, hi)[lo - 1] == ex[lo - 1]
    ensures Cleared(ex, lo, hi)[lo - 1 := false] == Cleared(ex, lo - 1, hi)
    ensures !ex[lo - 1] ==> Cleared(ex, lo, hi) == Cleared(ex, lo - 1, hi)
  {
    var a, b := Cleared(ex, lo, hi)[lo - 1 := false], Cleared(ex, lo - 1, hi);
    forall k | 0 <= k < |ex| ensures a[k] == b[k] {
      ClearedAt(ex, lo, hi, k);
      ClearedAt(ex, lo - 1, hi, k);
    }
    ClearedAt(ex, lo, hi, lo - 1);
    if !ex[lo - 1] {
      assert Cleared(ex, lo, hi) == a;
    }
  }

  /** An empty cleared range changes nothing. */
  lemma ClearedNothing(ex: seq<bool>, lo: int)
    requires 0 <= lo <= |ex|
    ensures Cleared(ex, lo, lo) == ex
  {
    assert ex[..lo] + ex[lo..] == ex;
  }

  /** Clearing one more slot at the right end of the cleared range. */
  lemma ClearedGrow(ex: seq<bool>, lo: int, hi: int)
    requires 0 <= lo <= hi < |ex|
    ensures Cleared(ex, lo, hi)[hi] == ex[hi]
    ensures Cleared(ex, lo, hi)[hi := false] == Cleared(ex, lo, hi + 1)
    ensures !ex[hi] ==> Cleared(ex, lo, hi) == Cleared(ex, lo, hi + 1)
  {
    var a, b := Cleared(ex, lo, hi)[hi := false], Cleared(ex, lo, hi + 1);
    forall k | 0 <= k < |ex| ensures a[k] == b[k] {
      ClearedAt(ex, lo, hi, k);
      ClearedAt(ex, lo, hi + 1, k);
    }
    ClearedAt(ex, lo, hi, hi);
    if !ex[hi] {
      assert Cleared(ex, lo, hi) == a;
    }
  }

  /** The sequence read backwards. */
  function Reversed(xs: seq<int>): (r: seq<int>)
    ensures |r| == |xs|
  {
    if xs == [] then [] else [xs[|xs| - 1]] + Reversed(xs[..|xs| - 1])
  }

  /** Reading backwards: position j holds the j-th value from the end. */
  lemma {:induction false} ReversedAt(xs: seq<int>, j: int)
    requires 0 <= j < |xs|
    ensures Reversed(xs)[j] == xs[|xs| - 1 - j]
    decreases |xs|
  {
    if j > 0 {
      ReversedAt(xs[..|xs| - 1], j - 1);
    }
  }

  lemma ReversedSnoc(xs: seq<int>, x: int)
    ensures Reversed(xs + [x]) == [x] + Reversed(xs)
  {
    assert (xs + [x])[..|xs|] == xs;
  }

  // ---------------------------------------------------------------------
  // Order.

  /** Non-decreasing. */
  predicate Sorted(s: seq<int>)
  {
    forall i, j :: 0 <= i < j < |s| ==> s[i] <= s[j]
  }

  /** Every value of s is at most e. */
  predicate AllAtMost(s: seq<int>, e: int)
  {
    forall x :: x in s ==> x <= e
  }

  /** Every value of s is above e. */
  predicate AllAbove(s: seq<int>, e: int)
  {
    forall y :: y in s ==> e < y
  }

  /** Sortedness carried over an equality, without unfolding either side. */
  lemma SortedSame(a: seq<int>, b: seq<int>)
    requires a == b && Sorted(a)
    ensures Sorted(b)
  {
  }

  lemma SortedConcat(a: seq<int>, b: seq<int>)
    requires Sorted(a) && Sorted(b)
    requires forall x, y :: x in a && y in b ==> x <= y
    ensures Sorted(a + b)
  {
    forall i, j | 0 <= i < j < |a + b| ensures (a + b)[i] <= (a + b)[j] {
      if j < |a| {
      } else if i >= |a| {
        assert (a + b)[i] == b[i - |a|] && (a + b)[j] == b[j - |a|];
      } else {
        assert (a + b)[i] == a[i] && (a + b)[j] == b[j - |a|];
        assert a[i] in a && b[j - |a|] in b;
      }
    }
  }

  /** Both halves of a sorted concatenation are sorted, and every element
      of the first is at most every element of the second. */
  lemma SortedParts(a: seq<int>, b: seq<int>)
    requires Sorted(a + b)
    ensures Sorted(a) && Sorted(b)
    ensures forall x, y :: x in a && y in b ==> x <= y
  {
    var ab := a + b;
    forall i, j | 0 <= i < j < |a| ensures a[i] <= a[j] { assert ab[i] == a[i] && ab[j] == a[j]; }
    forall i, j | 0 <= i < j < |b| ensures b[i] <= b[j] { assert ab[|a| + i] == b[i] && ab[|a| + j] == b[j]; }
    forall x, y | x in a && y in b ensures x <= y {
      var i :| 0 <= i < |a| && a[i] == x;
      var j :| 0 <= j < |b| && b[j] == y;
      assert ab[i] == x && ab[|a| + j] == y;
    }
  }

  lemma SortedSlots(vals: seq<int>, ex: seq<bool>, lo: int, hi: int, i: int, j: int)
    requires |vals| == |ex| && 0 <= lo <= i < j < hi <= |ex| && ex[i] && ex[j]
    requires Sorted(Present(vals, ex, lo, hi))
    ensures vals[i] <= vals[j]
  {
    PresentAt(vals, ex, lo, hi, i);
    PresentAt(vals, ex, lo, hi, j);
    CountSplit(ex, lo, i + 1, j);
  }
}
