// A growable array whose doubling is spread over the pushes that follow it:
// `deamortized_vector<T>` of tests/dvector.hpp. A resize allocates the
// doubled buffer without copying; the old buffer becomes `prev`, and every
// later push migrates at most two of its elements into the new buffer.
// Indexing reads from whichever buffer holds the element at that moment.

module DeamortizedVectors {
  import opened Slots

  function Min(a: int, b: int): int
  {
    if a < b then a else b
  }

  /** The sizes and indices of a vector between two operations: either
      nothing has been allocated yet, or the current buffer has twice the
      capacity of the previous one (the first buffer, of capacity 2, counts
      as following an empty one), holds more elements than the previous
      one did, and has migrated two old elements per push since the resize,
      up to all of them. */
  ghost predicate Counters(implsz: nat, prevcap: nat, implcap: nat, prevsz: nat, previ: nat)
  {
    && previ <= prevsz <= prevcap
    && (prevcap == 0 || prevcap == prevsz + 1)
    && (implcap == 0 ==> implsz == 0 && prevcap == 0 && prevsz == 0 && previ == 0)
    && (implcap > 0 ==>
          implcap == 2 * (prevsz + 1) && prevsz < implsz < implcap
          && previ == Min(prevsz, 2 * (implsz - prevsz)))
  }

  /** A push that resizes finds the previous buffer fully migrated, so the
      buffer it frees (the one before `prev`) holds nothing still needed. */
  lemma ResizeFindsMigrated(implsz: nat, prevcap: nat, implcap: nat, prevsz: nat, previ: nat)
    requires Counters(implsz, prevcap, implcap, prevsz, previ)
    requires implcap > 0 && implsz == implcap - 1
    ensures previ == prevsz
  {
    assert 2 * (implsz - prevsz) == 2 * (prevsz + 1);
  }

  /** The counters inside `push_back`, once the buffer has room for the
      new element: after a resize, after the first allocation, or as they
      were. The new element will go to slot implsz. */
  ghost predicate ReadyToPush(implsz: nat, prevcap: nat, implcap: nat, prevsz: nat, previ: nat)
  {
    && previ <= prevsz <= prevcap
    && (prevcap == 0 || prevcap == prevsz + 1)
    && implcap == 2 * (prevsz + 1) && prevsz <= implsz < implcap - 1
    && previ == Min(prevsz, 2 * (implsz - prevsz))
  }

  /** The opening branch of `push_back` leads to a state ready for the new
      element: a resize when the buffer would fill, the first allocation
      when there is none. */
  lemma ResizeReady(implsz: nat, prevcap: nat, implcap: nat, prevsz: nat, previ: nat)
    requires Counters(implsz, prevcap, implcap, prevsz, previ)
    ensures implcap > 0 && implsz == implcap - 1 ==> ReadyToPush(implsz, implcap, implcap * 2, implsz, 0)
    ensures implcap == 0 ==> ReadyToPush(0, prevcap, 2, prevsz, previ)
    ensures implcap > 0 && implsz != implcap - 1 ==> ReadyToPush(implsz, prevcap, implcap, prevsz, previ)
  { }

  /** Migrating up to two elements and storing the new one restores the
      counters. */
  lemma PushKeepsCounters(implsz: nat, prevcap: nat, implcap: nat, prevsz: nat, previ: nat)
    requires ReadyToPush(implsz, prevcap, implcap, prevsz, previ)
    ensures Counters(implsz + 1, prevcap, implcap, prevsz, Min(prevsz, previ + 2))
  { }

  class DeamortizedVector<T(0)> {
    var impl: array<T>
    var prev: array<T>
    var implsz: nat
    var prevcap: nat
    var implcap: nat
    var prevsz: nat
    /** The first element of `prev` not yet migrated into `impl`. */
    var previ: nat
    /** The elements pushed so far, in order. */
    ghost var elems: seq<T>

    /** A buffer that was never allocated is an array of length 0; the two
        buffers are distinct; element i lives in `prev` while it awaits
        migration and in `impl` otherwise. */
    ghost predicate Valid()
      reads this, impl, prev
    {
      && impl != prev
      && impl.Length == implcap && prev.Length == prevcap
      && Counters(implsz, prevcap, implcap, prevsz, previ)
      && (implcap == 0 || IsPow2(implcap))
      && |elems| == implsz
      && Located()
    }

    /** Element i sits in `prev` while it awaits migration (previ <= i <
        prevsz) and in `impl` otherwise. */
    ghost predicate Located()
      reads this, impl, prev
    {
      && |elems| == implsz <= impl.Length && prevsz <= prev.Length
      && forall i :: 0 <= i < implsz ==>
           (if previ <= i < prevsz then prev[i] else impl[i]) == elems[i]
    }

    /** The constructor: no buffers, all sizes and capacities 0. */
    constructor ()
      ensures Valid() && elems == []
      ensures implsz == prevcap == implcap == prevsz == previ == 0
      ensures impl.Length == 0 && prev.Length == 0 && fresh(impl) && fresh(prev)
    {
      previ := 0;
      prevcap, implcap, implsz, prevsz := 0, 0, 0, 0;
      impl := new T[0];
      prev := new T[0];
      elems := [];
    }

    /** `push_back(x)`. */
    method PushBack(x: T)
      requires Valid()
      modifies this, impl
      ensures Valid()
      ensures elems == old(elems) + [x] && implsz == old(implsz) + 1
      ensures implsz < implcap && implcap >= 2 && IsPow2(implcap)
      ensures previ <= prevsz
      ensures impl == old(impl) || fresh(impl)
      ensures var resized := old(implcap) > 0 && old(implsz) == old(implcap) - 1;
        (resized ==>
           old(previ) == old(prevsz) && implcap == 2 * old(implcap) && prev == old(impl)
           && fresh(impl) && previ <= 2)
        && (!resized && old(implcap) > 0 ==>
              implcap == old(implcap) && impl == old(impl) && prev == old(prev)
              && old(previ) <= previ <= old(previ) + 2)
        && (old(implcap) == 0 ==> implcap == 2 && fresh(impl) && previ == 0)
    {
      Reserve();
      ghost var p0 := previ;
      Migrate();
      PushKeepsCounters(implsz, prevcap, implcap, prevsz, p0);
      Store(x);
    }

    /** The last step of `push_back(x)`: x goes to slot implsz of `impl`,
        past every slot still awaiting migration. */
    method Store(x: T)
      requires impl != prev && prevsz <= implsz < impl.Length && Located()
      modifies this, impl
      ensures Located() && elems == old(elems) + [x] && implsz == old(implsz) + 1
      ensures impl == old(impl) && prev == old(prev)
      ensures previ == old(previ) && prevsz == old(prevsz) && prevcap == old(prevcap) && implcap == old(implcap)
    {
      impl[implsz] := x;
      implsz := implsz + 1;
      elems := elems + [x];
      forall i | 0 <= i < implsz
        ensures (if previ <= i < prevsz then prev[i] else impl[i]) == elems[i]
      {
        if i < implsz - 1 {
          assert elems[i] == old(elems)[i];
        }
      }
    }

    /** The opening branch of `push_back(x)`. When this push would fill the
        buffer, a buffer of twice the capacity becomes `impl` and the full
        one becomes `prev`, with nothing copied; the buffer that was `prev`
        is already fully migrated, so dropping it loses nothing. When there
        is no buffer yet, one of capacity 2 is allocated. */
    method Reserve()
      requires Valid()
      modifies this
      ensures ReadyToPush(implsz, prevcap, implcap, prevsz, previ) && IsPow2(implcap)
      ensures impl != prev && impl.Length == implcap && prev.Length == prevcap
      ensures elems == old(elems) && implsz == old(implsz) && Located()
      ensures impl == old(impl) || fresh(impl)
      ensures var resized := old(implcap) > 0 && old(implsz) == old(implcap) - 1;
        (resized ==>
           old(previ) == old(prevsz) && implcap == 2 * old(implcap) && prev == old(impl)
           && fresh(impl) && previ == 0 && prevsz == old(implsz) && prevcap == old(implcap))
        && (!resized && old(implcap) > 0 ==>
              implcap == old(implcap) && impl == old(impl) && prev == old(prev)
              && previ == old(previ) && prevsz == old(prevsz) && prevcap == old(prevcap))
        && (old(implcap) == 0 ==> implcap == 2 && fresh(impl) && prev == old(prev) && previ == 0 && prevsz == 0)
    {
      ResizeReady(implsz, prevcap, implcap, prevsz, previ);
      if implcap > 0 && implsz == implcap - 1 {
        ResizeFindsMigrated(implsz, prevcap, implcap, prevsz, previ);
        prevcap := implcap;
        implcap := implcap * 2;
        prevsz := implsz;
        var tmp := new T[implcap];
        previ := 0;
        prev, impl := impl, tmp;
        Log2OfPow2(Log2(prevcap) + 1);
      } else if implcap == 0 {
        implcap := 2;
        implsz := 0;
        impl := new T[implcap];
        Log2OfPow2(1);
      }
    }

    /** The copy loop of `push_back(x)`: at most two elements move from
        `prev` to the same index of `impl`. The source's `c++ < 2`
        increments a local counter only. */
    method Migrate()
      requires impl != prev && previ <= prevsz <= prev.Length && prevsz <= implsz <= impl.Length
      requires Located()
      modifies this, impl
      ensures previ == Min(prevsz, old(previ) + 2) && Located()
      ensures impl == old(impl) && prev == old(prev) && elems == old(elems)
      ensures implsz == old(implsz) && prevsz == old(prevsz) && prevcap == old(prevcap) && implcap == old(implcap)
    {
      var c := 0;
      while c < 2 && previ < prevsz
        invariant 0 <= c <= 2 && previ == Min(prevsz, old(previ) + c)
        invariant impl == old(impl) && prev == old(prev) && elems == old(elems)
        invariant implsz == old(implsz) && prevsz == old(prevsz) && prevcap == old(prevcap) && implcap == old(implcap)
        invariant Located()
        decreases 2 - c
      {
        impl[previ] := prev[previ];
        previ := previ + 1;
        c := c + 1;
      }
    }

    /** A run of `push_back` calls, one per element of xs, in order. */
    method PushAll(xs: seq<T>)
      requires Valid()
      modifies this, impl
      ensures Valid() && elems == old(elems) + xs
    {
      ghost var e0 := elems;
      for k := 0 to |xs|
        invariant Valid() && elems == e0 + xs[..k]
        invariant impl == old(impl) || fresh(impl)
      {
        assert e0 + xs[..k + 1] == e0 + xs[..k] + [xs[k]];
        PushBack(xs[k]);
      }
      assert xs[..|xs|] == xs;
    }

    /** Every element, read back in index order through `operator[]`. */
    method ReadAll() returns (ys: seq<T>)
      requires Valid()
      ensures ys == elems
    {
      ys := [];
      for i := 0 to implsz
        invariant ys == elems[..i]
      {
        ys := ys + [Get(i)];
        assert elems[..i + 1] == elems[..i] + [elems[i]];
      }
      assert elems[..implsz] == elems;
    }

    /** `size()`. */
    function Size(): (n: nat)
      reads this, impl, prev
      requires Valid()
      ensures n == |elems|
    {
      implsz
    }

    /** `operator[](i)`: the i-th element pushed, read from `prev` while it
        awaits migration and from `impl` otherwise. */
    function Get(i: nat): (x: T)
      reads this, impl, prev
      requires Valid() && i < implsz
      ensures x == elems[i]
    {
      if i >= previ && i < prevsz then prev[i] else impl[i]
    }
  }

  /** The round trip that the benchmark driver asserts: push every element
      of xs into a new vector, then read each index back; the values read
      are xs, in order. */
  method RoundTrip<T(0)>(xs: seq<T>) returns (ys: seq<T>)
    ensures ys == xs
  {
    var v := new DeamortizedVector<T>();
    v.PushAll(xs);
    ys := v.ReadAll();
  }
}
