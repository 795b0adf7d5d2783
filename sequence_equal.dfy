/** `ArrayExtensions.SequenceEqual`: element-wise equality of two arrays or
    spans (different lengths are unequal), the unrolled block comparison of
    the primitive-type path, and the argument-checking wrappers. */
module SequenceEqual {
  import opened Wrappers
  import opened Primitives

  /** Equality under an element equality `eq` (`IEquatable<T>.Equals`, an
      `IEqualityComparer<T>`, or either of them after a key selector). */
  predicate EqualBy<T>(a: seq<T>, b: seq<T>, eq: (T, T) -> bool)
  {
    |a| == |b| && forall k :: 0 <= k < |a| ==> eq(a[k], b[k])
  }

  /** Under plain equality of elements, `EqualBy` is sequence equality. */
  lemma EqualByIsEquality<T>(a: seq<T>, b: seq<T>)
    ensures EqualBy(a, b, (x, y) => x == y) <==> a == b
  {
    if EqualBy(a, b, (x, y) => x == y) {
      assert forall k :: 0 <= k < |a| ==> a[k] == b[k];
    }
  }

  /** `InternalSequenceEqualManaged` and the comparer / key-selector
      `InternalSequenceEqual` overloads: unequal lengths give false, then the
      first unequal pair gives false. */
  method InternalSequenceEqual<T>(a: seq<T>, b: seq<T>, eq: (T, T) -> bool) returns (r: bool)
    ensures r <==> EqualBy(a, b, eq)
    ensures !r ==> |a| != |b| || exists k :: 0 <= k < |a| && !eq(a[k], b[k])
  {
    if |a| != |b| {
      return false;
    }
    var index := 0;
    while index < |a|
      invariant 0 <= index <= |a|
      invariant forall k :: 0 <= k < index ==> eq(a[k], b[k])
    {
      if !eq(a[index], b[index]) {
        return false;
      }
      index := index + 1;
    }
    return true;
  }

  /** The unrolled comparison of `InternalSequenceEqualUnmanaged`: blocks of
      32 elements while at least 32 remain, then one block each of 16, 8, 4,
      2 and 1 elements as the bits of the remaining count say. A count of 0
      or less is equal at once. */
  method InternalSequenceEqualUnmanaged(a: seq<int>, b: seq<int>, count: int) returns (r: bool)
    requires count <= |a| && count <= |b|
    ensures r <==> count <= 0 || a[..count] == b[..count]
  {
    if count <= 0 {
      return true;
    }
    var p := 0;
    while count - p >= 32
      invariant 0 <= p <= count
      invariant a[..p] == b[..p]
    {
      if a[p..p + 32] != b[p..p + 32] {
        assert a[p..p + 32] == a[..count][p..p + 32];
        assert b[p..p + 32] == b[..count][p..p + 32];
        return false;
      }
      assert a[..p + 32] == a[..p] + a[p..p + 32];
      assert b[..p + 32] == b[..p] + b[p..p + 32];
      p := p + 32;
    }
    // Fewer than 2 * weight elements remain at each step, so bit `weight`
    // of the remaining count is set exactly when at least `weight` remain.
    var weight := 16;
    while weight > 0
      invariant weight in {16, 8, 4, 2, 1, 0}
      invariant 0 <= p <= count
      invariant if weight == 0 then p == count else count - p < 2 * weight
      invariant a[..p] == b[..p]
      decreases weight
    {
      if count - p >= weight {
        if a[p..p + weight] != b[p..p + weight] {
          assert a[p..p + weight] == a[..count][p..p + weight];
          assert b[p..p + weight] == b[..count][p..p + weight];
          return false;
        }
        assert a[..p + weight] == a[..p] + a[p..p + weight];
        assert b[..p + weight] == b[..p] + b[p..p + weight];
        p := p + weight;
      }
      weight := weight / 2;
    }
    assert a[..count] == a[..p] && b[..count] == b[..p];
    return true;
  }

  /** The primitive-type path of `InternalSequenceEqual`: equal lengths and
      the unrolled comparison over the whole length. */
  method InternalSequenceEqualPrimitive(a: seq<int>, b: seq<int>) returns (r: bool)
    ensures r <==> a == b
  {
    if |a| != |b| {
      return false;
    }
    r := InternalSequenceEqualUnmanaged(a, b, |a|);
    assert a[..|a|] == a && b[..|b|] == b;
  }

  /** `SequenceEqual(source1, source2)`: null arrays are rejected. */
  method SequenceEqualArrays(source1: Option<seq<int>>, source2: Option<seq<int>>) returns (r: Result<bool>)
    ensures r.Err? <==> source1.None? || source2.None?
    ensures r.Err? ==> r.error == ArgumentNull
    ensures r.Ok? ==> (r.value <==> source1.value == source2.value)
  {
    if source1.None? || source2.None? {
      return Err(ArgumentNull);
    }
    var e := InternalSequenceEqualPrimitive(source1.value, source2.value);
    return Ok(e);
  }

  /** `SequenceEqual(source1, offset1, source2, offset2, count)`: the checks
      run in the order null 1, offset 1, null 2, offset 2, count, then
      `checked(offset + count)` against each length. */
  method SequenceEqualRanges(source1: Option<seq<int>>, offset1: Int32,
                             source2: Option<seq<int>>, offset2: Int32, count: Int32)
    returns (r: Result<bool>)
    requires source1.Some? ==> |source1.value| <= INT32_MAX
    requires source2.Some? ==> |source2.value| <= INT32_MAX
    ensures source1.None? ==> r == Err(ArgumentNull)
    ensures source1.Some? && offset1 < 0 ==> r == Err(ArgumentOutOfRange)
    ensures source1.Some? && 0 <= offset1 && source2.None? ==> r == Err(ArgumentNull)
    ensures r.Ok? <==>
              source1.Some? && source2.Some?
              && CheckRange(|source1.value|, offset1, count).Ok?
              && CheckRange(|source2.value|, offset2, count).Ok?
    ensures r.Ok? ==>
              (r.value <==> source1.value[offset1..offset1 + count] == source2.value[offset2..offset2 + count])
  {
    if source1.None? {
      return Err(ArgumentNull);
    }
    if offset1 < 0 {
      return Err(ArgumentOutOfRange);
    }
    if source2.None? {
      return Err(ArgumentNull);
    }
    if offset2 < 0 || count < 0 {
      return Err(ArgumentOutOfRange);
    }
    var check1 := CheckRange(|source1.value|, offset1, count);
    if check1.Err? {
      return Err(check1.error);
    }
    var check2 := CheckRange(|source2.value|, offset2, count);
    if check2.Err? {
      return Err(check2.error);
    }
    var e := InternalSequenceEqualPrimitive(source1.value[offset1..offset1 + count],
                                            source2.value[offset2..offset2 + count]);
    return Ok(e);
  }
}
