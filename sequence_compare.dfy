/** `ArrayExtensions.SequenceCompare`: lexicographic comparison of two
    arrays or spans, element by element over the common prefix and then by
    length, with the argument-checking wrappers around it.

    The element comparison is a parameter `cmp`: `IComparable<T>.CompareTo`,
    an `IComparer<T>`, or a key selector followed by either of them. */
module SequenceCompare {
  import opened Wrappers
  import opened Primitives

  /** `Int32.CompareTo`: -1, 0 or 1 as x is below, equal to or above y. */
  function Sign(x: int, y: int): (r: int)
    ensures r == -1 <==> x < y
    ensures r == 0 <==> x == y
    ensures r == 1 <==> x > y
  {
    if x < y then -1 else if x > y then 1 else 0
  }

  /** The lexicographic order the loops implement, as a specification: the
      first non-zero element comparison, or else the comparison of the
      lengths. */
  function LexCompare<T>(a: seq<T>, b: seq<T>, cmp: (T, T) -> int): int
  {
    if a == [] || b == [] then Sign(|a|, |b|)
    else if cmp(a[0], b[0]) != 0 then cmp(a[0], b[0])
    else LexCompare(a[1..], b[1..], cmp)
  }

  /** When the first difference in the common prefix is at index i, the
      result is the comparison of the two elements there. */
  lemma {:induction false} FirstDifferenceDecides<T>(a: seq<T>, b: seq<T>, cmp: (T, T) -> int, i: nat)
    requires i < |a| && i < |b|
    requires forall k :: 0 <= k < i ==> cmp(a[k], b[k]) == 0
    requires cmp(a[i], b[i]) != 0
    ensures LexCompare(a, b, cmp) == cmp(a[i], b[i])
  {
    if i > 0 {
      assert cmp(a[0], b[0]) == 0;
      FirstDifferenceDecides(a[1..], b[1..], cmp, i - 1);
    }
  }

  /** When the common prefix compares equal throughout, the lengths decide. */
  lemma {:induction false} EqualPrefixComparesLengths<T>(a: seq<T>, b: seq<T>, cmp: (T, T) -> int)
    requires forall k :: 0 <= k < |a| && k < |b| ==> cmp(a[k], b[k]) == 0
    ensures LexCompare(a, b, cmp) == Sign(|a|, |b|)
  {
    if a != [] && b != [] {
      assert cmp(a[0], b[0]) == 0;
      EqualPrefixComparesLengths(a[1..], b[1..], cmp);
    }
  }

  /** With a reflexive element comparison, a sequence compares equal to
      itself. */
  lemma {:induction false} CompareSelfIsZero<T>(a: seq<T>, cmp: (T, T) -> int)
    requires forall x :: cmp(x, x) == 0
    ensures LexCompare(a, a, cmp) == 0
  {
    if a != [] {
      CompareSelfIsZero(a[1..], cmp);
    }
  }

  /** With an antisymmetric element comparison, swapping the operands
      negates the result. */
  lemma {:induction false} CompareAntisymmetric<T>(a: seq<T>, b: seq<T>, cmp: (T, T) -> int)
    requires forall x, y :: cmp(y, x) == -cmp(x, y)
    ensures LexCompare(b, a, cmp) == -LexCompare(a, b, cmp)
  {
    if a != [] && b != [] {
      assert cmp(b[0], a[0]) == -cmp(a[0], b[0]);
      CompareAntisymmetric(a[1..], b[1..], cmp);
    }
  }

  function Keys<T>(a: seq<T>, key: T -> int): (r: seq<int>)
    ensures |r| == |a| && forall k :: 0 <= k < |a| ==> r[k] == key(a[k])
  {
    if a == [] then [] else [key(a[0])] + Keys(a[1..], key)
  }

  /** The key-selector variants compare the selected keys with the default
      comparison: the same as comparing the sequences of keys. */
  lemma {:induction false} KeySelectorComparesKeys<T>(a: seq<T>, b: seq<T>, key: T -> int)
    ensures LexCompare(a, b, (x, y) => Sign(key(x), key(y)))
         == LexCompare(Keys(a, key), Keys(b, key), (x, y) => Sign(x, y))
  {
    if a != [] && b != [] {
      KeySelectorComparesKeys(a[1..], b[1..], key);
      assert Keys(a, key)[1..] == Keys(a[1..], key);
      assert Keys(b, key)[1..] == Keys(b[1..], key);
    }
  }

  /** `InternalSequenceCompareManaged` and the comparer / key-selector
      `InternalSequenceCompare` overloads: a loop over the common prefix
      that returns the first non-zero comparison, then compares lengths. */
  method InternalSequenceCompare<T>(a: seq<T>, b: seq<T>, cmp: (T, T) -> int) returns (r: int)
    ensures r == LexCompare(a, b, cmp)
  {
    var count := if |a| < |b| then |a| else |b|;
    var index := 0;
    while index < count
      invariant 0 <= index <= count
      invariant LexCompare(a, b, cmp) == LexCompare(a[index..], b[index..], cmp)
    {
      var c := cmp(a[index], b[index]);
      if c != 0 {
        return c;
      }
      assert a[index..][1..] == a[index + 1..];
      assert b[index..][1..] == b[index + 1..];
      index := index + 1;
    }
    return Sign(|a|, |b|);
  }

  /** `InternalSequenceCompareUnmanaged`, the path the dispatcher takes for
      primitive element types: it compares only the first min(|a|, |b|)
      elements and returns 0 when they agree, whatever the lengths. */
  method InternalSequenceCompareUnmanaged(a: seq<int>, b: seq<int>) returns (r: int)
    ensures r == LexCompare(a[..Min(|a|, |b|)], b[..Min(|a|, |b|)], (x, y) => Sign(x, y))
  {
    var count := Min(|a|, |b|);
    ghost var a0, b0 := a[..count], b[..count];
    var index := 0;
    while index < count
      invariant 0 <= index <= count
      invariant LexCompare(a0, b0, (x, y) => Sign(x, y)) == LexCompare(a0[index..], b0[index..], (x, y) => Sign(x, y))
    {
      var c := Sign(a[index], b[index]);
      assert a0[index] == a[index] && b0[index] == b[index];
      if c != 0 {
        return c;
      }
      assert a0[index..][1..] == a0[index + 1..];
      assert b0[index..][1..] == b0[index + 1..];
      index := index + 1;
    }
    return 0;
  }

  function Min(x: nat, y: nat): nat
  {
    if x < y then x else y
  }

  /** A proper prefix compares equal on the unmanaged path but below on the
      managed one: `[1]` against `[1, 2]`. */
  lemma UnmanagedIgnoresLength()
    ensures LexCompare([1][..Min(1, 2)], [1, 2][..Min(1, 2)], (x, y) => Sign(x, y)) == 0
    ensures LexCompare([1], [1, 2], (x, y) => Sign(x, y)) == -1
  {
    assert [1][..1] == [1] && [1, 2][..1] == [1];
    assert [1][1..] == [] && [1, 2][1..] == [2];
  }

  /** `SequenceCompare(source1, source2)` over `Int32` arrays; a null array is
      rejected. The comparison follows the length-aware order. */
  method SequenceCompareArrays(source1: Option<seq<int>>, source2: Option<seq<int>>) returns (r: Result<int>)
    ensures r.Err? <==> source1.None? || source2.None?
    ensures r.Err? ==> r.error == ArgumentNull
    ensures r.Ok? ==> r.value == LexCompare(source1.value, source2.value, (x, y) => Sign(x, y))
  {
    if source1.None? || source2.None? {
      return Err(ArgumentNull);
    }
    var c := InternalSequenceCompare(source1.value, source2.value, (x, y) => Sign(x, y));
    return Ok(c);
  }

  /** `SequenceCompare(source1, offset1, count1, source2, offset2, count2)`:
      the null and sign checks of each array come first, in argument order,
      then the two range checks. */
  method SequenceCompareRanges(source1: Option<seq<int>>, offset1: Int32, count1: Int32,
                               source2: Option<seq<int>>, offset2: Int32, count2: Int32)
    returns (r: Result<int>)
    requires source1.Some? ==> |source1.value| <= INT32_MAX
    requires source2.Some? ==> |source2.value| <= INT32_MAX
    ensures source1.None? ==> r == Err(ArgumentNull)
    ensures source1.Some? && (offset1 < 0 || count1 < 0) ==> r == Err(ArgumentOutOfRange)
    ensures source1.Some? && 0 <= offset1 && 0 <= count1 && source2.None? ==> r == Err(ArgumentNull)
    ensures r.Ok? <==>
              source1.Some? && source2.Some?
              && CheckRange(|source1.value|, offset1, count1).Ok?
              && CheckRange(|source2.value|, offset2, count2).Ok?
    ensures r.Ok? ==>
              r.value == LexCompare(source1.value[offset1..offset1 + count1],
                                    source2.value[offset2..offset2 + count2], (x, y) => Sign(x, y))
  {
    if source1.None? {
      return Err(ArgumentNull);
    }
    if offset1 < 0 || count1 < 0 {
      return Err(ArgumentOutOfRange);
    }
    if source2.None? {
      return Err(ArgumentNull);
    }
    if offset2 < 0 || count2 < 0 {
      return Err(ArgumentOutOfRange);
    }
    var check1 := CheckRange(|source1.value|, offset1, count1);
    if check1.Err? {
      return Err(check1.error);
    }
    var check2 := CheckRange(|source2.value|, offset2, count2);
    if check2.Err? {
      return Err(check2.error);
    }
    var c := InternalSequenceCompare(source1.value[offset1..offset1 + count1],
                                     source2.value[offset2..offset2 + count2], (x, y) => Sign(x, y));
    return Ok(c);
  }
}
