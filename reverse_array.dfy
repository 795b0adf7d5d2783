/** `ArrayExtensions.ReverseArray`: in-place reversal of an array or of a
    range of it, by a two-index swap loop. */
module ReverseArray {
  import opened Wrappers
  import opened Primitives

  /** The reversal of a sequence, as a specification. */
  function Reversed<T>(s: seq<T>): (r: seq<T>)
  {
    if s == [] then [] else Reversed(s[1..]) + [s[0]]
  }

  /** Element k of the reversal is element |s|-1-k of the original. */
  lemma {:induction false} ReversedAt<T>(s: seq<T>, k: nat)
    requires k < |s|
    ensures |Reversed(s)| == |s|
    ensures Reversed(s)[k] == s[|s| - 1 - k]
  {
    ReversedLength(s);
    if |s| > 1 {
      ReversedLength(s[1..]);
      if k < |s| - 1 {
        ReversedAt(s[1..], k);
      }
    }
  }

  lemma {:induction false} ReversedLength<T>(s: seq<T>)
    ensures |Reversed(s)| == |s|
  {
    if s != [] {
      ReversedLength(s[1..]);
    }
  }

  /** A sequence whose element k is s[|s|-1-k] is the reversal of s. */
  lemma ReversedByElements<T>(s: seq<T>, t: seq<T>)
    requires |t| == |s|
    requires forall k :: 0 <= k < |s| ==> t[k] == s[|s| - 1 - k]
    ensures t == Reversed(s)
  {
    ReversedLength(s);
    forall k | 0 <= k < |s|
      ensures t[k] == Reversed(s)[k]
    {
      ReversedAt(s, k);
    }
  }

  /** Reversing twice restores the original. */
  lemma ReversedTwice<T>(s: seq<T>)
    ensures Reversed(Reversed(s)) == s
  {
    ReversedLength(s);
    var r := Reversed(s);
    forall k | 0 <= k < |s|
      ensures s[k] == r[|r| - 1 - k]
    {
      ReversedAt(s, |s| - 1 - k);
    }
    ReversedByElements(r, s);
  }

  /** Reversal only reorders: it keeps the multiset of elements. */
  lemma {:induction false} ReversedHasSameElements<T>(s: seq<T>)
    ensures multiset(Reversed(s)) == multiset(s)
  {
    if s != [] {
      ReversedHasSameElements(s[1..]);
      assert s == [s[0]] + s[1..];
    }
  }

  /** Pointwise reversal of `was[lo..hi]` inside `now`, everything else
      unchanged, is the slice-level statement. */
  lemma ReversedRange<T>(was: seq<T>, now: seq<T>, lo: nat, hi: nat)
    requires lo <= hi <= |was| == |now|
    requires forall k :: lo <= k < hi ==> now[k] == was[lo + hi - 1 - k]
    requires forall k :: 0 <= k < lo || hi <= k < |was| ==> now[k] == was[k]
    ensures now[lo..hi] == Reversed(was[lo..hi])
    ensures now[..lo] == was[..lo]
    ensures now[hi..] == was[hi..]
  {
    var s, t := was[lo..hi], now[lo..hi];
    forall k | 0 <= k < |s|
      ensures t[k] == s[|s| - 1 - k]
    {
      assert t[k] == now[lo + k];
    }
    ReversedByElements(s, t);
  }

  /** `InternalReverseArray` applied to the span `source[lo..hi]`. */
  method InternalReverseArray<T>(source: array<T>, lo: nat, hi: nat)
    requires lo <= hi <= source.Length
    modifies source
    ensures source[lo..hi] == Reversed(old(source[lo..hi]))
    ensures source[..lo] == old(source[..lo])
    ensures source[hi..] == old(source[hi..])
  {
    ghost var was := source[..];
    var index1 := lo;
    var index2 := hi - 1;
    while index2 > index1
      invariant lo <= index1 <= hi
      invariant index2 == lo + hi - 1 - index1
      invariant forall k :: lo <= k < index1 ==> source[k] == was[lo + hi - 1 - k]
      invariant forall k :: index2 < k < hi ==> source[k] == was[lo + hi - 1 - k]
      invariant forall k :: index1 <= k <= index2 ==> source[k] == was[k]
      invariant forall k :: 0 <= k < lo || hi <= k < source.Length ==> source[k] == was[k]
    {
      source[index2], source[index1] := source[index1], source[index2];
      index1 := index1 + 1;
      index2 := index2 - 1;
    }
    ReversedRange(was, source[..], lo, hi);
  }

  /** `ReverseArray(source)`: reverses the whole array and returns the same
      reference; a null array is rejected. */
  method ReverseWhole<T>(source: array?<T>) returns (r: Result<array<T>>)
    modifies source
    ensures source == null <==> r == Err(ArgumentNull)
    ensures source != null ==> r == Ok(source) && source[..] == Reversed(old(source[..]))
  {
    if source == null {
      return Err(ArgumentNull);
    }
    InternalReverseArray(source, 0, source.Length);
    assert source[..] == source[0..source.Length];
    assert old(source[..]) == old(source[0..source.Length]);
    return Ok(source);
  }

  /** `ReverseArray(source, offset, count)`: reverses the range
      `[offset, offset + count)` and leaves the rest of the array alone;
      invalid arguments are rejected before anything is changed. */
  method ReverseRange<T>(source: array?<T>, offset: Int32, count: Int32) returns (r: Result<array<T>>)
    requires source != null ==> source.Length <= INT32_MAX
    modifies source
    ensures source == null ==> r == Err(ArgumentNull)
    ensures source != null ==> r.Err? == CheckRange(source.Length, offset, count).Err?
    ensures source != null && r.Err? ==>
              r == Err(CheckRange(source.Length, offset, count).error) && source[..] == old(source[..])
    ensures r.Ok? ==>
              r.value == source
              && source[offset..offset + count] == Reversed(old(source[offset..offset + count]))
              && source[..offset] == old(source[..offset])
              && source[offset + count..] == old(source[offset + count..])
  {
    if source == null {
      return Err(ArgumentNull);
    }
    var check := CheckRange(source.Length, offset, count);
    if check.Err? {
      return Err(check.error);
    }
    InternalReverseArray(source, offset, offset + count);
    return Ok(source);
  }
}
