/** `ArrayExtensions.QuickSort` in its natural-order form
    (`InternalQuickSortManaged`): a three-way quicksort that tolerates
    duplicate keys, and the argument-checking wrappers around it.

    The source sorts a `Span<T>`; the model sorts the range `[lo, hi)` of an
    `array<int>`, with `int` comparison standing for `IComparable<T>`. */
module QuickSort {
  import opened Wrappers
  import opened Primitives
  import ReverseArray

  predicate Sorted(s: seq<int>)
  {
    forall i, j :: 0 <= i < j < |s| ==> s[i] <= s[j]
  }

  /** The layout the partition loop keeps (the regions described at the top
      of the loop and checked by `AssertQuickSortState`):
      `[lo, eop)` holds keys equal to the pivot, `[eop, lb)` keys below it,
      `[lb, ub]` is not yet examined and `(ub, hi)` holds keys above it. */
  ghost predicate Layout(a: seq<int>, lo: int, hi: int, pivot: int, eop: int, lb: int, ub: int)
  {
    0 <= lo < eop <= lb <= ub + 1 <= hi <= |a|
    && (forall k :: lo <= k < eop ==> a[k] == pivot)
    && (forall k :: eop <= k < lb ==> a[k] < pivot)
    && (forall k :: ub < k < hi ==> a[k] > pivot)
  }

  /** The order after the exchange loop: keys below the pivot, then keys
      equal to it, then keys above it. */
  ghost predicate ThreeWay(a: seq<int>, lo: int, mid: int, lb: int, hi: int, pivot: int)
  {
    0 <= lo <= mid <= lb <= hi <= |a|
    && (forall k :: lo <= k < mid ==> a[k] < pivot)
    && (forall k :: mid <= k < lb ==> a[k] == pivot)
    && (forall k :: lb <= k < hi ==> a[k] > pivot)
  }

  /** Everything outside `[lo, hi)` is the same in a and b. */
  ghost predicate Unchanged(a: seq<int>, b: seq<int>, lo: int, hi: int)
  {
    |a| == |b| && 0 <= lo <= hi <= |a|
    && forall k :: 0 <= k < lo || hi <= k < |a| ==> a[k] == b[k]
  }

  /** A permutation of the whole array that leaves everything outside
      `[lo, hi)` alone permutes `[lo, hi)`. */
  lemma RangeMultiset(a: seq<int>, b: seq<int>, lo: int, hi: int)
    requires Unchanged(a, b, lo, hi)
    requires multiset(a) == multiset(b)
    ensures multiset(a[lo..hi]) == multiset(b[lo..hi])
  {
    assert a[..lo] == b[..lo] by {
      forall k | 0 <= k < lo ensures a[..lo][k] == b[..lo][k] { }
    }
    assert a[hi..] == b[hi..] by {
      forall k | 0 <= k < |a| - hi ensures a[hi..][k] == b[hi..][k] { assert a[hi..][k] == a[hi + k]; }
    }
    SplitMultiset(a, lo, hi);
    SplitMultiset(b, lo, hi);
    Cancel(multiset(a[..lo]), multiset(a[lo..hi]), multiset(b[lo..hi]), multiset(a[hi..]));
  }

  /** The multiset of a sequence is that of its three parts. */
  lemma SplitMultiset(a: seq<int>, lo: int, hi: int)
    requires 0 <= lo <= hi <= |a|
    ensures multiset(a) == multiset(a[..lo]) + multiset(a[lo..hi]) + multiset(a[hi..])
  {
    assert a == a[..lo] + a[lo..hi] + a[hi..];
  }

  lemma Cancel(p: multiset<int>, x: multiset<int>, y: multiset<int>, s: multiset<int>)
    requires p + x + s == p + y + s
    ensures x == y
  {
    forall e
      ensures x[e] == y[e]
    {
      assert (p + x + s)[e] == (p + y + s)[e];
    }
  }

  /** A permutation of a sub-range `[i, j)` that leaves the rest alone is a
      permutation of any range `[lo, hi)` around it. */
  lemma Widen(b: seq<int>, a: seq<int>, lo: int, i: int, j: int, hi: int)
    requires 0 <= lo <= i <= j <= hi <= |a|
    requires Unchanged(b, a, i, j) && multiset(b[i..j]) == multiset(a[i..j])
    ensures Unchanged(b, a, lo, hi) && multiset(b[lo..hi]) == multiset(a[lo..hi])
  {
    assert b[lo..hi] == b[lo..i] + b[i..j] + b[j..hi];
    assert a[lo..hi] == a[lo..i] + a[i..j] + a[j..hi];
    assert b[lo..i] == a[lo..i];
    assert b[j..hi] == a[j..hi];
  }

  /** Keys moved around by a permutation keep any bound they had. */
  lemma PermutationKeepsBound(a: seq<int>, b: seq<int>, pivot: int, below: bool)
    requires multiset(a) == multiset(b)
    requires forall k :: 0 <= k < |b| ==> if below then b[k] < pivot else b[k] > pivot
    ensures forall k :: 0 <= k < |a| ==> if below then a[k] < pivot else a[k] > pivot
  {
    forall k | 0 <= k < |a|
      ensures if below then a[k] < pivot else a[k] > pivot
    {
      assert a[k] in multiset(a);
      assert a[k] in multiset(b);
      var j :| 0 <= j < |b| && b[j] == a[k];
    }
  }

  method Swap(a: array<int>, i: nat, j: nat)
    requires i < a.Length && j < a.Length
    modifies a
    ensures a[..] == old(a[..])[i := old(a[j])][j := old(a[i])]
    ensures multiset(a[..]) == multiset(old(a[..]))
  {
    a[i], a[j] := a[j], a[i];
  }

  /** The three-element rotation of the second scan:
      `t = a[e]; a[e] = a[u]; a[u] = a[l]; a[l] = t`. */
  method Rotate(a: array<int>, e: nat, u: nat, l: nat)
    requires e < a.Length && u < a.Length && l < a.Length
    requires e != u && u != l && e != l
    modifies a
    ensures a[..] == old(a[..])[e := old(a[u])][u := old(a[l])][l := old(a[e])]
    ensures multiset(a[..]) == multiset(old(a[..]))
  {
    // The rotation is the composition of two exchanges.
    Swap(a, e, u);
    Swap(a, u, l);
  }

  /** First scan, key equal to the pivot: it joins the equal region. */
  lemma LowerEqualStep(s: seq<int>, lo: int, hi: int, pivot: int, eop: int, lb: int, ub: int)
    requires Layout(s, lo, hi, pivot, eop, lb, ub) && lb <= ub && s[lb] == pivot
    ensures eop < lb ==>
              Layout(s[eop := s[lb]][lb := s[eop]], lo, hi, pivot, eop + 1, lb + 1, ub)
              && Unchanged(s[eop := s[lb]][lb := s[eop]], s, lo, hi)
    ensures eop == lb ==> Layout(s, lo, hi, pivot, eop + 1, lb + 1, ub)
  {
  }

  /** Second scan, key equal to the pivot with a non-empty below region:
      the rotation moves it to the equal region, the key above the pivot
      to the upper region and the displaced key below the pivot to the end
      of the lower region. */
  lemma UpperRotateStep(s: seq<int>, lo: int, hi: int, pivot: int, eop: int, lb: int, ub: int)
    requires Layout(s, lo, hi, pivot, eop, lb, ub) && lb <= ub
    requires s[lb] > pivot && s[ub] == pivot && eop < lb
    ensures lb < ub
    ensures Layout(s[eop := s[ub]][ub := s[lb]][lb := s[eop]], lo, hi, pivot, eop + 1, lb + 1, ub - 1)
    ensures Unchanged(s[eop := s[ub]][ub := s[lb]][lb := s[eop]], s, lo, hi)
  {
  }

  /** Second scan, key equal to the pivot with an empty below region. */
  lemma UpperSwapEqualStep(s: seq<int>, lo: int, hi: int, pivot: int, eop: int, lb: int, ub: int)
    requires Layout(s, lo, hi, pivot, eop, lb, ub) && lb <= ub
    requires s[lb] > pivot && s[ub] == pivot && eop == lb
    ensures Layout(s[eop := s[ub]][ub := s[eop]], lo, hi, pivot, eop + 1, lb + 1, ub - 1)
    ensures Unchanged(s[eop := s[ub]][ub := s[eop]], s, lo, hi)
  {
  }

  /** Second scan, key below the pivot: it trades places with the key above
      the pivot at `lb`. */
  lemma UpperSwapBelowStep(s: seq<int>, lo: int, hi: int, pivot: int, eop: int, lb: int, ub: int)
    requires Layout(s, lo, hi, pivot, eop, lb, ub) && lb <= ub
    requires s[lb] > pivot && s[ub] < pivot
    ensures Layout(s[ub := s[lb]][lb := s[ub]], lo, hi, pivot, eop, lb + 1, ub - 1)
    ensures Unchanged(s[ub := s[lb]][lb := s[ub]], s, lo, hi)
  {
  }

  /** The first inner loop: advance `lb` over keys not above the pivot,
      moving keys equal to the pivot to the end of the equal region. */
  method ScanLower(a: array<int>, lo: nat, hi: nat, pivot: int, eop0: nat, lb0: nat, ub: int)
    returns (eop: nat, lb: nat)
    requires Layout(a[..], lo, hi, pivot, eop0, lb0, ub)
    modifies a
    ensures Layout(a[..], lo, hi, pivot, eop, lb, ub)
    ensures lb > ub || a[lb] > pivot
    ensures lb >= lb0
    ensures Unchanged(a[..], old(a[..]), lo, hi) && multiset(a[..]) == multiset(old(a[..]))
  {
    eop, lb := eop0, lb0;
    while lb <= ub
      invariant Layout(a[..], lo, hi, pivot, eop, lb, ub) && lb >= lb0
      invariant Unchanged(a[..], old(a[..]), lo, hi) && multiset(a[..]) == multiset(old(a[..]))
      decreases ub - lb
    {
      var c := a[lb];
      if c > pivot {
        break;
      }
      if c == pivot {
        LowerEqualStep(a[..], lo, hi, pivot, eop, lb, ub);
        if eop < lb {
          Swap(a, eop, lb);
        }
        eop := eop + 1;
      }
      lb := lb + 1;
    }
  }

  /** The second inner loop: retreat `ub` over keys above the pivot; a key
      equal to or below the pivot is exchanged into place and ends the scan. */
  method ScanUpper(a: array<int>, lo: nat, hi: nat, pivot: int, eop0: nat, lb0: nat, ub0: int)
    returns (eop: nat, lb: nat, ub: int)
    requires Layout(a[..], lo, hi, pivot, eop0, lb0, ub0)
    requires lb0 <= ub0 ==> a[lb0] > pivot
    modifies a
    ensures Layout(a[..], lo, hi, pivot, eop, lb, ub)
    ensures ub - lb <= ub0 - lb0
    ensures lb0 <= ub0 ==> ub - lb < ub0 - lb0
    ensures Unchanged(a[..], old(a[..]), lo, hi) && multiset(a[..]) == multiset(old(a[..]))
  {
    eop, lb, ub := eop0, lb0, ub0;
    while lb <= ub
      invariant Layout(a[..], lo, hi, pivot, eop, lb, ub)
      invariant lb == lb0 && eop == eop0 && ub <= ub0
      invariant lb <= ub ==> a[lb] > pivot
      invariant Unchanged(a[..], old(a[..]), lo, hi) && multiset(a[..]) == multiset(old(a[..]))
      decreases ub - lb
    {
      var c := a[ub];
      if c <= pivot {
        eop := PlaceFromUpper(a, lo, hi, pivot, eop, lb, ub);
        lb, ub := lb + 1, ub - 1;
        return;
      }
      ub := ub - 1;
    }
  }

  /** The exchanges of the second scan once it meets a key not above the
      pivot at `ub` (with a key above the pivot at `lb`): an equal key goes
      to the end of the equal region (a rotation, or a swap when the below
      region is empty), a key below the pivot trades places with `a[lb]`. */
  method PlaceFromUpper(a: array<int>, lo: nat, hi: nat, pivot: int, eop0: nat, lb: nat, ub: nat) returns (eop: nat)
    requires Layout(a[..], lo, hi, pivot, eop0, lb, ub) && lb <= ub
    requires a[lb] > pivot && a[ub] <= pivot
    modifies a
    ensures Layout(a[..], lo, hi, pivot, eop, lb + 1, ub - 1)
    ensures Unchanged(a[..], old(a[..]), lo, hi) && multiset(a[..]) == multiset(old(a[..]))
  {
    eop := eop0;
    if a[ub] == pivot {
      if eop < lb {
        UpperRotateStep(a[..], lo, hi, pivot, eop, lb, ub);
        Rotate(a, eop, ub, lb);
      } else {
        UpperSwapEqualStep(a[..], lo, hi, pivot, eop, lb, ub);
        Swap(a, eop, ub);
      }
      eop := eop + 1;
    } else {
      UpperSwapBelowStep(a[..], lo, hi, pivot, eop, lb, ub);
      Swap(a, ub, lb);
    }
  }

  /** The partition loop of `InternalQuickSortManaged`, with the first key as
      pivot. On exit the unexamined region is empty (`ub == lb - 1`). */
  method Partition(a: array<int>, lo: nat, hi: nat) returns (eop: nat, lb: nat)
    requires lo < hi <= a.Length
    modifies a
    ensures Layout(a[..], lo, hi, old(a[lo]), eop, lb, lb - 1)
    ensures Unchanged(a[..], old(a[..]), lo, hi) && multiset(a[..]) == multiset(old(a[..]))
  {
    var pivot := a[lo];
    var ub: int;
    eop, lb, ub := lo + 1, lo + 1, hi - 1;
    while lb <= ub
      invariant Layout(a[..], lo, hi, pivot, eop, lb, ub)
      invariant Unchanged(a[..], old(a[..]), lo, hi) && multiset(a[..]) == multiset(old(a[..]))
      decreases ub - lb
    {
      eop, lb := ScanLower(a, lo, hi, pivot, eop, lb, ub);
      eop, lb, ub := ScanUpper(a, lo, hi, pivot, eop, lb, ub);
    }
  }

  /** Reversing `[lo, lb)` turns the partition layout into
      below | equal | above. */
  lemma ExchangeGivesThreeWay(b: seq<int>, c: seq<int>, lo: int, hi: int, pivot: int, eop: int, lb: int)
    requires Layout(b, lo, hi, pivot, eop, lb, lb - 1)
    requires |c| == |b| && c[lb..] == b[lb..]
    requires c[lo..lb] == ReverseArray.Reversed(b[lo..lb])
    ensures ThreeWay(c, lo, lo + lb - eop, lb, hi, pivot)
  {
    forall k | lo <= k < lb
      ensures c[k] == b[lo + lb - 1 - k]
    {
      ReverseArray.ReversedAt(b[lo..lb], k - lo);
      assert c[k] == c[lo..lb][k - lo];
    }
    forall k | lb <= k < hi
      ensures c[k] == b[k]
    {
      assert c[k] == c[lb..][k - lb];
    }
  }

  /** Two steps that each permute `[lo, hi)` and leave the rest alone
      compose into one. */
  lemma Compose(c: seq<int>, b: seq<int>, a: seq<int>, lo: int, hi: int)
    requires Unchanged(c, b, lo, hi) && multiset(c[lo..hi]) == multiset(b[lo..hi])
    requires Unchanged(b, a, lo, hi) && multiset(b[lo..hi]) == multiset(a[lo..hi])
    ensures Unchanged(c, a, lo, hi) && multiset(c[lo..hi]) == multiset(a[lo..hi])
  {
  }

  /** The exchange after the partition loop, as seen from the whole array:
      the layout becomes below | equal | above, `[lo, hi)` is permuted and
      nothing else moves. */
  lemma ExchangeStep(b: seq<int>, c: seq<int>, lo: int, hi: int, pivot: int, eop: int, lb: int)
    requires Layout(b, lo, hi, pivot, eop, lb, lb - 1)
    requires |c| == |b|
    requires c[lo..lb] == ReverseArray.Reversed(b[lo..lb])
    requires c[..lo] == b[..lo] && c[lb..] == b[lb..]
    ensures ThreeWay(c, lo, lo + lb - eop, lb, hi, pivot)
    ensures Unchanged(c, b, lo, hi) && multiset(c[lo..hi]) == multiset(b[lo..hi])
  {
    ExchangeGivesThreeWay(b, c, lo, hi, pivot, eop, lb);
    forall k | 0 <= k < lo
      ensures c[k] == b[k]
    {
      assert c[k] == c[..lo][k];
    }
    forall k | lb <= k < |c|
      ensures c[k] == b[k]
    {
      assert c[k] == c[lb..][k - lb];
    }
    ReverseArray.ReversedHasSameElements(b[lo..lb]);
    Widen(c, b, lo, lo, lb, hi);
  }

  /** After both recursive calls: the lower and upper regions were permuted
      (so their keys stay below and above the pivot) and sorted, and the
      equal region in between was not touched; the whole range is sorted. */
  lemma RoundSorted(c: seq<int>, d: seq<int>, e: seq<int>, lo: int, mid: int, lb: int, hi: int, pivot: int)
    requires ThreeWay(c, lo, mid, lb, hi, pivot)
    requires Unchanged(d, c, lo, mid) && multiset(d[lo..mid]) == multiset(c[lo..mid]) && Sorted(d[lo..mid])
    requires Unchanged(e, d, lb, hi) && multiset(e[lb..hi]) == multiset(d[lb..hi]) && Sorted(e[lb..hi])
    ensures Sorted(e[lo..hi])
  {
    PermutationKeepsBound(d[lo..mid], c[lo..mid], pivot, true);
    PermutationKeepsBound(e[lb..hi], d[lb..hi], pivot, false);
    forall i, j | lo <= i < j < hi
      ensures e[i] <= e[j]
    {
      if j < mid {
        assert e[i] == d[lo..mid][i - lo] && e[j] == d[lo..mid][j - lo];
      } else if lb <= i {
        assert e[i] == e[lb..hi][i - lb] && e[j] == e[lb..hi][j - lb];
      } else if i < mid {
        assert e[i] == d[lo..mid][i - lo];
        if lb <= j {
          assert e[j] == e[lb..hi][j - lb];
        }
      } else if lb <= j {
        assert e[j] == e[lb..hi][j - lb];
      }
    }
  }

  /** `InternalQuickSortManaged` on `a[lo..hi]`: afterwards the range is
      sorted and a permutation of what it held, and nothing outside it has
      changed. Ranges of length 0 or 1 are left alone and a range of length
      2 is swapped only when out of order. */
  method InternalQuickSortManaged(a: array<int>, lo: nat, hi: nat)
    requires lo <= hi <= a.Length
    modifies a
    ensures Sorted(a[lo..hi])
    ensures multiset(a[lo..hi]) == multiset(old(a[lo..hi]))
    ensures Unchanged(a[..], old(a[..]), lo, hi)
    ensures hi - lo <= 1 ==> a[..] == old(a[..])
    ensures hi - lo == 2 && old(a[lo]) <= old(a[lo + 1]) ==> a[..] == old(a[..])
    decreases hi - lo
  {
    if hi - lo <= 1 {
      return;
    }
    if hi - lo == 2 {
      assert hi - 1 == lo + 1;
      if a[lo] > a[lo + 1] {
        Swap(a, lo, lo + 1);
        assert old(a[lo]) > old(a[lo + 1]);
      } else {
        assert a[..] == old(a[..]);
      }
      RangeMultiset(a[..], old(a[..]), lo, hi);
      return;
    }
    var pivot, mid, lb := PartitionRange(a, lo, hi);
    ghost var a2 := a[..];
    InternalQuickSortManaged(a, lo, mid);
    ghost var a3 := a[..];
    Widen(a3, a2, lo, lo, mid, hi);
    Compose(a3, a2, old(a[..]), lo, hi);
    InternalQuickSortManaged(a, lb, hi);
    ghost var a4 := a[..];
    Widen(a4, a3, lo, lb, hi, hi);
    Compose(a4, a3, old(a[..]), lo, hi);
    RoundSorted(a2, a3, a4, lo, mid, lb, hi, pivot);
  }

  /** The partition loop of `InternalQuickSortManaged` followed by its
      exchange loop: `[lo, hi)` is permuted into keys below the first key,
      keys equal to it (at least that key) and keys above it. */
  method PartitionRange(a: array<int>, lo: nat, hi: nat) returns (pivot: int, mid: nat, lb: nat)
    requires lo + 2 < hi <= a.Length
    modifies a
    ensures ThreeWay(a[..], lo, mid, lb, hi, pivot) && mid < lb
    ensures Unchanged(a[..], old(a[..]), lo, hi) && multiset(a[lo..hi]) == multiset(old(a[lo..hi]))
  {
    ghost var a0 := a[..];
    pivot := a[lo];
    var eop;
    eop, lb := Partition(a, lo, hi);
    ghost var a1 := a[..];
    RangeMultiset(a1, a0, lo, hi);
    // The exchange loop of the source swaps from both ends of [0, ub]
    // towards the middle, which is the reversal of that region.
    ReverseArray.InternalReverseArray(a, lo, lb);
    ghost var a2 := a[..];
    ExchangeStep(a1, a2, lo, hi, pivot, eop, lb);
    Compose(a2, a1, a0, lo, hi);
    mid := lo + lb - eop;
  }

  /** `QuickSort(source)`: sorts the whole array in place and returns the
      same reference; a null array is rejected. */
  method QuickSortWhole(source: array?<int>) returns (r: Result<array<int>>)
    modifies source
    ensures source == null <==> r == Err(ArgumentNull)
    ensures source != null ==>
              r == Ok(source) && Sorted(source[..]) && multiset(source[..]) == multiset(old(source[..]))
  {
    if source == null {
      return Err(ArgumentNull);
    }
    InternalQuickSortManaged(source, 0, source.Length);
    assert source[..] == source[0..source.Length];
    assert old(source[..]) == old(source[0..source.Length]);
    return Ok(source);
  }

  /** `QuickSort(source, offset, count)`: sorts `[offset, offset + count)`
      and touches nothing outside it; invalid arguments are rejected before
      anything is changed. */
  method QuickSortRange(source: array?<int>, offset: Int32, count: Int32) returns (r: Result<array<int>>)
    requires source != null ==> source.Length <= INT32_MAX
    modifies source
    ensures source == null ==> r == Err(ArgumentNull)
    ensures source != null ==> r.Err? == CheckRange(source.Length, offset, count).Err?
    ensures source != null && r.Err? ==>
              r == Err(CheckRange(source.Length, offset, count).error) && source[..] == old(source[..])
    ensures r.Ok? ==>
              r.value == source
              && Sorted(source[offset..offset + count])
              && multiset(source[offset..offset + count]) == multiset(old(source[offset..offset + count]))
              && Unchanged(source[..], old(source[..]), offset, offset + count)
  {
    if source == null {
      return Err(ArgumentNull);
    }
    var check := CheckRange(source.Length, offset, count);
    if check.Err? {
      return Err(check.error);
    }
    InternalQuickSortManaged(source, offset, offset + count);
    return Ok(source);
  }
}
