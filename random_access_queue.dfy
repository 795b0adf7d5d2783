/** `Palmtree.Collections.RandomAccessQueue<ELEMENT_T>`: a FIFO queue kept
    as a sorted dictionary from 64-bit positions to elements. The live
    positions are exactly [indexOfStart, indexOfEnd): `Enqueue` adds at the
    end, `Dequeue` removes at the start, and the indexer reads position
    `indexOfStart + index`. `Normalize` resets the indices of an empty queue
    and, once an index has passed `UInt32.MaxValue`, re-keys the elements
    from 0. */
module RandomAccessQueues {
  import opened Wrappers
  import opened Primitives

  /** The elements at positions first, first + 1, ..., first + n - 1. */
  ghost function Values<T>(q: map<nat, T>, first: nat, n: nat): (r: seq<T>)
    requires forall k :: first <= k < first + n ==> k in q
    ensures |r| == n && forall i :: 0 <= i < n ==> r[i] == q[first + i]
  {
    seq(n, i requires 0 <= i < n => q[first + i])
  }

  /** Two runs of values agree exactly when the elements at corresponding
      positions agree. */
  lemma SameValues<T>(p: map<nat, T>, pFirst: nat, q: map<nat, T>, qFirst: nat, n: nat)
    requires forall k :: pFirst <= k < pFirst + n ==> k in p
    requires forall k :: qFirst <= k < qFirst + n ==> k in q
    ensures Values(p, pFirst, n) == Values(q, qFirst, n) <==>
            forall k :: pFirst <= k < pFirst + n ==> p[k] == q[k - pFirst + qFirst]
  {
    var a, b := Values(p, pFirst, n), Values(q, qFirst, n);
    if forall k :: pFirst <= k < pFirst + n ==> p[k] == q[k - pFirst + qFirst] {
      forall i | 0 <= i < n
        ensures a[i] == b[i]
      {
        assert p[pFirst + i] == q[pFirst + i - pFirst + qFirst];
      }
    }
    if a == b {
      forall k | pFirst <= k < pFirst + n
        ensures p[k] == q[k - pFirst + qFirst]
      {
        assert a[k - pFirst] == b[k - pFirst];
      }
    }
  }

  /** A map whose keys are exactly [first, first + n). */
  ghost predicate KeyedFrom<T>(q: map<nat, T>, first: nat, n: nat)
  {
    (forall k :: k in q <==> first <= k < first + n) && |q| == n
  }

  /** The re-keying `Normalize` intends: the element at position first + i
      moves to position i. */
  method Rebase<T>(q: map<nat, T>, first: nat, n: nat) returns (r: map<nat, T>)
    requires KeyedFrom(q, first, n)
    ensures KeyedFrom(r, 0, n)
    ensures forall i :: 0 <= i < n ==> r[i] == q[first + i]
  {
    r := map[];
    var i := 0;
    while i < n
      invariant 0 <= i <= n
      invariant KeyedFrom(r, 0, i)
      invariant forall j :: 0 <= j < i ==> r[j] == q[first + j]
    {
      r := r[i := q[first + i]];
      i := i + 1;
    }
  }

  /** The re-keying as `Normalize` writes it: a `foreach` over the
      dictionary that removes and re-adds an entry on every step. The
      dictionary's enumerator checks, on every `MoveNext`, that the
      dictionary has not changed since the enumeration began, and throws
      `InvalidOperationException` when it has; `version` counts the
      changes. */
  method RebaseAsWritten<T>(q: map<nat, T>, first: nat, n: nat) returns (r: Result<map<nat, T>>)
    requires KeyedFrom(q, first, n)
    ensures n == 0 ==> r == Ok(q)
    ensures n > 0 ==> r == Err(InvalidOperation)
  {
    var dictionary := q;
    var version, enumeratedVersion := 0, 0;
    var i := 0;
    while true
      invariant 0 <= i <= n
      invariant version == i && enumeratedVersion == 0
      invariant i == 0 ==> dictionary == q
      invariant forall k :: first + i <= k < first + n ==> k in dictionary
      decreases n - i
    {
      // MoveNext
      if version != enumeratedVersion {
        return Err(InvalidOperation);
      }
      if i == n {
        return Ok(dictionary);
      }
      var key := first + i;
      var value := dictionary[key];
      dictionary := (dictionary - {key})[key - first := value];
      version := version + 1;
      i := i + 1;
    }
  }

  class RandomAccessQueue<T(==)> {
    var queue: map<nat, T>
    var indexOfStart: nat
    var indexOfEnd: nat

    /** The positions in use are exactly [indexOfStart, indexOfEnd). */
    ghost predicate Keyed()
      reads this
    {
      indexOfStart <= indexOfEnd && KeyedFrom(queue, indexOfStart, indexOfEnd - indexOfStart)
    }

    /** The state after every public operation: keyed, an empty queue has
        both indices at 0, both indices are at most `UInt32.MaxValue`, and
        the count fits an `Int32`. */
    ghost predicate Valid()
      reads this
    {
      Keyed()
      && (indexOfStart == indexOfEnd ==> indexOfStart == 0)
      && indexOfEnd <= UINT32_MAX
      && indexOfEnd - indexOfStart <= INT32_MAX
    }

    /** The elements, oldest first: the order in which the sorted
        dictionary enumerates its values. */
    ghost function Contents(): (s: seq<T>)
      reads this
      requires Keyed()
      ensures |s| == indexOfEnd - indexOfStart
    {
      Values(queue, indexOfStart, indexOfEnd - indexOfStart)
    }

    /** `new RandomAccessQueue(dataSource)`: the elements of the source, in
        order, at positions 0, 1, .... */
    constructor (dataSource: seq<T>)
      requires |dataSource| <= INT32_MAX
      ensures Valid() && Contents() == dataSource
    {
      queue := map[];
      indexOfStart := 0;
      indexOfEnd := 0;
      new;
      var i := 0;
      while i < |dataSource|
        invariant 0 <= i <= |dataSource|
        invariant indexOfStart == 0 && indexOfEnd == i
        invariant KeyedFrom(queue, 0, i)
        invariant forall j :: 0 <= j < i ==> queue[j] == dataSource[j]
      {
        queue := queue[indexOfEnd := dataSource[i]];
        indexOfEnd := indexOfEnd + 1;
        i := i + 1;
      }
    }

    /** `Clear()`: the queue becomes empty with both indices at 0. */
    method Clear()
      modifies this
      ensures Valid() && Contents() == []
      ensures indexOfStart == 0 && indexOfEnd == 0
    {
      queue := map[];
      indexOfStart := 0;
      indexOfEnd := 0;
    }

    /** `Normalize()`: an empty queue gets both indices reset to 0; once an
        index has passed `UInt32.MaxValue` the elements are re-keyed from 0.
        The elements and their order do not change. */
    method Normalize()
      requires Keyed() && indexOfEnd <= UINT32_MAX + 1 && indexOfEnd - indexOfStart <= INT32_MAX
      modifies this
      ensures Valid() && Contents() == old(Contents())
      ensures old(|queue|) == 0 ==> indexOfStart == 0 && indexOfEnd == 0
      ensures old(indexOfStart) > UINT32_MAX || old(indexOfEnd) > UINT32_MAX ==> indexOfStart == 0
      ensures old(indexOfStart) <= UINT32_MAX && old(indexOfEnd) <= UINT32_MAX && old(|queue|) > 0 ==>
                indexOfStart == old(indexOfStart) && indexOfEnd == old(indexOfEnd)
    {
      if |queue| <= 0 {
        indexOfStart := 0;
        indexOfEnd := 0;
      }
      if indexOfStart > UINT32_MAX || indexOfEnd > UINT32_MAX {
        var count := indexOfEnd - indexOfStart;
        if count > 0 {
          queue := Rebase(queue, indexOfStart, count);
        }
        indexOfStart := 0;
        indexOfEnd := count;
      }
    }

    /** `Enqueue(value)`: the value becomes the newest element. */
    method Enqueue(value: T)
      requires Valid() && |Contents()| < INT32_MAX
      modifies this
      ensures Valid() && Contents() == old(Contents()) + [value]
    {
      ghost var was := Contents();
      queue := queue[indexOfEnd := value];
      indexOfEnd := indexOfEnd + 1;
      assert Contents() == was + [value];
      Normalize();
    }

    /** `Dequeue()`: removes and returns the oldest element; an empty queue
        is an invalid operation. */
    method Dequeue() returns (r: Result<T>)
      requires Valid()
      modifies this
      ensures Valid()
      ensures r.Err? <==> old(Contents()) == []
      ensures r.Err? ==> r.error == InvalidOperation && Contents() == old(Contents())
      ensures r.Ok? ==> r.value == old(Contents())[0] && Contents() == old(Contents())[1..]
    {
      if |queue| <= 0 {
        return Err(InvalidOperation);
      }
      ghost var was := Contents();
      var value := queue[indexOfStart];
      assert (queue - {indexOfStart}).Keys == queue.Keys - {indexOfStart};
      queue := queue - {indexOfStart};
      indexOfStart := indexOfStart + 1;
      assert Contents() == was[1..];
      Normalize();
      return Ok(value);
    }

    /** `Count` and `Length`: the number of elements. */
    function Count(): (r: nat)
      reads this
      requires Valid()
      ensures r == |Contents()|
    {
      |queue|
    }

    /** `this[index]`: the element `index` places after the oldest; an index
        outside [0, Count) is out of range. */
    method Get(index: Int32) returns (r: Result<T>)
      requires Valid()
      ensures r.Ok? <==> 0 <= index < |Contents()|
      ensures r.Ok? ==> r.value == Contents()[index]
      ensures r.Err? ==> r.error == ArgumentOutOfRange
    {
      if !(0 <= index < |queue|) {
        return Err(ArgumentOutOfRange);
      }
      var key := indexOfStart + index;
      if key > UINT64_MAX || key !in queue {
        return Err(ArgumentOutOfRange);
      }
      return Ok(queue[key]);
    }

    /** `Equals(other)`: the same count and the same elements in the same
        order; null is never equal. */
    function Equals(other: RandomAccessQueue?<T>): (r: bool)
      reads this, other
      requires Valid() && (other != null ==> other.Valid())
      ensures r <==> other != null && Contents() == other.Contents()
    {
      other != null && |queue| == |other.queue|
      && (SameValues(queue, indexOfStart, other.queue, other.indexOfStart, |queue|);
          forall k :: indexOfStart <= k < indexOfEnd ==>
            queue[k] == other.queue[k - indexOfStart + other.indexOfStart])
    }

    /** `Clone()`: a new queue with the same elements, keyed from 0. */
    method Clone() returns (c: RandomAccessQueue<T>)
      requires Valid()
      ensures fresh(c) && c.Valid() && c.Contents() == Contents()
    {
      var values := seq(|queue|, i requires 0 <= i < |queue| && indexOfStart + i in queue
                                   reads this => queue[indexOfStart + i]);
      c := new RandomAccessQueue(values);
    }
  }

  /** Two queues holding the same elements are equal whatever their
      positions, and equality is reflexive and symmetric. */
  lemma EqualsIgnoresPositions<T>(a: RandomAccessQueue<T>, b: RandomAccessQueue<T>)
    requires a.Valid() && b.Valid()
    ensures a.Equals(a)
    ensures a.Equals(b) <==> b.Equals(a)
    ensures a.Equals(b) <==> a.Contents() == b.Contents()
  {
  }
}
