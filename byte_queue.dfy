/** `Palmtree.Collections.ByteQueue`: a fixed-size ring buffer of bytes
    with a start index and a count of available bytes. `Read` takes bytes
    from the start, `Write` appends after the last one, each moving at most
    one contiguous stretch of the ring per call, and `Compete` marks the
    queue as finished for writers.

    The buffer size is clamped to [1024, 1048576], the release-build
    minimum; the lock the source takes around each operation is not
    modelled. */
module ByteQueues {
  import opened Wrappers
  import opened Primitives

  const MINIMUM_BUFFER_SIZE: nat := 1024
  const DEFAULT_BUFFER_SIZE: nat := 64 * 1024
  const MAXIMUM_BUFFER_SIZE: nat := 1024 * 1024

  function Min(x: int, y: int): int
  {
    if x <= y then x else y
  }

  /** `bufferSize.Maximum(MINIMUM).Minimum(MAXIMUM)`: the size clamped to
      the allowed range. */
  function Capacity(bufferSize: Int32): (r: nat)
    requires bufferSize > 0
    ensures MINIMUM_BUFFER_SIZE <= r <= MAXIMUM_BUFFER_SIZE
    ensures MINIMUM_BUFFER_SIZE <= bufferSize <= MAXIMUM_BUFFER_SIZE ==> r == bufferSize
    ensures bufferSize < MINIMUM_BUFFER_SIZE ==> r == MINIMUM_BUFFER_SIZE
    ensures bufferSize > MAXIMUM_BUFFER_SIZE ==> r == MAXIMUM_BUFFER_SIZE
  {
    var atLeast := if bufferSize < MINIMUM_BUFFER_SIZE then MINIMUM_BUFFER_SIZE else bufferSize;
    if atLeast > MAXIMUM_BUFFER_SIZE then MAXIMUM_BUFFER_SIZE else atLeast
  }

  class ByteQueue {
    var buffer: array<Byte>
    var start: nat
    var available: nat
    var completed: bool

    /** The start lies inside the buffer and the data fits in it. */
    ghost predicate Valid()
      reads this
    {
      buffer.Length > 0 && start < buffer.Length && available <= buffer.Length
    }

    /** The queued bytes, oldest first: from the start to the end of the
        buffer, then wrapping round to its beginning. */
    ghost function Contents(): (s: seq<Byte>)
      reads this, buffer
      requires Valid()
      ensures |s| == available
    {
      Ring(buffer[..], start, available)
    }

    /** `new ByteQueue(bufferSize)` after the size check. */
    constructor (capacity: nat)
      requires capacity > 0
      ensures Valid() && fresh(buffer) && buffer.Length == capacity
      ensures Contents() == [] && !completed
    {
      buffer := new Byte[capacity](_ => 0);
      start := 0;
      available := 0;
      completed := false;
    }

    /** `new ByteQueue(bufferSize)`: a size of 0 or less is out of range. */
    static method Create(bufferSize: Int32) returns (r: Result<ByteQueue>)
      ensures r.Err? <==> bufferSize <= 0
      ensures r.Err? ==> r.error == ArgumentOutOfRange
      ensures r.Ok? ==>
                fresh(r.value) && r.value.Valid() && r.value.buffer.Length == Capacity(bufferSize)
                && r.value.Contents() == [] && !r.value.completed
    {
      if bufferSize <= 0 {
        return Err(ArgumentOutOfRange);
      }
      var q := new ByteQueue(Capacity(bufferSize));
      return Ok(q);
    }

    /** `IsEmpty`: no byte is queued. */
    function IsEmpty(): (r: bool)
      reads this, buffer
      requires Valid()
      ensures r <==> Contents() == []
    {
      available <= 0
    }

    /** `IsFull`: every cell of the buffer holds queued data. */
    function IsFull(): (r: bool)
      reads this, buffer
      requires Valid()
      ensures r <==> |Contents()| == buffer.Length
    {
      available >= buffer.Length
    }

    /** `FreeAreaCount`: the cells not holding queued data. */
    function FreeAreaCount(): (r: nat)
      reads this, buffer
      requires Valid()
      ensures r + |Contents()| == buffer.Length
    {
      buffer.Length - available
    }

    /** `Read(buffer)`: copies the oldest bytes, as many as fit in `dest`,
        are available and lie before the end of the internal buffer, and
        removes them from the queue. An empty queue gives 0. */
    method Read(dest: array<Byte>) returns (count: nat)
      requires Valid() && dest != buffer
      modifies this`start, this`available, dest
      ensures Valid() && buffer == old(buffer) && completed == old(completed)
      ensures count == Min(Min(dest.Length, old(available)), buffer.Length - old(start))
      ensures old(available) == 0 ==> count == 0
      ensures dest[..count] == old(Contents())[..count]
      ensures dest[count..] == old(dest[count..])
      ensures Contents() == old(Contents())[count..]
    {
      var actual := Min(Min(dest.Length, available), buffer.Length - start);
      if actual <= 0 {
        return 0;
      }
      ghost var cells := buffer[..];
      RingTake(cells, start, available, actual);
      CopyOut(buffer, start, dest, actual);
      start := start + actual;
      available := available - actual;
      if start >= buffer.Length {
        start := 0;
      }
      count := actual;
    }

    /** `Write(buffer)`: appends as many bytes of `src` as fit in the free
        stretch that follows the data without crossing the end of the
        internal buffer. Writing after `Compete` is an invalid operation. */
    method Write(src: seq<Byte>) returns (r: Result<nat>)
      requires Valid()
      modifies this`available, buffer
      ensures Valid() && buffer == old(buffer) && start == old(start) && completed == old(completed)
      ensures old(completed) <==> r.Err?
      ensures r.Err? ==> r.error == InvalidOperation && Contents() == old(Contents())
      ensures r.Ok? ==>
                r.value == (if old(start) + old(available) >= buffer.Length
                            then Min(|src|, buffer.Length - old(available))
                            else Min(|src|, buffer.Length - (old(start) + old(available))))
      ensures r.Ok? ==> r.value <= |src| && r.value <= buffer.Length - old(available)
      ensures r.Ok? ==> Contents() == old(Contents()) + src[..r.value]
    {
      if completed {
        return Err(InvalidOperation);
      }
      var end := start + available;
      var offset, actual;
      if end >= buffer.Length {
        offset, actual := end - buffer.Length, Min(|src|, buffer.Length - available);
      } else {
        offset, actual := end, Min(|src|, buffer.Length - end);
      }
      ghost var before := buffer[..];
      CopyIn(src[..actual], buffer, offset);
      WrittenContents(before, buffer[..], start, available, offset, actual, src[..actual]);
      available := available + actual;
      return Ok(actual);
    }

    /** `Compete()`: no further writes are accepted; reads go on. */
    method Compete()
      requires Valid()
      modifies this`completed
      ensures Valid() && completed
      ensures Contents() == old(Contents())
    {
      completed := true;
    }
  }

  /** `src.AsSpan(from, count).CopyTo(dest[..count])`: the first count
      cells of dest receive the cells of src from `from` on; the rest of dest
      is left as it was. */
  method CopyOut(src: array<Byte>, from: nat, dest: array<Byte>, count: nat)
    requires src != dest && from + count <= src.Length && count <= dest.Length
    modifies dest
    ensures dest[..count] == src[from..from + count]
    ensures dest[count..] == old(dest[count..])
  {
    forall k | 0 <= k < count {
      dest[k] := src[from + k];
    }
    assert dest[..count] == src[from..from + count];
  }

  /** `src.CopyTo(dest.AsSpan(offset, |src|))`: the cells of dest from
      offset on receive src; the others are left as they were. */
  method CopyIn(src: seq<Byte>, dest: array<Byte>, offset: nat)
    requires offset + |src| <= dest.Length
    modifies dest
    ensures dest[..] == old(dest[..])[..offset] + src + old(dest[..])[offset + |src|..]
  {
    forall k | 0 <= k < |src| {
      dest[offset + k] := src[k];
    }
    ghost var expected := old(dest[..])[..offset] + src + old(dest[..])[offset + |src|..];
    forall i | 0 <= i < dest.Length
      ensures dest[i] == expected[i]
    {
      if offset <= i < offset + |src| {
        assert dest[offset + (i - offset)] == src[i - offset];
      }
    }
  }

  /** The ring contents of `cells` from `start`, `count` long. */
  ghost function Ring(cells: seq<Byte>, start: nat, count: nat): (s: seq<Byte>)
    requires start < |cells| && count <= |cells|
    ensures |s| == count
  {
    if start + count <= |cells| then cells[start..start + count]
    else cells[start..] + cells[..start + count - |cells|]
  }

  /** Element k of the ring is the cell k places after the start, wrapping
      round once. */
  lemma RingAt(cells: seq<Byte>, start: nat, count: nat, k: nat)
    requires start < |cells| && count <= |cells| && k < count
    ensures Ring(cells, start, count)[k]
            == cells[if start + k < |cells| then start + k else start + k - |cells|]
  {
  }

  /** Taking the first `actual` bytes of the ring, when they lie before the
      end of the cells, leaves the ring that starts just after them. */
  lemma RingTake(cells: seq<Byte>, start: nat, count: nat, actual: nat)
    requires start < |cells| && count <= |cells| && 0 < actual <= count && start + actual <= |cells|
    ensures Ring(cells, start, count)[..actual] == cells[start..start + actual]
    ensures var next := if start + actual >= |cells| then 0 else start + actual;
            Ring(cells, next, count - actual) == Ring(cells, start, count)[actual..]
  {
    RingHead(cells, start, count, actual);
    RingRest(cells, start, count, actual);
  }

  /** The first `actual` bytes of the ring, when they lie before the end of
      the cells. */
  lemma RingHead(cells: seq<Byte>, start: nat, count: nat, actual: nat)
    requires start < |cells| && count <= |cells| && 0 < actual <= count && start + actual <= |cells|
    ensures Ring(cells, start, count)[..actual] == cells[start..start + actual]
  {
    var ring := Ring(cells, start, count);
    forall k | 0 <= k < actual
      ensures ring[..actual][k] == cells[start..start + actual][k]
    {
      RingAt(cells, start, count, k);
    }
  }

  /** The ring after its first `actual` bytes starts just after them. */
  lemma RingRest(cells: seq<Byte>, start: nat, count: nat, actual: nat)
    requires start < |cells| && count <= |cells| && 0 < actual <= count && start + actual <= |cells|
    ensures var next := if start + actual >= |cells| then 0 else start + actual;
            Ring(cells, next, count - actual) == Ring(cells, start, count)[actual..]
  {
    var n := |cells|;
    var ring := Ring(cells, start, count);
    var next := if start + actual >= n then 0 else start + actual;
    var rest := Ring(cells, next, count - actual);
    forall k | 0 <= k < count - actual
      ensures rest[k] == ring[actual..][k]
    {
      RingAt(cells, next, count - actual, k);
      RingAt(cells, start, count, actual + k);
      var i := if next + k < n then next + k else next + k - n;
      assert i == if start + actual + k < n then start + actual + k else start + actual + k - n;
      assert rest[k] == cells[i] == ring[actual + k];
    }
  }

  /** Writing `data` into the free cells that follow the ring extends the
      ring by `data`. */
  lemma WrittenContents(before: seq<Byte>, after: seq<Byte>, start: nat, count: nat,
                        offset: nat, actual: nat, data: seq<Byte>)
    requires |before| == |after| && start < |before| && count + actual <= |before|
    requires |data| == actual
    requires offset == if start + count >= |before| then start + count - |before| else start + count
    requires offset + actual <= |before|
    requires after == before[..offset] + data + before[offset + actual..]
    ensures Ring(after, start, count + actual) == Ring(before, start, count) + data
  {
    var n := |before|;
    var lhs, rhs := Ring(after, start, count + actual), Ring(before, start, count) + data;
    forall k | 0 <= k < count + actual
      ensures lhs[k] == rhs[k]
    {
      var i := if start + k < n then start + k else start + k - n;
      RingAt(after, start, count + actual, k);
      assert lhs[k] == after[i];
      CellAfterWrite(before, after, offset, data, i);
      if k < count {
        RingAt(before, start, count, k);
        assert rhs[k] == before[i];
        assert i < offset || offset + actual <= i;
        assert after[i] == before[i];
      } else {
        assert i == offset + (k - count);
        assert rhs[k] == data[k - count];
        assert after[i] == data[k - count];
      }
    }
  }

  /** A cell after writing `data` at `offset`: the data where it was
      written, the old cell elsewhere. */
  lemma CellAfterWrite(before: seq<Byte>, after: seq<Byte>, offset: nat, data: seq<Byte>, i: nat)
    requires offset + |data| <= |before| && i < |before|
    requires after == before[..offset] + data + before[offset + |data|..]
    ensures after[i] == if offset <= i < offset + |data| then data[i - offset] else before[i]
  {
  }
}
