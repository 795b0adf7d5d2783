/** The framework every CRC algorithm of the library plugs into: an
    algorithm supplies an initial register value, a one-byte update and a
    finalisation; the framework folds the update over an array range, or
    over bytes handed to a session piece by piece. */
module CrcCalculation {
  import opened Wrappers
  import opened Primitives

  /** A CRC algorithm: `InitialValue`, `Update` and `Finalize` of the
      abstract base class, as values. */
  datatype CrcMethod<!T> = CrcMethod(initialValue: T, update: (T, Byte) -> T, finalize: T -> T)
  {
    /** The register after feeding data to update, starting from state. */
    function Fold(state: T, data: seq<Byte>): T
    {
      if data == [] then state else update(Fold(state, data[..|data| - 1]), data[|data| - 1])
    }

    /** The CRC of data: the fold from the initial value, finalised. */
    function Digest(data: seq<Byte>): T
    {
      finalize(Fold(initialValue, data))
    }

    /** `Calculate(array, offset, count)`: the range is checked as every
        (array, offset, count) overload checks it, then the CRC of the
        range is computed. */
    method Calculate(buffer: array<Byte>, offset: Int32, count: Int32) returns (r: Result<T>)
      requires buffer.Length <= INT32_MAX
      ensures CheckRange(buffer.Length, offset, count).Err? ==> r == Err(CheckRange(buffer.Length, offset, count).error)
      ensures CheckRange(buffer.Length, offset, count).Ok? ==> r == Ok(Digest(buffer[offset..offset + count]))
    {
      var check := CheckRange(buffer.Length, offset, count);
      if check.Err? {
        return Err(check.error);
      }
      var crc := initialValue;
      var index := 0;
      while index < count
        invariant 0 <= index <= count
        invariant crc == Fold(initialValue, buffer[offset..offset + index])
      {
        assert buffer[offset..offset + index + 1] == buffer[offset..offset + index] + [buffer[offset + index]];
        crc := update(crc, buffer[offset + index]);
        index := index + 1;
      }
      r := Ok(finalize(crc));
    }

    /** `Calculate(array)`: the CRC of the whole array. */
    method CalculateAll(buffer: array<Byte>) returns (r: T)
      requires buffer.Length <= INT32_MAX
      ensures r == Digest(buffer[..])
    {
      var result := Calculate(buffer, 0, buffer.Length as Int32);
      assert buffer[0..buffer.Length] == buffer[..];
      r := result.value;
    }

    /** `Calculate(array, offset)` with a signed offset: an offset outside
        [0, buffer.Length] is out of range; otherwise the CRC of the rest of
        the buffer. */
    method CalculateFrom(buffer: array<Byte>, offset: Int32) returns (r: Result<T>)
      requires buffer.Length <= INT32_MAX
      ensures r.Ok? <==> 0 <= offset <= buffer.Length
      ensures r.Err? ==> r.error == ArgumentOutOfRange
      ensures r.Ok? ==> r.value == Digest(buffer[offset..])
    {
      if !(0 <= offset <= buffer.Length) {
        return Err(ArgumentOutOfRange);
      }
      r := Calculate(buffer, offset, (buffer.Length - offset) as Int32);
      assert buffer[offset..offset + (buffer.Length - offset)] == buffer[offset..];
    }

    /** `Calculate(array, offset)` with an unsigned offset: an offset past
        the end is out of range; otherwise the CRC of the rest of the
        buffer. */
    method CalculateFromUnsigned(buffer: array<Byte>, offset: UInt32) returns (r: Result<T>)
      requires buffer.Length <= INT32_MAX
      ensures r.Ok? <==> offset <= buffer.Length
      ensures r.Err? ==> r.error == ArgumentOutOfRange
      ensures r.Ok? ==> r.value == Digest(buffer[offset..])
    {
      if offset > buffer.Length {
        return Err(ArgumentOutOfRange);
      }
      r := Calculate(buffer, offset as Int32, (buffer.Length - offset) as Int32);
      assert buffer[offset..offset + (buffer.Length - offset)] == buffer[offset..];
    }

    /** `Calculate(array, offset, count)` with unsigned arguments: the sum
        is checked in 32 bits, so a range ending past 2^32 - 1 overflows;
        one ending past the buffer is rejected. */
    method CalculateUnsigned(buffer: array<Byte>, offset: UInt32, count: UInt32) returns (r: Result<T>)
      requires buffer.Length <= INT32_MAX
      ensures r.Ok? <==> offset + count <= buffer.Length
      ensures r.Err? ==> r.error == (if offset + count > UINT32_MAX then Overflow else Argument)
      ensures r.Ok? ==> r.value == Digest(buffer[offset..offset + count])
    {
      if offset + count > UINT32_MAX {
        return Err(Overflow);
      }
      if offset + count > buffer.Length {
        return Err(Argument);
      }
      var crc := initialValue;
      var index := 0;
      while index < count
        invariant 0 <= index <= count
        invariant crc == Fold(initialValue, buffer[offset..offset + index])
      {
        assert buffer[offset..offset + index + 1] == buffer[offset..offset + index] + [buffer[offset + index]];
        crc := update(crc, buffer[offset + index]);
        index := index + 1;
      }
      r := Ok(finalize(crc));
    }

    /** `Calculate(ReadOnlySpan<Byte>)`: the CRC of every byte of the span. */
    method CalculateSpan(span: seq<Byte>) returns (r: T)
      ensures r == Digest(span)
    {
      var crc := initialValue;
      var index := 0;
      while index < |span|
        invariant 0 <= index <= |span|
        invariant crc == Fold(initialValue, span[..index])
      {
        assert span[..index + 1] == span[..index] + [span[index]];
        crc := update(crc, span[index]);
        index := index + 1;
      }
      assert span[..index] == span;
      r := finalize(crc);
    }
  }

  /** Feeding a + b is feeding a, then b from where a left the register:
      cutting the input into pieces does not change the CRC. */
  lemma {:induction false} FoldAppend<T>(m: CrcMethod<T>, state: T, a: seq<Byte>, b: seq<Byte>)
    ensures m.Fold(state, a + b) == m.Fold(m.Fold(state, a), b)
    decreases |b|
  {
    if b != [] {
      var last := b[|b| - 1];
      var front := b[..|b| - 1];
      assert (a + b)[..|a + b| - 1] == a + front;
      FoldAppend(m, state, a, front);
      assert (a + b)[|a + b| - 1] == last;
    } else {
      assert a + b == a;
    }
  }

  /** The CRC of a + b is the finalised fold of b from the register a
      leaves: what a session fed a and then b returns. */
  lemma DigestOfPieces<T>(m: CrcMethod<T>, a: seq<Byte>, b: seq<Byte>)
    ensures m.Digest(a + b) == m.finalize(m.Fold(m.Fold(m.initialValue, a), b))
  {
    FoldAppend(m, m.initialValue, a, b);
  }

  /** `CrcCalculationSession`: a register and a byte count that grow as
      bytes are put. `input` is every byte put since creation or the last
      Reset. The count is checked: once more than 2^64 - 1 bytes have been
      put the increment throws and the count stops. */
  class CrcCalculationSession<T> {
    const calculator: CrcMethod<T>
    var state: T
    var length: UInt64
    ghost var input: seq<Byte>

    ghost predicate Valid()
      reads this
    {
      state == calculator.Fold(calculator.initialValue, input)
      && (length == |input| || |input| > UINT64_MAX)
    }

    constructor(calculator: CrcMethod<T>)
      ensures Valid()
      ensures this.calculator == calculator && input == [] && length == 0
    {
      this.calculator := calculator;
      state := calculator.initialValue;
      length := 0;
      input := [];
    }

    /** `Put(Byte)`: one update, then a checked increment of the count. */
    method PutByte(b: Byte) returns (r: Result<()>)
      requires Valid()
      modifies this
      ensures Valid()
      ensures input == old(input) + [b]
      ensures r.Err? <==> old(length) == UINT64_MAX
      ensures r.Err? ==> r.error == Overflow && length == old(length)
      ensures r.Ok? ==> length == old(length) + 1
    {
      state := calculator.update(state, b);
      input := input + [b];
      if length == UINT64_MAX {
        return Err(Overflow);
      }
      length := length + 1;
      r := Ok(());
    }

    /** `Put(data, offset, count)`: the range is checked first and
        nothing changes if it is refused; then every byte of the range is
        put and the count grows by count, checked. */
    method Put(data: array<Byte>, offset: Int32, count: Int32) returns (r: Result<()>)
      requires Valid() && data.Length <= INT32_MAX
      modifies this
      ensures Valid()
      ensures CheckRange(data.Length, offset, count).Err? ==>
                r == CheckRange(data.Length, offset, count) && input == old(input) && length == old(length)
      ensures CheckRange(data.Length, offset, count).Ok? ==>
                input == old(input) + data[offset..offset + count]
                && (r.Err? <==> old(length) + count > UINT64_MAX)
                && (r.Err? ==> r.error == Overflow && length == old(length))
                && (r.Ok? ==> length == old(length) + count)
    {
      var check := CheckRange(data.Length, offset, count);
      if check.Err? {
        return check;
      }
      var index := 0;
      while index < count
        invariant 0 <= index <= count
        invariant input == old(input) + data[offset..offset + index]
        invariant state == calculator.Fold(calculator.initialValue, input)
        invariant length == old(length)
      {
        assert data[offset..offset + index + 1] == data[offset..offset + index] + [data[offset + index]];
        state := calculator.update(state, data[offset + index]);
        input := input + [data[offset + index]];
        index := index + 1;
      }
      if length + count > UINT64_MAX {
        return Err(Overflow);
      }
      length := length + count;
      r := Ok(());
    }

    /** `Put(ReadOnlySpan<Byte>)`: every byte put, then one checked
        addition of the span's length. */
    method PutSpan(span: seq<Byte>) returns (r: Result<()>)
      requires Valid()
      modifies this
      ensures Valid()
      ensures input == old(input) + span
      ensures r.Err? <==> old(length) + |span| > UINT64_MAX
      ensures r.Err? ==> r.error == Overflow && length == old(length)
      ensures r.Ok? ==> length == old(length) + |span|
    {
      var index := 0;
      while index < |span|
        invariant 0 <= index <= |span|
        invariant input == old(input) + span[..index]
        invariant state == calculator.Fold(calculator.initialValue, input)
        invariant length == old(length)
      {
        assert span[..index + 1] == span[..index] + [span[index]];
        state := calculator.update(state, span[index]);
        input := input + [span[index]];
        index := index + 1;
      }
      assert span[..index] == span;
      if length + |span| > UINT64_MAX {
        return Err(Overflow);
      }
      length := length + |span|;
      r := Ok(());
    }

    /** `Put(IEnumerable<Byte>)`: byte by byte, each followed by a checked
        increment, so an overflow stops the enumeration at the byte that
        caused it. */
    method PutSequence(bytes: seq<Byte>) returns (r: Result<()>)
      requires Valid()
      modifies this
      ensures Valid()
      ensures r.Err? <==> old(length) + |bytes| > UINT64_MAX
      ensures r.Err? ==> r.error == Overflow && length == UINT64_MAX
                         && input == old(input) + bytes[..UINT64_MAX - old(length) + 1]
      ensures r.Ok? ==> input == old(input) + bytes && length == old(length) + |bytes|
    {
      var index := 0;
      while index < |bytes|
        invariant 0 <= index <= |bytes|
        invariant input == old(input) + bytes[..index]
        invariant state == calculator.Fold(calculator.initialValue, input)
        invariant length == old(length) + index
      {
        assert bytes[..index + 1] == bytes[..index] + [bytes[index]];
        state := calculator.update(state, bytes[index]);
        input := input + [bytes[index]];
        if length == UINT64_MAX {
          return Err(Overflow);
        }
        length := length + 1;
        index := index + 1;
      }
      assert bytes[..index] == bytes;
      r := Ok(());
    }

    /** `Reset()`: back to the initial register and a zero count. */
    method Reset()
      requires Valid()
      modifies this
      ensures Valid()
      ensures input == [] && length == 0 && state == calculator.initialValue
    {
      state := calculator.initialValue;
      length := 0;
      input := [];
    }

    /** `GetResultValue()`: the CRC of everything put, which is what
        `Calculate` gives for the same bytes, and the count. */
    method GetResultValue() returns (crc: T, count: UInt64)
      requires Valid()
      ensures crc == calculator.Digest(input)
      ensures count == length
      ensures |input| <= UINT64_MAX ==> count == |input|
    {
      crc := calculator.finalize(state);
      count := length;
    }
  }
}
