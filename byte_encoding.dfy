/** The integer `SetValueLE` / `SetValueBE` and `InternalCopyValueLE` /
    `InternalCopyValueBE` of `NumericExtensions`: the bytes of a 2-, 4- or
    8-byte integer written into a byte array, least or most significant
    byte first, after the argument checks of the public overloads.

    A signed value is written through its unsigned cast, which is its
    residue modulo 256^size (two's complement). */
module ByteEncoding {
  import opened Wrappers
  import opened Primitives
  import ReverseArray
  import CheckedArithmetic

  function Pow256(k: nat): (r: nat)
    ensures r >= 1
  {
    if k == 0 then 1 else 256 * Pow256(k - 1)
  }

  /** `(Byte)(value >> (8 * k))`: byte k of a non-negative value. */
  function ByteOf(value: nat, k: nat): Byte
  {
    (value / Pow256(k)) % 256
  }

  /** The little-endian image of v in n bytes, as a specification: the low
      byte, then the image of the rest. */
  function LEBytes(v: nat, n: nat): (r: seq<Byte>)
    ensures |r| == n
  {
    if n == 0 then [] else [v % 256] + LEBytes(v / 256, n - 1)
  }

  /** The big-endian image: the image of the rest, then the low byte. */
  function BEBytes(v: nat, n: nat): (r: seq<Byte>)
    ensures |r| == n
  {
    if n == 0 then [] else BEBytes(v / 256, n - 1) + [v % 256]
  }

  /** The value a little-endian byte sequence denotes: the decoding partner
      of `LEBytes`. */
  function FromLE(bytes: seq<Byte>): (r: nat)
    ensures r < Pow256(|bytes|)
  {
    if bytes == [] then 0 else bytes[0] + 256 * FromLE(bytes[1..])
  }

  /** Dividing by a and then by b is dividing by a * b. */
  lemma DivDiv(x: nat, a: nat, b: nat)
    requires a > 0 && b > 0
    ensures x / a / b == x / (a * b)
  {
    var q1: int, r1: int := x / a, x % a;
    CheckedArithmetic.DivisionOfNaturals(x, a);
    var q2: int, r2: int := q1 / b, q1 % b;
    CheckedArithmetic.DivisionOfNaturals(q1, b);
    assert x == q2 * (a * b) + (r2 * a + r1) by {
      assert (q2 * b + r2) * a == q2 * (a * b) + r2 * a;
    }
    CheckedArithmetic.ProductMonotone(a, r2, b - 1);
    assert a * (b - 1) == a * b - a;
    CheckedArithmetic.DivisionOfNaturals(x, a * b);
    CheckedArithmetic.FlooredPairUnique(x, a * b, x / (a * b), x % (a * b), q2, r2 * a + r1);
  }

  /** Byte k of the little-endian image is `(Byte)(v >> (8 * k))`, the byte
      `InternalCopyValueLE` writes at offset k. */
  lemma {:induction false} LEByteAt(v: nat, n: nat, k: nat)
    requires k < n
    ensures LEBytes(v, n)[k] == ByteOf(v, k)
  {
    if k > 0 {
      LEByteAt(v / 256, n - 1, k - 1);
      DivDiv(v, 256, Pow256(k - 1));
    }
  }

  /** The big-endian image is the little-endian image reversed. */
  lemma {:induction false} BEIsReversedLE(v: nat, n: nat)
    ensures BEBytes(v, n) == ReverseArray.Reversed(LEBytes(v, n))
  {
    if n > 0 {
      BEIsReversedLE(v / 256, n - 1);
      assert LEBytes(v, n)[1..] == LEBytes(v / 256, n - 1);
    }
  }

  /** Byte k of the big-endian image is byte n-1-k of the value, the byte
      `InternalCopyValueBE` writes at offset k. */
  lemma BEByteAt(v: nat, n: nat, k: nat)
    requires k < n
    ensures BEBytes(v, n)[k] == ByteOf(v, n - 1 - k)
  {
    BEIsReversedLE(v, n);
    ReverseArray.ReversedAt(LEBytes(v, n), k);
    LEByteAt(v, n, n - 1 - k);
  }

  /** Decoding the little-endian image of a value that fits gives the value
      back. */
  lemma {:induction false} LERoundTrip(v: nat, n: nat)
    requires v < Pow256(n)
    ensures FromLE(LEBytes(v, n)) == v
  {
    if n > 0 {
      LERoundTrip(v / 256, n - 1);
      assert LEBytes(v, n)[1..] == LEBytes(v / 256, n - 1);
    }
  }

  /** Encoding the value a byte sequence denotes gives the sequence back:
      the image is the only one of its length. */
  lemma {:induction false} LEImageIsUnique(bytes: seq<Byte>)
    ensures LEBytes(FromLE(bytes), |bytes|) == bytes
  {
    if bytes != [] {
      LEImageIsUnique(bytes[1..]);
      assert bytes == [bytes[0]] + bytes[1..];
    }
  }

  /** The unsigned cast of a value of `size` bytes: `(UInt16)`, `(UInt32)`
      or `(UInt64)` applied to a signed value, the identity on an unsigned
      one. */
  function Unsigned(value: int, size: nat): nat
  {
    value % Pow256(size)
  }

  lemma EuclideanDivision(x: int, m: int)
    requires m > 0
    ensures x == (x / m) * m + x % m && 0 <= x % m < m
  {
  }

  /** The cast lands in the unsigned range, keeps a value that is already
      there, and stores a negative value that fits the signed type as its
      two's complement value + 256^size. */
  lemma UnsignedIsTwosComplement(value: int, size: nat)
    ensures Unsigned(value, size) < Pow256(size)
    ensures 0 <= value < Pow256(size) ==> Unsigned(value, size) == value
    ensures 0 <= value + Pow256(size) && value < 0 ==> Unsigned(value, size) == value + Pow256(size)
  {
    var m: int := Pow256(size);
    EuclideanDivision(value, m);
    if 0 <= value < m {
      CheckedArithmetic.FlooredPairUnique(value, m, value / m, value % m, 0, value);
    } else if 0 <= value + m && value < 0 {
      CheckedArithmetic.FlooredPairUnique(value, m, value / m, value % m, -1, value + m);
    }
  }

  /** `InternalCopyValueLE(buffer, startIndex, value)` for 2, 4 and 8 bytes:
      byte k of the value goes to `buffer[startIndex + k]`. */
  method InternalCopyValueLE(buffer: array<Byte>, startIndex: nat, value: nat, size: nat)
    requires size in {2, 4, 8} && startIndex + size <= buffer.Length
    modifies buffer
    ensures buffer[startIndex..startIndex + size] == LEBytes(value, size)
    ensures forall i :: 0 <= i < buffer.Length && !(startIndex <= i < startIndex + size) ==>
              buffer[i] == old(buffer[i])
  {
    forall k | 0 <= k < size {
      buffer[startIndex + k] := ByteOf(value, k);
    }
    forall k | 0 <= k < size
      ensures buffer[startIndex..startIndex + size][k] == LEBytes(value, size)[k]
    {
      LEByteAt(value, size, k);
    }
  }

  /** `InternalCopyValueBE(buffer, startIndex, value)` for 2, 4 and 8 bytes:
      byte size-1-k of the value goes to `buffer[startIndex + k]`. */
  method InternalCopyValueBE(buffer: array<Byte>, startIndex: nat, value: nat, size: nat)
    requires size in {2, 4, 8} && startIndex + size <= buffer.Length
    modifies buffer
    ensures buffer[startIndex..startIndex + size] == BEBytes(value, size)
    ensures forall i :: 0 <= i < buffer.Length && !(startIndex <= i < startIndex + size) ==>
              buffer[i] == old(buffer[i])
  {
    forall k | 0 <= k < size {
      buffer[startIndex + k] := ByteOf(value, size - 1 - k);
    }
    forall k | 0 <= k < size
      ensures buffer[startIndex..startIndex + size][k] == BEBytes(value, size)[k]
    {
      BEByteAt(value, size, k);
    }
  }

  /** The argument checks shared by `SetValueLE` and `SetValueBE`, in the
      source's order: null buffer, negative start, a value longer than the
      whole buffer, `checked(startIndex + size)` overflowing, and a value
      ending past the buffer. */
  function CheckSetValue(length: nat, startIndex: Int32, size: nat): (r: Result<()>)
    requires length <= INT32_MAX
    ensures r.Ok? <==> 0 <= startIndex && startIndex + size <= length
    ensures startIndex < 0 ==> r == Err(ArgumentOutOfRange)
    ensures 0 <= startIndex && size > length ==> r == Err(Argument)
    ensures 0 <= startIndex && size <= length < startIndex + size ==>
              r == Err(if startIndex + size > INT32_MAX then Overflow else ArgumentOutOfRange)
  {
    if startIndex < 0 then Err(ArgumentOutOfRange)
    else if size > length then Err(Argument)
    else if startIndex + size > INT32_MAX then Err(Overflow)
    else if startIndex + size > length then Err(ArgumentOutOfRange)
    else Ok(())
  }

  /** `SetValueLE(buffer, startIndex, value)` for the 16-, 32- and 64-bit
      integer types: the checks, then the little-endian bytes of the
      unsigned cast. Nothing is written when a check fails. */
  method SetValueLE(buffer: array?<Byte>, startIndex: Int32, value: int, size: nat) returns (r: Result<()>)
    requires size in {2, 4, 8}
    requires buffer != null ==> buffer.Length <= INT32_MAX
    modifies buffer
    ensures buffer == null ==> r == Err(ArgumentNull)
    ensures buffer != null ==> r == CheckSetValue(buffer.Length, startIndex, size)
    ensures buffer != null && r.Err? ==> buffer[..] == old(buffer[..])
    ensures buffer != null && r.Ok? ==>
              buffer[startIndex..startIndex + size] == LEBytes(Unsigned(value, size), size)
              && buffer[..startIndex] == old(buffer[..startIndex])
              && buffer[startIndex + size..] == old(buffer[startIndex + size..])
  {
    if buffer == null {
      return Err(ArgumentNull);
    }
    r := CheckSetValue(buffer.Length, startIndex, size);
    if r.Err? {
      return;
    }
    UnsignedIsTwosComplement(value, size);
    InternalCopyValueLE(buffer, startIndex, Unsigned(value, size), size);
    assert buffer[..startIndex] == old(buffer[..startIndex]);
    assert buffer[startIndex + size..] == old(buffer[startIndex + size..]);
  }

  /** `SetValueBE(buffer, startIndex, value)`: as `SetValueLE`, most
      significant byte first. */
  method SetValueBE(buffer: array?<Byte>, startIndex: Int32, value: int, size: nat) returns (r: Result<()>)
    requires size in {2, 4, 8}
    requires buffer != null ==> buffer.Length <= INT32_MAX
    modifies buffer
    ensures buffer == null ==> r == Err(ArgumentNull)
    ensures buffer != null ==> r == CheckSetValue(buffer.Length, startIndex, size)
    ensures buffer != null && r.Err? ==> buffer[..] == old(buffer[..])
    ensures buffer != null && r.Ok? ==>
              buffer[startIndex..startIndex + size] == BEBytes(Unsigned(value, size), size)
              && buffer[..startIndex] == old(buffer[..startIndex])
              && buffer[startIndex + size..] == old(buffer[startIndex + size..])
  {
    if buffer == null {
      return Err(ArgumentNull);
    }
    r := CheckSetValue(buffer.Length, startIndex, size);
    if r.Err? {
      return;
    }
    UnsignedIsTwosComplement(value, size);
    InternalCopyValueBE(buffer, startIndex, Unsigned(value, size), size);
    assert buffer[..startIndex] == old(buffer[..startIndex]);
    assert buffer[startIndex + size..] == old(buffer[startIndex + size..]);
  }
}
