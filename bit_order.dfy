/** `NumericExtensions.ReverseBitOrder` and `ReverseByteOrder`: the
    mask-and-shift swap networks that mirror the bits, or the bytes, of an
    unsigned integer. */
module BitOrder {

  /** Bit i of v. */
  predicate Bit8(v: bv8, i: bv8)
    requires i < 8
  {
    (v >> i) & 1 == 1
  }

  predicate Bit16(v: bv16, i: bv8)
    requires i < 16
  {
    (v >> i) & 1 == 1
  }

  predicate Bit32(v: bv32, i: bv8)
    requires i < 32
  {
    (v >> i) & 1 == 1
  }

  predicate Bit64(v: bv64, i: bv8)
    requires i < 64
  {
    (v >> i) & 1 == 1
  }

  /** `ReverseBitOrder(Byte)`: swap nibbles, then bit pairs, then bits. */
  function ReverseBitOrder8(value: bv8): (r: bv8)
    ensures forall i: bv8 | i < 8 :: Bit8(r, i) == Bit8(value, 7 - i)
  {
    var v1 := (value >> 4) | (value << 4);
    var v2 := ((v1 & 0xcc) >> 2) | ((v1 & 0x33) << 2);
    ((v2 & 0xaa) >> 1) | ((v2 & 0x55) << 1)
  }

  /** `ReverseBitOrder(UInt16)`. */
  function ReverseBitOrder16(value: bv16): (r: bv16)
    ensures forall i: bv8 | i < 16 :: Bit16(r, i) == Bit16(value, 15 - i)
  {
    var v1 := (value >> 8) | (value << 8);
    var v2 := ((v1 & 0xf0f0) >> 4) | ((v1 & 0x0f0f) << 4);
    var v3 := ((v2 & 0xcccc) >> 2) | ((v2 & 0x3333) << 2);
    ((v3 & 0xaaaa) >> 1) | ((v3 & 0x5555) << 1)
  }

  /** `ReverseBitOrder(UInt32)`. */
  function ReverseBitOrder32(value: bv32): (r: bv32)
    ensures forall i: bv8 | i < 32 :: Bit32(r, i) == Bit32(value, 31 - i)
  {
    var v1 := (value >> 16) | (value << 16);
    var v2 := ((v1 & 0xff00ff00) >> 8) | ((v1 & 0x00ff00ff) << 8);
    var v3 := ((v2 & 0xf0f0f0f0) >> 4) | ((v2 & 0x0f0f0f0f) << 4);
    var v4 := ((v3 & 0xcccccccc) >> 2) | ((v3 & 0x33333333) << 2);
    ((v4 & 0xaaaaaaaa) >> 1) | ((v4 & 0x55555555) << 1)
  }

  /** `ReverseBitOrder(UInt64)`. */
  function ReverseBitOrder64(value: bv64): (r: bv64)
    ensures forall i: bv8 | i < 64 :: Bit64(r, i) == Bit64(value, 63 - i)
  {
    var v1 := (value >> 32) | (value << 32);
    var v2 := ((v1 & 0xffff0000ffff0000) >> 16) | ((v1 & 0x0000ffff0000ffff) << 16);
    var v3 := ((v2 & 0xff00ff00ff00ff00) >> 8) | ((v2 & 0x00ff00ff00ff00ff) << 8);
    var v4 := ((v3 & 0xf0f0f0f0f0f0f0f0) >> 4) | ((v3 & 0x0f0f0f0f0f0f0f0f) << 4);
    var v5 := ((v4 & 0xcccccccccccccccc) >> 2) | ((v4 & 0x3333333333333333) << 2);
    ((v5 & 0xaaaaaaaaaaaaaaaa) >> 1) | ((v5 & 0x5555555555555555) << 1)
  }

  /** Reversing the bits twice gives the value back, at every width. */
  lemma ReverseBitOrderInvolution(v8: bv8, v16: bv16, v32: bv32, v64: bv64)
    ensures ReverseBitOrder8(ReverseBitOrder8(v8)) == v8
    ensures ReverseBitOrder16(ReverseBitOrder16(v16)) == v16
    ensures ReverseBitOrder32(ReverseBitOrder32(v32)) == v32
    ensures ReverseBitOrder64(ReverseBitOrder64(v64)) == v64
  {
  }

  /** Byte k of v. */
  function Byte32(v: bv32, k: bv8): bv32
    requires k < 4
  {
    (v >> (8 * k)) & 0xff
  }

  function Byte64(v: bv64, k: bv8): bv64
    requires k < 8
  {
    (v >> (8 * k)) & 0xff
  }

  /** `ReverseByteOrder(UInt16)`: swap the two bytes. */
  function ReverseByteOrder16(value: bv16): (r: bv16)
    ensures r & 0xff == value >> 8 && r >> 8 == value & 0xff
  {
    (value >> 8) | (value << 8)
  }

  /** `ReverseByteOrder(UInt32)`: swap the halves, then the bytes in each. */
  function ReverseByteOrder32(value: bv32): (r: bv32)
    ensures forall k: bv8 | k < 4 :: Byte32(r, k) == Byte32(value, 3 - k)
  {
    var v1 := (value >> 16) | (value << 16);
    ((v1 & 0xff00ff00) >> 8) | ((v1 & 0x00ff00ff) << 8)
  }

  /** `ReverseByteOrder(UInt64)`. */
  function ReverseByteOrder64(value: bv64): (r: bv64)
    ensures forall k: bv8 | k < 8 :: Byte64(r, k) == Byte64(value, 7 - k)
  {
    var v1 := (value >> 32) | (value << 32);
    var v2 := ((v1 & 0xffff0000ffff0000) >> 16) | ((v1 & 0x0000ffff0000ffff) << 16);
    ((v2 & 0xff00ff00ff00ff00) >> 8) | ((v2 & 0x00ff00ff00ff00ff) << 8)
  }

  /** Reversing the bytes twice gives the value back, at every width. */
  lemma ReverseByteOrderInvolution(v16: bv16, v32: bv32, v64: bv64)
    ensures ReverseByteOrder16(ReverseByteOrder16(v16)) == v16
    ensures ReverseByteOrder32(ReverseByteOrder32(v32)) == v32
    ensures ReverseByteOrder64(ReverseByteOrder64(v64)) == v64
  {
  }
}
