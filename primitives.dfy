/** The .NET integer types the modelled code works with, and the argument
    check that every offset/count overload repeats before touching an
    array. */
module Primitives {
  import opened Wrappers

  const INT32_MIN: int := -0x8000_0000
  const INT32_MAX: int := 0x7FFF_FFFF
  const UINT32_MAX: int := 0xFFFF_FFFF
  const UINT64_MAX: int := 0xFFFF_FFFF_FFFF_FFFF

  type Int32 = x: int | INT32_MIN <= x <= INT32_MAX
  type UInt16 = x: int | 0 <= x <= 0xFFFF
  type UInt32 = x: int | 0 <= x <= UINT32_MAX
  type UInt64 = x: int | 0 <= x <= UINT64_MAX
  type Byte = x: int | 0 <= x < 256

  /** The argument check of the `(array, offset, count)` overloads:
      a negative offset or count is out of range, `checked(offset + count)`
      overflows above Int32.MaxValue, and a range that ends past the array
      is rejected. */
  function CheckRange(length: nat, offset: Int32, count: Int32): (r: Result<()>)
    requires length <= INT32_MAX
    ensures r.Ok? <==> 0 <= offset && 0 <= count && offset + count <= length
    ensures offset < 0 || count < 0 ==> r == Err(ArgumentOutOfRange)
    ensures 0 <= offset && 0 <= count && offset + count > length ==>
              r == Err(if offset + count > INT32_MAX then Overflow else Argument)
  {
    if offset < 0 then Err(ArgumentOutOfRange)
    else if count < 0 then Err(ArgumentOutOfRange)
    else if offset + count > INT32_MAX then Err(Overflow)
    else if offset + count > length then Err(Argument)
    else Ok(())
  }
}
