/** The integer arithmetic of `NumericExtensions`: the checked sum and
    difference of an unsigned and a signed value (`AddAsUInt`,
    `SubtractAsUInt`) and floored division (`DivMod`, `Modulo`), whose
    remainder takes the sign of the divisor rather than of the dividend. */
module CheckedArithmetic {
  import opened Wrappers

  /** The operand width of an overload: 32 or 64 bits. */
  datatype Width = W32 | W64

  function UnsignedMax(w: Width): nat
  {
    match w
    case W32 => 0xFFFF_FFFF
    case W64 => 0xFFFF_FFFF_FFFF_FFFF
  }

  function SignedMin(w: Width): int
  {
    match w
    case W32 => -0x8000_0000
    case W64 => -0x8000_0000_0000_0000
  }

  function SignedMax(w: Width): int
  {
    -SignedMin(w) - 1
  }

  predicate IsUnsigned(w: Width, x: int)
  {
    0 <= x <= UnsignedMax(w)
  }

  predicate IsSigned(w: Width, x: int)
  {
    SignedMin(w) <= x <= SignedMax(w)
  }

  /** A `checked` unsigned result: the value, or an overflow when it falls
      outside the unsigned range. */
  function CheckedUnsigned(w: Width, x: int): (r: Result<int>)
    ensures r.Ok? <==> IsUnsigned(w, x)
    ensures r.Ok? ==> r.value == x
    ensures r.Err? ==> r.error == Overflow
  {
    if IsUnsigned(w, x) then Ok(x) else Err(Overflow)
  }

  /** `AddAsUInt(x, y)`: a non-negative y is added; a negative y is
      subtracted as its magnitude, with `Int64.MinValue` (or
      `Int32.MinValue`) written as `MaxValue + 1` because its magnitude does
      not fit the signed type. */
  function AddAsUInt(w: Width, x: int, y: int): (r: Result<int>)
    requires IsUnsigned(w, x) && IsSigned(w, y)
    ensures r.Ok? <==> IsUnsigned(w, x + y)
    ensures r.Ok? ==> r.value == x + y
    ensures r.Err? ==> r.error == Overflow
  {
    if y >= 0 then CheckedUnsigned(w, x + y)
    else if y != SignedMin(w) then CheckedUnsigned(w, x - -y)
    else
      // checked(x - MaxValue - 1): the first subtraction already fails when
      // x < MaxValue.
      var d := CheckedUnsigned(w, x - SignedMax(w));
      if d.Err? then d else CheckedUnsigned(w, d.value - 1)
  }

  /** `SubtractAsUInt(x, y)`: the mirror image of `AddAsUInt`. */
  function SubtractAsUInt(w: Width, x: int, y: int): (r: Result<int>)
    requires IsUnsigned(w, x) && IsSigned(w, y)
    ensures r.Ok? <==> IsUnsigned(w, x - y)
    ensures r.Ok? ==> r.value == x - y
    ensures r.Err? ==> r.error == Overflow
  {
    if y >= 0 then CheckedUnsigned(w, x - y)
    else if y != SignedMin(w) then CheckedUnsigned(w, x + -y)
    else
      // checked(x + MaxValue + 1)
      var s := CheckedUnsigned(w, x + SignedMax(w));
      if s.Err? then s else CheckedUnsigned(w, s.value + 1)
  }

  /** Subtracting y undoes adding it. */
  lemma SubtractUndoesAdd(w: Width, x: int, y: int)
    requires IsUnsigned(w, x) && IsSigned(w, y)
    requires AddAsUInt(w, x, y).Ok?
    ensures SubtractAsUInt(w, AddAsUInt(w, x, y).value, y) == Ok(x)
  {
  }

  function Abs(x: int): nat
  {
    if x < 0 then -x else x
  }

  lemma NegateProduct(x: int, y: int)
    ensures (-x) * y == -(x * y) && x * (-y) == -(x * y)
  {
  }

  lemma ProductMonotone(x: nat, y: nat, z: nat)
    requires y <= z
    ensures x * y <= x * z
  {
    assert x * z - x * y == x * (z - y);
  }

  /** `Math.DivRem` on signed operands: the quotient truncated toward zero
      and the remainder with the sign of the dividend. The one overflowing
      case, `MinValue / -1`, is excluded by the callers below. */
  function TruncatedDivRem(dividend: int, divisor: int): (int, int)
    requires divisor != 0
  {
    if dividend >= 0 then
      if divisor > 0 then (dividend / divisor, dividend % divisor)
      else (-(dividend / -divisor), dividend % -divisor)
    else
      if divisor > 0 then (-(-dividend / divisor), -(-dividend % divisor))
      else (-dividend / -divisor, -(-dividend % -divisor))
  }

  lemma DivisionOfNaturals(a: int, b: int)
    requires a >= 0 && b > 0
    ensures a == (a / b) * b + a % b && 0 <= a % b < b
  {
  }

  /** `Math.DivRem` divides truncating toward zero: the remainder has the
      dividend's sign and is smaller than the divisor in magnitude. */
  lemma TruncatedDivRemSpec(dividend: int, divisor: int)
    requires divisor != 0
    ensures dividend == TruncatedDivRem(dividend, divisor).0 * divisor + TruncatedDivRem(dividend, divisor).1
    ensures dividend >= 0 ==> 0 <= TruncatedDivRem(dividend, divisor).1 < Abs(divisor)
    ensures dividend < 0 ==>
              TruncatedDivRem(dividend, divisor).1 <= 0 && Abs(TruncatedDivRem(dividend, divisor).1) < Abs(divisor)
  {
    var a: int, b: int := Abs(dividend), Abs(divisor);
    DivisionOfNaturals(a, b);
    var q: int, m: int := a / b, a % b;
    if dividend >= 0 && divisor < 0 {
      assert TruncatedDivRem(dividend, divisor) == (-q, m);
      assert (-q) * divisor == q * b;
    } else if dividend < 0 && divisor > 0 {
      assert TruncatedDivRem(dividend, divisor) == (-q, -m);
      assert (-q) * divisor == -(q * b);
    } else if dividend < 0 && divisor < 0 {
      assert TruncatedDivRem(dividend, divisor) == (q, -m);
      assert q * divisor == -(q * b);
    }
  }

  lemma QuotientOfNaturals(a: int, b: int)
    requires a >= 0 && b > 0
    ensures 0 <= a / b <= a
    ensures b >= 2 ==> 2 * (a / b) <= a
  {
    var q: int := a / b;
    DivisionOfNaturals(a, b);
    assert q >= 0;
    ProductMonotone(q, 1, b);
    if b >= 2 {
      ProductMonotone(q, 2, b);
    }
  }

  /** The truncated quotient is no larger than the dividend in magnitude,
      and at most half of it when the divisor's magnitude is 2 or more. */
  lemma TruncatedQuotientBound(dividend: int, divisor: int)
    requires divisor != 0
    ensures Abs(TruncatedDivRem(dividend, divisor).0) <= Abs(dividend)
    ensures Abs(divisor) >= 2 ==> 2 * Abs(TruncatedDivRem(dividend, divisor).0) <= Abs(dividend)
  {
    var a: int, b: int := Abs(dividend), Abs(divisor);
    QuotientOfNaturals(a, b);
    var q: int := a / b;
    if dividend >= 0 && divisor > 0 {
      assert TruncatedDivRem(dividend, divisor).0 == q;
    } else if dividend >= 0 {
      assert TruncatedDivRem(dividend, divisor).0 == -q;
    } else if divisor > 0 {
      assert TruncatedDivRem(dividend, divisor).0 == -q;
    } else {
      assert TruncatedDivRem(dividend, divisor).0 == q;
    }
  }

  /** Two's-complement wrap-around of an unchecked signed result. */
  function Wrap(w: Width, x: int): (r: int)
    ensures IsSigned(w, r)
    ensures IsSigned(w, x) ==> r == x
  {
    var modulus := UnsignedMax(w) + 1;
    var u := x % modulus;
    if u > SignedMax(w) then u - modulus else u
  }

  /** `DivMod(dividend, divisor)` for `Int32` and `Int64` as written: when a
      non-negative dividend is divided by a negative divisor and leaves a
      positive remainder, the correction steps the quotient up and the
      remainder away from zero (unchecked), which leaves the remainder with
      the dividend's sign instead of the divisor's. */
  function DivModAsWritten(w: Width, dividend: int, divisor: int): Result<(int, int)>
    requires IsSigned(w, dividend) && IsSigned(w, divisor)
  {
    if divisor > 0 then
      if dividend >= 0 then
        Ok(TruncatedDivRem(dividend, divisor))
      else
        var (q, m) := TruncatedDivRem(dividend, divisor);
        if m < 0 then Ok((q - 1, m + divisor)) else Ok((q, m))
    else if divisor < 0 then
      if dividend >= 0 then
        var (q, m) := TruncatedDivRem(dividend, divisor);
        if m > 0 then Ok((Wrap(w, q + 1), Wrap(w, m - divisor))) else Ok((q, m))
      else if dividend == SignedMin(w) && divisor == -1 then
        Err(Overflow)
      else
        Ok(TruncatedDivRem(dividend, divisor))
    else
      Err(DivideByZero)
  }

  /** `7.DivMod(-2)` as written yields (-2, 3): the identity holds, but the
      remainder 3 is positive and larger than the divisor's magnitude. */
  lemma DivModAsWrittenMisplacesRemainder()
    ensures DivModAsWritten(W32, 7, -2) == Ok((-2, 3))
    ensures !(-2 < 3 <= 0)
  {
    assert TruncatedDivRem(7, -2) == (-3, 1);
  }

  /** `DivMod(dividend, divisor)` for `Int32` and `Int64`, with the
      correction for a negative divisor stepping the quotient down and the
      remainder into the divisor's sign, mirroring the positive-divisor
      branch. A zero divisor throws, and so does `MinValue / -1`, whose
      quotient does not fit. */
  function DivMod(w: Width, dividend: int, divisor: int): Result<(int, int)>
    requires IsSigned(w, dividend) && IsSigned(w, divisor)
  {
    if divisor > 0 then
      if dividend >= 0 then
        Ok(TruncatedDivRem(dividend, divisor))
      else
        var (q, m) := TruncatedDivRem(dividend, divisor);
        if m < 0 then Ok((q - 1, m + divisor)) else Ok((q, m))
    else if divisor < 0 then
      if dividend >= 0 then
        var (q, m) := TruncatedDivRem(dividend, divisor);
        if m > 0 then Ok((q - 1, m + divisor)) else Ok((q, m))
      else if dividend == SignedMin(w) && divisor == -1 then
        Err(Overflow)
      else
        Ok(TruncatedDivRem(dividend, divisor))
    else
      Err(DivideByZero)
  }

  /** `DivMod` is floored division: dividend = q * divisor + m with m zero
      or of the divisor's sign and smaller than it in magnitude, and both
      results fit the operand type. It fails exactly for a zero divisor and
      for `MinValue / -1`. */
  lemma DivModFloored(w: Width, dividend: int, divisor: int)
    requires IsSigned(w, dividend) && IsSigned(w, divisor)
    ensures divisor == 0 ==> DivMod(w, dividend, divisor) == Err(DivideByZero)
    ensures divisor != 0 ==>
              (DivMod(w, dividend, divisor).Err? <==> dividend == SignedMin(w) && divisor == -1)
    ensures divisor != 0 && DivMod(w, dividend, divisor).Err? ==> DivMod(w, dividend, divisor).error == Overflow
    ensures DivMod(w, dividend, divisor).Ok? ==>
              var (q, m) := DivMod(w, dividend, divisor).value;
              dividend == q * divisor + m
              && (divisor > 0 ==> 0 <= m < divisor)
              && (divisor < 0 ==> divisor < m <= 0)
              && IsSigned(w, q) && IsSigned(w, m)
  {
    if divisor != 0 {
      TruncatedDivRemSpec(dividend, divisor);
      TruncatedQuotientBound(dividend, divisor);
      var q: int, m: int := TruncatedDivRem(dividend, divisor).0, TruncatedDivRem(dividend, divisor).1;
      if (dividend < 0 && divisor > 0 && m < 0) || (dividend >= 0 && divisor < 0 && m > 0) {
        StepDown(dividend, divisor, q, m);
        assert DivMod(w, dividend, divisor) == Ok((q - 1, m + divisor));
      } else if !(dividend == SignedMin(w) && divisor == -1) {
        assert DivMod(w, dividend, divisor) == Ok((q, m));
      }
    }
  }

  /** Moving one divisor from the remainder into the quotient keeps the
      identity. */
  lemma StepDown(dividend: int, divisor: int, q: int, m: int)
    requires dividend == q * divisor + m
    ensures dividend == (q - 1) * divisor + (m + divisor)
  {
    assert (q - 1) * divisor == q * divisor - divisor;
  }

  /** The floored quotient and remainder are unique: any pair meeting the
      `DivMod` contract is the one it returns. */
  lemma DivModUnique(w: Width, dividend: int, divisor: int, q: int, m: int)
    requires IsSigned(w, dividend) && IsSigned(w, divisor)
    requires DivMod(w, dividend, divisor).Ok?
    requires dividend == q * divisor + m
    requires divisor > 0 ==> 0 <= m < divisor
    requires divisor < 0 ==> divisor < m <= 0
    ensures DivMod(w, dividend, divisor).value == (q, m)
  {
    DivModFloored(w, dividend, divisor);
    var r := DivMod(w, dividend, divisor).value;
    FlooredPairUnique(dividend, divisor, r.0, r.1, q, m);
  }

  lemma FlooredPairUnique(x: int, d: int, q0: int, m0: int, q: int, m: int)
    requires x == q0 * d + m0 && x == q * d + m
    requires d > 0 ==> 0 <= m0 < d && 0 <= m < d
    requires d < 0 ==> d < m0 <= 0 && d < m <= 0
    requires d != 0
    ensures q == q0 && m == m0
  {
    var e: int := q0 - q;
    assert e * d == m - m0 by {
      assert q0 * d - q * d == (q0 - q) * d;
    }
    if e >= 1 {
      if d > 0 {
        ProductMonotone(d, 1, e);
      } else {
        ProductMonotone(-d, 1, e);
      }
    } else if e <= -1 && d > 0 {
      ProductMonotone(d, 1, -e);
    }
  }

  /** `Modulo(dividend, divisor)` for `Int32` and `Int64` as written: the
      same misplaced correction as `DivModAsWritten` for a non-negative
      dividend and a negative divisor. */
  function ModuloAsWritten(w: Width, dividend: int, divisor: int): Result<int>
    requires IsSigned(w, dividend) && IsSigned(w, divisor)
  {
    if divisor > 0 then
      if dividend >= 0 then
        Ok(TruncatedDivRem(dividend, divisor).1)
      else
        var m := TruncatedDivRem(dividend, divisor).1;
        if m < 0 then Ok(m + divisor) else Ok(m)
    else if divisor < 0 then
      if dividend >= 0 then
        var m := TruncatedDivRem(dividend, divisor).1;
        if m > 0 then Ok(Wrap(w, m - divisor)) else Ok(m)
      else if dividend == SignedMin(w) && divisor == -1 then
        // `MinValue % -1` throws like the division does.
        Err(Overflow)
      else
        Ok(TruncatedDivRem(dividend, divisor).1)
    else
      Err(DivideByZero)
  }

  /** `7.Modulo(-2)` as written is 3, not the floored remainder -1. */
  lemma ModuloAsWrittenMisplacesRemainder()
    ensures ModuloAsWritten(W32, 7, -2) == Ok(3)
    ensures DivMod(W32, 7, -2) == Ok((-4, -1))
  {
    assert TruncatedDivRem(7, -2) == (-3, 1);
  }

  /** `Modulo(dividend, divisor)` for `Int32` and `Int64`, corrected like
      `DivMod`: the remainder `%` moved into the divisor's sign. */
  function Modulo(w: Width, dividend: int, divisor: int): Result<int>
    requires IsSigned(w, dividend) && IsSigned(w, divisor)
  {
    if divisor > 0 then
      if dividend >= 0 then
        Ok(TruncatedDivRem(dividend, divisor).1)
      else
        var m := TruncatedDivRem(dividend, divisor).1;
        if m < 0 then Ok(m + divisor) else Ok(m)
    else if divisor < 0 then
      if dividend >= 0 then
        var m := TruncatedDivRem(dividend, divisor).1;
        if m > 0 then Ok(m + divisor) else Ok(m)
      else if dividend == SignedMin(w) && divisor == -1 then
        // `MinValue % -1` throws like the division does.
        Err(Overflow)
      else
        Ok(TruncatedDivRem(dividend, divisor).1)
    else
      Err(DivideByZero)
  }

  /** `Modulo` agrees with the remainder of `DivMod`, errors included. */
  lemma ModuloIsDivModRemainder(w: Width, dividend: int, divisor: int)
    requires IsSigned(w, dividend) && IsSigned(w, divisor)
    ensures Modulo(w, dividend, divisor).Ok? <==> DivMod(w, dividend, divisor).Ok?
    ensures Modulo(w, dividend, divisor).Ok? ==>
              Modulo(w, dividend, divisor).value == DivMod(w, dividend, divisor).value.1
    ensures Modulo(w, dividend, divisor).Err? ==>
              Modulo(w, dividend, divisor).error == DivMod(w, dividend, divisor).error
  {
  }
}
