/** `IntegerExtensions.GreatestCommonDivisor` and `Reduce`: Stein's binary
    GCD (strip common factors of two, make both operands odd, then subtract
    the smaller from the larger and strip the factors of two again), the
    signed wrappers that take magnitudes and check the result, and the
    reduction of a pair by its GCD.

    Values are unbounded naturals: every intermediate value of the
    unsigned algorithm is at most one of its operands, so it never
    overflows; a shift `>> 1` is a halving, `& 1` a parity test and `<< k`
    a multiplication by 2^k. */
module IntegerExtensions {
  import opened Wrappers
  import CheckedArithmetic

  /** d is a positive divisor of n. */
  predicate Divides(d: nat, n: nat)
  {
    d > 0 && n % d == 0
  }

  lemma MultipleIsDivisible(d: nat, n: nat, c: int)
    requires d > 0 && n == c * d
    ensures Divides(d, n)
  {
    CheckedArithmetic.DivisionOfNaturals(n, d);
    CheckedArithmetic.FlooredPairUnique(n, d, n / d, n % d, c, 0);
  }

  lemma DivisibleIsMultiple(d: nat, n: nat)
    requires Divides(d, n)
    ensures n == (n / d) * d && n / d >= 0
  {
    CheckedArithmetic.DivisionOfNaturals(n, d);
  }

  /** A common divisor of n and m divides n - m. */
  lemma DividesDifference(d: nat, n: nat, m: nat)
    requires Divides(d, n) && Divides(d, m) && m <= n
    ensures Divides(d, n - m)
  {
    DivisibleIsMultiple(d, n);
    DivisibleIsMultiple(d, m);
    var a: int, b: int := n / d, m / d;
    assert n - m == (a - b) * d;
    MultipleIsDivisible(d, n - m, a - b);
  }

  /** A common divisor of n and m divides n + m. */
  lemma DividesSum(d: nat, n: nat, m: nat)
    requires Divides(d, n) && Divides(d, m)
    ensures Divides(d, n + m)
  {
    DivisibleIsMultiple(d, n);
    DivisibleIsMultiple(d, m);
    var a: int, b: int := n / d, m / d;
    assert n + m == (a + b) * d;
    MultipleIsDivisible(d, n + m, a + b);
  }

  /** A divisor of a positive number is at most that number. */
  lemma DivisorIsAtMost(d: nat, n: nat)
    requires Divides(d, n) && n > 0
    ensures d <= n
  {
    DivisibleIsMultiple(d, n);
    var c: int := n / d;
    CheckedArithmetic.ProductMonotone(d, 1, c);
  }

  /** Scaling a multiple keeps it a multiple: d | n gives c*d | c*n. */
  lemma ScaledDivides(c: nat, d: nat, n: nat)
    requires c > 0 && Divides(d, n)
    ensures Divides(c * d, c * n)
  {
    DivisibleIsMultiple(d, n);
    var q: int := n / d;
    assert c * n == q * (c * d);
    MultipleIsDivisible(c * d, c * n, q);
  }

  /** Dividing out a common factor: c*d | c*n gives d | n. */
  lemma UnscaledDivides(c: nat, d: nat, n: nat)
    requires c > 0 && d > 0 && Divides(c * d, c * n)
    ensures Divides(d, n)
  {
    DivisibleIsMultiple(c * d, c * n);
    var q: int := (c * n) / (c * d);
    assert c * n == c * (q * d);
    assert n == q * d;
    MultipleIsDivisible(d, n, q);
  }

  lemma OddProduct(e: int, f: int)
    ensures (2 * e + 1) * (2 * f + 1) == 2 * (2 * e * f + e + f) + 1
  {
  }

  lemma EvenProduct(e: int, d: int)
    ensures (2 * e) * d == 2 * (e * d)
  {
  }

  /** An odd divisor of 2a divides a. */
  lemma OddDivisorOfDouble(d: nat, a: nat)
    requires Divides(d, 2 * a) && d % 2 == 1
    ensures Divides(d, a)
  {
    DivisibleIsMultiple(d, 2 * a);
    var c: int := (2 * a) / d;
    var e: int := c / 2;
    var f: int := d / 2;
    if c % 2 == 1 {
      OddProduct(e, f);
      assert false;
    }
    EvenProduct(e, d);
    MultipleIsDivisible(d, a, e);
  }

  /** A divisor of an odd number is odd. */
  lemma DivisorOfOddIsOdd(d: nat, b: nat)
    requires Divides(d, b) && b % 2 == 1
    ensures d % 2 == 1
  {
    if d % 2 == 0 {
      MultipleIsDivisible(2, d, d / 2);
      DividesTransitive(2, d, b);
    }
  }

  /** Divisibility is transitive. */
  lemma DividesTransitive(a: nat, b: nat, c: nat)
    requires Divides(a, b) && Divides(b, c)
    ensures Divides(a, c)
  {
    DivisibleIsMultiple(a, b);
    DivisibleIsMultiple(b, c);
    var p: int, q: int := b / a, c / b;
    assert c == (q * p) * a by {
      assert c == q * b && b == p * a;
      assert q * (p * a) == (q * p) * a;
    }
    MultipleIsDivisible(a, c, q * p);
  }

  /** Positive numbers that divide each other are equal. */
  lemma MutualDivisorsAreEqual(x: nat, y: nat)
    requires Divides(x, y) && Divides(y, x)
    ensures x == y
  {
    DivisorIsAtMost(x, y);
    DivisorIsAtMost(y, x);
  }

  /** The greatest common divisor as a specification, by Euclid's
      subtractive recurrence; gcd(0, 0) is left undefined, as the source
      rejects it. */
  function Gcd(u: nat, v: nat): nat
    requires u > 0 || v > 0
    decreases u + v
  {
    if u == 0 then v
    else if v == 0 then u
    else if u >= v then Gcd(u - v, v)
    else Gcd(u, v - u)
  }

  /** `Gcd` divides both operands. */
  lemma {:induction false} GcdDividesBoth(u: nat, v: nat)
    requires u > 0 || v > 0
    ensures Divides(Gcd(u, v), u) && Divides(Gcd(u, v), v)
    decreases u + v
  {
    if u == 0 {
      MultipleIsDivisible(v, 0, 0);
      MultipleIsDivisible(v, v, 1);
    } else if v == 0 {
      MultipleIsDivisible(u, 0, 0);
      MultipleIsDivisible(u, u, 1);
    } else if u >= v {
      GcdDividesBoth(u - v, v);
      DividesSum(Gcd(u, v), u - v, v);
    } else {
      GcdDividesBoth(u, v - u);
      DividesSum(Gcd(u, v), v - u, u);
    }
  }

  /** Every common divisor of the operands divides `Gcd`: it is the
      greatest common divisor in the divisibility order, hence also in the
      usual order. */
  lemma {:induction false} GcdIsGreatest(u: nat, v: nat, d: nat)
    requires u > 0 || v > 0
    requires Divides(d, u) && Divides(d, v)
    ensures Divides(d, Gcd(u, v)) && d <= Gcd(u, v)
    decreases u + v
  {
    if u == 0 || v == 0 {
    } else if u >= v {
      DividesDifference(d, u, v);
      GcdIsGreatest(u - v, v, d);
    } else {
      DividesDifference(d, v, u);
      GcdIsGreatest(u, v - u, d);
    }
    GcdDividesBoth(u, v);
    DivisorIsAtMost(d, Gcd(u, v));
  }

  lemma {:induction false} GcdSymmetric(u: nat, v: nat)
    requires u > 0 || v > 0
    ensures Gcd(u, v) == Gcd(v, u)
  {
    GcdDividesBoth(u, v);
    GcdDividesBoth(v, u);
    GcdIsGreatest(u, v, Gcd(v, u));
    GcdIsGreatest(v, u, Gcd(u, v));
    MutualDivisorsAreEqual(Gcd(u, v), Gcd(v, u));
  }

  /** A common factor comes out of the GCD: gcd(c*u, c*v) = c*gcd(u, v). */
  lemma {:induction false} GcdScales(c: nat, u: nat, v: nat)
    requires c > 0 && (u > 0 || v > 0)
    ensures Gcd(c * u, c * v) == c * Gcd(u, v)
    decreases u + v
  {
    if u == 0 || v == 0 {
    } else if u >= v {
      assert c * u - c * v == c * (u - v);
      GcdScales(c, u - v, v);
    } else {
      assert c * v - c * u == c * (v - u);
      GcdScales(c, u, v - u);
    }
  }

  /** A factor of two that the other, odd, operand lacks leaves the GCD
      alone: gcd(2a, b) = gcd(a, b) for odd b. */
  lemma GcdDropsTwo(a: nat, b: nat)
    requires b % 2 == 1
    ensures Gcd(2 * a, b) == Gcd(a, b)
  {
    var g1, g2 := Gcd(2 * a, b), Gcd(a, b);
    GcdDividesBoth(2 * a, b);
    GcdDividesBoth(a, b);
    DivisibleIsMultiple(g2, a);
    var q: int := a / g2;
    MultipleIsDivisible(g2, 2 * a, 2 * q);
    GcdIsGreatest(2 * a, b, g2);
    DivisorOfOddIsOdd(g1, b);
    OddDivisorOfDouble(g1, a);
    GcdIsGreatest(a, b, g1);
    MutualDivisorsAreEqual(g1, g2);
  }

  function Pow2(k: nat): (r: nat)
    ensures r >= 1
  {
    if k == 0 then 1 else 2 * Pow2(k - 1)
  }

  /** `GreatestCommonDivisor(UInt32 u, UInt32 v)` and the `UInt64` overload:
      0 and 0 are rejected, a zero operand gives the other one, and two
      positive operands go through the binary algorithm. */
  method GreatestCommonDivisor(u0: nat, v0: nat) returns (r: Result<nat>)
    ensures r.Err? <==> u0 == 0 && v0 == 0
    ensures r.Err? ==> r.error == Argument
    ensures r.Ok? ==> r.value == Gcd(u0, v0)
  {
    if u0 == 0 {
      if v0 == 0 {
        return Err(Argument);
      }
      return Ok(v0);
    }
    if v0 == 0 {
      return Ok(u0);
    }
    var u, v, k := StripFactorsOfTwo(u0, v0);
    var g := OddGreatestCommonDivisor(u, v);
    return Ok(g * Pow2(k));
  }

  /** The first half of the binary algorithm: the factors of two both
      operands share are counted in k, and the remaining ones are dropped,
      leaving two odd operands. */
  method StripFactorsOfTwo(u0: nat, v0: nat) returns (u: nat, v: nat, k: nat)
    requires u0 > 0 && v0 > 0
    ensures u > 0 && v > 0 && u % 2 == 1 && v % 2 == 1
    ensures Gcd(u0, v0) == Pow2(k) * Gcd(u, v)
  {
    u, v, k := u0, v0, 0;
    // Strip the factors of two the operands share.
    while u % 2 == 0 && v % 2 == 0
      invariant u > 0 && v > 0
      invariant Gcd(u0, v0) == Pow2(k) * Gcd(u, v)
      decreases u
    {
      SharedTwoStep(k, u, v);
      u, v, k := u / 2, v / 2, k + 1;
    }
    // Make u odd; v is odd while u is even.
    while u % 2 == 0
      invariant u > 0 && v > 0 && (u % 2 == 1 || v % 2 == 1)
      invariant Gcd(u0, v0) == Pow2(k) * Gcd(u, v)
      decreases u
    {
      DropTwoStep(u, v);
      u := u / 2;
    }
    // Make v odd.
    while v % 2 == 0
      invariant u > 0 && v > 0 && u % 2 == 1
      invariant Gcd(u0, v0) == Pow2(k) * Gcd(u, v)
      decreases v
    {
      GcdSymmetric(u, v);
      DropTwoStep(v, u);
      GcdSymmetric(u, v / 2);
      v := v / 2;
    }
  }

  /** Halving two even operands takes one factor of two out of their
      greatest common divisor. */
  lemma SharedTwoStep(k: nat, u: nat, v: nat)
    requires u > 0 && v > 0 && u % 2 == 0 && v % 2 == 0
    ensures Pow2(k) * Gcd(u, v) == Pow2(k + 1) * Gcd(u / 2, v / 2)
  {
    GcdScales(2, u / 2, v / 2);
    assert 2 * (u / 2) == u && 2 * (v / 2) == v;
    var g := Gcd(u / 2, v / 2);
    assert Pow2(k) * (2 * g) == (2 * Pow2(k)) * g;
  }

  /** Halving an even operand leaves the greatest common divisor with an
      odd one unchanged. */
  lemma DropTwoStep(u: nat, v: nat)
    requires u > 0 && u % 2 == 0 && v % 2 == 1
    ensures Gcd(u, v) == Gcd(u / 2, v)
  {
    GcdDropsTwo(u / 2, v);
    assert 2 * (u / 2) == u;
  }

  /** The second half of the binary algorithm: subtract the smaller odd
      operand from the larger and drop the factors of two of the
      difference, until both are equal. */
  method OddGreatestCommonDivisor(u0: nat, v0: nat) returns (g: nat)
    requires u0 > 0 && v0 > 0 && u0 % 2 == 1 && v0 % 2 == 1
    ensures g == Gcd(u0, v0)
  {
    var u, v := u0, v0;
    while true
      invariant u > 0 && v > 0 && u % 2 == 1 && v % 2 == 1
      invariant Gcd(u0, v0) == Gcd(u, v)
      decreases u + v
    {
      if u == v {
        assert Gcd(u, v) == Gcd(0, v);
        return u;
      }
      if u < v {
        GcdSymmetric(u, v);
        u, v := v, u;
      }
      u := u - v;
      while u % 2 == 0
        invariant u > 0 && v % 2 == 1
        invariant Gcd(u0, v0) == Gcd(u, v)
        decreases u
      {
        DropTwoStep(u, v);
        u := u / 2;
      }
    }
  }

  /** The value `GreatestCommonDivisor` returns is the greatest common
      divisor: it divides both operands and every common divisor divides
      it. */
  lemma GcdIsGreatestCommonDivisor(u: nat, v: nat, d: nat)
    requires u > 0 || v > 0
    ensures Divides(Gcd(u, v), u) && Divides(Gcd(u, v), v)
    ensures Divides(d, u) && Divides(d, v) ==> Divides(d, Gcd(u, v))
  {
    GcdDividesBoth(u, v);
    if Divides(d, u) && Divides(d, v) {
      GcdIsGreatest(u, v, d);
    }
  }

  /** `AbsoluteWithoutCheck`: the magnitude, which for `MinValue` is
      2^31 (or 2^63) and fits the unsigned type. */
  function Magnitude(x: int): nat
  {
    if x >= 0 then x else -x
  }

  /** `GreatestCommonDivisor(Int32 u, Int32 v)` and the `Int64` overload:
      the unsigned GCD of the magnitudes, checked back into the signed type.
      It overflows when the GCD is 2^31 (2^63): both operands `MinValue`, or
      one `MinValue` and the other 0. */
  method SignedGreatestCommonDivisor(w: CheckedArithmetic.Width, u: int, v: int) returns (r: Result<int>)
    requires CheckedArithmetic.IsSigned(w, u) && CheckedArithmetic.IsSigned(w, v)
    ensures r.Err? <==> (u == 0 && v == 0) || ((u != 0 || v != 0) && Gcd(Magnitude(u), Magnitude(v)) > CheckedArithmetic.SignedMax(w))
    ensures u == 0 && v == 0 ==> r == Err(Argument)
    ensures (u != 0 || v != 0) && r.Err? ==> r == Err(Overflow)
    ensures r.Ok? ==> r.value == Gcd(Magnitude(u), Magnitude(v))
  {
    var g := GreatestCommonDivisor(Magnitude(u), Magnitude(v));
    if g.Err? {
      return Err(g.error);
    }
    if g.value > CheckedArithmetic.SignedMax(w) {
      return Err(Overflow);
    }
    return Ok(g.value);
  }

  /** Only the `MinValue` cases overflow: the GCD of magnitudes at most
      2^31 (2^63) exceeds the signed maximum only when it is 2^31 itself. */
  lemma SignedGcdOverflowsOnlyAtMinValue(w: CheckedArithmetic.Width, u: int, v: int)
    requires CheckedArithmetic.IsSigned(w, u) && CheckedArithmetic.IsSigned(w, v)
    requires u != 0 || v != 0
    requires Gcd(Magnitude(u), Magnitude(v)) > CheckedArithmetic.SignedMax(w)
    ensures u == CheckedArithmetic.SignedMin(w) || v == CheckedArithmetic.SignedMin(w)
    ensures u == CheckedArithmetic.SignedMin(w) ==> v == 0 || v == u
    ensures v == CheckedArithmetic.SignedMin(w) ==> u == 0 || u == v
  {
    var a, b := Magnitude(u), Magnitude(v);
    var g := Gcd(a, b);
    GcdDividesBoth(a, b);
    if a > 0 {
      DivisorIsAtMost(g, a);
    }
    if b > 0 {
      DivisorIsAtMost(g, b);
    }
  }

  /** `Reduce(u, v)` for the unsigned types: both operands divided by their
      GCD. */
  method Reduce(u: nat, v: nat) returns (r: Result<(nat, nat)>)
    ensures r.Err? <==> u == 0 && v == 0
    ensures r.Err? ==> r.error == Argument
    ensures r.Ok? ==> r.value.0 * Gcd(u, v) == u && r.value.1 * Gcd(u, v) == v
    ensures r.Ok? ==> Gcd(r.value.0, r.value.1) == 1
  {
    var g := GreatestCommonDivisor(u, v);
    if g.Err? {
      return Err(g.error);
    }
    var d := g.value;
    GcdDividesBoth(u, v);
    DivisibleIsMultiple(d, u);
    DivisibleIsMultiple(d, v);
    CofactorsAreCoprime(u, v, u / d, v / d);
    return Ok((u / d, v / d));
  }

  /** A product divided by one of its factors gives the other factor. */
  lemma ProductQuotient(g: nat, x: nat)
    requires g > 0
    ensures (g * x) / g == x
  {
    CheckedArithmetic.DivisionOfNaturals(g * x, g);
    CheckedArithmetic.FlooredPairUnique(g * x, g, (g * x) / g, (g * x) % g, x, 0);
  }

  lemma Commute(x: int, y: int)
    ensures x * y == y * x
  {
  }

  /** The cofactors of the GCD are coprime: if u = a * gcd(u, v) and
      v = b * gcd(u, v) then gcd(a, b) = 1. */
  lemma CofactorsAreCoprime(u: nat, v: nat, a: nat, b: nat)
    requires u > 0 || v > 0
    requires a * Gcd(u, v) == u && b * Gcd(u, v) == v
    ensures a > 0 || b > 0
    ensures Gcd(a, b) == 1
  {
    var g := Gcd(u, v);
    GcdDividesBoth(u, v);
    assert a > 0 || b > 0 by {
      if u > 0 {
        assert a != 0;
      } else {
        assert b != 0;
      }
    }
    Commute(a, g);
    Commute(b, g);
    GcdScales(g, a, b);
    var h := Gcd(a, b);
    assert g * h == g * 1;
    ProductQuotient(g, h);
    ProductQuotient(g, 1);
  }

  /** `Reduce(u, v)` for `Int32` and `Int64`: the signed GCD, then each
      operand divided by it (the division is exact, so truncation does not
      matter). The signs of the operands are kept. */
  method SignedReduce(w: CheckedArithmetic.Width, u: int, v: int) returns (r: Result<(int, int)>)
    requires CheckedArithmetic.IsSigned(w, u) && CheckedArithmetic.IsSigned(w, v)
    ensures r.Err? <==> (u == 0 && v == 0) || ((u != 0 || v != 0) && Gcd(Magnitude(u), Magnitude(v)) > CheckedArithmetic.SignedMax(w))
    ensures r.Ok? ==>
              r.value.0 * Gcd(Magnitude(u), Magnitude(v)) == u
              && r.value.1 * Gcd(Magnitude(u), Magnitude(v)) == v
              && Gcd(Magnitude(r.value.0), Magnitude(r.value.1)) == 1
  {
    var g := SignedGreatestCommonDivisor(w, u, v);
    if g.Err? {
      return Err(g.error);
    }
    var d := g.value;
    GcdDividesBoth(Magnitude(u), Magnitude(v));
    var newU := CheckedArithmetic.TruncatedDivRem(u, d).0;
    var newV := CheckedArithmetic.TruncatedDivRem(v, d).0;
    ExactTruncatedDivision(u, d);
    ExactTruncatedDivision(v, d);
    DivisibleIsMultiple(d, Magnitude(u));
    DivisibleIsMultiple(d, Magnitude(v));
    CofactorsAreCoprime(Magnitude(u), Magnitude(v), Magnitude(newU), Magnitude(newV));
    return Ok((newU, newV));
  }

  /** Truncated division by a positive divisor of the magnitude is exact
      and keeps the sign. */
  lemma ExactTruncatedDivision(x: int, d: nat)
    requires d > 0 && Divides(d, Magnitude(x))
    ensures CheckedArithmetic.TruncatedDivRem(x, d).0 * d == x
    ensures Magnitude(CheckedArithmetic.TruncatedDivRem(x, d).0) == Magnitude(x) / d
  {
    CheckedArithmetic.TruncatedDivRemSpec(x, d);
    DivisibleIsMultiple(d, Magnitude(x));
    var q: int := Magnitude(x) / d;
    if x >= 0 {
      CheckedArithmetic.FlooredPairUnique(x, d, CheckedArithmetic.TruncatedDivRem(x, d).0,
                                          CheckedArithmetic.TruncatedDivRem(x, d).1, q, 0);
    } else {
      assert CheckedArithmetic.TruncatedDivRem(x, d).0 == -q;
      assert (-q) * d == -(q * d);
    }
  }
}
