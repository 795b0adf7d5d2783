/** Comparison helpers of `GenericExtensions`: `IsBetween`, `InRange`,
    `Minimum`, `Maximum` and `IsAnyOf`.

    The source is generic over `IComparable`/`IEquatable` values that may be
    null. The model instantiates the element type with integers wrapped in
    `Nullable`, and `CompareTo` follows the .NET convention that every
    instance compares greater than null. */
module GenericExtensions {
  import opened Wrappers

  datatype Nullable = Null | Value(v: int)

  /** `IComparable<T>.CompareTo` of a non-null receiver: the sign of x - y,
      with null below every instance. */
  function CompareTo(x: int, y: Nullable): (r: int)
    ensures r > 0 <==> (y.Null? || x > y.v)
    ensures r == 0 <==> (y.Value? && x == y.v)
    ensures -1 <= r <= 1
  {
    match y
    case Null => 1
    case Value(w) => if x < w then -1 else if x > w then 1 else 0
  }

  /** `IEquatable<T>.Equals` of a possibly null receiver. */
  predicate NullableEquals(x: Nullable, y: Nullable)
  {
    match x
    case Null => y.Null?
    case Value(v) => y == Value(v)
  }

  /** Inclusive range test: lower <= value <= upper. */
  function IsBetween(value: Nullable, lower: Nullable, upper: Nullable): (r: bool)
    ensures value.Null? ==> (r <==> lower.Null?)
    ensures value.Value? && lower.Value? && upper.Value? ==>
              (r <==> lower.v <= value.v <= upper.v)
    ensures value.Value? && upper.Null? ==> !r
  {
    match value
    case Null => lower.Null?
    case Value(x) => CompareTo(x, lower) >= 0 && CompareTo(x, upper) <= 0
  }

  /** Half-open range test: lower <= value < upper. */
  function InRange(value: Nullable, lower: Nullable, upper: Nullable): (r: bool)
    ensures value.Null? ==> (r <==> lower.Null?)
    ensures value.Value? && lower.Value? && upper.Value? ==>
              (r <==> lower.v <= value.v < upper.v)
    ensures value.Value? && upper.Null? ==> !r
  {
    match value
    case Null => lower.Null?
    case Value(x) => CompareTo(x, lower) >= 0 && CompareTo(x, upper) < 0
  }

  /** The smaller of x and y; a null x yields the default value (null). */
  function Minimum(x: Nullable, y: Nullable): (r: Nullable)
    ensures x.Null? ==> r.Null?
    ensures x.Value? && y.Value? ==> r.Value? && r.v <= x.v && r.v <= y.v && (r == x || r == y)
    ensures x.Value? ==> (r == y <==> (y.Null? || x.v > y.v || x == y))
  {
    match x
    case Null => Null
    case Value(a) => if CompareTo(a, y) > 0 then y else x
  }

  /** The larger of x and y; a null x yields y. */
  function Maximum(x: Nullable, y: Nullable): (r: Nullable)
    ensures x.Null? ==> r == y
    ensures x.Value? && y.Value? ==> r.Value? && r.v >= x.v && r.v >= y.v && (r == x || r == y)
    ensures x.Value? ==> (r == x <==> (y.Null? || x.v >= y.v))
  {
    match x
    case Null => y
    case Value(a) => if CompareTo(a, y) > 0 then x else y
  }

  /** `IsAnyOf(value, params otherValues)`: a linear search that throws
      when the array itself is null. */
  method IsAnyOf(value: Nullable, otherValues: Option<seq<Nullable>>) returns (r: Result<bool>)
    ensures otherValues.None? <==> r == Err(ArgumentNull)
    ensures otherValues.Some? ==> r == Ok(value in otherValues.value)
  {
    if otherValues.None? {
      return Err(ArgumentNull);
    }
    var values := otherValues.value;
    var index := 0;
    while index < |values|
      invariant 0 <= index <= |values|
      invariant value !in values[..index]
    {
      if NullableEquals(value, values[index]) {
        return Ok(true);
      }
      index := index + 1;
    }
    return Ok(false);
  }
}
