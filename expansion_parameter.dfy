/** The values a terminfo parameterized string works on
    (`ExpansionNumberParameter`, `ExpansionStringParameter`) and their
    `printf`-style formatting (terminfo(5), "Parameterized Strings"): a
    format spec is `[width][.precision]type` with type one of c d o s u x X.

    `Int32.TryParse` is modelled on the strings it is given here, which
    hold only the digits '0'..'9'. */
module ExpansionParameters {
  import opened Wrappers
  import opened Primitives

  /** A .NET string: at most `Int32.MaxValue` characters long. */
  type NetString = s: string | |s| <= INT32_MAX

  datatype Parameter = Number(value: Int32) | Text(text: NetString)

  /** The run-time types an argument of `ExpandArguments` can have. */
  datatype ArgumentValue =
    | Int32Value(i: Int32)
    | CharValue(c: char)
    | BooleanValue(b: bool)
    | StringValue(s: NetString)
    | Unsupported

  /** The conversion of one argument in the `ArgumentsAccesser`
      constructor: integers, characters and Booleans become numbers, strings
      stay strings, and any other type is a bad argument. */
  function ToParameter(a: ArgumentValue): (r: Result<Parameter>)
    ensures r.Err? <==> a.Unsupported?
    ensures r.Err? ==> r.error == ExpansionBadArgument
    ensures a.Int32Value? ==> r == Ok(Number(a.i))
    ensures a.StringValue? ==> r == Ok(Text(a.s))
    ensures a.BooleanValue? ==> r.Ok? && AsBool(r.value) == Ok(a.b)
    ensures a.CharValue? ==> r.Ok? && r.value.Number? && r.value.value == a.c as int
  {
    match a
    case Int32Value(i) => Ok(Number(i))
    case CharValue(c) => Ok(FromChar(c))
    case BooleanValue(b) => Ok(FromBool(b))
    case StringValue(s) => Ok(Text(s))
    case Unsupported => Err(ExpansionBadArgument)
  }

  /** `new ExpansionNumberParameter(Boolean)`: 1 for true, 0 for false. */
  function FromBool(b: bool): (r: Parameter)
    ensures r.Number? && (r.value == 1 <==> b) && (r.value == 0 <==> !b)
  {
    Number(if b then 1 else 0)
  }

  /** `new ExpansionNumberParameter(Char)`: the character's code. */
  function FromChar(c: char): (r: Parameter)
    ensures r.Number? && r.value == c as int
  {
    Number(c as int)
  }

  /** `AsNumber()`: a string parameter is a bad argument. */
  function AsNumber(p: Parameter): (r: Result<Int32>)
    ensures r.Ok? <==> p.Number?
    ensures r.Ok? ==> r.value == p.value
    ensures r.Err? ==> r.error == ExpansionBadArgument
  {
    match p
    case Number(v) => Ok(v)
    case Text(_) => Err(ExpansionBadArgument)
  }

  /** `AsBool()`: a number is true when it is not zero; a string parameter
      is a bad argument. */
  function AsBool(p: Parameter): (r: Result<bool>)
    ensures r.Ok? <==> p.Number?
    ensures r.Ok? ==> (r.value <==> p.value != 0)
    ensures r.Err? ==> r.error == ExpansionBadArgument
  {
    match p
    case Number(v) => Ok(v != 0)
    case Text(_) => Err(ExpansionBadArgument)
  }

  /** `AsString()`: a number is a bad argument. */
  function AsString(p: Parameter): (r: Result<NetString>)
    ensures r.Ok? <==> p.Text?
    ensures r.Ok? ==> r.value == p.text
    ensures r.Err? ==> r.error == ExpansionBadArgument
  {
    match p
    case Number(_) => Err(ExpansionBadArgument)
    case Text(s) => Ok(s)
  }

  lemma BoolRoundTrip(b: bool)
    ensures AsBool(FromBool(b)) == Ok(b)
  {
  }

  // ------------------------------------------------------------------ digits

  predicate IsDigit(c: char)
  {
    '0' <= c <= '9'
  }

  predicate AllDigits(s: string)
  {
    forall i :: 0 <= i < |s| ==> IsDigit(s[i])
  }

  /** The value of a string of decimal digits. */
  function DecimalValue(s: string): (r: nat)
    requires AllDigits(s)
  {
    if s == [] then 0 else DecimalValue(s[..|s| - 1]) * 10 + (s[|s| - 1] as int - '0' as int)
  }

  /** `Int32.TryParse` on a string of digits: fails on the empty string and
      on a value above `Int32.MaxValue`. */
  function ParseInt32(s: string): (r: Option<Int32>)
    requires AllDigits(s)
    ensures r.Some? <==> s != [] && DecimalValue(s) <= INT32_MAX
    ensures r.Some? ==> r.value == DecimalValue(s) && r.value >= 0
  {
    if s == [] || DecimalValue(s) > INT32_MAX then None else Some(DecimalValue(s))
  }

  /** The digit of value d (below 16), in lower or upper case. */
  function DigitChar(d: nat, upper: bool): (c: char)
    requires d < 16
  {
    if d < 10 then ('0' as int + d) as char
    else if upper then ('A' as int + d - 10) as char
    else ('a' as int + d - 10) as char
  }

  /** The value of a digit character '0'-'9', 'a'-'f' or 'A'-'F', and 16
      for any other character. */
  function DigitOf(c: char): (d: nat)
    ensures d <= 16
  {
    if '0' <= c <= '9' then c as int - '0' as int
    else if 'a' <= c <= 'f' then c as int - 'a' as int + 10
    else if 'A' <= c <= 'F' then c as int - 'A' as int + 10
    else 16
  }

  /** The value of a string of digits read in the given base. */
  function ValueIn(s: string, base: nat): nat
  {
    if s == [] then 0 else ValueIn(s[..|s| - 1], base) * base + DigitOf(s[|s| - 1])
  }

  /** The digits of n in the given base, most significant first, with no
      leading zero: `ToString("D")`, `Convert.ToString(n, 8)` and
      `ToString("x")`/`ToString("X")` of a non-negative value. */
  function Digits(n: nat, base: nat, upper: bool): (r: string)
    requires base == 8 || base == 10 || base == 16
    ensures |r| >= 1 && (n > 0 ==> r[0] != '0')
    ensures base == 10 ==> AllDigits(r)
    decreases n
  {
    if n < base then [DigitChar(n, upper)]
    else Digits(n / base, base, upper) + [DigitChar(n % base, upper)]
  }

  /** Decimal digits read back as the number they were written from. */
  lemma {:induction false} DecimalDigitsRoundTrip(n: nat)
    ensures DecimalValue(Digits(n, 10, false)) == n
    decreases n
  {
    var s := Digits(n, 10, false);
    if n >= 10 {
      DecimalDigitsRoundTrip(n / 10);
      assert s[..|s| - 1] == Digits(n / 10, 10, false);
    }
  }

  /** The digits of n in base 8, 10 or 16, read back in that base, give n:
      the octal and hexadecimal texts of `%o`, `%x` and `%X` spell the
      value as the decimal text of `%d` and `%u` does. */
  lemma {:induction false} DigitsRoundTrip(n: nat, base: nat, upper: bool)
    requires base == 8 || base == 10 || base == 16
    ensures ValueIn(Digits(n, base, upper), base) == n
    decreases n
  {
    if n >= base {
      var q, d := DigitsSplit(n, base, upper);
      DigitsRoundTrip(q, base, upper);
      AppendDigit(Digits(q, base, upper), q, d, base, upper);
    } else {
      assert Digits(n, base, upper) == [] + [DigitChar(n, upper)];
      AppendDigit([], 0, n, base, upper);
    }
  }

  /** Appending the digit of d to a text worth q makes it worth
      q * base + d. */
  lemma AppendDigit(t: string, q: nat, d: nat, base: nat, upper: bool)
    requires d < 16 && ValueIn(t, base) == q
    ensures ValueIn(t + [DigitChar(d, upper)], base) == q * base + d
  {
    ValueInSnoc(t, DigitChar(d, upper), base);
    DigitOfChar(d, upper);
  }

  /** The digits of n at least the base are those of the quotient followed
      by the remainder's digit. */
  lemma DigitsSplit(n: nat, base: nat, upper: bool) returns (q: nat, d: nat)
    requires base == 8 || base == 10 || base == 16
    requires n >= base
    ensures q < n && d < base && n == q * base + d
    ensures Digits(n, base, upper) == Digits(q, base, upper) + [DigitChar(d, upper)]
  {
    q, d := n / base, n % base;
  }

  /** Appending a digit multiplies the value by the base and adds the
      digit. */
  lemma ValueInSnoc(t: string, c: char, base: nat)
    ensures ValueIn(t + [c], base) == ValueIn(t, base) * base + DigitOf(c)
  {
    assert (t + [c])[..|t + [c]| - 1] == t;
  }

  /** A digit character reads back as its value. */
  lemma DigitOfChar(d: nat, upper: bool)
    requires d < 16
    ensures DigitOf(DigitChar(d, upper)) == d
  {
  }

  /** `Int32.TryParse(n.ToString("D"))` gives n back. */
  lemma ParseDigitsRoundTrip(n: Int32)
    requires n >= 0
    ensures ParseInt32(Digits(n, 10, false)) == Some(n)
  {
    DecimalDigitsRoundTrip(n);
  }

  /** The 32-bit two's-complement pattern of a signed value: the
      `unchecked((UInt32)value)` cast, and what `Convert.ToString(value, 8)`
      and `ToString("x")` print for a negative value. */
  function AsUInt32(v: Int32): (r: UInt32)
    ensures v >= 0 ==> r == v
    ensures v < 0 ==> r == v + UINT32_MAX + 1
  {
    if v >= 0 then v else v + UINT32_MAX + 1
  }

  // ----------------------------------------------------------------- padding

  function Repeat(c: char, n: nat): (r: string)
    ensures |r| == n && forall i :: 0 <= i < n ==> r[i] == c
  {
    seq(n, _ => c)
  }

  /** `PadText(text, length, paddingChar)`: left-padded to the length, or
      the text itself when it is at least that long. */
  function PadText(text: string, length: int, paddingChar: char): (r: string)
  {
    if length > |text| then Repeat(paddingChar, length - |text|) + text else text
  }

  /** The padded text ends with the text, is as long as asked or as the
      text, whichever is longer, and everything before the text is the
      padding character. */
  lemma PadTextSpec(text: string, length: int, paddingChar: char)
    ensures |PadText(text, length, paddingChar)| == if length > |text| then length else |text|
    ensures PadText(text, length, paddingChar)[|PadText(text, length, paddingChar)| - |text|..] == text
    ensures forall i :: 0 <= i < |PadText(text, length, paddingChar)| - |text| ==>
              PadText(text, length, paddingChar)[i] == paddingChar
  {
  }

  /** A padded text is the padding, as many characters as are missing,
      followed by the text. */
  lemma PadShape(text: string, length: int, paddingChar: char)
    ensures PadText(text, length, paddingChar) == Repeat(paddingChar, Max(length - |text|, 0)) + text
  {
    if length <= |text| {
      assert Repeat(paddingChar, 0) + text == text;
    }
  }

  function Max(x: int, y: int): int
  {
    if x >= y then x else y
  }

  function Min(x: int, y: int): int
  {
    if x <= y then x else y
  }

  /** `Format(sign, valueText, width, precision, zeroPadding)`: with a
      precision the digits are zero-padded to it and the signed result is
      space-padded to the width; without one, a width zero-pads the digits
      (after the sign) when the width was written with a leading 0, and
      space-pads the signed text otherwise. */
  function Layout(sign: string, valueText: string, width: int, precision: int, zeroPadding: bool): (r: string)
    ensures precision >= 0 ==> r == PadText(sign + PadText(valueText, precision, '0'), width, ' ')
    ensures precision >= 0 ==>
              r == Repeat(' ', Max(width - |sign| - Max(precision, |valueText|), 0)) + sign
                   + Repeat('0', Max(precision - |valueText|, 0)) + valueText
    ensures precision < 0 && width < 0 ==> r == sign + valueText
    ensures precision < 0 && width >= 0 && zeroPadding ==>
              r == sign + Repeat('0', Max(width - |sign| - |valueText|, 0)) + valueText
    ensures precision < 0 && width >= 0 && !zeroPadding ==>
              r == Repeat(' ', Max(width - |sign| - |valueText|, 0)) + sign + valueText
  {
    if precision >= 0 then
      PrecisionShape(sign, valueText, width, precision);
      PadText(sign + PadText(valueText, precision, '0'), width, ' ')
    else if width < 0 then sign + valueText
    else if zeroPadding then
      ZeroPaddedShape(sign, valueText, width);
      sign + PadText(valueText, Max(width - |sign|, 0), '0')
    else
      PadShape(sign + valueText, width, ' ');
      PadText(sign + valueText, width, ' ')
  }

  /** With a precision: spaces, the sign, zeros, then the digits. */
  lemma PrecisionShape(sign: string, valueText: string, width: int, precision: int)
    requires precision >= 0
    ensures PadText(sign + PadText(valueText, precision, '0'), width, ' ')
            == Repeat(' ', Max(width - |sign| - Max(precision, |valueText|), 0)) + sign
               + Repeat('0', Max(precision - |valueText|, 0)) + valueText
  {
    var zeros := Repeat('0', Max(precision - |valueText|, 0));
    PadShape(valueText, precision, '0');
    var inner := zeros + valueText;
    assert |inner| == Max(precision, |valueText|);
    PadShape(sign + inner, width, ' ');
    var spaces := Repeat(' ', Max(width - |sign + inner|, 0));
    assert spaces + (sign + inner) == spaces + sign + zeros + valueText;
  }

  /** Zero padding without a precision: the sign, zeros, then the digits. */
  lemma ZeroPaddedShape(sign: string, valueText: string, width: int)
    ensures sign + PadText(valueText, Max(width - |sign|, 0), '0')
            == sign + Repeat('0', Max(width - |sign| - |valueText|, 0)) + valueText
  {
    PadShape(valueText, Max(width - |sign|, 0), '0');
    assert Max(Max(width - |sign|, 0) - |valueText|, 0) == Max(width - |sign| - |valueText|, 0);
  }

  /** With a width, the laid-out text is at least that long; the digits
      always come last. */
  lemma LayoutSpec(sign: string, valueText: string, width: int, precision: int, zeroPadding: bool)
    ensures |Layout(sign, valueText, width, precision, zeroPadding)| >= width
    ensures |Layout(sign, valueText, width, precision, zeroPadding)| >= |sign| + |valueText|
    ensures var r := Layout(sign, valueText, width, precision, zeroPadding);
            r[|r| - |valueText|..] == valueText
  {
    if precision >= 0 {
      LayoutWithPrecision(sign, valueText, width, precision, zeroPadding);
    } else if width >= 0 && zeroPadding {
      LayoutZeroPadded(sign, valueText, width, precision, zeroPadding);
    } else if width >= 0 {
      LayoutSpacePadded(sign, valueText, width, precision, zeroPadding);
    }
  }

  /** `LayoutSpec` with a precision: the digits are zero-padded, then the
      signed text is space-padded. */
  lemma LayoutWithPrecision(sign: string, valueText: string, width: int, precision: int, zeroPadding: bool)
    requires precision >= 0
    ensures |Layout(sign, valueText, width, precision, zeroPadding)| >= width
    ensures |Layout(sign, valueText, width, precision, zeroPadding)| >= |sign| + |valueText|
    ensures var r := Layout(sign, valueText, width, precision, zeroPadding);
            r[|r| - |valueText|..] == valueText
  {
    var inner := PadText(valueText, precision, '0');
    var signed := sign + inner;
    var r := PadText(signed, width, ' ');
    assert Layout(sign, valueText, width, precision, zeroPadding) == r;
    PadEnds(valueText, precision, '0');
    assert |inner| >= |valueText|;
    PadEnds(signed, width, ' ');
    assert |r| >= width && |r| >= |signed|;
    assert signed[|signed| - |inner|..] == inner;
    SuffixOfSuffix(signed, inner, valueText);
    SuffixOfSuffix(r, signed, valueText);
  }

  /** `LayoutSpec` with a width and zero padding but no precision. */
  lemma LayoutZeroPadded(sign: string, valueText: string, width: int, precision: int, zeroPadding: bool)
    requires precision < 0 && width >= 0 && zeroPadding
    ensures |Layout(sign, valueText, width, precision, zeroPadding)| >= width
    ensures |Layout(sign, valueText, width, precision, zeroPadding)| >= |sign| + |valueText|
    ensures var r := Layout(sign, valueText, width, precision, zeroPadding);
            r[|r| - |valueText|..] == valueText
  {
    var r := Layout(sign, valueText, width, precision, zeroPadding);
    var inner := PadText(valueText, Max(width - |sign|, 0), '0');
    PadEnds(valueText, Max(width - |sign|, 0), '0');
    assert r == sign + inner;
    assert r[|r| - |inner|..] == inner;
    SuffixOfSuffix(r, inner, valueText);
  }

  /** `LayoutSpec` with a width, space padding and no precision. */
  lemma LayoutSpacePadded(sign: string, valueText: string, width: int, precision: int, zeroPadding: bool)
    requires precision < 0 && width >= 0 && !zeroPadding
    ensures |Layout(sign, valueText, width, precision, zeroPadding)| >= width
    ensures |Layout(sign, valueText, width, precision, zeroPadding)| >= |sign| + |valueText|
    ensures var r := Layout(sign, valueText, width, precision, zeroPadding);
            r[|r| - |valueText|..] == valueText
  {
    var r := Layout(sign, valueText, width, precision, zeroPadding);
    PadEnds(sign + valueText, width, ' ');
    assert (sign + valueText)[|sign + valueText| - |valueText|..] == valueText;
    SuffixOfSuffix(r, sign + valueText, valueText);
  }

  /** The length of a padded text, and the text at its end. */
  lemma PadEnds(text: string, length: int, paddingChar: char)
    ensures |PadText(text, length, paddingChar)| == if length > |text| then length else |text|
    ensures PadText(text, length, paddingChar)[|PadText(text, length, paddingChar)| - |text|..] == text
  {
    PadTextSpec(text, length, paddingChar);
  }

  /** A text ending with t, where t ends with v, ends with v. */
  lemma SuffixOfSuffix(r: string, t: string, v: string)
    requires |v| <= |t| <= |r| && r[|r| - |t|..] == t && t[|t| - |v|..] == v
    ensures r[|r| - |v|..] == v
  {
    assert r[|r| - |v|..] == r[|r| - |t|..][|t| - |v|..];
  }

  // ------------------------------------------------------------- formatting

  /** A width or precision as `Format` reads it: -1 when absent, an error
      when present but not an `Int32`. */
  function ReadNumber(s: string): (r: Result<int>)
    requires AllDigits(s)
    ensures r.Err? <==> s != [] && ParseInt32(s).None?
    ensures r.Err? ==> r.error == ExpansionBadArgument
    ensures r.Ok? ==> (r.value == -1 <==> s == []) && r.value >= -1
    ensures s != [] && DecimalValue(s) <= INT32_MAX ==> r == Ok(DecimalValue(s))
  {
    match ParseInt32(s)
    case Some(v) => Ok(v)
    case None => if s != [] then Err(ExpansionBadArgument) else Ok(-1)
  }

  /** `ExpansionNumberParameter.Format(width, precision, typeSpec)`. */
  function FormatNumber(value: Int32, width: string, precision: string, typeSpec: char): (r: Result<string>)
    requires AllDigits(width) && AllDigits(precision)
    ensures typeSpec !in "cdouxX" ==> r.Err?
    ensures typeSpec == 'd' ==> (r == Err(Overflow) <==> value == INT32_MIN && ReadNumber(width).Ok? && ReadNumber(precision).Ok?)
  {
    var w :- ReadNumber(width);
    var p :- ReadNumber(precision);
    var zeroPadding := |width| > 0 && width[0] == '0';
    match typeSpec
    case 'c' => Ok(PadText([(value % 256) as char], w, if zeroPadding then '0' else ' '))
    case 'd' =>
      if value == INT32_MIN then Err(Overflow)
      else Ok(Layout(if value < 0 then "-" else "", Digits(if value < 0 then -value else value, 10, false), w, p, zeroPadding))
    case 'o' => Ok(Layout("", Digits(AsUInt32(value), 8, false), w, p, zeroPadding))
    case 'u' => Ok(Layout("", Digits(AsUInt32(value), 10, false), w, p, zeroPadding))
    case 'x' => Ok(Layout("", Digits(AsUInt32(value), 16, false), w, p, zeroPadding))
    case 'X' => Ok(Layout("", Digits(AsUInt32(value), 16, true), w, p, zeroPadding))
    case _ => Err(ExpansionBadArgument)
  }

  /** With neither width nor precision, "d" writes just the decimal digits
      of a non-negative value. */
  lemma PlainDecimal(value: Int32)
    requires value >= 0
    ensures FormatNumber(value, [], [], 'd') == Ok(Digits(value, 10, false))
  {
    assert "" + Digits(value, 10, false) == Digits(value, 10, false);
  }

  /** A minus sign survives every layout. */
  lemma LayoutKeepsSign(valueText: string, width: int, precision: int, zeroPadding: bool)
    ensures '-' in Layout("-", valueText, width, precision, zeroPadding)
  {
    var r := Layout("-", valueText, width, precision, zeroPadding);
    if precision >= 0 {
      var inner := "-" + PadText(valueText, precision, '0');
      PadTextSpec(inner, width, ' ');
      assert r[|r| - |inner|..] == inner;
      assert r[|r| - |inner|] == '-';
    } else if width < 0 || zeroPadding {
      assert r[0] == '-';
    } else {
      PadTextSpec("-" + valueText, width, ' ');
      assert r[|r| - |"-" + valueText|..] == "-" + valueText;
      assert r[|r| - |"-" + valueText|] == '-';
    }
  }

  /** "d" writes a minus sign exactly for a negative value (and overflows
      negating `Int32.MinValue`): space padding, then the sign, then zero
      padding, then the magnitude's digits. */
  lemma DecimalSign(value: Int32, width: string, precision: string)
    requires AllDigits(width) && AllDigits(precision)
    requires FormatNumber(value, width, precision, 'd').Ok?
    ensures value != INT32_MIN
    ensures var r := FormatNumber(value, width, precision, 'd').value;
            var digits := Digits(if value < 0 then -value else value, 10, false);
            r[|r| - |digits|..] == digits && (value < 0 ==> '-' in r)
    ensures var r := FormatNumber(value, width, precision, 'd').value;
            var digits := Digits(if value < 0 then -value else value, 10, false);
            exists k: nat, m: nat :: r == Repeat(' ', k) + (if value < 0 then "-" else "") + Repeat('0', m) + digits
    ensures value >= 0 ==> '-' !in FormatNumber(value, width, precision, 'd').value
  {
    var w, p, zeroPadding := DecimalLayout(value, width, precision);
    var sign := if value < 0 then "-" else "";
    var digits := Digits(if value < 0 then -value else value, 10, false);
    LayoutSpec(sign, digits, w, p, zeroPadding);
    if value < 0 {
      LayoutKeepsSign(digits, w, p, zeroPadding);
    }
    var k, m := LayoutPads(sign, digits, w, p, zeroPadding);
    if value >= 0 {
      NoMinus(k, m, digits);
    }
  }

  /** A "d" that succeeds lays out the sign and the magnitude's digits. */
  lemma DecimalLayout(value: Int32, width: string, precision: string) returns (w: int, p: int, zeroPadding: bool)
    requires AllDigits(width) && AllDigits(precision)
    requires FormatNumber(value, width, precision, 'd').Ok?
    ensures value != INT32_MIN
    ensures FormatNumber(value, width, precision, 'd').value
            == Layout(if value < 0 then "-" else "", Digits(if value < 0 then -value else value, 10, false), w, p, zeroPadding)
  {
    w, p := ReadNumber(width).value, ReadNumber(precision).value;
    zeroPadding := |width| > 0 && width[0] == '0';
  }

  /** The space and zero padding counts of a layout. */
  lemma LayoutPads(sign: string, valueText: string, width: int, precision: int, zeroPadding: bool)
    returns (k: nat, m: nat)
    ensures Layout(sign, valueText, width, precision, zeroPadding) == Repeat(' ', k) + sign + Repeat('0', m) + valueText
  {
    if precision >= 0 {
      k, m := Max(width - |sign| - Max(precision, |valueText|), 0), Max(precision - |valueText|, 0);
    } else if width < 0 {
      k, m := 0, 0;
      assert Repeat(' ', 0) + sign + Repeat('0', 0) + valueText == sign + valueText;
    } else if zeroPadding {
      k, m := 0, Max(width - |sign| - |valueText|, 0);
      assert Repeat(' ', 0) + sign == sign;
    } else {
      k, m := Max(width - |sign| - |valueText|, 0), 0;
      assert Repeat(' ', k) + sign + Repeat('0', 0) + valueText == Repeat(' ', k) + sign + valueText;
    }
  }

  /** Padding and decimal digits hold no minus sign. */
  lemma NoMinus(k: nat, m: nat, digits: string)
    requires AllDigits(digits)
    ensures '-' !in Repeat(' ', k) + "" + Repeat('0', m) + digits
  {
    var r := Repeat(' ', k) + "" + Repeat('0', m) + digits;
    forall i | 0 <= i < |r|
      ensures r[i] != '-'
    {
      if i >= k + m {
        assert r[i] == digits[i - k - m];
      }
    }
  }

  /** `ExpansionStringParameter.Format(width, precision, typeSpec)`: only
      "s"; a precision cuts the text, a width left-pads it. */
  function FormatText(text: string, width: string, precision: string, typeSpec: char): (r: Result<string>)
    requires AllDigits(width) && AllDigits(precision)
    ensures typeSpec != 's' ==> r == Err(ExpansionBadArgument)
    ensures typeSpec == 's' && width == [] && precision == [] ==> r == Ok(text)
    ensures r.Ok? && width == [] && precision != [] ==> r.value == text[..Min(DecimalValue(precision), |text|)]
    ensures typeSpec == 's' ==> (r.Err? <==> DecimalValue(width) > INT32_MAX || DecimalValue(precision) > INT32_MAX)
    ensures r.Err? ==> r.error == ExpansionBadArgument
    ensures r.Ok? && width != [] ==>
              var cut := if precision == [] then text else text[..Min(DecimalValue(precision), |text|)];
              r.value == PadText(cut, DecimalValue(width), if width[0] == '0' then '0' else ' ')
  {
    if typeSpec != 's' then Err(ExpansionBadArgument)
    else
      var w :- ReadNumber(width);
      var p :- ReadNumber(precision);
      var valueText := if p >= 0 then text[..Min(p, |text|)] else text;
      if w >= 0 then
        var paddingChar := if width[0] == '0' then '0' else ' ';
        PadShape(valueText, w, paddingChar);
        Ok(Repeat(paddingChar, Max(w - |valueText|, 0)) + valueText)
      else Ok(valueText)
  }

  /** The parts of a format spec `[width][.precision]type` (the regular
      expression `^(\d+)?(\.(\d+))?[cdosuxX]$`), or none when it does not
      match. */
  function ParseSpec(spec: string): (r: Option<(string, string, char)>)
    ensures r.Some? ==> AllDigits(r.value.0) && AllDigits(r.value.1) && r.value.2 in "cdosuxX"
    ensures r.Some? ==> spec == r.value.0 + (if r.value.1 == [] then [] else "." + r.value.1) + [r.value.2]
  {
    var w := DigitPrefix(spec);
    var rest := spec[|w|..];
    if rest != [] && rest[0] == '.' then
      var p := DigitPrefix(rest[1..]);
      var tail := rest[1..][|p|..];
      if p != [] && |tail| == 1 && tail[0] in "cdosuxX" then
        JoinDotted(spec, w, rest, p, tail);
        Some((w, p, tail[0]))
      else None
    else if |rest| == 1 && rest[0] in "cdosuxX" then
      JoinUndotted(spec, w, rest);
      Some((w, [], rest[0]))
    else None
  }

  /** The parts ParseSpec cuts a dotted spec into join back into it. */
  lemma JoinDotted(spec: string, w: string, rest: string, p: string, tail: string)
    requires |w| <= |spec| && w == spec[..|w|] && rest == spec[|w|..]
    requires rest != [] && rest[0] == '.'
    requires |p| < |rest| && p == rest[1..][..|p|] && tail == rest[1..][|p|..] && |tail| == 1
    ensures spec == w + ("." + p) + [tail[0]]
  {
    assert spec == w + rest;
    assert rest == "." + rest[1..];
    assert rest[1..] == p + tail;
    assert tail == [tail[0]];
  }

  /** The parts ParseSpec cuts an undotted spec into join back into it. */
  lemma JoinUndotted(spec: string, w: string, rest: string)
    requires |w| <= |spec| && w == spec[..|w|] && rest == spec[|w|..] && |rest| == 1
    ensures spec == w + [] + [rest[0]]
  {
    assert spec == w + rest;
    assert rest == [rest[0]];
  }

  /** The longest prefix of digits. */
  function DigitPrefix(s: string): (r: string)
    ensures |r| <= |s| && AllDigits(r) && r == s[..|r|]
    ensures |r| < |s| ==> !IsDigit(s[|r|])
  {
    if s == [] || !IsDigit(s[0]) then [] else [s[0]] + DigitPrefix(s[1..])
  }

  /** `ExpansionParameter.Format(formatSpec)`: a spec that does not match is
      a syntax error. */
  function Format(p: Parameter, spec: string): (r: Result<string>)
    ensures ParseSpec(spec).None? ==> r == Err(ExpansionSyntaxError)
  {
    match ParseSpec(spec)
    case None => Err(ExpansionSyntaxError)
    case Some((width, precision, typeSpec)) =>
      match p
      case Number(v) => FormatNumber(v, width, precision, typeSpec)
      case Text(s) => FormatText(s, width, precision, typeSpec)
  }
}
