/** Terminal colour numbers: the 8-colour and 256-colour palettes, their
    RGB components, and the search for the nearest colour of the
    6x6x6 cube of the 256-colour palette. */
module TerminalColors {
  import opened Wrappers
  import opened Primitives

  /** The red, green and blue components of a colour. */
  datatype Rgb = Rgb(r: Byte, g: Byte, b: Byte)

  // ------------------------------------------------------------- Color16

  type Color16Number = x: int | 0 <= x < 16

  /** The 16-colour palette, only as far as the two palettes below use it:
      0 to 7 are Black, Red, Green, Yellow, Blue, Magenta, Cyan and White
      (bit 0 red, bit 1 green, bit 2 blue), 8 to 15 their bright forms. */
  datatype Color16 = Color16(number: Color16Number)
  {
    /** The `0xRRGGBB` value of each colour. */
    static const ColorCodes: seq<UInt32> := [
      0x000000, 0x800000, 0x008000, 0x808000, 0x000080, 0x800080, 0x008080, 0xc0c0c0,
      0x808080, 0xff0000, 0x00ff00, 0xffff00, 0x0000ff, 0xff00ff, 0x00ffff, 0xffffff]

    /** `ToRgbCore`: the three bytes of the colour's `0xRRGGBB` value. */
    function ToRgb(): (c: Rgb)
      ensures c.r * 0x1_0000 + c.g * 0x100 + c.b == ColorCodes[number]
    {
      var code := ColorCodes[number];
      ThreeBytes(code);
      Rgb(code / 0x1_0000 % 0x100, code / 0x100 % 0x100, code % 0x100)
    }
  }

  /** A 24-bit value is its three bytes, high to low. */
  lemma ThreeBytes(code: int)
    requires 0 <= code < 0x100_0000
    ensures code / 0x1_0000 % 0x100 * 0x1_0000 + code / 0x100 % 0x100 * 0x100 + code % 0x100 == code
  {
    var low, q := code % 0x100, code / 0x100;
    assert code == q * 0x100 + low;
    var high := q / 0x100;
    assert q == high * 0x100 + q % 0x100;
    assert code / 0x1_0000 == high;
    assert high < 0x100;
  }

  // ------------------------------------------------------------- Color8

  type Color8Number = x: int | 0 <= x < 8

  /** The 8-colour palette: bit 2 of the number is red, bit 1 green and
      bit 0 blue. */
  datatype Color8 = Color8(number: Color8Number)
  {
    /** The private constructor: a code outside [0, 8) is out of range. */
    static function New(colorCode: Int32): (r: Result<Color8>)
      ensures r.Ok? <==> 0 <= colorCode < 8
      ensures r.Ok? ==> r.value.number == colorCode
      ensures r.Err? ==> r.error == ArgumentOutOfRange
    {
      if 0 <= colorCode < 8 then Ok(Color8(colorCode)) else Err(ArgumentOutOfRange)
    }

    /** Each channel is 0x80 when its bit is set and 0 otherwise. */
    function ToRgb(): (c: Rgb)
      ensures c.r == (if number >= 4 then 0x80 else 0)
      ensures c.g == (if number % 4 >= 2 then 0x80 else 0)
      ensures c.b == (if number % 2 == 1 then 0x80 else 0)
    {
      var bits := number as bv8;
      Rgb(if bits & 0x04 != 0 then 0x80 else 0,
          if bits & 0x02 != 0 then 0x80 else 0,
          if bits & 0x01 != 0 then 0x80 else 0)
    }

    /** The colour whose bits are the top bits of the three channels. The
        number is always in range, so the constructor never throws here. */
    static function FromRgb(r: Byte, g: Byte, b: Byte): (c: Color8)
      ensures c.number == 4 * (r / 128) + 2 * (g / 128) + b / 128
    {
      var number := ((r as bv8 >> 7) << 2) | ((g as bv8 >> 7) << 1) | (b as bv8 >> 7);
      assert number as int == 4 * (r / 128) + 2 * (g / 128) + b / 128 by {
        TopBit(r);
        TopBit(g);
        TopBit(b);
      }
      Color8(number as int)
    }

    /** The explicit conversion to Color16: Black stays Black, every other
        colour becomes the bright colour of the same hue. */
    function ToColor16(): (c: Color16)
      ensures number == 0 <==> c.number == 0
      ensures number != 0 ==> 9 <= c.number <= 15
    {
      match number
      case 0 => Color16(0)
      case 1 => Color16(12)
      case 2 => Color16(10)
      case 3 => Color16(14)
      case 4 => Color16(9)
      case 5 => Color16(13)
      case 6 => Color16(11)
      case 7 => Color16(15)
    }
  }

  lemma TopBit(x: Byte)
    ensures (x as bv8 >> 7) as int == x / 128
  {
    if x < 128 {
      assert x as bv8 < 128;
    } else {
      assert x as bv8 >= 128;
    }
  }

  /** Reading back the components of a colour gives the colour. */
  lemma Color8RgbRoundTrip(c: Color8)
    ensures Color8.FromRgb(c.ToRgb().r, c.ToRgb().g, c.ToRgb().b) == c
  {
  }

  /** FromRgb keeps the channels of the given colour that are at least
      half on: its components are the given ones rounded down to 0 or
      0x80. */
  lemma Color8FromRgbRounds(r: Byte, g: Byte, b: Byte)
    ensures var c := Color8.FromRgb(r, g, b).ToRgb();
            c.r == r / 128 * 0x80 && c.g == g / 128 * 0x80 && c.b == b / 128 * 0x80
  {
    var x, y, z := r / 128, g / 128, b / 128;
    assert x == 0 || x == 1;
    assert y == 0 || y == 1;
    assert z == 0 || z == 1;
    var n := Color8.FromRgb(r, g, b).number;
    assert n == 4 * x + 2 * y + z;
    assert n >= 4 <==> x == 1;
    assert n % 4 == 2 * y + z;
    assert n % 2 == z;
  }

  /** The conversion to Color16 keeps the hue: a channel of the 8-colour
      value is on exactly when the same channel of the 16-colour value is,
      and the 16-colour one is at full intensity. */
  lemma Color16KeepsHue(c: Color8)
    ensures c.ToRgb().r != 0 <==> c.ToColor16().ToRgb().r != 0
    ensures c.ToRgb().g != 0 <==> c.ToColor16().ToRgb().g != 0
    ensures c.ToRgb().b != 0 <==> c.ToColor16().ToRgb().b != 0
    ensures c.number != 0 ==> c.ToColor16().ToRgb().r in {0, 0xff} && c.ToColor16().ToRgb().g in {0, 0xff} && c.ToColor16().ToRgb().b in {0, 0xff}
  {
  }

  // ------------------------------------------------------------- Color256

  type Color256Number = x: int | 0 <= x < 256

  /** The levels a channel takes in the 6x6x6 colour cube. */
  const CubeTable: seq<Byte> := [0x00, 0x5f, 0x87, 0xaf, 0xd7, 0xff]

  /** The 24 gray levels of codes 232 to 255, darkest first. */
  const GrayScaleTable: seq<Byte> := [
    0x08, 0x12, 0x1c, 0x26, 0x30, 0x3a, 0x44, 0x4e, 0x58, 0x62, 0x6c, 0x76,
    0x80, 0x8a, 0x94, 0x9e, 0xa8, 0xb2, 0xbc, 0xc6, 0xd0, 0xda, 0xe4, 0xee]

  /** The gray levels step by 10 from 8. */
  lemma GrayRamp()
    ensures forall k :: 0 <= k < |GrayScaleTable| ==> GrayScaleTable[k] == 8 + 10 * k
  {
  }

  /** `GetBoundary`: the midpoint of two levels, rounded up. */
  function GetBoundary(value1: Byte, value2: Byte): (r: UInt16)
    ensures value1 + value2 <= 2 * r <= value1 + value2 + 1
  {
    var sum := value1 + value2;
    var even := if sum % 2 != 0 then sum + 1 else sum;
    even / 2
  }

  /** The static constructor's table: a channel value v falls to cube
      level i when `CubeBoundaries[i] <= v < CubeBoundaries[i + 1]`. */
  function CubeBoundaries(): (r: seq<UInt16>)
    ensures |r| == |CubeTable| + 1
    ensures r[0] == 0 && r[|CubeTable|] == 256
    ensures forall i, j :: 0 <= i < j < |r| ==> r[i] < r[j]
  {
    [0,
     GetBoundary(CubeTable[0], CubeTable[1]),
     GetBoundary(CubeTable[1], CubeTable[2]),
     GetBoundary(CubeTable[2], CubeTable[3]),
     GetBoundary(CubeTable[3], CubeTable[4]),
     GetBoundary(CubeTable[4], CubeTable[5]),
     256]
  }

  /** The 256-colour palette: 0 to 15 are the 16 colours, 16 to 231 the
      6x6x6 cube, 232 to 255 the gray scale. */
  datatype Color256 = Color256(number: Color256Number)
  {
    /** The private constructor: a code outside [0, 256) is out of range. */
    static function New(colorCode: Int32): (r: Result<Color256>)
      ensures r.Ok? <==> 0 <= colorCode < 256
      ensures r.Ok? ==> r.value.number == colorCode
      ensures r.Err? ==> r.error == ArgumentOutOfRange
    {
      if 0 <= colorCode < 256 then Ok(Color256(colorCode)) else Err(ArgumentOutOfRange)
    }

    /** The components: the Color16 table below 16, the cube levels of the
        three base-6 digits of `number - 16` up to 231, a gray level above. */
    function ToRgb(): (c: Rgb)
      ensures number >= 232 ==> c.r == c.g == c.b
      ensures number >= 232 ==> c.r == 8 + 10 * (number - 232)
    {
      if number < 16 then Color16(number).ToRgb()
      else if number < 232 then
        var colorCode := number - 16;
        Rgb(CubeTable[colorCode / 36 % 6], CubeTable[colorCode / 6 % 6], CubeTable[colorCode % 6])
      else
        GrayRamp();
        var grayScale := GrayScaleTable[number - 232];
        Rgb(grayScale, grayScale, grayScale)
    }
  }

  /** The code of the cube colour with the given level indices. */
  function CubeColorNumber(rIndex: nat, gIndex: nat, bIndex: nat): (n: Color256Number)
    requires rIndex < 6 && gIndex < 6 && bIndex < 6
    ensures 16 <= n <= 231
  {
    rIndex * 36 + gIndex * 6 + bIndex + 16
  }

  /** The cube colour with indices (i, j, k) has exactly the cube levels
      i, j and k as its components. */
  lemma CubeColorComponents(rIndex: nat, gIndex: nat, bIndex: nat)
    requires rIndex < 6 && gIndex < 6 && bIndex < 6
    ensures Color256(CubeColorNumber(rIndex, gIndex, bIndex)).ToRgb()
            == Rgb(CubeTable[rIndex], CubeTable[gIndex], CubeTable[bIndex])
  {
    var n := CubeColorNumber(rIndex, gIndex, bIndex);
    CubeIndicesOfNumber(rIndex, gIndex, bIndex);
    assert (n - 16) / 36 % 6 == rIndex;
    assert Color256(n).ToRgb() == Rgb(CubeTable[(n - 16) / 36 % 6], CubeTable[(n - 16) / 6 % 6], CubeTable[(n - 16) % 6]);
  }

  /** Every cube code is reached from its own three indices. */
  lemma CubeNumberRoundTrip(n: Color256Number)
    requires 16 <= n <= 231
    ensures CubeColorNumber((n - 16) / 36, (n - 16) / 6 % 6, (n - 16) % 6) == n
  {
    var code := n - 16;
    assert code == (code / 6) * 6 + code % 6;
    assert code / 6 == (code / 36) * 6 + code / 6 % 6;
    assert code / 36 == (code / 6) / 6;
  }

  // ------------------------------------------------------------- cube search

  /** The squared distance between two channel values. */
  function Square(d: int): nat
  {
    d * d
  }

  /** The squared Euclidean distance between a colour and a cube colour. */
  function CubeDistance2(r: Byte, g: Byte, b: Byte, rIndex: nat, gIndex: nat, bIndex: nat): nat
    requires rIndex < 6 && gIndex < 6 && bIndex < 6
  {
    Square(CubeTable[rIndex] - r) + Square(CubeTable[gIndex] - g) + Square(CubeTable[bIndex] - b)
  }

  /** The squared distance between a colour and the cube colour n, whose
      level indices are the three base-6 digits of `n - 16`. */
  function CubeDistanceOf(r: Byte, g: Byte, b: Byte, n: int): nat
    requires 16 <= n <= 231
  {
    CubeDistance2(r, g, b, (n - 16) / 36, (n - 16) / 6 % 6, (n - 16) % 6)
  }

  /** The distance GetRgbCube returns as written: the blue term is added
      twice instead of squared. */
  function CubeDistance2AsWritten(r: Byte, g: Byte, b: Byte, rIndex: nat, gIndex: nat, bIndex: nat): int
    requires rIndex < 6 && gIndex < 6 && bIndex < 6
  {
    var bDistance := CubeTable[bIndex] - b;
    Square(CubeTable[rIndex] - r) + Square(CubeTable[gIndex] - g) + bDistance + bDistance
  }

  /** CubeDistance2AsWritten for the cube colour n. */
  function CubeDistanceOfAsWritten(r: Byte, g: Byte, b: Byte, n: int): int
    requires 16 <= n <= 231
  {
    CubeDistance2AsWritten(r, g, b, (n - 16) / 36, (n - 16) / 6 % 6, (n - 16) % 6)
  }

  /** One of GetRgbCube's three scans: the first cube level whose interval
      of the boundary table holds v. The table covers 0 to 255, so the
      scan always stops inside the table. */
  method FindCubeIndex(v: Byte) returns (index: nat)
    ensures index < |CubeTable|
    ensures CubeBoundaries()[index] <= v < CubeBoundaries()[index + 1]
  {
    var boundaries := CubeBoundaries();
    index := 0;
    while index < |CubeTable|
      invariant 0 <= index <= |CubeTable|
      invariant v >= boundaries[index]
    {
      if v >= boundaries[index] && v < boundaries[index + 1] {
        break;
      }
      index := index + 1;
    }
    if index == |CubeTable| {
      assert false;
    }
  }

  /** GetRgbCube's three scans: the nearest level of each channel, which
      together make a nearest cube colour. */
  method NearestLevels(r: Byte, g: Byte, b: Byte) returns (rIndex: nat, gIndex: nat, bIndex: nat)
    ensures rIndex < 6 && gIndex < 6 && bIndex < 6
    ensures var n := CubeColorNumber(rIndex, gIndex, bIndex);
            CubeDistanceOf(r, g, b, n) == CubeDistance2(r, g, b, rIndex, gIndex, bIndex)
            && CubeDistanceOfAsWritten(r, g, b, n) == CubeDistance2AsWritten(r, g, b, rIndex, gIndex, bIndex)
            && NearestCube(r, g, b, n)
  {
    rIndex := FindCubeIndex(r);
    gIndex := FindCubeIndex(g);
    bIndex := FindCubeIndex(b);
    NearestCubeOfIndices(r, g, b, rIndex, gIndex, bIndex);
  }

  /** `GetRgbCube(r, g, b)` as written: the cube colour of the nearest
      level of each channel, with the distance of CubeDistance2AsWritten. */
  method GetRgbCubeAsWritten(r: Byte, g: Byte, b: Byte) returns (colorNumber: int, distance2: int)
    ensures 16 <= colorNumber <= 231
    ensures distance2 == CubeDistanceOfAsWritten(r, g, b, colorNumber)
    ensures NearestCube(r, g, b, colorNumber)
  {
    var rIndex, gIndex, bIndex := NearestLevels(r, g, b);
    colorNumber := CubeColorNumber(rIndex, gIndex, bIndex);
    distance2 := DistanceToLevelsAsWritten(r, g, b, rIndex, gIndex, bIndex);
  }

  /** The distance as GetRgbCube computes it, with the blue difference
      added twice. */
  method DistanceToLevelsAsWritten(r: Byte, g: Byte, b: Byte, rIndex: nat, gIndex: nat, bIndex: nat) returns (distance2: int)
    requires rIndex < 6 && gIndex < 6 && bIndex < 6
    ensures distance2 == CubeDistance2AsWritten(r, g, b, rIndex, gIndex, bIndex)
  {
    var rDistance := CubeTable[rIndex] - r;
    var gDistance := CubeTable[gIndex] - g;
    var bDistance := CubeTable[bIndex] - b;
    distance2 := rDistance * rDistance + gDistance * gDistance + bDistance + bDistance;
  }

  /** `GetRgbCube(r, g, b)` with the distance squared in every channel:
      the cube colour of the nearest level of each channel, and its
      squared distance from (r, g, b). */
  method GetRgbCube(r: Byte, g: Byte, b: Byte) returns (colorNumber: int, distance2: int)
    ensures 16 <= colorNumber <= 231
    ensures distance2 == CubeDistanceOf(r, g, b, colorNumber)
    ensures NearestCube(r, g, b, colorNumber)
  {
    var rIndex, gIndex, bIndex := NearestLevels(r, g, b);
    colorNumber := CubeColorNumber(rIndex, gIndex, bIndex);
    distance2 := DistanceToLevels(r, g, b, rIndex, gIndex, bIndex);
  }

  /** The squared distance of (r, g, b) from the cube colour of the given
      levels, channel by channel. */
  method DistanceToLevels(r: Byte, g: Byte, b: Byte, rIndex: nat, gIndex: nat, bIndex: nat) returns (distance2: int)
    requires rIndex < 6 && gIndex < 6 && bIndex < 6
    ensures distance2 == CubeDistance2(r, g, b, rIndex, gIndex, bIndex)
  {
    var rDistance := CubeTable[rIndex] - r;
    var gDistance := CubeTable[gIndex] - g;
    var bDistance := CubeTable[bIndex] - b;
    distance2 := rDistance * rDistance + gDistance * gDistance + bDistance * bDistance;
  }

  /** No cube colour is nearer to (r, g, b) than the cube colour n. */
  ghost predicate NearestCube(r: Byte, g: Byte, b: Byte, n: int)
    requires 16 <= n <= 231
  {
    forall i, j, k :: 0 <= i < 6 && 0 <= j < 6 && 0 <= k < 6 ==>
      CubeDistanceOf(r, g, b, n) <= CubeDistance2(r, g, b, i, j, k)
  }

  /** The cube colour made of the nearest level of each channel is a
      nearest cube colour. */
  lemma NearestCubeOfIndices(r: Byte, g: Byte, b: Byte, rIndex: nat, gIndex: nat, bIndex: nat)
    requires rIndex < 6 && gIndex < 6 && bIndex < 6
    requires CubeBoundaries()[rIndex] <= r < CubeBoundaries()[rIndex + 1]
    requires CubeBoundaries()[gIndex] <= g < CubeBoundaries()[gIndex + 1]
    requires CubeBoundaries()[bIndex] <= b < CubeBoundaries()[bIndex + 1]
    ensures var n := CubeColorNumber(rIndex, gIndex, bIndex);
            CubeDistanceOf(r, g, b, n) == CubeDistance2(r, g, b, rIndex, gIndex, bIndex)
            && CubeDistanceOfAsWritten(r, g, b, n) == CubeDistance2AsWritten(r, g, b, rIndex, gIndex, bIndex)
            && NearestCube(r, g, b, n)
  {
    CubeIndexIsNearest(r, rIndex);
    CubeIndexIsNearest(g, gIndex);
    CubeIndexIsNearest(b, bIndex);
    CubeIndicesOfNumber(rIndex, gIndex, bIndex);
  }

  lemma CubeIndicesOfNumber(rIndex: nat, gIndex: nat, bIndex: nat)
    requires rIndex < 6 && gIndex < 6 && bIndex < 6
    ensures var n := CubeColorNumber(rIndex, gIndex, bIndex);
            (n - 16) / 36 == rIndex && (n - 16) / 6 % 6 == gIndex && (n - 16) % 6 == bIndex
  {
    var code := rIndex * 36 + gIndex * 6 + bIndex;
    assert code == (rIndex * 6 + gIndex) * 6 + bIndex;
    assert code / 6 == rIndex * 6 + gIndex;
    assert code / 36 == (code / 6) / 6;
  }

  /** A level no farther away has no larger square. */
  lemma SquareMonotone(a: int, b: int)
    requires (if a < 0 then -a else a) <= (if b < 0 then -b else b)
    ensures Square(a) <= Square(b)
  {
    var x: nat := if a < 0 then -a else a;
    var y: nat := if b < 0 then -b else b;
    var d: nat := y - x;
    assert Square(a) == x * x && Square(b) == y * y;
    assert y * y == x * x + d * (x + y);
    assert d * (x + y) >= 0;
  }

  /** The level whose boundary interval holds v is a nearest level to v:
      the boundaries are the rounded-up midpoints of neighbouring levels. */
  lemma CubeIndexIsNearest(v: Byte, index: nat)
    requires index < |CubeTable|
    requires CubeBoundaries()[index] <= v < CubeBoundaries()[index + 1]
    ensures forall j :: 0 <= j < |CubeTable| ==> Square(CubeTable[index] - v) <= Square(CubeTable[j] - v)
  {
    var t := CubeTable;
    assert t == [0x00, 0x5f, 0x87, 0xaf, 0xd7, 0xff];
    var bounds := CubeBoundaries();
    assert bounds == [0, 48, 115, 155, 195, 235, 256];
    forall j | 0 <= j < |CubeTable|
      ensures Square(t[index] - v) <= Square(t[j] - v)
    {
      SquareMonotone(t[index] - v, t[j] - v);
    }
  }

  /** For (0, 0, 216) the scan picks levels (0, 0, 0xd7), one step from
      the colour, yet the distance as written is negative. */
  lemma CubeDistanceAsWrittenCanBeNegative()
    ensures CubeBoundaries()[4] <= 216 < CubeBoundaries()[5]
    ensures CubeDistance2AsWritten(0, 0, 216, 0, 0, 4) == -2
    ensures CubeDistance2(0, 0, 216, 0, 0, 4) == 1
  {
  }

  /** The corrected distance is the squared Euclidean distance between the
      colour and the components of the cube colour. */
  lemma CubeDistanceIsEuclidean(r: Byte, g: Byte, b: Byte, rIndex: nat, gIndex: nat, bIndex: nat)
    requires rIndex < 6 && gIndex < 6 && bIndex < 6
    ensures var c := Color256(CubeColorNumber(rIndex, gIndex, bIndex)).ToRgb();
            CubeDistance2(r, g, b, rIndex, gIndex, bIndex) == (c.r - r) * (c.r - r) + (c.g - g) * (c.g - g) + (c.b - b) * (c.b - b)
  {
    CubeColorComponents(rIndex, gIndex, bIndex);
  }

  // ------------------------------------------------------------- gray scale

  /** `GrayScales` as written: `Enumerable.Repeat(232, 24)` gives 24
      copies of the darkest gray. */
  function GrayScalesAsWritten(): (r: seq<Color256>)
    ensures |r| == 24
  {
    seq(24, i => Color256(232))
  }

  /** The 24 gray colours, darkest first, as `Enumerable.Range(232, 24)`
      would give them. */
  function GrayScales(): (r: seq<Color256>)
    ensures |r| == 24
    ensures forall i :: 0 <= i < 24 ==> r[i].number == 232 + i
  {
    seq(24, i requires 0 <= i < 24 => Color256(232 + i))
  }

  /** The table as written is flat: its last entry is no brighter than its
      first. */
  lemma GrayScalesAsWrittenIsFlat()
    ensures GrayScalesAsWritten()[23].ToRgb() == GrayScalesAsWritten()[0].ToRgb()
    ensures GrayScalesAsWritten()[23].ToRgb().r == 0x08
  {
  }

  /** The gray scale gets brighter with the index, in every channel. */
  lemma GrayScalesBrighten(i: nat, j: nat)
    requires i < j < 24
    ensures GrayScales()[i].ToRgb().r < GrayScales()[j].ToRgb().r
  {
    var t := GrayScaleTable;
    assert forall k :: 0 <= k < 23 ==> t[k] < t[k + 1];
    GraysIncrease(i, j);
  }

  lemma {:induction false} GraysIncrease(i: nat, j: nat)
    requires i < j < 24
    requires forall k :: 0 <= k < 23 ==> GrayScaleTable[k] < GrayScaleTable[k + 1]
    ensures GrayScaleTable[i] < GrayScaleTable[j]
    decreases j - i
  {
    if i + 1 < j {
      GraysIncrease(i + 1, j);
    }
  }
}
