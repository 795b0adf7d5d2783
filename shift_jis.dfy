/** `Palmtree.Text.ShiftJisChar`: one Shift_JIS character held as one byte
    (`data2 == 0`) or as a lead byte and a trail byte, with the byte
    classes, the decoder and encoder of byte strings, and the mapping from
    a JIS X 0213 plane, row and cell to the character's bytes.

    `PlaneRowCellNumber` is not part of this model: its plane, row and cell
    are taken here as three bytes. */
module ShiftJis {
  import opened Wrappers
  import opened Primitives

  /** A byte that starts a two-byte character: 0x81-0x9F or 0xE0-0xFC. */
  predicate IsLeadByte(b: Byte)
  {
    0x81 <= b <= 0x9F || 0xE0 <= b <= 0xFC
  }

  /** A byte that can end a two-byte character: 0x40-0x7E or 0x80-0xFC. */
  predicate IsTrailByte(b: Byte)
  {
    0x40 <= b <= 0x7E || 0x80 <= b <= 0xFC
  }

  /** `IsSingleByteChar`. */
  predicate IsSingleByteChar(b: Byte)
  {
    !IsLeadByte(b)
  }

  datatype ShiftJisChar = ShiftJisChar(data1: Byte, data2: Byte)

  /** What the two constructors let through. */
  predicate Valid(c: ShiftJisChar)
  {
    (c.data2 == 0 && !IsLeadByte(c.data1)) || (IsLeadByte(c.data1) && IsTrailByte(c.data2))
  }

  /** `new ShiftJisChar(data)`: a lead byte alone is out of range. */
  function Single(data: Byte): (r: Result<ShiftJisChar>)
    ensures r.Ok? <==> !IsLeadByte(data)
    ensures r.Ok? ==> Valid(r.value) && r.value.data1 == data && r.value.data2 == 0
    ensures r.Err? ==> r.error == ArgumentOutOfRange
  {
    if IsLeadByte(data) then Err(ArgumentOutOfRange) else Ok(ShiftJisChar(data, 0))
  }

  /** `new ShiftJisChar(data1, data2)`: the first must be a lead byte and
      the second a trail byte. */
  function Pair(data1: Byte, data2: Byte): (r: Result<ShiftJisChar>)
    ensures r.Ok? <==> IsLeadByte(data1) && IsTrailByte(data2)
    ensures r.Ok? ==> Valid(r.value) && r.value.data1 == data1 && r.value.data2 == data2
    ensures r.Err? ==> r.error == ArgumentOutOfRange
  {
    if !IsLeadByte(data1) then Err(ArgumentOutOfRange)
    else if !IsTrailByte(data2) then Err(ArgumentOutOfRange)
    else Ok(ShiftJisChar(data1, data2))
  }

  /** The bytes `ToByteArray` writes: one when `data2` is 0, else two. */
  function Bytes(c: ShiftJisChar): (r: seq<Byte>)
    ensures |r| == 1 <==> c.data2 == 0
    ensures 1 <= |r| <= 2 && r[0] == c.data1
    ensures |r| == 2 ==> r[1] == c.data2
  {
    if c.data2 == 0 then [c.data1] else [c.data1, c.data2]
  }

  /** `ToByteArray(buffer)`: writes the character's bytes at the start of
      the region and returns how many it wrote. */
  method ToByteArray(c: ShiftJisChar, buffer: array<Byte>, offset: nat) returns (length: nat)
    requires offset + 2 <= buffer.Length
    modifies buffer
    ensures length == |Bytes(c)| && buffer[offset..offset + length] == Bytes(c)
    ensures buffer[..offset] == old(buffer[..offset])
  {
    if c.data2 == 0 {
      buffer[offset] := c.data1;
      return 1;
    } else {
      buffer[offset] := c.data1;
      buffer[offset + 1] := c.data2;
      return 2;
    }
  }

  /** `InternalCode`, the value `CompareTo` orders by. */
  function InternalCode(c: ShiftJisChar): (r: int)
  {
    if c.data2 == 0 then c.data1 else c.data1 * 256 + c.data2
  }

  /** Two characters the constructors accept are equal (`Equals`, which
      compares both bytes) exactly when their codes are equal, so the order
      by code is consistent with equality; and a one-byte code is below
      every two-byte one. */
  lemma CodeIsFaithful(x: ShiftJisChar, y: ShiftJisChar)
    requires Valid(x) && Valid(y)
    ensures x == y <==> InternalCode(x) == InternalCode(y)
    ensures x.data2 == 0 && y.data2 != 0 ==> InternalCode(x) < InternalCode(y)
  {
  }

  // ------------------------------------------------------------- byte strings

  /** The bytes of a character string, in order. */
  function Encoded(cs: seq<ShiftJisChar>): (r: seq<Byte>)
    ensures |cs| <= |r| <= 2 * |cs|
  {
    if cs == [] then [] else Encoded(cs[..|cs| - 1]) + Bytes(cs[|cs| - 1])
  }

  lemma {:induction false} EncodedCons(c: ShiftJisChar, cs: seq<ShiftJisChar>)
    ensures Encoded([c] + cs) == Bytes(c) + Encoded(cs)
    decreases |cs|
  {
    if cs == [] {
      assert [c] + cs == [c];
      assert Encoded([c]) == Encoded([]) + Bytes(c);
    } else {
      var all := [c] + cs;
      assert all[..|all| - 1] == [c] + cs[..|cs| - 1];
      EncodedCons(c, cs[..|cs| - 1]);
    }
  }

  /** The characters `Decode` reads from a byte string: a lead byte takes
      the next byte as its trail, any other byte stands alone; a lead byte
      at the end, or followed by a byte that cannot trail, is an encoding
      error. */
  function Decoded(bytes: seq<Byte>): (r: Result<seq<ShiftJisChar>>)
    ensures r.Err? ==> r.error == ShiftJisEncoding
    ensures r.Ok? ==> |r.value| <= |bytes| && forall i :: 0 <= i < |r.value| ==> Valid(r.value[i])
    decreases |bytes|
  {
    if bytes == [] then Ok([])
    else if IsLeadByte(bytes[0]) then
      if |bytes| < 2 || !IsTrailByte(bytes[1]) then Err(ShiftJisEncoding)
      else
        var rest :- Decoded(bytes[2..]);
        Ok([ShiftJisChar(bytes[0], bytes[1])] + rest)
    else
      var rest :- Decoded(bytes[1..]);
      Ok([ShiftJisChar(bytes[0], 0)] + rest)
  }

  /** `Encode(characters)`: each character's bytes written in turn into a
      buffer of twice the length, which is then cut to what was written. */
  method Encode(characters: seq<ShiftJisChar>) returns (r: seq<Byte>)
    ensures r == Encoded(characters)
  {
    var buffer := new Byte[2 * |characters|](_ => 0);
    var offset := 0;
    var index := 0;
    while index < |characters|
      invariant 0 <= index <= |characters|
      invariant 0 <= offset <= 2 * index
      invariant buffer[..offset] == Encoded(characters[..index])
    {
      var length := ToByteArray(characters[index], buffer, offset);
      assert buffer[..offset + length] == buffer[..offset] + buffer[offset..offset + length];
      EncodedStep(characters, index, buffer[..offset], buffer[offset..offset + length]);
      offset := offset + length;
      index := index + 1;
    }
    assert characters[..index] == characters;
    return buffer[..offset];
  }

  /** The bytes of one more character extend the bytes of a prefix. */
  lemma EncodedStep(cs: seq<ShiftJisChar>, index: nat, prefix: seq<Byte>, written: seq<Byte>)
    requires index < |cs| && prefix == Encoded(cs[..index]) && written == Bytes(cs[index])
    ensures prefix + written == Encoded(cs[..index + 1])
  {
    assert cs[..index + 1][..index] == cs[..index];
  }

  /** `Decode(bytes)`: reads characters into a buffer as long as the byte
      string, which is then cut to what was read. */
  method Decode(bytes: seq<Byte>) returns (r: Result<seq<ShiftJisChar>>)
    ensures r == Decoded(bytes)
  {
    var buffer := new ShiftJisChar[|bytes|](_ => ShiftJisChar(0, 0));
    var count := 0;
    var index := 0;
    assert bytes[index..] == bytes;
    assert Decoded(bytes).Ok? ==> [] + Decoded(bytes).value == Decoded(bytes).value;
    while index < |bytes|
      invariant 0 <= count <= index <= |bytes|
      invariant Decoded(bytes) == Prepended(buffer[..count], Decoded(bytes[index..]))
      decreases |bytes| - index
    {
      var firstByte := bytes[index];
      ghost var rest := bytes[index..];
      if IsLeadByte(firstByte) {
        if index + 1 >= |bytes| {
          DecodedStep(rest);
          return Err(ShiftJisEncoding);
        }
        var secondByte := bytes[index + 1];
        if !IsTrailByte(secondByte) {
          DecodedStep(rest);
          return Err(ShiftJisEncoding);
        }
        buffer[count] := ShiftJisChar(firstByte, secondByte);
        DecodedStep(rest);
        assert rest[2..] == bytes[index + 2..];
        index := index + 2;
      } else {
        buffer[count] := ShiftJisChar(firstByte, 0);
        DecodedStep(rest);
        assert rest[1..] == bytes[index + 1..];
        index := index + 1;
      }
      PrependedStep(buffer[..count], buffer[count], Decoded(bytes[index..]));
      assert buffer[..count + 1] == buffer[..count] + [buffer[count]];
      count := count + 1;
    }
    assert bytes[index..] == [];
    assert buffer[..count] + [] == buffer[..count];
    return Ok(buffer[..count]);
  }

  /** One step of Decoded: the first character, then the rest. */
  lemma DecodedStep(bytes: seq<Byte>)
    requires bytes != []
    ensures IsLeadByte(bytes[0]) && (|bytes| < 2 || !IsTrailByte(bytes[1])) ==> Decoded(bytes) == Err(ShiftJisEncoding)
    ensures IsLeadByte(bytes[0]) && |bytes| >= 2 && IsTrailByte(bytes[1]) ==>
              Decoded(bytes) == Prepended([ShiftJisChar(bytes[0], bytes[1])], Decoded(bytes[2..]))
    ensures !IsLeadByte(bytes[0]) ==> Decoded(bytes) == Prepended([ShiftJisChar(bytes[0], 0)], Decoded(bytes[1..]))
  {
  }

  /** A decoding result after the characters already read. */
  function Prepended(done: seq<ShiftJisChar>, r: Result<seq<ShiftJisChar>>): Result<seq<ShiftJisChar>>
  {
    if r.Ok? then Ok(done + r.value) else r
  }

  lemma PrependedStep(done: seq<ShiftJisChar>, c: ShiftJisChar, r: Result<seq<ShiftJisChar>>)
    ensures Prepended(done, Prepended([c], r)) == Prepended(done + [c], r)
  {
    if r.Ok? {
      assert done + ([c] + r.value) == (done + [c]) + r.value;
    }
  }

  /** Decoding the bytes of valid characters gives the characters back. */
  lemma {:induction false} DecodeEncode(cs: seq<ShiftJisChar>)
    requires forall i :: 0 <= i < |cs| ==> Valid(cs[i])
    ensures Decoded(Encoded(cs)) == Ok(cs)
    decreases |cs|
  {
    if cs != [] {
      EncodedCons(cs[0], cs[1..]);
      assert [cs[0]] + cs[1..] == cs;
      var b := Encoded(cs);
      assert b == Bytes(cs[0]) + Encoded(cs[1..]);
      assert b[|Bytes(cs[0])|..] == Encoded(cs[1..]);
      DecodeEncode(cs[1..]);
    }
  }

  /** Encoding what decodes gives the bytes back. */
  lemma {:induction false} EncodeDecode(bytes: seq<Byte>)
    requires Decoded(bytes).Ok?
    ensures Encoded(Decoded(bytes).value) == bytes
    decreases |bytes|
  {
    if bytes != [] {
      var cs := Decoded(bytes).value;
      var n := if IsLeadByte(bytes[0]) then 2 else 1;
      EncodeDecode(bytes[n..]);
      EncodedCons(cs[0], cs[1..]);
      assert [cs[0]] + cs[1..] == cs;
      assert bytes == bytes[..n] + bytes[n..];
    }
  }

  // ------------------------------------------------- plane, row and cell

  /** `_mapFromPlane1RowToShiftJisFirstByte[row]`. */
  function Plane1Lead(row: Byte): (r: Option<Byte>)
    ensures r.Some? <==> 1 <= row <= 94
    ensures r.Some? ==> IsLeadByte(r.value) && r.value <= 0xEF
  {
    if 1 <= row <= 62 then Some((row + 257) / 2)
    else if 63 <= row <= 94 then Some((row + 385) / 2)
    else None
  }

  /** Plane 2 rows that have characters. */
  predicate IsPlane2Row(row: int)
  {
    row in {1, 3, 4, 5, 8} || 12 <= row <= 15 || 78 <= row <= 94
  }

  /** `_mapFromPlane2RowToShiftJisFirstByte[row]`. */
  function Plane2Lead(row: Byte): (r: Option<Byte>)
    ensures r.Some? <==> IsPlane2Row(row)
    ensures r.Some? ==> IsLeadByte(r.value) && r.value >= 0xF0
  {
    if row in {1, 3, 4, 5, 8} || 12 <= row <= 15 then Some((row + 479) / 2 - row / 8 * 3)
    else if 78 <= row <= 94 then Some((row + 411) / 2)
    else None
  }

  /** `_mapFromCellToShiftJisSecondByte[cell]` as written: the choice
      between the two halves of the trail bytes is made on the parity of
      the CELL. */
  function CellTrailAsWritten(cell: Byte): (r: Option<Byte>)
    ensures r.Some? <==> 1 <= cell <= 94
    ensures r.Some? ==> IsTrailByte(r.value)
  {
    if !(1 <= cell <= 94) then None
    else if cell % 2 == 0 then Some(cell + 158)
    else if cell <= 63 then Some(cell + 63)
    else Some(cell + 64)
  }

  /** The trail byte Shift_JIS gives a cell: cells of an odd row take
      0x40-0x9E (skipping 0x7F), cells of an even row take 0x9F-0xFC. The
      parity is the ROW's. */
  function Trail(row: Byte, cell: Byte): (r: Option<Byte>)
    ensures r.Some? <==> 1 <= cell <= 94
    ensures r.Some? ==> IsTrailByte(r.value)
    ensures r.Some? && row % 2 == 1 ==> 0x40 <= r.value <= 0x9E
    ensures r.Some? && row % 2 == 0 ==> 0x9F <= r.value <= 0xFC
  {
    if !(1 <= cell <= 94) then None
    else if row % 2 == 0 then Some(cell + 158)
    else if cell <= 63 then Some(cell + 63)
    else Some(cell + 64)
  }

  /** The lead byte of a row of plane 1 or 2. */
  function Lead(plane: Byte, row: Byte): Option<Byte>
    requires plane == 1 || plane == 2
  {
    if plane == 1 then Plane1Lead(row) else Plane2Lead(row)
  }

  /** The static constructor's filling of the row and cell tables: rows
      and cells 1..94 get their bytes, every other entry stays null. */
  method BuildTables() returns (plane1: array<Option<Byte>>, plane2: array<Option<Byte>>, cells: array<Option<Byte>>)
    ensures plane1.Length == 256 && plane2.Length == 256 && cells.Length == 256
    ensures forall i :: 0 <= i < 256 ==> plane1[i] == Plane1Lead(i)
    ensures forall i :: 0 <= i < 256 ==> plane2[i] == Plane2Lead(i)
    ensures forall i :: 0 <= i < 256 ==> cells[i] == CellTrailAsWritten(i)
  {
    plane1, plane2 := BuildRowTables();
    cells := BuildCellTable();
  }

  /** The first loop of the static constructor: the lead byte of each row
      of planes 1 and 2. */
  method BuildRowTables() returns (plane1: array<Option<Byte>>, plane2: array<Option<Byte>>)
    ensures fresh(plane1) && fresh(plane2)
    ensures plane1.Length == 256 && plane2.Length == 256
    ensures forall i :: 0 <= i < 256 ==> plane1[i] == Plane1Lead(i)
    ensures forall i :: 0 <= i < 256 ==> plane2[i] == Plane2Lead(i)
  {
    plane1 := new Option<Byte>[256](_ => None);
    plane2 := new Option<Byte>[256](_ => None);
    var row := 1;
    while row <= 94
      modifies plane1, plane2
      invariant 1 <= row <= 95
      invariant forall i :: 0 <= i < 256 ==> plane1[i] == if i < row then Plane1Lead(i) else None
      invariant forall i :: 0 <= i < 256 ==> plane2[i] == if i < row then Plane2Lead(i) else None
    {
      FillRow(plane1, plane2, row);
      row := row + 1;
    }
  }

  /** One pass of that loop: the entries of one row, the others untouched. */
  method FillRow(plane1: array<Option<Byte>>, plane2: array<Option<Byte>>, row: Byte)
    requires plane1 != plane2 && plane1.Length == 256 && plane2.Length == 256
    requires 1 <= row <= 94 && plane2[row] == None
    modifies plane1, plane2
    ensures plane1[row] == Plane1Lead(row) && plane2[row] == Plane2Lead(row)
    ensures forall i :: 0 <= i < 256 && i != row ==> plane1[i] == old(plane1[i]) && plane2[i] == old(plane2[i])
  {
    if row <= 62 {
      plane1[row] := Some((row + 257) / 2);
    } else {
      plane1[row] := Some((row + 385) / 2);
    }
    if row in {1, 3, 4, 5, 8} || 12 <= row <= 15 {
      plane2[row] := Some((row + 479) / 2 - row / 8 * 3);
    } else if 78 <= row <= 94 {
      plane2[row] := Some((row + 411) / 2);
    }
  }

  /** The second loop of the static constructor: the trail byte of each
      cell, as written. */
  method BuildCellTable() returns (cells: array<Option<Byte>>)
    ensures fresh(cells) && cells.Length == 256
    ensures forall i :: 0 <= i < 256 ==> cells[i] == CellTrailAsWritten(i)
  {
    cells := new Option<Byte>[256](_ => None);
    var cell := 1;
    while cell <= 94
      modifies cells
      invariant 1 <= cell <= 95
      invariant forall i :: 0 <= i < 256 ==> cells[i] == if i < cell then CellTrailAsWritten(i) else None
    {
      if cell % 2 == 0 {
        cells[cell] := Some(cell + 158);
      } else if cell <= 63 {
        cells[cell] := Some(cell + 63);
      } else {
        cells[cell] := Some(cell + 64);
      }
      cell := cell + 1;
    }
  }

  /** `FromPlaneRowCell` as written: plane 0 is a single byte (row 0 only;
      a lead byte there is out of range), planes 1 and 2 look the row and
      the cell up, null when either has no entry; any other plane is an
      argument error. */
  function FromPlaneRowCellAsWritten(plane: Byte, row: Byte, cell: Byte): (r: Result<Option<ShiftJisChar>>)
    ensures plane > 2 ==> r == Err(Argument)
    ensures plane == 0 && row != 0 ==> r == Err(Argument)
    ensures plane == 1 || plane == 2 ==> r.Ok?
  {
    if plane == 0 then
      if row != 0 then Err(Argument)
      else var c :- Single(cell); Ok(Some(c))
    else if plane == 1 || plane == 2 then
      match (Lead(plane, row), CellTrailAsWritten(cell))
      case (Some(first), Some(second)) =>
        Ok(Some(Pair(first, second).value))
      case _ => Ok(None)
    else Err(Argument)
  }

  /** As written, rows 2k - 1 and 2k of plane 1 share their lead byte and
      the trail depends only on the cell, so the two rows give the same
      characters: (1, 1, 2) and (1, 2, 2) are both 0x81 0xA0, where
      Shift_JIS has 0x81 0x41 for (1, 1, 2). */
  lemma RowsCollideAsWritten()
    ensures FromPlaneRowCellAsWritten(1, 1, 2) == Ok(Some(ShiftJisChar(0x81, 0xA0)))
    ensures FromPlaneRowCellAsWritten(1, 2, 2) == Ok(Some(ShiftJisChar(0x81, 0xA0)))
    ensures FromPlaneRowCell(1, 1, 2) == Ok(Some(ShiftJisChar(0x81, 0x41)))
    ensures FromPlaneRowCell(1, 2, 2) == Ok(Some(ShiftJisChar(0x81, 0xA0)))
  {
  }

  /** `FromPlaneRowCell` with the trail byte chosen by the row's parity. */
  function FromPlaneRowCell(plane: Byte, row: Byte, cell: Byte): (r: Result<Option<ShiftJisChar>>)
    ensures plane > 2 ==> r == Err(Argument)
    ensures plane == 0 ==> (r.Ok? <==> row == 0 && !IsLeadByte(cell))
    ensures plane == 0 && r.Ok? ==> r.value == Some(ShiftJisChar(cell, 0))
    ensures plane == 1 || plane == 2 ==>
              r.Ok? && (r.value.Some? <==> Lead(plane, row).Some? && 1 <= cell <= 94)
    ensures r.Ok? && r.value.Some? ==> Valid(r.value.value)
  {
    if plane == 0 then
      if row != 0 then Err(Argument)
      else var c :- Single(cell); Ok(Some(c))
    else if plane == 1 || plane == 2 then
      match (Lead(plane, row), Trail(row, cell))
      case (Some(first), Some(second)) =>
        Ok(Some(Pair(first, second).value))
      case _ => Ok(None)
    else Err(Argument)
  }

  /** Rows of planes 1 and 2 that share a lead byte differ in parity. */
  lemma LeadAndParityDetermineRow(p: Byte, r: Byte, q: Byte, s: Byte)
    requires (p == 1 || p == 2) && (q == 1 || q == 2)
    requires Lead(p, r).Some? && Lead(p, r) == Lead(q, s) && r % 2 == s % 2
    ensures p == q && r == s
  {
    if p == 1 && q == 1 {
      Plane1RowsDiffer(r, s);
    } else if p == 2 && q == 2 {
      Plane2RowsDiffer(r, s);
    }
  }

  lemma Plane1RowsDiffer(r: Byte, s: Byte)
    requires Plane1Lead(r).Some? && Plane1Lead(r) == Plane1Lead(s) && r % 2 == s % 2
    ensures r == s
  {
  }

  lemma Plane2RowsDiffer(r: Byte, s: Byte)
    requires Plane2Lead(r).Some? && Plane2Lead(r) == Plane2Lead(s) && r % 2 == s % 2
    ensures r == s
  {
    if 78 <= r && 78 <= s {
    } else if r < 78 && s < 78 {
      assert r in {1, 3, 4, 5, 8, 12, 13, 14, 15};
      assert s in {1, 3, 4, 5, 8, 12, 13, 14, 15};
    }
  }

  /** Distinct planes, rows and cells give distinct characters. */
  lemma FromPlaneRowCellIsInjective(p: Byte, r: Byte, c: Byte, q: Byte, s: Byte, d: Byte)
    requires FromPlaneRowCell(p, r, c).Ok? && FromPlaneRowCell(p, r, c).value.Some?
    requires FromPlaneRowCell(q, s, d).Ok? && FromPlaneRowCell(q, s, d).value.Some?
    requires FromPlaneRowCell(p, r, c) == FromPlaneRowCell(q, s, d)
    ensures p == q && r == s && c == d
  {
    if p != 0 && q != 0 {
      var x := FromPlaneRowCell(p, r, c).value.value;
      assert x.data1 == Lead(p, r).value == Lead(q, s).value;
      assert x.data2 == Trail(r, c).value == Trail(s, d).value;
      assert r % 2 == s % 2;
      LeadAndParityDetermineRow(p, r, q, s);
    }
  }
}
