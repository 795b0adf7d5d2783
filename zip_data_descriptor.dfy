/** `ZipEntryDataDescriptor.Parse`: recognising the data descriptor that
    follows an entry's compressed data (section 4.3.9 of the ZIP File Format
    Specification, APPNOTE.TXT). The descriptor may or may not start with
    its signature, and its two sizes may be 4 or 8 bytes wide, so four
    layouts are tried in turn against the CRC and sizes the central
    directory header gives. */
module ZipDataDescriptors {
  import opened Wrappers
  import opened Primitives
  import opened ByteEncoding
  import CheckedArithmetic

  const MINIMUM_HEADER_SIZE: nat := 12
  const MAXIMUM_HEADER_SIZE: nat := 16
  const MINIMUM_HEADER_SIZE_FOR_ZIP64: nat := 20
  const MAXIMUM_HEADER_SIZE_FOR_ZIP64: nat := 24

  /** The little-endian value of the bytes 50 4b 07 08. */
  const DATA_DESCRIPTOR_SIGNATURE: nat := 0x08074b50

  lemma SignatureBytes()
    ensures FromLE([0x50, 0x4b, 0x07, 0x08]) == DATA_DESCRIPTOR_SIGNATURE
  {
    assert [0x50, 0x4b, 0x07, 0x08][1..] == [0x4b, 0x07, 0x08];
    assert [0x4b, 0x07, 0x08][1..] == [0x07, 0x08];
    assert [0x07, 0x08][1..] == [0x08];
    assert [0x08][1..] == [];
  }

  /** A recognised descriptor: where it is, what it holds, and how many
      bytes it occupies. */
  datatype DataDescriptor = DataDescriptor(position: nat, crc: UInt32, packedSize: UInt64, size: UInt64, headerSize: nat)

  /** `ToUInt32LE()` / `ToUInt64LE()` of `headerBytes.Slice(offset, count)`. */
  function Field(headerBytes: seq<Byte>, offset: nat, count: nat): nat
    requires offset + count <= |headerBytes|
  {
    FromLE(headerBytes[offset..offset + count])
  }

  /** `TryParse`: CRC, packed size and size, 4 bytes each, no signature. */
  function TryParse(headerBytes: seq<Byte>, position: nat, crc: UInt32, packedSize: UInt64, size: UInt64): (r: Option<DataDescriptor>)
    requires |headerBytes| >= MINIMUM_HEADER_SIZE
    ensures r.Some? <==> Field(headerBytes, 0, 4) == crc && Field(headerBytes, 4, 4) == packedSize && Field(headerBytes, 8, 4) == size
    ensures r.Some? ==> r.value == DataDescriptor(position, crc, packedSize, size, 12)
  {
    if Field(headerBytes, 0, 4) == crc && Field(headerBytes, 4, 4) == packedSize && Field(headerBytes, 8, 4) == size
    then Some(DataDescriptor(position, crc, packedSize, size, MINIMUM_HEADER_SIZE))
    else None
  }

  /** `TryParseWithSignature`: the signature, then the three 4-byte fields. */
  function TryParseWithSignature(headerBytes: seq<Byte>, position: nat, crc: UInt32, packedSize: UInt64, size: UInt64): (r: Option<DataDescriptor>)
    requires |headerBytes| >= MAXIMUM_HEADER_SIZE
    ensures r.Some? <==> Field(headerBytes, 0, 4) == DATA_DESCRIPTOR_SIGNATURE && Field(headerBytes, 4, 4) == crc
                         && Field(headerBytes, 8, 4) == packedSize && Field(headerBytes, 12, 4) == size
    ensures r.Some? ==> r.value == DataDescriptor(position, crc, packedSize, size, 16)
  {
    if Field(headerBytes, 0, 4) == DATA_DESCRIPTOR_SIGNATURE && Field(headerBytes, 4, 4) == crc
       && Field(headerBytes, 8, 4) == packedSize && Field(headerBytes, 12, 4) == size
    then Some(DataDescriptor(position, crc, packedSize, size, MAXIMUM_HEADER_SIZE))
    else None
  }

  /** `TryParseAsZip64`: a 4-byte CRC and two 8-byte sizes, no signature. */
  function TryParseAsZip64(headerBytes: seq<Byte>, position: nat, crc: UInt32, packedSize: UInt64, size: UInt64): (r: Option<DataDescriptor>)
    requires |headerBytes| >= MINIMUM_HEADER_SIZE_FOR_ZIP64
    ensures r.Some? <==> Field(headerBytes, 0, 4) == crc && Field(headerBytes, 4, 8) == packedSize && Field(headerBytes, 12, 8) == size
    ensures r.Some? ==> r.value == DataDescriptor(position, crc, packedSize, size, 20)
  {
    if Field(headerBytes, 0, 4) == crc && Field(headerBytes, 4, 8) == packedSize && Field(headerBytes, 12, 8) == size
    then Some(DataDescriptor(position, crc, packedSize, size, MINIMUM_HEADER_SIZE_FOR_ZIP64))
    else None
  }

  /** `TryParseAsZip64WithSignature`: the signature, the CRC and two 8-byte
      sizes. */
  function TryParseAsZip64WithSignature(headerBytes: seq<Byte>, position: nat, crc: UInt32, packedSize: UInt64, size: UInt64): (r: Option<DataDescriptor>)
    requires |headerBytes| >= MAXIMUM_HEADER_SIZE_FOR_ZIP64
    ensures r.Some? <==> Field(headerBytes, 0, 4) == DATA_DESCRIPTOR_SIGNATURE && Field(headerBytes, 4, 4) == crc
                         && Field(headerBytes, 8, 8) == packedSize && Field(headerBytes, 16, 8) == size
    ensures r.Some? ==> r.value == DataDescriptor(position, crc, packedSize, size, 24)
  {
    if Field(headerBytes, 0, 4) == DATA_DESCRIPTOR_SIGNATURE && Field(headerBytes, 4, 4) == crc
       && Field(headerBytes, 8, 8) == packedSize && Field(headerBytes, 16, 8) == size
    then Some(DataDescriptor(position, crc, packedSize, size, MAXIMUM_HEADER_SIZE_FOR_ZIP64))
    else None
  }

  /** `ReadBuffer(stream, position, currentBuffer, size)`: a buffer already
      long enough is kept; otherwise the missing bytes are read from the
      stream after the current ones, and a short read is a bad ZIP file.
      `remaining` is what the stream still holds within the locked volume;
      the result carries what it holds afterwards. */
  function ReadBuffer(remaining: seq<Byte>, currentBuffer: seq<Byte>, size: nat): (r: Result<(seq<Byte>, seq<Byte>)>)
    ensures r.Err? <==> |currentBuffer| < size && |remaining| < size - |currentBuffer|
    ensures r.Err? ==> r.error == BadZipFileFormat
    ensures r.Ok? ==> r.value.0 + r.value.1 == currentBuffer + remaining && |r.value.0| >= size
    ensures r.Ok? && |currentBuffer| >= size ==> r.value == (currentBuffer, remaining)
    ensures r.Ok? && |currentBuffer| < size ==>
              |r.value.0| == size && r.value.0[..|currentBuffer|] == currentBuffer
              && r.value.0[|currentBuffer|..] + r.value.1 == remaining
  {
    if |currentBuffer| >= size then Ok((currentBuffer, remaining))
    else
      var lengthToRead := size - |currentBuffer|;
      if |remaining| < lengthToRead then Err(BadZipFileFormat)
      else
        assert (currentBuffer + remaining[..lengthToRead])[|currentBuffer|..] == remaining[..lengthToRead];
        Ok((currentBuffer + remaining[..lengthToRead], remaining[lengthToRead..]))
  }

  /** The layout of header size hs accepts the first hs bytes of the
      stream: the check `Parse` makes on a buffer of that size. */
  predicate Passes(stream: seq<Byte>, hs: nat, crc: UInt32, packedSize: UInt64, size: UInt64)
  {
    hs <= |stream|
    && if hs == MINIMUM_HEADER_SIZE then TryParse(stream[..hs], 0, crc, packedSize, size).Some?
       else if hs == MAXIMUM_HEADER_SIZE then TryParseWithSignature(stream[..hs], 0, crc, packedSize, size).Some?
       else if hs == MINIMUM_HEADER_SIZE_FOR_ZIP64 then TryParseAsZip64(stream[..hs], 0, crc, packedSize, size).Some?
       else hs == MAXIMUM_HEADER_SIZE_FOR_ZIP64 && TryParseAsZip64WithSignature(stream[..hs], 0, crc, packedSize, size).Some?
  }

  /** The header sizes `Parse` may try, in the order it tries them: the
      32-bit layouts only when both sizes fit in 32 bits. */
  function Attempts(packedSize: UInt64, size: UInt64): set<nat>
  {
    if packedSize > UINT32_MAX || size > UINT32_MAX then {20, 24} else {12, 16, 20, 24}
  }

  /** Two parts that make up a sequence are its prefix and the rest. */
  lemma SplitPrefix(a: seq<Byte>, b: seq<Byte>, s: seq<Byte>)
    requires a + b == s
    ensures a == s[..|a|] && b == s[|a|..]
  {
  }

  /** The two 32-bit attempts of `Parse`: a descriptor if one matches,
      else the buffer read so far and what the stream still holds. The
      buffer is always a prefix of the stream, of the size of the last
      attempt made; a stream too short for an attempt that is reached is a
      bad ZIP file. */
  function Parse32(stream: seq<Byte>, position: nat, packedSize: UInt64, size: UInt64, crc: UInt32)
    : (r: Result<(Option<DataDescriptor>, seq<Byte>, seq<Byte>)>)
    ensures r.Ok? ==> r.value.1 + r.value.2 == stream
    ensures r.Ok? ==> |r.value.1| <= |stream| && r.value.1 == stream[..|r.value.1|] && r.value.2 == stream[|r.value.1|..]
    ensures r.Ok? && r.value.0.Some? ==>
              var hs := r.value.0.value.headerSize;
              hs in {12, 16} && hs == |r.value.1| && Passes(stream, hs, crc, packedSize, size)
              && (hs == 16 ==> !Passes(stream, 12, crc, packedSize, size))
              && r.value.0.value == DataDescriptor(position, crc, packedSize, size, hs)
    ensures r.Ok? && r.value.0.None? ==>
              |r.value.1| == 16 && !Passes(stream, 12, crc, packedSize, size) && !Passes(stream, 16, crc, packedSize, size)
    ensures r.Err? <==> |stream| < 12 || (!Passes(stream, 12, crc, packedSize, size) && |stream| < 16)
    ensures r.Err? ==> r.error == BadZipFileFormat
  {
    var first :- ReadBuffer(stream, [], MINIMUM_HEADER_SIZE);
    assert [] + stream == stream;
    SplitPrefix(first.0, first.1, stream);
    match TryParse(first.0, position, crc, packedSize, size)
    case Some(d) => Ok((Some(d), first.0, first.1))
    case None =>
      var second :- ReadBuffer(first.1, first.0, MAXIMUM_HEADER_SIZE);
      SplitPrefix(second.0, second.1, stream);
      match TryParseWithSignature(second.0, position, crc, packedSize, size)
      case Some(d) => Ok((Some(d), second.0, second.1))
      case None => Ok((None, second.0, second.1))
  }

  /** The two 64-bit attempts of `Parse`, extending the buffer read so far:
      the 20-byte layout, then the 24-byte one; when neither matches, or
      the stream ends first, the archive is a bad ZIP file. */
  function Parse64(buffer: seq<Byte>, remaining: seq<Byte>, position: nat, packedSize: UInt64, size: UInt64, crc: UInt32)
    : (r: Result<DataDescriptor>)
    requires |buffer| <= MAXIMUM_HEADER_SIZE
    ensures r.Ok? ==> r.value.headerSize in {20, 24} && r.value.headerSize <= |buffer| + |remaining|
                      && r.value == DataDescriptor(position, crc, packedSize, size, r.value.headerSize)
    ensures r.Ok? ==> Passes(buffer + remaining, r.value.headerSize, crc, packedSize, size)
                      && (r.value.headerSize == 24 ==> !Passes(buffer + remaining, 20, crc, packedSize, size))
    ensures r.Err? <==> !Passes(buffer + remaining, 20, crc, packedSize, size) && !Passes(buffer + remaining, 24, crc, packedSize, size)
    ensures r.Err? ==> r.error == BadZipFileFormat
  {
    var third :- ReadBuffer(remaining, buffer, MINIMUM_HEADER_SIZE_FOR_ZIP64);
    SplitPrefix(third.0, third.1, buffer + remaining);
    match TryParseAsZip64(third.0, position, crc, packedSize, size)
    case Some(d) => Ok(d)
    case None =>
      var fourth :- ReadBuffer(third.1, third.0, MAXIMUM_HEADER_SIZE_FOR_ZIP64);
      SplitPrefix(fourth.0, fourth.1, buffer + remaining);
      match TryParseAsZip64WithSignature(fourth.0, position, crc, packedSize, size)
      case Some(d) => Ok(d)
      case None => Err(BadZipFileFormat)
  }

  /** `Parse`, from the moment the reader stands at the descriptor:
      `stream` is what can be read there without leaving the volume. The
      two 32-bit layouts are tried only when both sizes fit in 32 bits, the
      two 64-bit layouts after them on the same buffer; the first layout
      that matches wins, and if none matches, the archive is a bad ZIP
      file. */
  function Parse(stream: seq<Byte>, position: nat, packedSize: UInt64, size: UInt64, crc: UInt32): (r: Result<DataDescriptor>)
    ensures r.Ok? ==> r.value.position == position && r.value.crc == crc
                      && r.value.packedSize == packedSize && r.value.size == size
                      && r.value.headerSize <= |stream|
    ensures r.Ok? ==> r.value.headerSize in Attempts(packedSize, size) && Passes(stream, r.value.headerSize, crc, packedSize, size)
    ensures r.Ok? ==> forall hs :: hs in Attempts(packedSize, size) && hs < r.value.headerSize
                                   ==> !Passes(stream, hs, crc, packedSize, size)
    ensures r.Err? <==> forall hs :: hs in Attempts(packedSize, size) ==> !Passes(stream, hs, crc, packedSize, size)
    ensures r.Ok? && (packedSize > UINT32_MAX || size > UINT32_MAX) ==> r.value.headerSize in {20, 24}
    ensures r.Err? ==> r.error == BadZipFileFormat
  {
    var requiredZip64 := packedSize > UINT32_MAX || size > UINT32_MAX;
    if requiredZip64 then
      assert [] + stream == stream;
      Parse64([], stream, position, packedSize, size, crc)
    else
      var attempt :- Parse32(stream, position, packedSize, size, crc);
      if attempt.0.Some? then Ok(attempt.0.value)
      else Parse64(attempt.1, attempt.2, position, packedSize, size, crc)
  }

  // ------------------------------------------------------------ properties

  lemma {:induction false} Pow256Sum(n: nat, m: nat)
    ensures Pow256(n + m) == Pow256(n) * Pow256(m)
  {
    if n > 0 {
      Pow256Sum(n - 1, m);
    }
  }

  lemma Pow256Values()
    ensures Pow256(4) == UINT32_MAX + 1 && Pow256(8) == UINT64_MAX + 1
  {
    assert Pow256(2) == 0x1_0000;
    Pow256Sum(2, 2);
    Pow256Sum(4, 4);
  }

  /** The first layout, in the order `Parse` tries them, that accepts the
      stream is the descriptor `Parse` returns. */
  lemma FirstPassingWins(stream: seq<Byte>, hs: nat, position: nat, packedSize: UInt64, size: UInt64, crc: UInt32)
    requires hs in Attempts(packedSize, size) && Passes(stream, hs, crc, packedSize, size)
    requires forall h :: h in Attempts(packedSize, size) && h < hs ==> !Passes(stream, h, crc, packedSize, size)
    ensures Parse(stream, position, packedSize, size, crc) == Ok(DataDescriptor(position, crc, packedSize, size, hs))
  {
    var r := Parse(stream, position, packedSize, size, crc);
    assert r.Ok?;
    var h := r.value.headerSize;
    assert h in Attempts(packedSize, size) && Passes(stream, h, crc, packedSize, size);
    assert !(h < hs);
    assert !(hs < h);
  }

  /** A field taken from the middle of a concatenation is the middle part. */
  lemma FieldOf(prefix: seq<Byte>, mid: seq<Byte>, rest: seq<Byte>)
    ensures Field(prefix + mid + rest, |prefix|, |mid|) == FromLE(mid)
  {
    assert (prefix + mid + rest)[|prefix|..|prefix| + |mid|] == mid;
  }

  /** The image of a value that fits in n bytes, widened by m bytes, ends
      in m zero bytes. */
  lemma {:induction false} LEBytesWidened(v: nat, n: nat, m: nat)
    requires v < Pow256(n)
    ensures LEBytes(v, n + m) == LEBytes(v, n) + LEBytes(0, m)
  {
    if n == 0 {
      assert v == 0;
      assert LEBytes(v, 0) == [];
      assert [] + LEBytes(0, m) == LEBytes(0, m);
    } else {
      var w := v / 256;
      QuotientBelow(v, n);
      LEBytesWidened(w, n - 1, m);
      assert LEBytes(v, n + m) == [v % 256] + LEBytes(w, n - 1 + m);
      assert LEBytes(v, n) == [v % 256] + LEBytes(w, n - 1);
      assert [v % 256] + (LEBytes(w, n - 1) + LEBytes(0, m)) == ([v % 256] + LEBytes(w, n - 1)) + LEBytes(0, m);
    }
  }

  lemma QuotientBelow(v: nat, n: nat)
    requires n > 0 && v < Pow256(n)
    ensures v / 256 < Pow256(n - 1)
  {
    CheckedArithmetic.DivisionOfNaturals(v, 256);
  }

  /** Three fields of 4 bytes each, read from the start of the stream,
      that hold the central directory's values make a 12-byte descriptor. */
  lemma PlainFieldsRecognised(crcBytes: seq<Byte>, packedBytes: seq<Byte>, sizeBytes: seq<Byte>, rest: seq<Byte>,
                              position: nat, crc: UInt32, packedSize: UInt64, size: UInt64)
    requires packedSize <= UINT32_MAX && size <= UINT32_MAX
    requires |crcBytes| == 4 && |packedBytes| == 4 && |sizeBytes| == 4
    requires FromLE(crcBytes) == crc && FromLE(packedBytes) == packedSize && FromLE(sizeBytes) == size
    ensures Parse(crcBytes + packedBytes + sizeBytes + rest, position, packedSize, size, crc)
            == Ok(DataDescriptor(position, crc, packedSize, size, 12))
  {
    var header := crcBytes + packedBytes + sizeBytes;
    var stream := header + rest;
    assert stream[..12] == header;
    FieldOf([], crcBytes, packedBytes + sizeBytes);
    FieldOf(crcBytes, packedBytes, sizeBytes);
    FieldOf(crcBytes + packedBytes, sizeBytes, []);
    assert [] + crcBytes + (packedBytes + sizeBytes) == header;
    assert header + [] == header;
    assert Passes(stream, 12, crc, packedSize, size);
    FirstPassingWins(stream, 12, position, packedSize, size, crc);
  }

  /** The same behind the signature, when the CRC is not the signature,
      make a 16-byte descriptor. */
  lemma SignedFieldsRecognised(signatureBytes: seq<Byte>, crcBytes: seq<Byte>, packedBytes: seq<Byte>, sizeBytes: seq<Byte>,
                               rest: seq<Byte>, position: nat, crc: UInt32, packedSize: UInt64, size: UInt64)
    requires packedSize <= UINT32_MAX && size <= UINT32_MAX && crc != DATA_DESCRIPTOR_SIGNATURE
    requires |signatureBytes| == 4 && |crcBytes| == 4 && |packedBytes| == 4 && |sizeBytes| == 4
    requires FromLE(signatureBytes) == DATA_DESCRIPTOR_SIGNATURE
    requires FromLE(crcBytes) == crc && FromLE(packedBytes) == packedSize && FromLE(sizeBytes) == size
    ensures Parse(signatureBytes + crcBytes + packedBytes + sizeBytes + rest, position, packedSize, size, crc)
            == Ok(DataDescriptor(position, crc, packedSize, size, 16))
  {
    var header := signatureBytes + crcBytes + packedBytes + sizeBytes;
    SignedHeaderMatches(signatureBytes, crcBytes, packedBytes, sizeBytes, position, crc, packedSize, size);
    SignedHeaderRecognised(header, rest, position, crc, packedSize, size);
  }

  /** A 16-byte signed header read from the start of the stream. */
  lemma SignedHeaderRecognised(header: seq<Byte>, rest: seq<Byte>, position: nat, crc: UInt32, packedSize: UInt64, size: UInt64)
    requires packedSize <= UINT32_MAX && size <= UINT32_MAX && crc != DATA_DESCRIPTOR_SIGNATURE
    requires |header| == 16 && TryParseWithSignature(header, position, crc, packedSize, size).Some?
    ensures Parse(header + rest, position, packedSize, size, crc) == Ok(DataDescriptor(position, crc, packedSize, size, 16))
  {
    var stream := header + rest;
    var first := stream[..12];
    assert first[0..4] == header[0..4];
    assert Field(first, 0, 4) == DATA_DESCRIPTOR_SIGNATURE;
    assert [] + stream == stream;
    assert ReadBuffer(stream, [], 12) == Ok((first, stream[12..]));
    assert first + stream[12..][..4] == header;
    assert stream[12..][4..] == rest;
  }

  /** The signature, the CRC and the two sizes, 4 or 8 bytes each, match
      the signed layout of that width. */
  lemma SignedHeaderMatches(signatureBytes: seq<Byte>, crcBytes: seq<Byte>, packedBytes: seq<Byte>, sizeBytes: seq<Byte>,
                            position: nat, crc: UInt32, packedSize: UInt64, size: UInt64)
    requires |signatureBytes| == 4 && |crcBytes| == 4 && |packedBytes| == |sizeBytes| && |sizeBytes| in {4, 8}
    requires FromLE(signatureBytes) == DATA_DESCRIPTOR_SIGNATURE
    requires FromLE(crcBytes) == crc && FromLE(packedBytes) == packedSize && FromLE(sizeBytes) == size
    ensures |sizeBytes| == 4 ==> TryParseWithSignature(signatureBytes + crcBytes + packedBytes + sizeBytes, position, crc, packedSize, size).Some?
    ensures |sizeBytes| == 8 ==> TryParseAsZip64WithSignature(signatureBytes + crcBytes + packedBytes + sizeBytes, position, crc, packedSize, size).Some?
  {
    if |sizeBytes| == 4 {
      SignedHeader32(signatureBytes, crcBytes, packedBytes, sizeBytes, position, crc, packedSize, size);
    } else {
      SignedHeader64(signatureBytes, crcBytes, packedBytes, sizeBytes, position, crc, packedSize, size);
    }
  }

  /** `SignedHeaderMatches` for 4-byte sizes. */
  lemma SignedHeader32(signatureBytes: seq<Byte>, crcBytes: seq<Byte>, packedBytes: seq<Byte>, sizeBytes: seq<Byte>,
                       position: nat, crc: UInt32, packedSize: UInt64, size: UInt64)
    requires |signatureBytes| == 4 && |crcBytes| == 4 && |packedBytes| == 4 && |sizeBytes| == 4
    requires FromLE(signatureBytes) == DATA_DESCRIPTOR_SIGNATURE
    requires FromLE(crcBytes) == crc && FromLE(packedBytes) == packedSize && FromLE(sizeBytes) == size
    ensures TryParseWithSignature(signatureBytes + crcBytes + packedBytes + sizeBytes, position, crc, packedSize, size).Some?
  {
    HeaderParts(signatureBytes, crcBytes, packedBytes, sizeBytes);
  }

  /** `SignedHeaderMatches` for 8-byte sizes. */
  lemma SignedHeader64(signatureBytes: seq<Byte>, crcBytes: seq<Byte>, packedBytes: seq<Byte>, sizeBytes: seq<Byte>,
                       position: nat, crc: UInt32, packedSize: UInt64, size: UInt64)
    requires |signatureBytes| == 4 && |crcBytes| == 4 && |packedBytes| == 8 && |sizeBytes| == 8
    requires FromLE(signatureBytes) == DATA_DESCRIPTOR_SIGNATURE
    requires FromLE(crcBytes) == crc && FromLE(packedBytes) == packedSize && FromLE(sizeBytes) == size
    ensures TryParseAsZip64WithSignature(signatureBytes + crcBytes + packedBytes + sizeBytes, position, crc, packedSize, size).Some?
  {
    HeaderParts(signatureBytes, crcBytes, packedBytes, sizeBytes);
  }

  /** The slices of a header made of a 4-byte signature, a 4-byte CRC and
      two sizes of n bytes each. */
  lemma HeaderParts(signatureBytes: seq<Byte>, crcBytes: seq<Byte>, packedBytes: seq<Byte>, sizeBytes: seq<Byte>)
    requires |signatureBytes| == 4 && |crcBytes| == 4 && |packedBytes| == |sizeBytes|
    ensures var header := signatureBytes + crcBytes + packedBytes + sizeBytes;
            var n := |sizeBytes|;
            header[0..4] == signatureBytes && header[4..8] == crcBytes
            && header[8..8 + n] == packedBytes && header[8 + n..8 + 2 * n] == sizeBytes
  {
  }

  /** A 4-byte CRC and two 8-byte sizes that hold the central directory's
      values, when a size needs more than 32 bits, make a 20-byte
      descriptor. */
  lemma Zip64FieldsRecognised(crcBytes: seq<Byte>, packedBytes: seq<Byte>, sizeBytes: seq<Byte>, rest: seq<Byte>,
                              position: nat, crc: UInt32, packedSize: UInt64, size: UInt64)
    requires packedSize > UINT32_MAX || size > UINT32_MAX
    requires |crcBytes| == 4 && |packedBytes| == 8 && |sizeBytes| == 8
    requires FromLE(crcBytes) == crc && FromLE(packedBytes) == packedSize && FromLE(sizeBytes) == size
    ensures Parse(crcBytes + packedBytes + sizeBytes + rest, position, packedSize, size, crc)
            == Ok(DataDescriptor(position, crc, packedSize, size, 20))
  {
    var header := crcBytes + packedBytes + sizeBytes;
    var stream := header + rest;
    assert stream[..20] == header;
    FieldOf([], crcBytes, packedBytes + sizeBytes);
    FieldOf(crcBytes, packedBytes, sizeBytes);
    FieldOf(crcBytes + packedBytes, sizeBytes, []);
    assert [] + crcBytes + (packedBytes + sizeBytes) == header;
    assert header + [] == header;
    assert Passes(stream, 20, crc, packedSize, size);
    FirstPassingWins(stream, 20, position, packedSize, size, crc);
  }

  /** The same behind the signature, when the CRC is not the signature,
      make a 24-byte descriptor. */
  lemma SignedZip64FieldsRecognised(signatureBytes: seq<Byte>, crcBytes: seq<Byte>, packedBytes: seq<Byte>, sizeBytes: seq<Byte>,
                                    rest: seq<Byte>, position: nat, crc: UInt32, packedSize: UInt64, size: UInt64)
    requires (packedSize > UINT32_MAX || size > UINT32_MAX) && crc != DATA_DESCRIPTOR_SIGNATURE
    requires |signatureBytes| == 4 && |crcBytes| == 4 && |packedBytes| == 8 && |sizeBytes| == 8
    requires FromLE(signatureBytes) == DATA_DESCRIPTOR_SIGNATURE
    requires FromLE(crcBytes) == crc && FromLE(packedBytes) == packedSize && FromLE(sizeBytes) == size
    ensures Parse(signatureBytes + crcBytes + packedBytes + sizeBytes + rest, position, packedSize, size, crc)
            == Ok(DataDescriptor(position, crc, packedSize, size, 24))
  {
    var header := signatureBytes + crcBytes + packedBytes + sizeBytes;
    SignedHeaderMatches(signatureBytes, crcBytes, packedBytes, sizeBytes, position, crc, packedSize, size);
    SignedZip64HeaderRecognised(header, rest, position, crc, packedSize, size);
  }

  /** A 24-byte signed header read from the start of the stream. */
  lemma SignedZip64HeaderRecognised(header: seq<Byte>, rest: seq<Byte>, position: nat, crc: UInt32, packedSize: UInt64, size: UInt64)
    requires (packedSize > UINT32_MAX || size > UINT32_MAX) && crc != DATA_DESCRIPTOR_SIGNATURE
    requires |header| == 24 && TryParseAsZip64WithSignature(header, position, crc, packedSize, size).Some?
    ensures Parse(header + rest, position, packedSize, size, crc) == Ok(DataDescriptor(position, crc, packedSize, size, 24))
  {
    var stream := header + rest;
    var first := stream[..20];
    assert first[0..4] == header[0..4];
    assert Field(first, 0, 4) == DATA_DESCRIPTOR_SIGNATURE;
    assert [] + stream == stream;
    assert ReadBuffer(stream, [], 20) == Ok((first, stream[20..]));
    assert first + stream[20..][..4] == header;
    assert stream[20..][4..] == rest;
  }

  /** A descriptor written without signature and with 4-byte sizes is
      recognised as such: 12 bytes, with the central directory's values. */
  lemma PlainDescriptorRecognised(rest: seq<Byte>, position: nat, crc: UInt32, packedSize: UInt64, size: UInt64)
    requires packedSize <= UINT32_MAX && size <= UINT32_MAX
    ensures Parse(LEBytes(crc, 4) + LEBytes(packedSize, 4) + LEBytes(size, 4) + rest, position, packedSize, size, crc)
            == Ok(DataDescriptor(position, crc, packedSize, size, 12))
  {
    Pow256Values();
    LERoundTrip(crc, 4);
    LERoundTrip(packedSize, 4);
    LERoundTrip(size, 4);
    PlainFieldsRecognised(LEBytes(crc, 4), LEBytes(packedSize, 4), LEBytes(size, 4), rest, position, crc, packedSize, size);
  }

  /** A descriptor written with the signature and 4-byte sizes is
      recognised as such, unless its CRC equals the signature. */
  lemma SignedDescriptorRecognised(rest: seq<Byte>, position: nat, crc: UInt32, packedSize: UInt64, size: UInt64)
    requires packedSize <= UINT32_MAX && size <= UINT32_MAX && crc != DATA_DESCRIPTOR_SIGNATURE
    ensures Parse(LEBytes(DATA_DESCRIPTOR_SIGNATURE, 4) + LEBytes(crc, 4) + LEBytes(packedSize, 4) + LEBytes(size, 4) + rest,
                  position, packedSize, size, crc)
            == Ok(DataDescriptor(position, crc, packedSize, size, 16))
  {
    Pow256Values();
    LERoundTrip(DATA_DESCRIPTOR_SIGNATURE, 4);
    LERoundTrip(crc, 4);
    LERoundTrip(packedSize, 4);
    LERoundTrip(size, 4);
    SignedFieldsRecognised(LEBytes(DATA_DESCRIPTOR_SIGNATURE, 4), LEBytes(crc, 4), LEBytes(packedSize, 4), LEBytes(size, 4),
                           rest, position, crc, packedSize, size);
  }

  /** A descriptor written without signature and with 8-byte sizes is
      recognised as such when a size needs more than 32 bits. */
  lemma Zip64DescriptorRecognised(rest: seq<Byte>, position: nat, crc: UInt32, packedSize: UInt64, size: UInt64)
    requires packedSize > UINT32_MAX || size > UINT32_MAX
    ensures Parse(LEBytes(crc, 4) + LEBytes(packedSize, 8) + LEBytes(size, 8) + rest, position, packedSize, size, crc)
            == Ok(DataDescriptor(position, crc, packedSize, size, 20))
  {
    Pow256Values();
    LERoundTrip(crc, 4);
    LERoundTrip(packedSize, 8);
    LERoundTrip(size, 8);
    Zip64FieldsRecognised(LEBytes(crc, 4), LEBytes(packedSize, 8), LEBytes(size, 8), rest, position, crc, packedSize, size);
  }

  /** A descriptor written with the signature and 8-byte sizes is
      recognised as such when a size needs more than 32 bits, unless its CRC
      equals the signature. */
  lemma SignedZip64DescriptorRecognised(rest: seq<Byte>, position: nat, crc: UInt32, packedSize: UInt64, size: UInt64)
    requires (packedSize > UINT32_MAX || size > UINT32_MAX) && crc != DATA_DESCRIPTOR_SIGNATURE
    ensures Parse(LEBytes(DATA_DESCRIPTOR_SIGNATURE, 4) + LEBytes(crc, 4) + LEBytes(packedSize, 8) + LEBytes(size, 8) + rest,
                  position, packedSize, size, crc)
            == Ok(DataDescriptor(position, crc, packedSize, size, 24))
  {
    Pow256Values();
    LERoundTrip(DATA_DESCRIPTOR_SIGNATURE, 4);
    LERoundTrip(crc, 4);
    LERoundTrip(packedSize, 8);
    LERoundTrip(size, 8);
    SignedZip64FieldsRecognised(LEBytes(DATA_DESCRIPTOR_SIGNATURE, 4), LEBytes(crc, 4), LEBytes(packedSize, 8), LEBytes(size, 8),
                                rest, position, crc, packedSize, size);
  }

  /** The attempt order decides between layouts that both match: a
      descriptor written with 8-byte sizes, although both sizes fit in 32
      bits and the size is 0, is taken for the 12-byte layout, since the
      high half of the packed size reads as the size. */
  lemma SmallZip64DescriptorTakenAsPlain(rest: seq<Byte>, position: nat, crc: UInt32, packedSize: UInt64)
    requires packedSize <= UINT32_MAX
    ensures Parse(LEBytes(crc, 4) + LEBytes(packedSize, 8) + LEBytes(0, 8) + rest, position, packedSize, 0, crc)
            == Ok(DataDescriptor(position, crc, packedSize, 0, 12))
  {
    var low, high := SmallZip64Fields(rest, crc, packedSize);
    PlainFieldsRecognised(LEBytes(crc, 4), low, high, LEBytes(0, 8) + rest, position, crc, packedSize, 0);
  }

  /** The small ZIP64 descriptor read as three 4-byte fields: the CRC, the
      low and the high half of the packed size. */
  lemma SmallZip64Fields(rest: seq<Byte>, crc: UInt32, packedSize: UInt64) returns (low: seq<Byte>, high: seq<Byte>)
    requires packedSize <= UINT32_MAX
    ensures |LEBytes(crc, 4)| == 4 && |low| == 4 && |high| == 4
    ensures FromLE(LEBytes(crc, 4)) == crc && FromLE(low) == packedSize && FromLE(high) == 0
    ensures LEBytes(crc, 4) + LEBytes(packedSize, 8) + LEBytes(0, 8) + rest
            == LEBytes(crc, 4) + low + high + (LEBytes(0, 8) + rest)
  {
    low, high := LEBytes(packedSize, 4), LEBytes(0, 4);
    Pow256Values();
    LEBytesWidened(packedSize, 4, 4);
    Regroup(LEBytes(crc, 4), LEBytes(packedSize, 8), low, high, LEBytes(0, 8) + rest);
    LERoundTrip(crc, 4);
    LERoundTrip(packedSize, 4);
    LERoundTrip(0, 4);
  }

  /** Splitting the middle part of a concatenation in two. */
  lemma Regroup(a: seq<Byte>, b: seq<Byte>, low: seq<Byte>, high: seq<Byte>, c: seq<Byte>)
    requires b == low + high
    ensures a + b + c == a + low + high + c
  {
  }

  /** When a size needs more than 32 bits, the 32-bit layouts are not
      tried, and a stream of fewer than 20 bytes holds no descriptor. */
  lemma ShortStreamNeedingZip64(stream: seq<Byte>, position: nat, packedSize: UInt64, size: UInt64, crc: UInt32)
    requires (packedSize > UINT32_MAX || size > UINT32_MAX) && |stream| < MINIMUM_HEADER_SIZE_FOR_ZIP64
    ensures Parse(stream, position, packedSize, size, crc) == Err(BadZipFileFormat)
  {
  }
}
