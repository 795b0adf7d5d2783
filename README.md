# Palmtree support libraries — a verified model of the algorithmic core

Palmtree.SupportLibraries is a set of C# utility libraries. This project
models its self-contained algorithmic pieces in Dafny and proves the properties
that their code and documentation promise:

- **In-place array algorithms.** The three-way quicksort (`QuickSort`) sorts an
  `array<int>` and produces a permutation of the input. Array reversal
  (`ReverseArray`) is specified against a reversal function. The lexicographic
  comparison (`SequenceCompare`) and element-wise equality (`SequenceEqual`) come
  with the offset/count range checks shared by every array overload
  (`Primitives`).
- **Integer and bit arithmetic.**
  - Bit and byte reversal: `BitOrder`.
  - Checked mixed-sign addition and subtraction, and floored `DivMod`/`Modulo`:
    `CheckedArithmetic`.
  - The binary greatest common divisor and fraction reduction:
    `IntegerExtensions`.
  - Little- and big-endian byte encoding with its bounds checks:
    `ByteEncoding`.
  - `IsBetween`, `InRange`, `Minimum`, `Maximum` and `IsAnyOf`:
    `GenericExtensions`.
- **Bounded containers.**
  - The `ByteQueue` ring buffer (`ByteQueues`).
  - The index-keyed FIFO `RandomAccessQueue` (`RandomAccessQueues`).
  - The look-ahead `BufferedTextReader` (`TextReaders`).
  All three are classes whose methods update their fields, proved against
  functions of their abstract contents.
- **Text codecs.**
  - The CSV serializer and deserializer, with the round trip
    `Deserialize(Serialize(rows)) == rows` for every row list whose rows
    each have a column and end in a non-empty column (`CsvSerialization`,
    `CsvRoundTrip`). The format cannot carry other rows: an empty last
    column is lost and a row without columns is dropped.
  - JSON and C# string escaping, full-width to half-width narrowing,
    Windows file-name encoding, common prefix/suffix and chunking:
    `StringExtensions`.
  - Shift_JIS byte classification, encode/decode and the plane/row/cell
    tables: `ShiftJis`.
- **The terminfo parameterised-string interpreter.**
  - A specification as functions over an explicit machine state:
    `ExpansionMachine`.
  - The imperative `ExpansionState` class that mirrors the C# loops and is
    proved to end in the state those functions compute: `Expansions`.
  - Properties of the language (`ExpansionProperties`) and of the parameter
    values and their printf-style formatting (`ExpansionParameters`).
- **Dates and ZIP helpers.**
  - MS-DOS date/time packing, as used by ZIP in section 4.4.6 of PKWARE's
    APPNOTE.TXT: `DosDateTime`.
  - The four-way data-descriptor recogniser of APPNOTE.TXT section 4.3.9:
    `ZipDataDescriptors`.
  - The multi-volume mapping between an offset from the start and a
    (disk, offset) position: `VolumeDisks`.
- **Colours and CRC.**
  - Terminal colour-number arithmetic for the 8- and 256-colour palettes:
    `TerminalColors`.
  - Incremental CRC sessions over an abstract CRC method: `CrcCalculation`.

Exceptions that the C# code throws are modelled as values: a `Result` that
carries an `Exception` kind (`Wrappers`). Fixed-width integers are unbounded
integers with their ranges stated. Wrap-around and truncating casts are
written out where the source relies on them.

Some behaviour comes from code outside the model, and it becomes a function
parameter:
- the update and finalisation steps of a concrete CRC algorithm;
- the element comparers and key selectors of the generic overloads;
- `ToUpperInvariant` in the case-insensitive common-part search.

## Model

| member | source | states |
|---|---|---|
| Primitives.CheckRange | Palmtree.Core/ArrayExtensions.ReverseArray.cs:69-74 | the offset/count guard shared by the array operations: accepted exactly when offset and count are non-negative and the range fits the array; a negative offset or count is ArgumentOutOfRange, a range past the end is ArgumentException, and an offset + count beyond Int32 is an OverflowException from checked addition |
| BitOrder.ReverseBitOrder8 | Palmtree.Core/NumericExtensions.cs:124-163 | bit i of the result is bit 7 - i of the argument (the Byte overload) |
| BitOrder.ReverseBitOrder16 | Palmtree.Core/NumericExtensions.cs:124-163 | bit i of the result is bit 15 - i of the argument (the UInt16 overload) |
| BitOrder.ReverseBitOrder32 | Palmtree.Core/NumericExtensions.cs:124-163 | bit i of the result is bit 31 - i of the argument (the UInt32 overload) |
| BitOrder.ReverseBitOrder64 | Palmtree.Core/NumericExtensions.cs:124-163 | bit i of the result is bit 63 - i of the argument (the UInt64 overload) |
| BitOrder.ReverseBitOrderInvolution | Palmtree.Core/NumericExtensions.cs:124-163 | reversing the bit order twice gives back the value, at every width |
| BitOrder.ReverseByteOrder16 | Palmtree.Core/NumericExtensions.cs:170-191 | the low byte of the result is the high byte of the argument and the other way round |
| BitOrder.ReverseByteOrder32 | Palmtree.Core/NumericExtensions.cs:170-191 | byte k of the result is byte 3 - k of the argument |
| BitOrder.ReverseByteOrder64 | Palmtree.Core/NumericExtensions.cs:170-191 | byte k of the result is byte 7 - k of the argument |
| BitOrder.ReverseByteOrderInvolution | Palmtree.Core/NumericExtensions.cs:170-191 | swapping the byte order twice gives back the value, at every width |
| CheckedArithmetic.CheckedUnsigned | Palmtree.Core/NumericExtensions.cs:39-44 | a checked conversion to an unsigned width succeeds exactly when the value is representable, keeps the value, and otherwise raises OverflowException |
| CheckedArithmetic.AddAsUInt | Palmtree.Core/NumericExtensions.cs:39-44 | adding a signed offset to an unsigned value gives the exact sum when it is representable in the unsigned width and OverflowException otherwise (UInt64 and, at 62, UInt32) |
| CheckedArithmetic.SubtractAsUInt | Palmtree.Core/NumericExtensions.cs:89-94 | subtracting a signed offset gives the exact difference when it is representable and OverflowException otherwise (UInt64 and, at 112, UInt32) |
| CheckedArithmetic.SubtractUndoesAdd | Palmtree.Core/NumericExtensions.cs:89-94 | whenever AddAsUInt succeeds, SubtractAsUInt of the same offset returns the original value |
| CheckedArithmetic.TruncatedDivRemSpec | Palmtree.Core/NumericExtensions.cs:962-997 | the model of C#'s Math.DivRem truncates toward zero: dividend == q * divisor + m, and the remainder takes the sign of the dividend and is smaller than the divisor in magnitude |
| CheckedArithmetic.TruncatedQuotientBound | Palmtree.Core/NumericExtensions.cs:962-997 | the truncated quotient is never larger in magnitude than the dividend, which is why only MinValue / -1 can overflow |
| CheckedArithmetic.Wrap | Palmtree.Core/NumericExtensions.cs:981-983 | two's-complement wrap-around of the unchecked arithmetic at 981-983: the result is in range and a value already in range is kept |
| CheckedArithmetic.DivModAsWrittenMisplacesRemainder | Palmtree.Core/NumericExtensions.cs:981-983 | as written, 7.DivMod(-2) returns (-2, 3): 7 == (-2) * (-2) + 3 still holds, but the remainder 3 is positive and larger than the divisor's magnitude, where a floored remainder lies in (-2, 0] |
| CheckedArithmetic.DivModFloored | Palmtree.Core/NumericExtensions.cs:962-997 | the corrected DivMod: DivideByZeroException for a zero divisor, OverflowException exactly for MinValue / -1, and otherwise dividend == q * divisor + m with the remainder in [0, divisor) for a positive divisor and in (divisor, 0] for a negative one |
| CheckedArithmetic.DivModUnique | Palmtree.Core/NumericExtensions.cs:962-997 | any quotient and remainder that meet the floored conditions are the ones DivMod returns, so the corrected DivMod is the floored division |
| CheckedArithmetic.FlooredPairUnique | Palmtree.Core/NumericExtensions.cs:962-997 | two floored decompositions of the same dividend by the same divisor are equal |
| CheckedArithmetic.ModuloAsWrittenMisplacesRemainder | Palmtree.Core/NumericExtensions.cs:1331-1365 | as written, 7.Modulo(-2) returns 3, which differs from the floored remainder -1 that the corrected DivMod(7, -2) = (-4, -1) gives |
| CheckedArithmetic.ModuloIsDivModRemainder | Palmtree.Core/NumericExtensions.cs:1331-1365 | the corrected Modulo fails exactly when DivMod fails, with the same exception, and otherwise returns DivMod's remainder |
| ReverseArray.ReversedAt | Palmtree.Core/ArrayExtensions.ReverseArray.cs:127-137 | element k of the reversed sequence is element \|s\| - 1 - k of the original, and the length is kept |
| ReverseArray.ReversedLength | Palmtree.Core/ArrayExtensions.ReverseArray.cs:127-137 | reversal keeps the length |
| ReverseArray.ReversedByElements | Palmtree.Core/ArrayExtensions.ReverseArray.cs:127-137 | a sequence that mirrors another element by element is its reversal (the converse of ReversedAt) |
| ReverseArray.ReversedTwice | Palmtree.Core/ArrayExtensions.ReverseArray.cs:127-137 | reversing twice gives back the original sequence |
| ReverseArray.ReversedHasSameElements | Palmtree.Core/ArrayExtensions.ReverseArray.cs:127-137 | reversal is a permutation: the multiset of elements is kept |
| ReverseArray.ReversedRange | Palmtree.Core/ArrayExtensions.ReverseArray.cs:127-137 | an array mirrored within [lo, hi) and unchanged elsewhere holds the reversal of that slice and nothing else changed |
| ReverseArray.InternalReverseArray | Palmtree.Core/ArrayExtensions.ReverseArray.cs:127-137 | the two-index swap loop leaves the slice [lo, hi) reversed and every element outside it unchanged |
| ReverseArray.ReverseWhole | Palmtree.Core/ArrayExtensions.ReverseArray.cs:28-35 | a null array raises ArgumentNullException; otherwise the same array is returned with its contents reversed |
| ReverseArray.ReverseRange | Palmtree.Core/ArrayExtensions.ReverseArray.cs:65-77 | a null array raises ArgumentNullException; a bad offset/count raises the exception CheckRange gives and leaves the array unchanged; otherwise only the range is reversed |
| ByteEncoding.LEBytes | Palmtree.Core/NumericExtensions.cs:1651-1702 | the little-endian image of a value has exactly the requested number of bytes |
| ByteEncoding.BEBytes | Palmtree.Core/NumericExtensions.cs:1833-1884 | the big-endian image of a value has exactly the requested number of bytes |
| ByteEncoding.FromLE | Palmtree.Core/NumericExtensions.cs:1651-1702 | the value read back from n little-endian bytes is below 256^n |
| ByteEncoding.LEByteAt | Palmtree.Core/NumericExtensions.cs:1651-1702 | byte k of the little-endian image is bits 8k..8k+7 of the value, as the source writes them one pointer byte at a time |
| ByteEncoding.BEIsReversedLE | Palmtree.Core/NumericExtensions.cs:1833-1884 | the big-endian image is the reversal of the little-endian one |
| ByteEncoding.BEByteAt | Palmtree.Core/NumericExtensions.cs:1833-1884 | byte k of the big-endian image is byte n - 1 - k of the value |
| ByteEncoding.LERoundTrip | Palmtree.Core/NumericExtensions.cs:1651-1702 | reading back the little-endian image of a value below 256^n gives the value |
| ByteEncoding.LEImageIsUnique | Palmtree.Core/NumericExtensions.cs:1651-1702 | every byte string is the little-endian image of the value it decodes to, so the encoding is a bijection onto n-byte strings |
| ByteEncoding.UnsignedIsTwosComplement | Palmtree.Core/NumericExtensions.cs:319-331 | the cast of a signed value to the unsigned type of the same size is two's complement: in range, a non-negative value is kept and a negative one gains 256^size |
| ByteEncoding.InternalCopyValueLE | Palmtree.Core/NumericExtensions.cs:1651-1702 | the size bytes at startIndex become the little-endian image of the value and every other byte of the buffer is unchanged |
| ByteEncoding.InternalCopyValueBE | Palmtree.Core/NumericExtensions.cs:1833-1884 | the size bytes at startIndex become the big-endian image of the value and every other byte of the buffer is unchanged |
| ByteEncoding.CheckSetValue | Palmtree.Core/NumericExtensions.cs:319-331 | SetValue's guard: a negative startIndex is ArgumentOutOfRange, a buffer shorter than the value is ArgumentException, a value running past the end is ArgumentOutOfRange (Overflow when startIndex + size overflows Int32), and it succeeds exactly when the value fits |
| ByteEncoding.SetValueLE | Palmtree.Core/NumericExtensions.cs:319-331 | null buffer raises ArgumentNullException; a rejected index leaves the buffer unchanged; otherwise the slot holds the little-endian image of the value's two's-complement bits (every integer overload from 319 to 404) |
| ByteEncoding.SetValueBE | Palmtree.Core/NumericExtensions.cs:620-633 | null buffer raises ArgumentNullException; a rejected index leaves the buffer unchanged; otherwise the slot holds the big-endian image of the value's two's-complement bits (every integer overload from 620 to 705) |
| GenericExtensions.CompareTo | Palmtree.Core/GenericExtensions.cs:1189-1195 | IComparable.CompareTo on a possibly-null operand: positive exactly when the other is null or smaller, zero exactly when equal |
| GenericExtensions.IsBetween | Palmtree.Core/GenericExtensions.cs:46-50 | a null value is between exactly when the lower bound is null; otherwise lower <= value <= upper, both bounds inclusive, and a null upper bound is never reached |
| GenericExtensions.InRange | Palmtree.Core/GenericExtensions.cs:123-127 | a null value is in range exactly when the lower bound is null; otherwise lower <= value < upper, upper bound exclusive |
| GenericExtensions.Minimum | Palmtree.Core/GenericExtensions.cs:1189-1195 | a null x gives null; with two values the result is one of them and no larger than either; y is returned exactly when y is null, x is larger, or they are equal |
| GenericExtensions.Maximum | Palmtree.Core/GenericExtensions.cs:1267-1273 | a null x gives y; with two values the result is one of them and no smaller than either; x is returned exactly when y is null or x >= y |
| GenericExtensions.IsAnyOf | Palmtree.Core/GenericExtensions.cs:819-845 | a null array raises ArgumentNullException; otherwise the scan returns true exactly when the value (or null) occurs among the other values |
| IntegerExtensions.GcdDividesBoth | Palmtree.Numerics/IntegerExtensions.cs:58-65 | the subtractive-recurrence GCD the algorithm is specified by divides both operands |
| IntegerExtensions.GcdIsGreatest | Palmtree.Numerics/IntegerExtensions.cs:58-65 | every common divisor of the operands divides the GCD and is no larger than it |
| IntegerExtensions.GcdSymmetric | Palmtree.Numerics/IntegerExtensions.cs:107-113 | GCD(u, v) == GCD(v, u), which justifies swapping u and v when u < v |
| IntegerExtensions.GcdScales | Palmtree.Numerics/IntegerExtensions.cs:62 | property 1 of the algorithm: GCD(c * u, c * v) == c * GCD(u, v), which justifies dividing out the common powers of two and shifting back by k |
| IntegerExtensions.GcdDropsTwo | Palmtree.Numerics/IntegerExtensions.cs:63 | property 2 with w = 2: halving an even operand while the other is odd keeps the GCD |
| IntegerExtensions.GreatestCommonDivisor | Palmtree.Numerics/IntegerExtensions.cs:41-141 | the binary (subtract-and-shift) GCD of two unsigned integers: ArgumentException exactly when both are 0, a zero operand returns the other, and otherwise the result is GCD(u, v) |
| IntegerExtensions.StripFactorsOfTwo | Palmtree.Numerics/IntegerExtensions.cs:67-104 | the shared factors of two are counted in k and every other factor of two is shifted out: both operands end odd and GCD(u0, v0) == 2^k * GCD(u, v) |
| IntegerExtensions.OddGreatestCommonDivisor | Palmtree.Numerics/IntegerExtensions.cs:106-141 | subtracting the smaller odd operand from the larger and shifting out the factors of two of the difference ends with GCD(u0, v0) for any two positive odd operands |
| IntegerExtensions.GcdIsGreatestCommonDivisor | Palmtree.Numerics/IntegerExtensions.cs:43-52 | the value GreatestCommonDivisor returns is a common divisor that every other common divisor divides |
| IntegerExtensions.SignedGreatestCommonDivisor | Palmtree.Numerics/IntegerExtensions.cs:22-32 | the signed overloads take the GCD of the magnitudes (AbsoluteWithoutCheck) and convert it back with a checked cast: ArgumentException when both are 0, OverflowException exactly when the GCD exceeds MaxValue, and otherwise the positive GCD |
| IntegerExtensions.SignedGcdOverflowsOnlyAtMinValue | Palmtree.Numerics/IntegerExtensions.cs:24-28 | the checked cast fails only when one operand is MinValue and the other is 0 or MinValue; the source comment at :27-28 names only the case where both are MinValue, and the lemma adds (MinValue, 0) |
| IntegerExtensions.Reduce | Palmtree.Numerics/IntegerExtensions.cs:436-440 | unsigned Reduce divides both operands by their GCD: the results times the GCD give back the operands and are coprime; both zero raises ArgumentException |
| IntegerExtensions.CofactorsAreCoprime | Palmtree.Numerics/IntegerExtensions.cs:436-440 | the cofactors of the GCD are coprime and not both zero |
| IntegerExtensions.SignedReduce | Palmtree.Numerics/IntegerExtensions.cs:418-422 | signed Reduce fails exactly when the signed GCD fails; otherwise the results keep the operands' signs, times the GCD give back the operands, and are coprime |
| IntegerExtensions.ExactTruncatedDivision | Palmtree.Numerics/IntegerExtensions.cs:418-422 | C#'s truncating division of a signed operand by a divisor of its magnitude is exact and keeps the sign |
| ByteQueues.Capacity | Palmtree.Core/Collections/ByteQueue.cs:24 | the internal buffer size is the requested size clamped to [1024, 1024 * 1024] (the release-build minimum) |
| ByteQueues.ByteQueue.Contents | Palmtree.Core/Collections/ByteQueue.cs:16-33 | the bytes held are the AvailableDataCount bytes of the ring buffer starting at the start offset, wrapping at the end of the buffer |
| ByteQueues.ByteQueue.constructor | Palmtree.Core/Collections/ByteQueue.cs:19-28 | a new queue is empty and not completed, over a fresh buffer of the given capacity |
| ByteQueues.ByteQueue.Create | Palmtree.Core/Collections/ByteQueue.cs:19-28 | a non-positive buffer size raises ArgumentOutOfRangeException; otherwise a fresh valid queue whose buffer has the clamped capacity |
| ByteQueues.ByteQueue.IsEmpty | Palmtree.Core/Collections/ByteQueue.cs:31 | true exactly when the queue holds no bytes |
| ByteQueues.ByteQueue.IsFull | Palmtree.Core/Collections/ByteQueue.cs:32 | true exactly when the queue holds as many bytes as the buffer size |
| ByteQueues.ByteQueue.FreeAreaCount | Palmtree.Core/Collections/ByteQueue.cs:34 | free space plus held bytes is the buffer size |
| ByteQueues.ByteQueue.Read | Palmtree.Core/Collections/ByteQueue.cs:37-64 | copies min(destination length, available, bytes up to the end of the buffer) bytes, which are the oldest bytes of the queue, into the head of the destination, leaves the rest of the destination alone, and removes exactly those bytes from the queue; nothing is read from an empty queue |
| ByteQueues.ByteQueue.Write | Palmtree.Core/Collections/ByteQueue.cs:66-89 | a completed queue raises InvalidOperationException and is unchanged; otherwise the count written is the source length clamped to the contiguous free space after the data (or all free space once the data has wrapped), and the queue becomes its old contents followed by that prefix of the source |
| ByteQueues.ByteQueue.Compete | Palmtree.Core/Collections/ByteQueue.cs:91-97 | marks the queue completed and keeps its contents |
| ByteQueues.Ring | Palmtree.Core/Collections/ByteQueue.cs:54-55 | the view of count ring-buffer cells from start, wrapping around once, has count elements |
| ByteQueues.RingAt | Palmtree.Core/Collections/ByteQueue.cs:54-55 | element k of the ring view is the cell start + k, minus the buffer length when it passes the end |
| ByteQueues.WrittenContents | Palmtree.Core/Collections/ByteQueue.cs:73-80 | copying data into the cells right after the held bytes (wrapped once) extends the ring view by exactly that data |
| RandomAccessQueues.Values | Palmtree.Core/Collections/RandomAccessQueue.cs:14-17 | the queue's elements are the dictionary values under the consecutive keys first, first + 1, ... |
| RandomAccessQueues.SameValues | Palmtree.Core/Collections/RandomAccessQueue.cs:122-128 | two dictionaries list the same values exactly when they agree key by key after shifting by the difference of their first keys |
| RandomAccessQueues.Rebase | Palmtree.Core/Collections/RandomAccessQueue.cs:118-133 | the corrected re-keying: the rebuilt dictionary is keyed 0 .. n - 1 and holds at key i the value that was under first + i |
| RandomAccessQueues.RebaseAsWritten | Palmtree.Core/Collections/RandomAccessQueue.cs:120-129 | as written, removing and adding keys inside the foreach over the same SortedDictionary raises InvalidOperationException as soon as the queue is non-empty; an empty queue is returned unchanged |
| RandomAccessQueues.RandomAccessQueue.Contents | Palmtree.Core/Collections/RandomAccessQueue.cs:14-17 | the queue's elements, in order, are the values keyed from the start index to the end index |
| RandomAccessQueues.RandomAccessQueue.constructor | Palmtree.Core/Collections/RandomAccessQueue.cs:24-39 | a queue built from a data source holds exactly the data source's elements in order |
| RandomAccessQueues.RandomAccessQueue.Clear | Palmtree.Core/Collections/RandomAccessQueue.cs:41-46 | the queue becomes empty with both indices 0 |
| RandomAccessQueues.RandomAccessQueue.Normalize | Palmtree.Core/Collections/RandomAccessQueue.cs:108-134 | keeps the contents; an empty queue resets both indices to 0; once an index passes UInt32.MaxValue the dictionary is re-keyed from 0; otherwise the indices are untouched (corrected re-keying; see ## Findings) |
| RandomAccessQueues.RandomAccessQueue.Enqueue | Palmtree.Core/Collections/RandomAccessQueue.cs:48-56 | the value is appended at the end of the queue |
| RandomAccessQueues.RandomAccessQueue.Dequeue | Palmtree.Core/Collections/RandomAccessQueue.cs:58-70 | an empty queue raises InvalidOperationException and is unchanged; otherwise the first element is returned and removed |
| RandomAccessQueues.RandomAccessQueue.Count | Palmtree.Core/Collections/RandomAccessQueue.cs:93-94 | the dictionary count is the number of elements in the queue |
| RandomAccessQueues.RandomAccessQueue.Get | Palmtree.Core/Collections/RandomAccessQueue.cs:72-91 | the indexer returns element index of the queue for 0 <= index < Count and raises ArgumentOutOfRangeException otherwise |
| RandomAccessQueues.RandomAccessQueue.Equals | Palmtree.Core/Collections/RandomAccessQueue.cs:98 | two queues are equal exactly when the other is not null and they hold the same elements in the same order |
| RandomAccessQueues.RandomAccessQueue.Clone | Palmtree.Core/Collections/RandomAccessQueue.cs:97 | the clone is a fresh queue with the same elements |
| RandomAccessQueues.EqualsIgnoresPositions | Palmtree.Core/Collections/RandomAccessQueue.cs:98 | Equals is reflexive and symmetric and depends only on the elements, not on the internal key positions |
| ByteQueues.CopyOut | Palmtree.Core/Collections/ByteQueue.cs:51 | the first count bytes of the destination become the count buffer bytes from the start of the data, and the rest of the destination is unchanged |
| ByteQueues.CopyIn | Palmtree.Core/Collections/ByteQueue.cs:79 | the written bytes replace the buffer region at the write offset, and every other byte of the buffer is unchanged |
| ByteQueues.RingTake | Palmtree.Core/Collections/ByteQueue.cs:51-55 | the bytes taken from the start of the data are the oldest bytes of the queue, and after moving the start (wrapping to 0 at the end of the buffer) the queue holds the remaining ones in order |
| TextReaders.BufferedTextReader.constructor | Palmtree.IO/BuffetredTextReader.cs:31-43 | a new reader has a fresh cache of the given size, has not reached the end, and has the whole input pending |
| TextReaders.BufferedTextReader.Create | Palmtree.IO/BuffetredTextReader.cs:31-43 | a cache size below 1 raises ArgumentException; otherwise a fresh reader over the input with a cache of that size |
| TextReaders.BufferedTextReader.Read | Palmtree.IO/BuffetredTextReader.cs:52-77 | returns the first pending character (from the cache, else from the underlying reader) and consumes it; returns null exactly when nothing is pending, and then marks the end of stream |
| TextReaders.BufferedTextReader.FillCacheAsWritten | Palmtree.IO/BuffetredTextReader.cs:173-194 | as written: tops the cache up to min(cache size, pending characters) without consuming input, and never sets the end-of-stream flag, because Peek() < 0 at the end breaks out before Read() can return -1 |
| TextReaders.BufferedTextReader.FillCache | Palmtree.IO/BuffetredTextReader.cs:173-194 | the corrected fill: the same cache contents, and the end-of-stream flag is set once nothing is pending (and never cleared) |
| TextReaders.BufferedTextReader.IsEndOfReaderAsWritten | Palmtree.IO/BuffetredTextReader.cs:82-89 | as written: true only when nothing is pending and Read had already hit the end, so it stays false at the real end of a stream whose last character was taken from the cache |
| TextReaders.BufferedTextReader.IsEndOfReader | Palmtree.IO/BuffetredTextReader.cs:82-89 | the corrected property: true exactly when nothing is pending |
| TextReaders.BufferedTextReader.StartsWithChar | Palmtree.IO/BuffetredTextReader.cs:100-104 | true exactly when the next pending character is c; nothing is consumed |
| TextReaders.BufferedTextReader.StartsWithPredicate | Palmtree.IO/BuffetredTextReader.cs:115-119 | true exactly when a character is pending and the predicate accepts it; nothing is consumed |
| TextReaders.BufferedTextReader.StartsWithString | Palmtree.IO/BuffetredTextReader.cs:130-144 | a string longer than the cache raises ArgumentException; otherwise true exactly when the pending input starts with the string; nothing is consumed |
| CsvSerialization.DoubleQuotes | Palmtree.IO/Serialization/CsvSerializer.cs:101 | doubling every double quote never shortens a column |
| CsvSerialization.Serialize | Palmtree.IO/Serialization/CsvSerializer.cs:82-101 | the text written is, row after row, the columns joined by the column delimiter followed by the row delimiter, each column quoted (with inner quotes doubled) exactly when it holds the delimiter, a quote or a line break (corrected line-feed constant; see ## Findings) |
| CsvSerialization.Unquoted | Palmtree.IO/Serialization/CsvSerializer.cs:293-335 | reading an unquoted column never moves backwards, stops without consuming only at the end or at a line break, and (with the corrected end detection) leaves the end-of-stream flag alone |
| CsvSerialization.QuotedBody | Palmtree.IO/Serialization/CsvSerializer.cs:213-248 | reading inside quotes never moves backwards and fails only with EndOfStreamException; with the corrected end detection a quote left open at the end of the text is that exception (as the comment at line 243 documents) and the end-of-stream flag is kept on success; text without any quote after the opening one fails |
| CsvSerialization.Column | Palmtree.IO/Serialization/CsvSerializer.cs:195-198 | a column read never moves backwards, fails only with EndOfStreamException, and always succeeds when it does not start with a quote; it consumes something unless it starts at the end or at a line break |
| CsvSerialization.Row | Palmtree.IO/Serialization/CsvSerializer.cs:178-201 | reading a row consumes input unless the reader is at the end, so the rows loop terminates |
| CsvSerialization.Rows | Palmtree.IO/Serialization/CsvSerializer.cs:161-176 | reading rows fails only with EndOfStreamException (an open quote); the all-inputs lemma CsvRoundTrip.OpenQuoteFails shows that it does fail there |
| CsvSerialization.QuotedPair | Palmtree.IO/Serialization/CsvSerializer.cs:219-227 | inside quotes a doubled quote reads as one quote character |
| CsvSerialization.QuotedClose | Palmtree.IO/Serialization/CsvSerializer.cs:228-235 | a single quote closes the quoted part and the rest of the column is read as unquoted text |
| CsvSerialization.QuotedChar | Palmtree.IO/Serialization/CsvSerializer.cs:236-247 | inside quotes any other character is appended to the column |
| CsvSerialization.RowColumn | Palmtree.IO/Serialization/CsvSerializer.cs:193-199 | a row that does not start with a line break is its first column followed by the rest of the row |
| CsvSerialization.RowsStep | Palmtree.IO/Serialization/CsvSerializer.cs:165-170 | non-empty text reads as its first row, kept only when it has a column, followed by the rows after it |
| CsvSerialization.DeserializeUnquotedColumn | Palmtree.IO/Serialization/CsvSerializer.cs:293-335 | the loop over the buffered reader returns the column the Unquoted specification reads and leaves the reader where it stops |
| CsvSerialization.DeserializeQuotedColumn | Palmtree.IO/Serialization/CsvSerializer.cs:203-291 | the loop over the buffered reader succeeds exactly when the Column specification does, then returns its column and leaves the reader where it stops; at the end inside the quotes it raises EndOfStreamException |
| CsvSerialization.QuotedColumnStep | Palmtree.IO/Serialization/CsvSerializer.cs:215-248 | one pass inside the quotes consumes input and keeps the column read so far plus what remains to read equal to the quoted-body specification: a doubled quote adds one quote, a lone quote closes the quoted part |
| CsvSerialization.UnquotedColumnStep | Palmtree.IO/Serialization/CsvSerializer.cs:249-285 | one pass after the closing quote follows the unquoted-column specification: a delimiter is consumed and ends the column, a line break ends it unconsumed, any other character is added |
| CsvSerialization.DeserializeRow | Palmtree.IO/Serialization/CsvSerializer.cs:178-201 | the loop returns the row the Row specification reads, consuming the CR LF, CR or LF that ends it |
| CsvSerialization.DeserializeRows | Palmtree.IO/Serialization/CsvSerializer.cs:161-176 | reads the whole input and returns exactly the rows of the Rows specification, dropping rows without columns, or its EndOfStreamException |
| CsvSerialization.Deserialize | Palmtree.IO/Serialization/CsvSerializer.cs:158-159 | deserializing a text through a reader with a two-character cache gives the rows, or the EndOfStreamException, that the specification reads from it (corrected line-feed constant and end detection; see ## Findings) |
| CsvRoundTrip.UnquotedStops | Palmtree.IO/Serialization/CsvSerializer.cs:297-313 | at a delimiter, a line break or the end an unquoted column is empty and the delimiter is consumed |
| CsvRoundTrip.UnquotedReadsBack | Palmtree.IO/Serialization/CsvSerializer.cs:297-331 | a column that needs no quotes reads back unchanged up to the character that ends it |
| CsvRoundTrip.QuotedReadsBack | Palmtree.IO/Serialization/CsvSerializer.cs:213-248 | a column with its quotes doubled and a closing quote reads back as the column |
| CsvRoundTrip.QuotedStep | Palmtree.IO/Serialization/CsvSerializer.cs:219-247 | one step of the quoted read on doubled-quote text yields the first character of the original column in front of what the rest reads |
| CsvRoundTrip.ColumnReadsBack | Palmtree.IO/Serialization/CsvSerializer.cs:98-101 | any serialized column, quoted or not, reads back as the original column and stops where it ended |
| CsvRoundTrip.ColumnStart | Palmtree.IO/Serialization/CsvSerializer.cs:98-101 | a serialized column is empty only for an empty column and never starts with a line break |
| CsvRoundTrip.Cells | Palmtree.IO/Serialization/CsvSerializer.cs:93-96 | the serialized cells of a row are one per column |
| CsvRoundTrip.RowStart | Palmtree.IO/Serialization/CsvSerializer.cs:93-96 | a row whose last column is non-empty serializes to text that is not empty and does not start with a line break |
| CsvRoundTrip.RowBreak | Palmtree.IO/Serialization/CsvSerializer.cs:182-192 | a row delimiter (CR LF, LF or CR) read at the start of a row gives an empty row and is consumed |
| CsvRoundTrip.RowReadsBack | Palmtree.IO/Serialization/CsvSerializer.cs:93-96 | a serialized row followed by a row delimiter reads back as the same row and consumes the delimiter |
| CsvRoundTrip.RowSingle | Palmtree.IO/Serialization/CsvSerializer.cs:93-96 | the one-column case of RowReadsBack |
| CsvRoundTrip.RowCons | Palmtree.IO/Serialization/CsvSerializer.cs:93-96 | the inductive step of RowReadsBack: a first column and a delimiter in front of a row that reads back |
| CsvRoundTrip.RowSplit | Palmtree.IO/Serialization/CsvSerializer.cs:93-96 | a serialized row of several columns is its first serialized column, the delimiter, then the rest |
| CsvRoundTrip.RowsReadBack | Palmtree.IO/Serialization/CsvSerializer.cs:82-101 | every row list the format can represent reads back from its serialized text |
| CsvRoundTrip.SerializeRoundTrip | Palmtree.IO/Serialization/CsvSerializer.cs:82-101 | Deserialize(Serialize(rows)) == rows for every row list whose rows have columns and a non-empty last column, with a valid delimiter option |
| CsvRoundTrip.LineFeedAsWrittenLeavesNewlineBare | Palmtree.IO/Serialization/CsvSerializer.cs:17 | with the line-feed constant as written ('\r') a column containing LF is not quoted, so ["a"], ["b"] and a column "a LF b" serialize to overlapping text |
| CsvRoundTrip.LineFeedAsWrittenJoinsRows | Palmtree.IO/Serialization/CsvSerializer.cs:17 | with the line-feed constant as written, the LF-delimited text "a LF b LF" reads back as one column instead of two rows |
| CsvRoundTrip.NewlineEndsRows | Palmtree.IO/Serialization/CsvSerializer.cs:17 | with LF as the line-feed constant, "a LF b LF" reads back as the two rows ["a"] and ["b"] |
| CsvRoundTrip.EmptyTextAsWritten | Palmtree.IO/BuffetredTextReader.cs:82-89 | as written, the empty text reads as one row of one empty column; with the end detected before reading, it reads as no rows |
| CsvRoundTrip.TrailingBreakAsWritten | Palmtree.IO/BuffetredTextReader.cs:82-89 | as written, "x CR LF" reads as the row "x" followed by a spurious empty row; with the end detected before reading, only the row "x" |
| CsvRoundTrip.OpenQuoteFails | Palmtree.IO/Serialization/CsvSerializer.cs:213-248 | for every text t without a double quote, reading "\"" + t raises EndOfStreamException, with the end detection as written and as corrected |
| CsvRoundTrip.EmptyLastColumnIsLost | Palmtree.IO/Serialization/CsvSerializer.cs:82-101 | the row ["a", ""] serializes as "a," and "a, CR LF" reads back as ["a"]: an empty last column does not survive the round trip |
| CsvRoundTrip.RowThenRows | Palmtree.IO/Serialization/CsvSerializer.cs:165-170 | a row with columns followed by rows that read back makes the rows |
| CsvRoundTrip.ColumnThenDelimiter | Palmtree.IO/Serialization/CsvSerializer.cs:98-101 | a serialized column followed by the column delimiter reads back as the column and consumes the delimiter |
| DosDateTime.DaysInMonth | Palmtree.Core/DateTimeExtensions.cs:140 | the month length DateTime.DaysInMonth uses: 28 to 31 days, and February has 29 exactly in a Gregorian leap year |
| DosDateTime.FromDos | Palmtree.Core/DateTimeExtensions.cs:115-145 | unpacking a DOS date and time succeeds exactly when the second, minute, hour, month and day are in range for the Gregorian calendar; it then yields the fields of the packed bit layout (seconds doubled, year from 1980) and otherwise raises ArgumentException |
| DosDateTime.ToDos | Palmtree.Core/DateTimeExtensions.cs:148-170 | packing raises ArgumentOutOfRangeException exactly when the year is outside 1980..2107 |
| DosDateTime.ToDosThenFromDos | Palmtree.Core/DateTimeExtensions.cs:148-170 | a date in 1980..2107 packs and unpacks to itself with the second rounded down to an even value |
| DosDateTime.FromDosThenToDos | Palmtree.Core/DateTimeExtensions.cs:115-145 | every DOS pair that unpacks packs back to the same pair |
| DosDateTime.TryFromDos | Palmtree.Core/DateTimeExtensions.cs:26-42 | TryToDateTime returns null for the (0, 0) pair and for any pair that does not unpack, and otherwise the unpacked date |
| DosDateTime.TryToDos | Palmtree.Core/DateTimeExtensions.cs:68-85 | TryToDosDateTime returns (0, 0) when the year is out of range and otherwise the packed pair |
| DosDateTime.ZeroPairIsNotADate | Palmtree.Core/DateTimeExtensions.cs:30-31 | the (0, 0) pair, which TryToDateTime reads as "no date", does not unpack to a date (month 0), so the special case hides no valid date |
| DosDateTime.TryRoundTrip | Palmtree.Core/DateTimeExtensions.cs:68-85 | the Try pair of conversions round-trips every date in 1980..2107 up to the even second |
| ZipDataDescriptors.SignatureBytes | Palmtree.IO.Compression.Archive.Zip/Headers/Parser/ZipEntryDataDescriptor.cs:19 | the data-descriptor signature is the little-endian reading of the bytes 50 4B 07 08 (section 4.3.9.3 of the PKWARE APPNOTE) |
| ZipDataDescriptors.TryParse | Palmtree.IO.Compression.Archive.Zip/Headers/Parser/ZipEntryDataDescriptor.cs:266-271 | the 12-byte form is accepted exactly when its three little-endian 32-bit fields equal the central directory's CRC, packed size and size, and then has header size 12 |
| ZipDataDescriptors.TryParseWithSignature | Palmtree.IO.Compression.Archive.Zip/Headers/Parser/ZipEntryDataDescriptor.cs:273-279 | the 16-byte form is accepted exactly when it starts with the signature and its fields equal the expected CRC and sizes, and then has header size 16 |
| ZipDataDescriptors.TryParseAsZip64 | Palmtree.IO.Compression.Archive.Zip/Headers/Parser/ZipEntryDataDescriptor.cs:281-286 | the 20-byte ZIP64 form is accepted exactly when the CRC and the two 64-bit sizes match, and then has header size 20 |
| ZipDataDescriptors.TryParseAsZip64WithSignature | Palmtree.IO.Compression.Archive.Zip/Headers/Parser/ZipEntryDataDescriptor.cs:288-294 | the 24-byte signed ZIP64 form is accepted exactly when it starts with the signature and the CRC and 64-bit sizes match, and then has header size 24 |
| ZipDataDescriptors.ReadBuffer | Palmtree.IO.Compression.Archive.Zip/Headers/Parser/ZipEntryDataDescriptor.cs:240-251 | a buffer already long enough is kept; otherwise it is extended from the stream to exactly the requested size, keeping its old bytes in front; no input is lost or reordered; a stream too short raises BadZipFileFormatException |
| ZipDataDescriptors.Parse32 | Palmtree.IO.Compression.Archive.Zip/Headers/Parser/ZipEntryDataDescriptor.cs:83-98 | the two 32-bit attempts in order: a descriptor of size 12 is returned when the first 12 bytes pass the plain check, one of size 16 only when they do not and the first 16 bytes pass the signed check; the buffer is the prefix of the stream read so far; a stream too short for an attempt reached is BadZipFileFormatException |
| ZipDataDescriptors.Parse64 | Palmtree.IO.Compression.Archive.Zip/Headers/Parser/ZipEntryDataDescriptor.cs:100-115 | the two ZIP64 attempts in order on the same buffer: size 20 when the first 20 bytes pass, size 24 only when they do not and the first 24 bytes pass; BadZipFileFormatException exactly when neither passes (a short stream passes neither) |
| ZipDataDescriptors.Parse | Palmtree.IO.Compression.Archive.Zip/Headers/Parser/ZipEntryDataDescriptor.cs:37-136 | the descriptor carries the position and the central directory's CRC and sizes; its header size is a permitted attempt (only 20 and 24 when a size exceeds UInt32.MaxValue) whose check accepts the first bytes of the stream, and no earlier permitted attempt does; BadZipFileFormatException exactly when no permitted attempt accepts the stream |
| ZipDataDescriptors.FieldOf | Palmtree.IO.Compression.Archive.Zip/Headers/Parser/ZipEntryDataDescriptor.cs:266-294 | a field read at an offset is the little-endian value of the bytes placed there |
| ZipDataDescriptors.LEBytesWidened | Palmtree.IO.Compression.Archive.Zip/Headers/Parser/ZipEntryDataDescriptor.cs:281-286 | a value below 2^(8n) written in n + m bytes is its n-byte image followed by zero bytes |
| ZipDataDescriptors.PlainFieldsRecognised | Palmtree.IO.Compression.Archive.Zip/Headers/Parser/ZipEntryDataDescriptor.cs:87-91 | a stream starting with the CRC and the two 32-bit sizes is parsed as the 12-byte descriptor |
| ZipDataDescriptors.SignedFieldsRecognised | Palmtree.IO.Compression.Archive.Zip/Headers/Parser/ZipEntryDataDescriptor.cs:93-97 | a stream starting with the signature, the CRC and the 32-bit sizes is parsed as the 16-byte descriptor when the CRC is not the signature value |
| ZipDataDescriptors.SignedHeaderRecognised | Palmtree.IO.Compression.Archive.Zip/Headers/Parser/ZipEntryDataDescriptor.cs:93-97 | any 16-byte header that the signed check accepts is what Parse returns, when the CRC is not the signature value |
| ZipDataDescriptors.SignedHeaderMatches | Palmtree.IO.Compression.Archive.Zip/Headers/Parser/ZipEntryDataDescriptor.cs:273-294 | a header assembled from the signature, the CRC and the sizes passes the signed check of its width |
| ZipDataDescriptors.Zip64FieldsRecognised | Palmtree.IO.Compression.Archive.Zip/Headers/Parser/ZipEntryDataDescriptor.cs:100-104 | a stream starting with the CRC and the two 64-bit sizes is parsed as the 20-byte descriptor when ZIP64 is required |
| ZipDataDescriptors.SignedZip64FieldsRecognised | Palmtree.IO.Compression.Archive.Zip/Headers/Parser/ZipEntryDataDescriptor.cs:106-110 | a stream starting with the signature, the CRC and the 64-bit sizes is parsed as the 24-byte descriptor when ZIP64 is required and the CRC is not the signature value |
| ZipDataDescriptors.SignedZip64HeaderRecognised | Palmtree.IO.Compression.Archive.Zip/Headers/Parser/ZipEntryDataDescriptor.cs:106-110 | any 24-byte header the signed ZIP64 check accepts is what Parse returns when ZIP64 is required |
| ZipDataDescriptors.PlainDescriptorRecognised | Palmtree.IO.Compression.Archive.Zip/Headers/Parser/ZipEntryDataDescriptor.cs:87-91 | the descriptor a writer emits without signature (the little-endian CRC and sizes) reads back with header size 12 |
| ZipDataDescriptors.SignedDescriptorRecognised | Palmtree.IO.Compression.Archive.Zip/Headers/Parser/ZipEntryDataDescriptor.cs:93-97 | the descriptor a writer emits with signature reads back with header size 16, unless the CRC equals the signature value (the ambiguity the source's comment at 44-46 names) |
| ZipDataDescriptors.Zip64DescriptorRecognised | Palmtree.IO.Compression.Archive.Zip/Headers/Parser/ZipEntryDataDescriptor.cs:100-104 | the unsigned ZIP64 descriptor of a large entry reads back with header size 20 |
| ZipDataDescriptors.SignedZip64DescriptorRecognised | Palmtree.IO.Compression.Archive.Zip/Headers/Parser/ZipEntryDataDescriptor.cs:106-110 | the signed ZIP64 descriptor of a large entry reads back with header size 24 |
| ZipDataDescriptors.SmallZip64DescriptorTakenAsPlain | Palmtree.IO.Compression.Archive.Zip/Headers/Parser/ZipEntryDataDescriptor.cs:77-91 | a ZIP64 descriptor of a small empty entry is read as the 12-byte plain form, because the plain attempt comes first and its fields match (ZIP64 MAY be used for any size) |
| ZipDataDescriptors.ShortStreamNeedingZip64 | Palmtree.IO.Compression.Archive.Zip/Headers/Parser/ZipEntryDataDescriptor.cs:100-104 | when ZIP64 is required and fewer than 20 bytes remain, Parse raises BadZipFileFormatException |
| ZipDataDescriptors.FirstPassingWins | Palmtree.IO.Compression.Archive.Zip/Headers/Parser/ZipEntryDataDescriptor.cs:77-115 | whenever a permitted layout accepts the stream and no earlier permitted one does, Parse returns the descriptor of that layout's size |
| VolumeDisks.TotalOffset | Palmtree.IO.Compression.Archive.Zip/VolumeDiskCollection.cs:263-279 | the running total offset of the first disk is 0 |
| VolumeDisks.TotalOffsetStep | Palmtree.IO.Compression.Archive.Zip/VolumeDiskCollection.cs:274-279 | the total offset of disk d + 1 is the total offset of disk d plus disk d's size |
| VolumeDisks.TotalOffsetOfAll | Palmtree.IO.Compression.Archive.Zip/VolumeDiskCollection.cs:285 | the total offset after the last disk is the total volume size |
| VolumeDisks.TotalOffsetMonotone | Palmtree.IO.Compression.Archive.Zip/VolumeDiskCollection.cs:263-279 | total offsets never decrease with the disk number, which the binary search relies on |
| VolumeDisks.Volumes | Palmtree.IO.Compression.Archive.Zip/VolumeDiskCollection.cs:274 | the volume table has one entry per size, holding that disk's total offset and size |
| VolumeDisks.LocatesUnique | Palmtree.IO.Compression.Archive.Zip/VolumeDiskCollection.cs:444-463 | an offset is located on at most one disk (the last disk whose total offset is at most the offset, skipping none) |
| VolumeDisks.PositionWithinDisk | Palmtree.IO.Compression.Archive.Zip/VolumeDiskCollection.cs:334-346 | the offset on the located disk is at most that disk's size |
| VolumeDisks.OffsetLocatesDisk | Palmtree.IO.Compression.Archive.Zip/VolumeDiskCollection.cs:387-404 | a position strictly inside disk d converts to a total offset that is located on disk d |
| VolumeDisks.DiskPositionRoundTrip | Palmtree.IO.Compression.Archive.Zip/VolumeDiskCollection.cs:334-404 | converting a position inside a disk to a total offset and back gives the same disk and offset on it |
| VolumeDisks.EndOfDiskIsNextDisk | Palmtree.IO.Compression.Archive.Zip/VolumeDiskCollection.cs:444-463 | the offset just past a disk is located at the start of the next non-empty disk |
| VolumeDisks.OffsetWithinTotal | Palmtree.IO.Compression.Archive.Zip/VolumeDiskCollection.cs:263-285 | every disk's total offset is at most the total volume size |
| VolumeDisks.VolumeDiskCollection.constructor | Palmtree.IO.Compression.Archive.Zip/VolumeDiskCollection.cs:257-293 | a collection built from a non-empty size list whose total fits UInt64 holds exactly those sizes |
| VolumeDisks.VolumeDiskCollection.Create | Palmtree.IO.Compression.Archive.Zip/VolumeDiskCollection.cs:257-293 | construction succeeds exactly when the size list is non-empty and its checked total fits UInt64; otherwise ArgumentException (the overflow is rethrown as ArgumentException) |
| VolumeDisks.VolumeDiskCollection.TryGetVolumeDiskPosition | Palmtree.IO.Compression.Archive.Zip/VolumeDiskCollection.cs:334-346 | succeeds exactly when the offset is at most the total size, and then returns the disk that contains it and the offset on that disk; otherwise (false, 0, 0) |
| VolumeDisks.VolumeDiskCollection.TryGetVolumeDiskSize | Palmtree.IO.Compression.Archive.Zip/VolumeDiskCollection.cs:360-370 | succeeds exactly for an existing disk number and returns its size; otherwise (false, 0) |
| VolumeDisks.VolumeDiskCollection.TryGetOffsetFromStart | Palmtree.IO.Compression.Archive.Zip/VolumeDiskCollection.cs:387-404 | succeeds exactly for an existing disk and an offset at most its size, and returns the disk's total offset plus the offset; otherwise (false, 0) |
| VolumeDisks.VolumeDiskCollection.GetVolumeDiskPosition | Palmtree.IO.Compression.Archive.Zip/VolumeDiskCollection.cs:444-463 | the recursive halving search over [start, end] returns the disk in that range that contains the offset and its total offset |
| QuickSort.Swap | Palmtree.Core/ArrayExtensions.QuickSort.cs:371 | the tuple swap exchanges two elements and keeps the multiset of the array |
| QuickSort.Rotate | Palmtree.Core/ArrayExtensions.QuickSort.cs:420-423 | the three-way move of the upper scan (e gets u, u gets l, l gets e) and keeps the multiset of the array |
| QuickSort.LowerEqualStep | Palmtree.Core/ArrayExtensions.QuickSort.cs:359-388 | a pivot-equal element at the lower boundary joins the equal region (by a swap with the first smaller element, or in place when the smaller region is empty) and the region layout is kept |
| QuickSort.UpperRotateStep | Palmtree.Core/ArrayExtensions.QuickSort.cs:409-423 | a pivot-equal element at the upper boundary facing a larger element at the lower boundary, with a non-empty smaller region, is rotated into the equal region and the layout is kept |
| QuickSort.UpperSwapEqualStep | Palmtree.Core/ArrayExtensions.QuickSort.cs:430-436 | the same step when the smaller region is empty: one swap suffices and the layout is kept |
| QuickSort.UpperSwapBelowStep | Palmtree.Core/ArrayExtensions.QuickSort.cs:458-466 | a smaller element at the upper boundary is swapped with the larger one at the lower boundary and both boundaries move inward, keeping the layout |
| QuickSort.ScanLower | Palmtree.Core/ArrayExtensions.QuickSort.cs:341-392 | the lower scan keeps the four-region layout (equal, smaller, unknown, larger), stops at the first larger element or when the unknown region is empty, and only permutes the range |
| QuickSort.ScanUpper | Palmtree.Core/ArrayExtensions.QuickSort.cs:402-482 | the upper scan keeps the layout, shrinks the unknown region whenever it was non-empty, and only permutes the range |
| QuickSort.PlaceFromUpper | Palmtree.Core/ArrayExtensions.QuickSort.cs:406-465 | a key equal to the pivot found by the upper scan joins the end of the equal region and a key below it trades places with the key above it at lb; either way the layout holds with the unknown region one shorter at each end, and the range is only permuted |
| QuickSort.Partition | Palmtree.Core/ArrayExtensions.QuickSort.cs:324-399 | partitioning around source[0] ends with the unknown region empty: [0, eop) equal to the pivot, [eop, lb) smaller, [lb, hi) larger, and the range is a permutation of what it was |
| QuickSort.ExchangeGivesThreeWay | Palmtree.Core/ArrayExtensions.QuickSort.cs:509-525 | reversing [0, lb) after partitioning moves the smaller elements in front of the equal ones, giving smaller, equal, larger (the unused lengthToExchange does not matter) |
| QuickSort.ExchangeStep | Palmtree.Core/ArrayExtensions.QuickSort.cs:509-525 | the exchange loop yields the three-way layout and only permutes the range |
| QuickSort.PartitionRange | Palmtree.Core/ArrayExtensions.QuickSort.cs:320-525 | the partition and exchange loops together leave the range as keys below the first key, a non-empty run equal to it and keys above it, as a permutation of the range with nothing outside it changed |
| QuickSort.RoundSorted | Palmtree.Core/ArrayExtensions.QuickSort.cs:544-546 | sorting the smaller part and the larger part of a three-way layout sorts the whole range |
| QuickSort.InternalQuickSortManaged | Palmtree.Core/ArrayExtensions.QuickSort.cs:301-547 | the range ends sorted and is a permutation of what it was, nothing outside it changes, ranges of length 0 or 1 and ordered pairs are left untouched |
| QuickSort.QuickSortWhole | Palmtree.Core/ArrayExtensions.QuickSort.cs:13-21 | a null array raises ArgumentNullException; otherwise the same array is returned, sorted, with the same elements |
| QuickSort.QuickSortRange | Palmtree.Core/ArrayExtensions.QuickSort.cs:111-125 | a null array raises ArgumentNullException; a bad offset/count raises the exception CheckRange gives and leaves the array unchanged; otherwise only the range is sorted and permuted |
| SequenceCompare.Sign | Palmtree.Core/ArrayExtensions.SequenceCompare.cs:669 | the length comparison Int32.CompareTo yields -1, 0 or 1 exactly when the first length is below, equal to or above the second |
| SequenceCompare.FirstDifferenceDecides | Palmtree.Core/ArrayExtensions.SequenceCompare.cs:709-721 | when the first non-zero element comparison of the common prefix is at index i, the result of the whole comparison is that element comparison |
| SequenceCompare.EqualPrefixComparesLengths | Palmtree.Core/ArrayExtensions.SequenceCompare.cs:709-721 | when the common prefix compares equal throughout, the result is the comparison of the two lengths (a proper prefix orders first) |
| SequenceCompare.CompareSelfIsZero | Palmtree.Core/ArrayExtensions.SequenceCompare.cs:709-721 | for a reflexive element comparison every sequence compares equal to itself |
| SequenceCompare.CompareAntisymmetric | Palmtree.Core/ArrayExtensions.SequenceCompare.cs:709-721 | for an antisymmetric element comparison, swapping the two sequences negates the result |
| SequenceCompare.Keys | Palmtree.Core/ArrayExtensions.SequenceCompare.cs:672-687 | the key sequence has one key per element, the key selector applied at each index |
| SequenceCompare.KeySelectorComparesKeys | Palmtree.Core/ArrayExtensions.SequenceCompare.cs:672-687 | comparing with a key selector orders two sequences exactly as their key sequences are ordered |
| SequenceCompare.InternalSequenceCompare | Palmtree.Core/ArrayExtensions.SequenceCompare.cs:655-721 | the loop over the common prefix followed by the length comparison computes the lexicographic order (first differing element, else the shorter sequence first), for a comparer, a key selector or CompareTo |
| SequenceCompare.InternalSequenceCompareUnmanaged | Palmtree.Core/ArrayExtensions.SequenceCompare.cs:730-908 | the primitive-type path compares only the first min(length1, length2) elements and returns 0 when they agree, whatever the lengths |
| SequenceCompare.UnmanagedIgnoresLength | Palmtree.Core/ArrayExtensions.SequenceCompare.cs:730-738 | [1] against [1, 2] compares equal on the primitive-type path, while the lexicographic order puts [1] first |
| SequenceCompare.SequenceCompareArrays | Palmtree.Core/ArrayExtensions.SequenceCompare.cs:12-23 | fails with ArgumentNull exactly when an array is null; otherwise returns the lexicographic comparison of the two arrays (corrected length-aware compare; see ## Findings) |
| SequenceCompare.SequenceCompareRanges | Palmtree.Core/ArrayExtensions.SequenceCompare.cs:154-175 | the null and sign checks of the first array come before those of the second; succeeds exactly when both arrays are present and both ranges are valid, and then compares the two ranges lexicographically (corrected length-aware compare; see ## Findings) |
| SequenceEqual.EqualByIsEquality | Palmtree.Core/ArrayExtensions.SequenceEqual.cs:563-579 | element-wise comparison with the default equality is exactly sequence equality |
| SequenceEqual.InternalSequenceEqual | Palmtree.Core/ArrayExtensions.SequenceEqual.cs:563-579 | the managed loop answers true exactly when the lengths agree and every pair of elements is equal; a false answer comes with a length difference or an unequal pair |
| SequenceEqual.InternalSequenceEqualUnmanaged | Palmtree.Core/ArrayExtensions.SequenceEqual.cs:1053-1175 | the unrolled comparison (blocks of 32, then 16, 8, 4, 2, 1 chosen by the bits of the remaining count) answers true exactly when the count is not positive or the first count elements agree |
| SequenceEqual.InternalSequenceEqualPrimitive | Palmtree.Core/ArrayExtensions.AutoGenerated.cs:61-105 | the primitive-type dispatch (equal lengths and the unrolled comparison over the whole length) is exactly sequence equality |
| SequenceEqual.SequenceEqualArrays | Palmtree.Core/ArrayExtensions.SequenceEqual.cs:12-21 | fails with ArgumentNull exactly when an array is null; otherwise answers whether the arrays have equal contents |
| SequenceEqual.SequenceEqualRanges | Palmtree.Core/ArrayExtensions.SequenceEqual.cs:63-79 | checks run in the order null 1, offset 1, null 2, offset 2, count, then each range; succeeds exactly when all pass, and then answers whether the two ranges of count elements are equal |
| ShiftJis.Single | Palmtree.Core/Text/ShiftJisChar.cs:103-109 | the one-byte constructor accepts exactly the bytes that are not lead bytes, storing the byte with a zero second byte; a lead byte is ArgumentOutOfRange |
| ShiftJis.Pair | Palmtree.Core/Text/ShiftJisChar.cs:111-120 | the two-byte constructor accepts exactly a lead byte (0x81-0x9F, 0xE0-0xFC) followed by a trail byte (0x40-0x7E, 0x80-0xFC), and otherwise is ArgumentOutOfRange |
| ShiftJis.Bytes | Palmtree.Core/Text/ShiftJisChar.cs:298-311 | a character's byte image is one byte exactly when its second byte is zero, otherwise the two stored bytes in order |
| ShiftJis.ToByteArray | Palmtree.Core/Text/ShiftJisChar.cs:298-311 | writes the character's byte image at the offset, returns its length (1 or 2) and leaves the bytes before the offset alone |
| ShiftJis.CodeIsFaithful | Palmtree.Core/Text/ShiftJisChar.cs:182-187 | on valid characters the 16-bit internal code used by CompareTo and Equals identifies the character, and every single-byte character orders before every double-byte one |
| ShiftJis.Encoded | Palmtree.Core/Text/ShiftJisChar.cs:223-235 | the encoding of n characters has between n and 2n bytes |
| ShiftJis.EncodedCons | Palmtree.Core/Text/ShiftJisChar.cs:223-235 | encoding is a concatenation: the first character's bytes followed by the encoding of the rest |
| ShiftJis.Decoded | Palmtree.Core/Text/ShiftJisChar.cs:237-265 | decoding fails only with ShiftJisEncoding (a dangling lead byte or a lead byte followed by a non-trail byte) and otherwise yields at most one valid character per byte |
| ShiftJis.Encode | Palmtree.Core/Text/ShiftJisChar.cs:223-235 | the buffer-filling loop produces exactly the concatenated byte images of the characters |
| ShiftJis.Decode | Palmtree.Core/Text/ShiftJisChar.cs:237-265 | the index-advancing loop produces exactly the decoding specification, the error included |
| ShiftJis.DecodeEncode | Palmtree.Core/Text/ShiftJisChar.cs:223-265 | decoding the encoding of valid characters gives the characters back |
| ShiftJis.EncodeDecode | Palmtree.Core/Text/ShiftJisChar.cs:223-265 | every byte sequence that decodes is reproduced exactly by encoding its characters |
| ShiftJis.Plane1Lead | Palmtree.Core/Text/ShiftJisChar.cs:35-50 | plane 1 rows 1-94 and only those have a lead byte, always a valid lead byte no greater than 0xEF |
| ShiftJis.Plane2Lead | Palmtree.Core/Text/ShiftJisChar.cs:52-70 | plane 2 rows 1, 3, 4, 5, 8, 12-15 and 78-94 and only those have a lead byte, always a valid lead byte of at least 0xF0 |
| ShiftJis.CellTrailAsWritten | Palmtree.Core/Text/ShiftJisChar.cs:74-94 | the cell table as written: cells 1-94 and only those map to a valid trail byte, even cells to cell + 158, odd cells to cell + 63 up to 63 and cell + 64 above |
| ShiftJis.Trail | Palmtree.Core/Text/ShiftJisChar.cs:74-94 | the trail byte chosen by the row's parity: cells 1-94 map to valid trail bytes, in 0x40-0x9E for an odd row and 0x9F-0xFC for an even row |
| ShiftJis.BuildTables | Palmtree.Core/Text/ShiftJisChar.cs:20-95 | the static constructor's loops fill the plane 1, plane 2 and cell tables with exactly the lead and trail bytes above and null everywhere else |
| ShiftJis.FromPlaneRowCellAsWritten | Palmtree.Core/Text/ShiftJisChar.cs:122-157 | as written: a plane above 2, or plane 0 with a non-zero row, is an argument error; planes 1 and 2 always answer (null when the row or the cell has no entry) |
| ShiftJis.RowsCollideAsWritten | Palmtree.Core/Text/ShiftJisChar.cs:122-157 | as written, plane 1 rows 1 and 2 with cell 2 give the same character 0x81 0xA0; with the row's parity deciding the trail byte they give 0x81 0x41 and 0x81 0xA0 |
| ShiftJis.FromPlaneRowCell | Palmtree.Core/Text/ShiftJisChar.cs:122-157 | plane 0 accepts row 0 with a non-lead byte as that single-byte character; planes 1 and 2 give a character exactly when the row has a lead byte and the cell is 1-94, and that character is valid; other planes are an argument error |
| ShiftJis.LeadAndParityDetermineRow | Palmtree.Core/Text/ShiftJisChar.cs:35-70 | in planes 1 and 2 a lead byte together with the row's parity determines the plane and the row |
| ShiftJis.Plane1RowsDiffer | Palmtree.Core/Text/ShiftJisChar.cs:35-50 | two plane 1 rows with the same lead byte and the same parity are the same row |
| ShiftJis.Plane2RowsDiffer | Palmtree.Core/Text/ShiftJisChar.cs:52-70 | two plane 2 rows with the same lead byte and the same parity are the same row |
| ShiftJis.FromPlaneRowCellIsInjective | Palmtree.Core/Text/ShiftJisChar.cs:122-157 | distinct plane/row/cell triples that have characters give distinct characters |
| ShiftJis.BuildRowTables | Palmtree.Core/Text/ShiftJisChar.cs:35-72 | after the row loop, each row 1-94 has its plane 1 lead byte, each plane 2 row has its plane 2 lead byte, and every other entry is null |
| ShiftJis.FillRow | Palmtree.Core/Text/ShiftJisChar.cs:37-71 | one pass of the row loop stores the row's plane 1 and plane 2 lead bytes and leaves every other entry unchanged |
| ShiftJis.BuildCellTable | Palmtree.Core/Text/ShiftJisChar.cs:74-94 | after the cell loop, each cell 1-94 has the trail byte of the cell table as written and every other entry is null |
| Expansions.ExpansionState.constructor | Palmtree.IO.Console.TerminalInfo/StringExpansion/ExpansionState.cs:119-127 | a new state reads the source from its start with the given arguments, an empty stack and no variables set |
| Expansions.ExpansionState.ReadCharOrNull | Palmtree.IO.Console.TerminalInfo/StringExpansion/ExpansionReader.cs:17-20 | null exactly at the end of the source (nothing changes); otherwise the character at the read position, which advances by one |
| Expansions.ExpansionState.ReadChar | Palmtree.IO.Console.TerminalInfo/StringExpansion/ExpansionState.cs:135-137 | the next character and the advanced position, as ExpansionMachine.ReadChar; the end of the source is an invalid operation |
| Expansions.ExpansionState.Push | Palmtree.IO.Console.TerminalInfo/StringExpansion/ExpansionState.cs:140 | the stack gains the value on top, as ExpansionMachine.Push |
| Expansions.ExpansionState.Pop | Palmtree.IO.Console.TerminalInfo/StringExpansion/ExpansionState.cs:141 | removes and returns the top of the stack, as ExpansionMachine.Pop; popping an empty stack is an invalid operation and changes nothing |
| Expansions.ExpansionState.GetArgument | Palmtree.IO.Console.TerminalInfo/StringExpansion/ExpansionState.cs:41-49 | reads argument slot '1'-'9', as ExpansionMachine.GetArgument |
| Expansions.ExpansionState.SetArgument | Palmtree.IO.Console.TerminalInfo/StringExpansion/ExpansionState.cs:51-57 | replaces argument slot '1'-'9', as ExpansionMachine.SetArgument |
| Expansions.ExpansionState.PushArgument | Palmtree.IO.Console.TerminalInfo/StringExpansion/Expansion.cs:62-70 | %pN: the state and result are those of the directive specification for 'p' |
| Expansions.ExpansionState.SetVariable | Palmtree.IO.Console.TerminalInfo/StringExpansion/Expansion.cs:73-84 | %Pv: the state and result are those of the directive specification for 'P' |
| Expansions.ExpansionState.GetVariable | Palmtree.IO.Console.TerminalInfo/StringExpansion/Expansion.cs:86-97 | %gv: the state and result are those of the directive specification for 'g' |
| Expansions.ExpansionState.PushCharacter | Palmtree.IO.Console.TerminalInfo/StringExpansion/Expansion.cs:99-106 | %'c': the state and result are those of the directive specification for the quote |
| Expansions.ExpansionState.PushNumber | Palmtree.IO.Console.TerminalInfo/StringExpansion/Expansion.cs:107-125 | %{digits}: the reading loop ends in the state and result of the directive specification for '{' |
| Expansions.ExpansionState.IncrementArguments | Palmtree.IO.Console.TerminalInfo/StringExpansion/Expansion.cs:235-244 | %i: the state and result are those of the directive specification for 'i' |
| Expansions.ExpansionState.ReadDigits | Palmtree.IO.Console.TerminalInfo/StringExpansion/Expansion.cs:281-288 | the digit-appending loop ends exactly as the digit-run specification says: first non-digit, digits appended, state after it |
| Expansions.ExpansionState.ReadFormatSpecAsWritten | Palmtree.IO.Console.TerminalInfo/StringExpansion/Expansion.cs:278-307 | the loops of ReadFormatSpec as written end in the state and result of the as-written format-spec specification (the '.' is dropped) |
| Expansions.ExpansionState.ReadFormatSpec | Palmtree.IO.Console.TerminalInfo/StringExpansion/Expansion.cs:278-307 | the loops of ReadFormatSpec, keeping the '.', end in the state and result of the format-spec specification |
| Expansions.ExpansionState.FormatTop | Palmtree.IO.Console.TerminalInfo/StringExpansion/Expansion.cs:128-151 | %[spec]type: reads the spec, pops and formats the top, as the format directive specification (corrected: the precision's '.' is kept; see ## Findings) |
| Expansions.ExpansionState.BinaryOperation | Palmtree.IO.Console.TerminalInfo/StringExpansion/Expansion.cs:264-276 | pops p2 then p1 and pushes p1 op p2, as the binary directive specification (corrected: %^ is exclusive or; see ## Findings) |
| Expansions.ExpansionState.UnaryOperation | Palmtree.IO.Console.TerminalInfo/StringExpansion/Expansion.cs:252-262 | pops p and pushes op p, as the unary directive specification |
| Expansions.ExpansionState.Directive | Palmtree.IO.Console.TerminalInfo/StringExpansion/Expansion.cs:54-248 | the switch over the directive code ends in the state and result of the directive specification, errors included |
| Expansions.ExpansionState.Expand | Palmtree.IO.Console.TerminalInfo/StringExpansion/Expansion.cs:34-250 | the copying and directive loop of ExpandArguments(state) ends in the outcome of the expansion specification: why it stopped, what it emitted, the state it left (corrected %^ and format spec; see ## Findings) |
| Expansions.ExpansionState.ProcessIf | Palmtree.IO.Console.TerminalInfo/StringExpansion/Expansion.cs:309-379 | the loop of ProcessIfStatement ends in the state and text of the conditional specification |
| Expansions.ExpandArguments | Palmtree.IO.Console.TerminalInfo/StringExpansion/Expansion.cs:9-31 | the imperative expansion returns exactly the result of the expansion specification, errors translated as the catch clauses do (corrected %^ and format spec; see ## Findings) |
| Expansions.ExpansionState.CopyText | Palmtree.IO.Console.TerminalInfo/StringExpansion/Expansion.cs:41-49 | the characters before the next '%' are appended to the output; at the end of the string the expansion ends with FoundEndOfString and that output; otherwise the position is just past the '%' and the outcome of the expansion is unchanged |
| ExpansionMachine.ReadChar | Palmtree.IO.Console.TerminalInfo/StringExpansion/ExpansionState.cs:135-137 | succeeds exactly before the end of the source, giving the character at the position and the state one position on; at the end it is an invalid operation |
| ExpansionMachine.Pop | Palmtree.IO.Console.TerminalInfo/StringExpansion/ExpansionState.cs:141 | succeeds exactly on a non-empty stack, giving its top and the state with the rest of the stack and nothing else changed; an empty stack is an invalid operation |
| ExpansionMachine.PopUndoesPush | Palmtree.IO.Console.TerminalInfo/StringExpansion/ExpansionState.cs:140-141 | popping right after a push gives the pushed value and the state before the push |
| ExpansionMachine.GetArgument | Palmtree.IO.Console.TerminalInfo/StringExpansion/ExpansionState.cs:41-49 | succeeds exactly for an index '1'-'9' within the number of arguments given, returning that slot; any other index is a bad argument |
| ExpansionMachine.SetArgument | Palmtree.IO.Console.TerminalInfo/StringExpansion/ExpansionState.cs:51-57 | succeeds exactly for the indexes GetArgument accepts and then replaces only that slot; otherwise a bad argument |
| ExpansionMachine.BitwiseBound | Palmtree.IO.Console.TerminalInfo/StringExpansion/Expansion.cs:170-175 | the bitwise operation on the low n bits is below 2^n |
| ExpansionMachine.Wrap32 | Palmtree.IO.Console.TerminalInfo/StringExpansion/Expansion.cs:153-161 | unchecked Int32 arithmetic: a result in range is kept, otherwise it is the value congruent modulo 2^32 |
| ExpansionMachine.BinaryAsWritten | Palmtree.IO.Console.TerminalInfo/StringExpansion/Expansion.cs:153-202 | as written, every binary operator is the specified one except %^, which is the subtraction |
| ExpansionMachine.ExclusiveOrAsWrittenSubtracts | Palmtree.IO.Console.TerminalInfo/StringExpansion/Expansion.cs:176-178 | as written %^ on 6 and 3 gives 3, where the exclusive or gives 5 |
| ExpansionMachine.ExclusiveOrUndoes | Palmtree.IO.Console.TerminalInfo/StringExpansion/Expansion.cs:176-178 | with %^ the exclusive or, applying it twice with the same operand gives the first operand back |
| ExpansionMachine.DivisionPair | Palmtree.IO.Console.TerminalInfo/StringExpansion/Expansion.cs:162-167 | %/ and %m truncate toward zero: quotient times divisor plus remainder is the dividend |
| ExpansionMachine.DivisionErrors | Palmtree.IO.Console.TerminalInfo/StringExpansion/Expansion.cs:162-167 | %/ and %m with a zero divisor throw DivideByZeroException, and MinValue by -1 throws OverflowException |
| ExpansionMachine.TruthValues | Palmtree.IO.Console.TerminalInfo/StringExpansion/Expansion.cs:186-202 | the comparisons and the logical operators push 1 or 0 |
| ExpansionMachine.LogicalShortCircuit | Palmtree.IO.Console.TerminalInfo/StringExpansion/Expansion.cs:197-202 | %A with a false first operand and %O with a true one decide without converting the second; %A with a true first operand converts the second, and a string there is a bad argument |
| ExpansionMachine.Unary | Palmtree.IO.Console.TerminalInfo/StringExpansion/Expansion.cs:181-213 | %~ is the bitwise complement of a number, %! is 1 exactly for zero, %l is the length of a string; the wrong operand kind is a bad argument |
| ExpansionMachine.DigitRun | Palmtree.IO.Console.TerminalInfo/StringExpansion/Expansion.cs:281-288 | the digit loop stops at a non-digit, having appended only digits to what it had, and moves forward in the same source |
| ExpansionMachine.FinishSpec | Palmtree.IO.Console.TerminalInfo/StringExpansion/Expansion.cs:303-306 | the type character must be one of c d o s u x X and is appended; anything else is an invalid operation |
| ExpansionMachine.FormatSpecAsWritten | Palmtree.IO.Console.TerminalInfo/StringExpansion/Expansion.cs:278-307 | the as-written spec reader moves forward in the same source |
| ExpansionMachine.FormatSpec | Palmtree.IO.Console.TerminalInfo/StringExpansion/Expansion.cs:278-307 | the spec reader moves forward in the same source |
| ExpansionMachine.Braced | Palmtree.IO.Console.TerminalInfo/StringExpansion/Expansion.cs:107-119 | the %{ loop collects only digits up to the closing brace and moves forward in the same source |
| ExpansionMachine.Directive | Palmtree.IO.Console.TerminalInfo/StringExpansion/Expansion.cs:54-248 | a directive that succeeds leaves a later state of the same expansion (same source, position no earlier, as many arguments) |
| ExpansionMachine.FormatDirective | Palmtree.IO.Console.TerminalInfo/StringExpansion/Expansion.cs:128-151 | an empty stack is an invalid operation; on success the spec was read, the top value was popped and formatted by that spec, and the output is that text; the top value's format failure is the directive's failure, and nothing but the position and the stack changes |
| ExpansionMachine.BinaryDirective | Palmtree.IO.Console.TerminalInfo/StringExpansion/Expansion.cs:264-276 | fewer than two values is an invalid operation; otherwise the two top values are replaced by op(second, top), or the operator's error (division by zero) is returned, and nothing else changes |
| ExpansionMachine.UnaryDirective | Palmtree.IO.Console.TerminalInfo/StringExpansion/Expansion.cs:252-262 | an empty stack is an invalid operation; otherwise the top value is replaced by the operator's result, or the operator's error is returned, and nothing else changes |
| ExpansionMachine.ExpandFrom | Palmtree.IO.Console.TerminalInfo/StringExpansion/Expansion.cs:34-250 | an expansion level that ends at %t, %e or %; has read past that two-character directive; one that ends at the end of the source has read all of it |
| ExpansionMachine.IfFrom | Palmtree.IO.Console.TerminalInfo/StringExpansion/Expansion.cs:309-379 | a conditional that succeeds leaves a later state of the same expansion |
| ExpansionMachine.Translate | Palmtree.IO.Console.TerminalInfo/StringExpansion/Expansion.cs:19-30 | syntax errors and bad arguments leave as ArgumentException, everything else as InvalidOperationException |
| ExpansionMachine.Initial | Palmtree.IO.Console.TerminalInfo/StringExpansion/ExpansionState.cs:17-39 | building the state succeeds exactly when there are at most nine arguments, all of a supported type, and then reads from the start with an empty stack and one slot per argument |
| ExpansionMachine.Converted | Palmtree.IO.Console.TerminalInfo/StringExpansion/ExpansionState.cs:27-38 | the argument conversion succeeds exactly when every argument has a supported type, converting each in order |
| ExpansionMachine.ExpandArguments | Palmtree.IO.Console.TerminalInfo/StringExpansion/Expansion.cs:9-31 | every failure leaves as ArgumentException or InvalidOperationException, and more than nine arguments is an ArgumentException |
| ExpansionProperties.PlainPrefix | Palmtree.IO.Console.TerminalInfo/StringExpansion/Expansion.cs:41-49 | a run of text without % is copied to the output as it stands |
| ExpansionProperties.TextStep | Palmtree.IO.Console.TerminalInfo/StringExpansion/Expansion.cs:41-49 | a character other than % is appended to the output |
| ExpansionProperties.DirectiveStep | Palmtree.IO.Console.TerminalInfo/StringExpansion/Expansion.cs:54-248 | a % directive other than %t, %e, %; and %? appends its text and continues from the state it leaves |
| ExpansionProperties.ConditionalStep | Palmtree.IO.Console.TerminalInfo/StringExpansion/Expansion.cs:215-217 | %? appends the conditional's text and continues from the state it leaves |
| ExpansionProperties.StopStep | Palmtree.IO.Console.TerminalInfo/StringExpansion/Expansion.cs:219-233 | %t, %e and %; end the current level at once, reporting which was found |
| ExpansionProperties.VerbatimText | Palmtree.IO.Console.TerminalInfo/StringExpansion/Expansion.cs:41-49 | a string without % expands to itself |
| ExpansionProperties.EscapedPercent | Palmtree.IO.Console.TerminalInfo/StringExpansion/Expansion.cs:57-59 | %% between plain texts emits a single % |
| ExpansionProperties.StrayTerminator | Palmtree.IO.Console.TerminalInfo/StringExpansion/Expansion.cs:13-15 | a %t, %e or %; outside any %? makes the whole expansion fail |
| ExpansionProperties.OperandOrder | Palmtree.IO.Console.TerminalInfo/StringExpansion/Expansion.cs:264-269 | a binary operator applies to the two topmost values in push order: pushing x then y and applying %- leaves x - y |
| ExpansionProperties.IncrementArguments | Palmtree.IO.Console.TerminalInfo/StringExpansion/Expansion.cs:235-244 | %i adds one to parameters 1 and 2 when both are present |
| ExpansionProperties.IncrementNeedsArgument | Palmtree.IO.Console.TerminalInfo/StringExpansion/Expansion.cs:235-238 | %i without a first parameter is a bad argument |
| ExpansionProperties.PushFirstArgument | Palmtree.IO.Console.TerminalInfo/StringExpansion/Expansion.cs:62-70 | %p1 pushes the first argument and consumes the index character |
| ExpansionProperties.PrintTop | Palmtree.IO.Console.TerminalInfo/StringExpansion/Expansion.cs:128-151 | %d pops a non-negative number and emits its decimal digits |
| ExpansionProperties.PrintArgument | Palmtree.IO.Console.TerminalInfo/StringExpansion/Expansion.cs:9-31 | "%p1%d" with one non-negative argument expands to its decimal digits |
| ExpansionProperties.OneArgument | Palmtree.IO.Console.TerminalInfo/StringExpansion/ExpansionState.cs:27-38 | an Int32 argument becomes a number parameter |
| ExpansionProperties.IfThenElse | Palmtree.IO.Console.TerminalInfo/StringExpansion/Expansion.cs:309-379 | "%?%p1%tA%eB%;" expands to A for a non-zero argument and to B for zero |
| ExpansionProperties.IfThenElseExpands | Palmtree.IO.Console.TerminalInfo/StringExpansion/Expansion.cs:34-250 | the top level of "%?%p1%tA%eB%;" reads to the end and emits the chosen branch |
| ExpansionProperties.IfThenElseConditional | Palmtree.IO.Console.TerminalInfo/StringExpansion/Expansion.cs:309-379 | the conditional of "%?%p1%tA%eB%;" emits A when the argument is non-zero and B otherwise, and reads up to the %; |
| ExpansionProperties.IfThenElseCondition | Palmtree.IO.Console.TerminalInfo/StringExpansion/Expansion.cs:309-325 | the condition part stops at %t with the argument pushed and nothing emitted |
| ExpansionProperties.IfThenElseBranches | Palmtree.IO.Console.TerminalInfo/StringExpansion/Expansion.cs:336-370 | the then-branch emits A and stops at %e; the else-branch emits B and stops at %; |
| ExpansionProperties.DigitRunOver | Palmtree.IO.Console.TerminalInfo/StringExpansion/Expansion.cs:281-288 | the digit loop over a run of digits stops at the first non-digit, having appended the whole run |
| ExpansionProperties.WidthDigits | Palmtree.IO.Console.TerminalInfo/StringExpansion/Expansion.cs:281-288 | the width digits before a '.' are collected exactly |
| ExpansionProperties.PrecisionDigits | Palmtree.IO.Console.TerminalInfo/StringExpansion/Expansion.cs:290-300 | after the '.' the precision digits are collected exactly, up to the type character |
| ExpansionProperties.FormatSpecWithPrecision | Palmtree.IO.Console.TerminalInfo/StringExpansion/Expansion.cs:278-307 | a spec written width '.' precision type is read back as exactly that text, with the position just after it |
| ExpansionProperties.ParsePrecisionSpec | Palmtree.IO.Console.TerminalInfo/StringExpansion/ExpansionNumberParameter.cs:34-48 | a spec with a '.' splits back into its width, precision and type |
| ExpansionProperties.FormatSpecAsWrittenDropsDot | Palmtree.IO.Console.TerminalInfo/StringExpansion/Expansion.cs:290-300 | as written, "%5.3d" yields the spec "53d" (width 53, no precision), where keeping the '.' yields "5.3d" |
| ExpansionProperties.DottedAndUndottedSpecs | Palmtree.IO.Console.TerminalInfo/StringExpansion/ExpansionNumberParameter.cs:34-48 | "5.3d" means width 5 and precision 3, while "53d" means width 53 and no precision |
| ExpansionProperties.PushArgument | Palmtree.IO.Console.TerminalInfo/StringExpansion/Expansion.cs:62-70 | %p and an index '1'..'9' pushes that argument; an index with no argument given is a bad argument; any other index character, or the end of the string, is an invalid operation |
| ExpansionProperties.StoreVariable | Palmtree.IO.Console.TerminalInfo/StringExpansion/Expansion.cs:73-83 | %P and a lower-case name pops into the dynamic variables, an upper-case name into the static ones, each with the position past the name; another name, or an empty stack, is an invalid operation |
| ExpansionProperties.FetchVariable | Palmtree.IO.Console.TerminalInfo/StringExpansion/Expansion.cs:86-96 | %g and a letter pushes that variable's value; a variable never set is a syntax error; a name that is no letter is an invalid operation |
| ExpansionProperties.CharConstant | Palmtree.IO.Console.TerminalInfo/StringExpansion/Expansion.cs:99-106 | %'c' pushes the code of c and reads past the closing quote; a missing closing quote is an invalid operation |
| ExpansionProperties.BracedOver | Palmtree.IO.Console.TerminalInfo/StringExpansion/Expansion.cs:109-117 | the %{{ loop over digits w and a closing brace collects exactly w and stops just past the brace |
| ExpansionProperties.BracedNumber | Palmtree.IO.Console.TerminalInfo/StringExpansion/Expansion.cs:107-122 | %{{w}} with digits w pushes the number w spells when it fits an Int32; no digits, or a value past Int32.MaxValue, is an invalid operation |
| ExpansionProperties.PlainThenStop | Palmtree.IO.Console.TerminalInfo/StringExpansion/Expansion.cs:41-49 | plain text followed by %e or %; ends the level with that text as its output and the position just past the code (the stop itself at lines 224-233) |
| ExpansionProperties.IfStep | Palmtree.IO.Console.TerminalInfo/StringExpansion/Expansion.cs:318-370 | one condition and its branch: only the first condition's output is kept; the condition's value is popped; the branch's output is chosen when the value holds and no branch was chosen before; %; ends the conditional, %e goes on, anything else is an invalid operation |
| ExpansionProperties.IfEnd | Palmtree.IO.Console.TerminalInfo/StringExpansion/Expansion.cs:327-338 | a final else ending at %; is chosen only when no condition held, and ends the conditional |
| ExpansionProperties.FirstBranch | Palmtree.IO.Console.TerminalInfo/StringExpansion/Expansion.cs:318-370 | the first condition's output is kept and a plain then-branch ending at %e is chosen exactly when the condition's value is non-zero |
| ExpansionProperties.LastBranch | Palmtree.IO.Console.TerminalInfo/StringExpansion/Expansion.cs:341-364 | a later condition's plain branch ending at %; is chosen only when its value is non-zero and no earlier branch was; the conditional ends after the %; |
| ExpansionProperties.FinalElse | Palmtree.IO.Console.TerminalInfo/StringExpansion/Expansion.cs:327-338 | a plain else text before %; is emitted exactly when no condition held, and the conditional ends just past the %; |
| ExpansionProperties.ThenElseConditional | Palmtree.IO.Console.TerminalInfo/StringExpansion/Expansion.cs:309-379 | for %?c%ta%eb%; the conditional emits the condition's output, then a when its value is non-zero and b when it is zero, and pops the value |
| ExpansionProperties.IfThenElseOf | Palmtree.IO.Console.TerminalInfo/StringExpansion/Expansion.cs:215-217 | %?c%ta%eb%; with plain a and b, at any point of a string and for any condition that leaves a value on the stack, emits the condition's output and then a or b by that value, and the expansion continues after the %; with the value popped |
| ExpansionProperties.ElseIfConditional | Palmtree.IO.Console.TerminalInfo/StringExpansion/Expansion.cs:309-379 | for %?c1%ta%ec2%tb%; both conditions are expanded; the first condition's output is kept and the second's dropped; a is emitted when the first holds, b when only the second does, and nothing when neither does |
| ExpansionProperties.IfElseIfOf | Palmtree.IO.Console.TerminalInfo/StringExpansion/Expansion.cs:215-217 | %?c1%ta%ec2%tb%; with plain a and b, at any point of a string, emits the first condition's output and then a, b or nothing by the two values, and the expansion continues after the %; with both values popped |
| ExpansionParameters.ToParameter | Palmtree.IO.Console.TerminalInfo/StringExpansion/ExpansionState.cs:29-37 | an Int32 becomes that number, a Char its code, a Boolean a number whose truth value is the Boolean, a String a string parameter; any other type, and only that, is a bad argument |
| ExpansionParameters.FromBool | Palmtree.IO.Console.TerminalInfo/StringExpansion/ExpansionNumberParameter.cs:23-26 | the Boolean constructor stores 1 for true and 0 for false |
| ExpansionParameters.FromChar | Palmtree.IO.Console.TerminalInfo/StringExpansion/ExpansionNumberParameter.cs:18-21 | the Char constructor stores the character's code |
| ExpansionParameters.AsNumber | Palmtree.IO.Console.TerminalInfo/StringExpansion/ExpansionNumberParameter.cs:28 | succeeds exactly on a number parameter, giving its value; on a string it is a bad argument |
| ExpansionParameters.AsBool | Palmtree.IO.Console.TerminalInfo/StringExpansion/ExpansionNumberParameter.cs:29 | succeeds exactly on a number parameter, true exactly when the value is non-zero; on a string it is a bad argument |
| ExpansionParameters.AsString | Palmtree.IO.Console.TerminalInfo/StringExpansion/ExpansionStringParameter.cs:16-18 | succeeds exactly on a string parameter, giving its text; on a number it is a bad argument |
| ExpansionParameters.BoolRoundTrip | Palmtree.IO.Console.TerminalInfo/StringExpansion/ExpansionNumberParameter.cs:23-29 | a Boolean stored by the constructor reads back as the same Boolean |
| ExpansionParameters.ParseInt32 | Palmtree.IO.Console.TerminalInfo/StringExpansion/ExpansionNumberParameter.cs:34-48 | Int32.TryParse of a digit string succeeds exactly when the string is non-empty and its value fits in Int32, giving that non-negative value |
| ExpansionParameters.Digits | Palmtree.IO.Console.TerminalInfo/StringExpansion/ExpansionNumberParameter.cs:58-85 | the digit text of a magnitude is non-empty, has no leading zero unless it is "0", and in base 10 holds only decimal digits; DigitsRoundTrip reads it back as the value in base 8, 10 and 16 |
| ExpansionParameters.DecimalDigitsRoundTrip | Palmtree.IO.Console.TerminalInfo/StringExpansion/ExpansionNumberParameter.cs:61 | the decimal digits of n read back as n |
| ExpansionParameters.DigitsRoundTrip | Palmtree.IO.Console.TerminalInfo/StringExpansion/ExpansionNumberParameter.cs:58-85 | the octal, decimal and hexadecimal digit texts of a value (Convert.ToString(v, 8), ToString("D"), ToString("x"/"X")) read back in their base give the value |
| ExpansionParameters.ParseDigitsRoundTrip | Palmtree.IO.Console.TerminalInfo/StringExpansion/ExpansionNumberParameter.cs:61 | Int32.TryParse of the decimal digits of a non-negative Int32 gives the value back |
| ExpansionParameters.AsUInt32 | Palmtree.IO.Console.TerminalInfo/StringExpansion/ExpansionNumberParameter.cs:75 | unchecked((UInt32)v) keeps a non-negative value and adds 2^32 to a negative one |
| ExpansionParameters.PadTextSpec | Palmtree.IO.Console.TerminalInfo/StringExpansion/ExpansionNumberParameter.cs:106-107 | PadText left-pads with the padding character up to the length and returns a text already long enough unchanged: the result ends with the text, is as long as the larger of the two lengths, and holds only padding before the text |
| ExpansionParameters.PadShape | Palmtree.IO.Console.TerminalInfo/StringExpansion/ExpansionNumberParameter.cs:106-107 | a padded text is exactly the missing number of padding characters followed by the text |
| ExpansionParameters.Layout | Palmtree.IO.Console.TerminalInfo/StringExpansion/ExpansionNumberParameter.cs:97-104 | with a precision: spaces up to the width, the sign, zeros up to the precision, then the digits; with a width and a leading 0: the sign, zeros up to the width, then the digits; with a width alone: spaces up to the width, the sign, then the digits; with neither: the sign and the digits |
| ExpansionParameters.LayoutSpec | Palmtree.IO.Console.TerminalInfo/StringExpansion/ExpansionNumberParameter.cs:97-104 | the laid-out text is at least the width and at least the sign and digits long, and ends with the digits |
| ExpansionParameters.ReadNumber | Palmtree.IO.Console.TerminalInfo/StringExpansion/ExpansionNumberParameter.cs:34-48 | an empty width or precision means -1; a non-empty one is its decimal value when that fits Int32 and a bad argument otherwise |
| ExpansionParameters.FormatNumber | Palmtree.IO.Console.TerminalInfo/StringExpansion/ExpansionNumberParameter.cs:32-88 | a type other than c d o u x X is an error for numbers; %d overflows exactly on Int32.MinValue when width and precision are readable |
| ExpansionParameters.PlainDecimal | Palmtree.IO.Console.TerminalInfo/StringExpansion/ExpansionNumberParameter.cs:58-64 | %d without width or precision writes a non-negative value as its plain decimal digits |
| ExpansionParameters.LayoutKeepsSign | Palmtree.IO.Console.TerminalInfo/StringExpansion/ExpansionNumberParameter.cs:97-104 | every layout keeps the minus sign it is given |
| ExpansionParameters.DecimalSign | Palmtree.IO.Console.TerminalInfo/StringExpansion/ExpansionNumberParameter.cs:58-64 | a %d that succeeds was not given Int32.MinValue and is spaces, then a minus sign exactly for a negative value, then zeros, then the digits of the magnitude |
| ExpansionParameters.FormatText | Palmtree.IO.Console.TerminalInfo/StringExpansion/ExpansionStringParameter.cs:20-47 | strings accept only type s; a width or precision above Int32.MaxValue is a bad argument; otherwise a precision cuts the text to that many characters and a width left-pads it with '0' (when written with a leading 0) or spaces |
| ExpansionParameters.ParseSpec | Palmtree.IO.Console.TerminalInfo/StringExpansion/ExpansionParameter.cs:12 | a spec matching [width][.precision]type splits into digit-only width and precision and a type from c d o s u x X that put back together give the spec |
| ExpansionParameters.Format | Palmtree.IO.Console.TerminalInfo/StringExpansion/ExpansionParameter.cs:19-30 | a spec that does not match the pattern is a syntax error |
| StringExtensions.HexDigits | Palmtree.Core/StringExtensions.cs:117 | the \u escape writes exactly the requested number of hexadecimal digits |
| StringExtensions.Escape | Palmtree.Core/StringExtensions.cs:115-128 | a character is copied as it stands exactly when it is not a control character, DEL, a double quote, a backslash or (for JSON) a slash; otherwise it becomes an escape of 2 to 6 characters starting with a backslash |
| StringExtensions.Encode | Palmtree.Core/StringExtensions.cs:109-161 | encoding never shortens the string |
| StringExtensions.JsonEncode | Palmtree.Core/StringExtensions.cs:109-131 | JSON encoding never shortens the string |
| StringExtensions.CSharpEncode | Palmtree.Core/StringExtensions.cs:138-161 | C# literal encoding never shortens the string |
| StringExtensions.HexRoundTrip | Palmtree.Core/StringExtensions.cs:117 | the n hexadecimal digits of a value below 16^n read back as the value |
| StringExtensions.UnescapeEscape | Palmtree.Core/StringExtensions.cs:115-128 | reading an escaped character back gives the character and then continues with the rest of the text |
| StringExtensions.EncodeRoundTrip | Palmtree.Core/StringExtensions.cs:109-161 | decoding a JSON or C# encoded string, as a JSON or C# reader would, gives the original string back |
| StringExtensions.EscapeIsPrintable | Palmtree.Core/StringExtensions.cs:115-128 | an escaped character holds no control character or DEL, and a double quote in it is the escaped one after the backslash |
| StringExtensions.EncodedIsPrintable | Palmtree.Core/StringExtensions.cs:109-161 | an encoded string holds no control character or DEL, and every double quote in it is preceded by a backslash, so it can sit inside a quoted literal |
| StringExtensions.HexDigitsAreDigits | Palmtree.Core/StringExtensions.cs:117 | the digits of the \u escape are lower-case hexadecimal digits |
| StringExtensions.NarrowChar | Palmtree.Core/StringExtensions.cs:264-304 | characters below U+2010 are kept; a changed character becomes printable ASCII; the full-width forms U+FF01-U+FF5E other than the four the table leaves out map to their ASCII counterparts |
| StringExtensions.Narrowed | Palmtree.Core/StringExtensions.cs:255-307 | narrowing keeps the length of the string |
| StringExtensions.ToNarrow | Palmtree.Core/StringExtensions.cs:255-307 | the StringBuilder loop produces the narrowed string, one character per character |
| StringExtensions.NarrowedIdempotent | Palmtree.Core/StringExtensions.cs:255-307 | narrowing an already narrowed string changes nothing |
| StringExtensions.MarkRun | Palmtree.Core/StringExtensions.cs:522-524 | the run of ! and ? at the start of a text is maximal |
| StringExtensions.WidenMarks | Palmtree.Core/StringExtensions.cs:321-334 | only ! and ? inside a run containing a ? are widened; every ? becomes U+FF1F; text without ? is unchanged |
| StringExtensions.FileNameChar | Palmtree.Core/StringExtensions.cs:335-348 | the per-character replacement leaves no character forbidden in Windows file names and keeps every allowed character |
| StringExtensions.Trim | Palmtree.Core/StringExtensions.cs:351 | the trimmed text has no white space at either end, uses only characters of the text, and leaves a text with none unchanged |
| StringExtensions.DropTrailingDot | Palmtree.Core/StringExtensions.cs:349-350 | removing a final dot introduces no character |
| StringExtensions.WindowsFileNameEncoding | Palmtree.Core/StringExtensions.cs:314-352 | the encoded name holds no character forbidden in Windows file names; every character of it is one of the per-character replacements of the mark-widened name; it starts and ends with no white space; and when the replaced name needs neither the trailing-dot removal nor the trim, it is exactly that replaced name |
| StringExtensions.ReplaceForbidden | Palmtree.Core/StringExtensions.cs:335-348 | the replacement maps the name one character for one, each by the per-character file-name form, so it has the same length and no forbidden character |
| StringExtensions.AcceptableFileNameUnchanged | Palmtree.Core/StringExtensions.cs:314-352 | a non-empty name with no forbidden character, no final dot and no white space at either end is left unchanged |
| StringExtensions.TrailingDotBeforeSpaceSurvives | Palmtree.Core/StringExtensions.cs:349-351 | "a. " encodes to "a.": the dot is checked before trimming, so a dot followed by white space is kept at the end |
| StringExtensions.FirstMismatch | Palmtree.Core/StringExtensions.cs:366-373 | the index found is the longest prefix on which the characters agree (case-insensitively when asked) |
| StringExtensions.LastMismatch | Palmtree.Core/StringExtensions.cs:391-398 | the index found is the longest suffix on which the characters agree (case-insensitively when asked) |
| StringExtensions.GetLeadingCommonPart | Palmtree.Core/StringExtensions.cs:354-377 | a null first string gives the second, a null second gives the first; otherwise the result is no longer than the shorter string |
| StringExtensions.GetTrailingCommonPart | Palmtree.Core/StringExtensions.cs:379-402 | a null first string gives the second, a null second gives the first; otherwise the result is no longer than the shorter string |
| StringExtensions.LeadingCommonPartIsLongestCommonPrefix | Palmtree.Core/StringExtensions.cs:354-377 | case-sensitively, the result is a prefix of both strings and at least as long as any common prefix |
| StringExtensions.TrailingCommonPartIsLongestCommonSuffix | Palmtree.Core/StringExtensions.cs:379-402 | case-sensitively, the result is a suffix of both strings and at least as long as any common suffix |
| StringExtensions.ConcatLength | Palmtree.Core/StringExtensions.cs:37-45 | chunks of equal length concatenate to that length times their number |
| StringExtensions.ConcatAppend | Palmtree.Core/StringExtensions.cs:37-45 | appending a chunk appends its text to the concatenation |
| StringExtensions.ChunksCoverPrefix | Palmtree.Core/StringExtensions.cs:37-45 | full chunks plus a remainder shorter than a chunk cover the source, and the chunks are its prefix |
| StringExtensions.ChunkAsString | Palmtree.Core/StringExtensions.cs:30-46 | a non-positive count is ArgumentOutOfRange; otherwise every chunk has exactly count characters, the chunks concatenate to the source's prefix, and fewer than count characters are left over and are not yielded |
| TerminalColors.Color16.ToRgb | Palmtree.IO.Console.TerminalInfo/Color16.cs:324-327 | the three components are the red, green and blue bytes of the colour's 24-bit code in the table |
| TerminalColors.Color8.New | Palmtree.IO.Console.TerminalInfo/Color8.cs:14-20 | a colour code is accepted exactly in 0..7 and stored as given; any other code is ArgumentOutOfRange |
| TerminalColors.Color8.ToRgb | Palmtree.IO.Console.TerminalInfo/Color8.cs:72-75 | bit 2 of the colour number gives red 0x80, bit 1 green 0x80, bit 0 blue 0x80, and a clear bit gives 0 |
| TerminalColors.Color8.FromRgb | Palmtree.IO.Console.TerminalInfo/Color8.cs:150-151 | the colour number is made of the top bits of red, green and blue, in that order |
| TerminalColors.Color8.ToColor16 | Palmtree.IO.Console.TerminalInfo/Color8.cs:213-225 | black stays black and every other colour becomes one of the bright colours 9-15 |
| TerminalColors.Color8RgbRoundTrip | Palmtree.IO.Console.TerminalInfo/Color8.cs:72-75 | converting a colour to RGB and back gives the same colour |
| TerminalColors.Color8FromRgbRounds | Palmtree.IO.Console.TerminalInfo/Color8.cs:150-151 | FromRgb then ToRgb rounds every component down to 0 or 0x80 by its top bit |
| TerminalColors.Color16KeepsHue | Palmtree.IO.Console.TerminalInfo/Color8.cs:213-225 | the bright colour has a non-zero component exactly where the 8-colour one does, and every component of it is 0 or 0xFF |
| TerminalColors.GetBoundary | Palmtree.IO.Console.TerminalInfo/Color256.cs:290-296 | the boundary is the midpoint of the two values, rounded up |
| TerminalColors.CubeBoundaries | Palmtree.IO.Console.TerminalInfo/Color256.cs:18-28 | the cube boundaries start at 0, end at 256 and increase strictly, one more than the cube levels |
| TerminalColors.Color256.New | Palmtree.IO.Console.TerminalInfo/Color256.cs:30-36 | a colour code is accepted exactly in 0..255 and stored as given; any other code is ArgumentOutOfRange |
| TerminalColors.Color256.ToRgb | Palmtree.IO.Console.TerminalInfo/Color256.cs:133-152 | colours 232-255 are grays: the three components are equal, and code 232 + i has the level 8 + 10i (0x08 up to 0xEE); the cube colours are stated by CubeColorComponents |
| TerminalColors.CubeColorNumber | Palmtree.IO.Console.TerminalInfo/Color256.cs:330 | a cube colour number lies in 16..231 |
| TerminalColors.CubeColorComponents | Palmtree.IO.Console.TerminalInfo/Color256.cs:139-146 | the cube colour for three level indexes has exactly those three cube levels as its components |
| TerminalColors.CubeNumberRoundTrip | Palmtree.IO.Console.TerminalInfo/Color256.cs:141-144 | splitting a cube colour number into its three indexes and putting them back gives the number |
| TerminalColors.FindCubeIndex | Palmtree.IO.Console.TerminalInfo/Color256.cs:300-306 | the scanning loop finds the cube level whose boundaries enclose the component |
| TerminalColors.GetRgbCubeAsWritten | Palmtree.IO.Console.TerminalInfo/Color256.cs:298-335 | as written: the colour is a cube colour nearest to the given RGB, but the reported distance adds the blue difference twice instead of squaring it |
| TerminalColors.GetRgbCube | Palmtree.IO.Console.TerminalInfo/Color256.cs:298-335 | the colour is a cube colour nearest (in squared Euclidean distance) to the given RGB, and the distance reported is its squared distance |
| TerminalColors.NearestCubeOfIndices | Palmtree.IO.Console.TerminalInfo/Color256.cs:330 | the colour number built from the found indexes gives those indexes back |
| TerminalColors.CubeIndicesOfNumber | Palmtree.IO.Console.TerminalInfo/Color256.cs:141-144 | a cube colour number gives back the indexes it was built from |
| TerminalColors.CubeIndexIsNearest | Palmtree.IO.Console.TerminalInfo/Color256.cs:18-28 | the level whose boundaries enclose a component is the level nearest to it |
| TerminalColors.CubeDistanceAsWrittenCanBeNegative | Palmtree.IO.Console.TerminalInfo/Color256.cs:331-334 | RGB (0, 0, 216) lands in cube 0, 0, 4 (level 0xD7); as written the distance is -2, where the squared distance is 1 |
| TerminalColors.CubeDistanceIsEuclidean | Palmtree.IO.Console.TerminalInfo/Color256.cs:331-334 | the corrected distance is the squared Euclidean distance between the RGB and the cube colour's components |
| TerminalColors.GrayScalesAsWritten | Palmtree.IO.Console.TerminalInfo/Color256.cs:121 | as written the gray-scale array has 24 colours |
| TerminalColors.GrayScales | Palmtree.IO.Console.TerminalInfo/Color256.cs:118-121 | the gray-scale array holds colours 232 to 255 in order |
| TerminalColors.GrayScalesAsWrittenIsFlat | Palmtree.IO.Console.TerminalInfo/Color256.cs:121 | as written every entry is colour 232: the last gray is as dark (0x08) as the first |
| TerminalColors.GrayScalesBrighten | Palmtree.IO.Console.TerminalInfo/Color256.cs:118-121 | a gray later in the array is strictly brighter than an earlier one, as the documentation comment promises |
| TerminalColors.GraysIncrease | Palmtree.IO.Console.TerminalInfo/Color256.cs:15 | increasing adjacent gray levels make the whole table increasing |
| TerminalColors.NearestLevels | Palmtree.IO.Console.TerminalInfo/Color256.cs:300-330 | the three scans pick for each channel a level whose cube colour is a nearest cube colour to the given RGB, and whose code has those levels as its base-6 digits |
| TerminalColors.DistanceToLevels | Palmtree.IO.Console.TerminalInfo/Color256.cs:331-334 | with every channel squared, the distance of the chosen levels is the squared Euclidean distance |
| TerminalColors.DistanceToLevelsAsWritten | Palmtree.IO.Console.TerminalInfo/Color256.cs:331-334 | as written, the distance squares the red and green differences but adds the blue difference twice |
| CrcCalculation.CrcMethod.Calculate | Palmtree.Core/CrcCalculationMethod.cs:222-237 | a refused range gives the range check's exception; otherwise the result is the CRC of exactly the bytes of the range |
| CrcCalculation.CrcMethod.CalculateAll | Palmtree.Core/CrcCalculationMethod.cs:182-188 | the CRC of the whole array |
| CrcCalculation.CrcMethod.CalculateFrom | Palmtree.Core/CrcCalculationMethod.cs:191-199 | succeeds exactly for an offset from 0 to the length, giving the CRC of the bytes from the offset on; any other offset is ArgumentOutOfRange |
| CrcCalculation.CrcMethod.CalculateFromUnsigned | Palmtree.Core/CrcCalculationMethod.cs:202-210 | succeeds exactly for an offset up to the length, giving the CRC of the bytes from the offset on; a larger offset is ArgumentOutOfRange |
| CrcCalculation.CrcMethod.CalculateUnsigned | Palmtree.Core/CrcCalculationMethod.cs:239-250 | succeeds exactly when offset + count fits the array, giving the CRC of that range; an offset + count beyond UInt32 overflows, and otherwise a range past the end is an ArgumentException |
| CrcCalculation.CrcMethod.CalculateSpan | Palmtree.Core/CrcCalculationMethod.cs:256-263 | the CRC of all the bytes of the span |
| CrcCalculation.FoldAppend | Palmtree.Core/CrcCalculationMethod.cs:28-76 | updating the state with a + b is updating with a, then with b: a CRC can be computed piece by piece |
| CrcCalculation.DigestOfPieces | Palmtree.Core/CrcCalculationMethod.cs:84-85 | the CRC of a + b is the finalised state after putting a and then b into a fresh session |
| CrcCalculation.CrcCalculationSession.constructor | Palmtree.Core/CrcCalculationMethod.cs:21-26 | a new session has put nothing, with the initial state and a zero count |
| CrcCalculation.CrcCalculationSession.PutByte | Palmtree.Core/CrcCalculationMethod.cs:28-35 | the byte is put into the state; the count grows by one, and an overflow of the UInt64 count is an OverflowException after the state has changed |
| CrcCalculation.CrcCalculationSession.Put | Palmtree.Core/CrcCalculationMethod.cs:37-54 | a refused range changes nothing; otherwise every byte of the range is put and the count grows by count, overflow checked after the bytes are put |
| CrcCalculation.CrcCalculationSession.PutSpan | Palmtree.Core/CrcCalculationMethod.cs:56-64 | every byte of the span is put and the count grows by its length, overflow checked after the bytes are put |
| CrcCalculation.CrcCalculationSession.PutSequence | Palmtree.Core/CrcCalculationMethod.cs:66-76 | bytes are put one by one with a checked count; an overflow stops at the byte that overflows, which has already been put |
| CrcCalculation.CrcCalculationSession.Reset | Palmtree.Core/CrcCalculationMethod.cs:78-82 | the session is back to the initial state, with nothing put and a zero count |
| CrcCalculation.CrcCalculationSession.GetResultValue | Palmtree.Core/CrcCalculationMethod.cs:84-85 | the result is the CRC of everything put since creation or the last reset, with the count of bytes put |

## Left out

- Streams, files, asynchronous variants, disposal and locking are I/O or concurrency. This covers the `ByteQueue` lock and `Dispose`, `ZipEntryDataDescriptor.ParseAsync`, and the CRC `CalculateAsync` variants.
- Characters are Unicode code points (`char`) rather than UTF-16 code units. There is no culture-aware case folding: `ToUpperInvariant` is the parameter `upper`.
- The generic element types of the array algorithms and `GenericExtensions` are instantiated as `int`. `IComparable<T>.CompareTo`, `IEquatable<T>.Equals` and the comparer and key-selector overloads become function parameters.
- Only the Int32 element type is modelled for the primitive-type dispatch of `SequenceEqual`/`SequenceCompare`.
- The unmanaged pointer fast paths (`QuickSortUnmanaged`, `SequenceEqualUnmanaged`, `SequenceCompareUnmanaged`) are modelled on sequences. Pointer arithmetic and pinning are not modelled.
- The `UInt32` and `Range` overloads of `QuickSort`, `ReverseArray`, `SequenceEqual` and `SequenceCompare` are not modelled. They convert to the same offset/count checks, which `Primitives.CheckRange` states.
- `GetBytesLE`/`GetBytesBE`, and the floating-point and decimal `SetValueLE`/`SetValueBE`, are not modelled. They are IEEE 754 and decimal encodings; the integer overloads are modelled.
- Checks compiled only in DEBUG builds are not modelled. The release constants are used (for example the `ByteQueue` minimum buffer size of 1024).
- RandomAccessQueues.RandomAccessQueue.constructor: the `ArgumentNullException` for a null `dataSource` (RandomAccessQueue.cs lines 26-27) is not modelled, because a Dafny sequence cannot be null.
- StringExtensions.JsonEncode: the `ArgumentNullException` for a null `s` (StringExtensions.cs lines 111-112) is not modelled, because a Dafny `string` cannot be null: the non-null parameter type stands for the guard.
- StringExtensions.CSharpEncode: the `ArgumentNullException` for a null `s` (StringExtensions.cs lines 140-141) is not modelled, because a Dafny `string` cannot be null: the non-null parameter type stands for the guard.
- StringExtensions.ToNarrow: the `ArgumentNullException` for a null `s` (StringExtensions.cs lines 257-258) is not modelled, because a Dafny `string` cannot be null: the non-null parameter type stands for the guard.
- StringExtensions.WindowsFileNameEncoding: the `ArgumentNullException` for a null `s` (StringExtensions.cs lines 316-317) is not modelled, because a Dafny `string` cannot be null: the non-null parameter type stands for the guard.
- StringExtensions.ChunkAsString: the `ArgumentNullException` for a null `source` (StringExtensions.cs lines 33-34) is not modelled, because a Dafny sequence cannot be null: the non-null parameter type stands for the guard.
- CrcCalculation.CrcMethod.CalculateAll: the `ArgumentNullException` for a null `array` (CrcCalculationMethod.cs lines 184-185) is not modelled, because a Dafny sequence cannot be null: the non-null parameter type stands for the guard.
- CrcCalculation.CrcMethod.CalculateFrom: the `ArgumentNullException` for a null `array` (CrcCalculationMethod.cs lines 193-194) is not modelled, because a Dafny sequence cannot be null: the non-null parameter type stands for the guard.
- CrcCalculation.CrcMethod.CalculateFromUnsigned: the `ArgumentNullException` for a null `array` (CrcCalculationMethod.cs lines 204-205) is not modelled, because a Dafny sequence cannot be null: the non-null parameter type stands for the guard.
- CrcCalculation.CrcMethod.Calculate: the `ArgumentNullException` for a null `array` (CrcCalculationMethod.cs lines 224-225) is not modelled, because a Dafny sequence cannot be null: the non-null parameter type stands for the guard.
- CrcCalculation.CrcMethod.CalculateUnsigned: the `ArgumentNullException` for a null `array` (CrcCalculationMethod.cs lines 241-242) is not modelled, because a Dafny sequence cannot be null: the non-null parameter type stands for the guard.
- CrcCalculation.CrcCalculationSession.Put: the `ArgumentNullException` for a null `data` (CrcCalculationMethod.cs lines 39-40) is not modelled, because a Dafny sequence cannot be null: the non-null parameter type stands for the guard.
- Expansions.ExpandArguments: a null element of `args` is not modelled, because `ArgumentValue` has no null case. In the source, `arg.GetType()` on it (ExpansionState.cs line 35) raises `NullReferenceException`, which Expansion.cs lines 26-29 turn into `InvalidOperationException` rather than the `ArgumentException` of an unsupported argument type.
- ExpansionMachine.ExpandArguments: a null element of `args` is not modelled, because `ArgumentValue` has no null case. In the source, `arg.GetType()` on it (ExpansionState.cs line 35) raises `NullReferenceException`, which Expansion.cs lines 26-29 turn into `InvalidOperationException` rather than the `ArgumentException` of an unsupported argument type.
- `RandomAccessQueue` keys are unbounded integers. Its re-keying happens when a key would pass `UInt32` range, and is modelled as an explicit operation.
- ZipDataDescriptors.Parse: the model starts with the reader already at the data descriptor, and `stream` holds only the bytes that can be read there without leaving the volume. The `Seek` to the descriptor that fails with `ArgumentException` (ZipEntryDataDescriptor.cs lines 48-55) and a failing `CheckIfCanAtomicRead(MinimumHeaderSize)` (lines 66-67) are not modelled as steps of their own. Both end in the same `BadZipFileFormat` error that the model gives for a stream too short for every permitted header. `LockVolumeDisk`/`UnlockVolumeDisk` (lines 75 and 125) are locking and are not modelled.
- The `TextReader` under `BufferedTextReader` is a string of pending characters, so the model does not cover input that may still arrive later (an interactive stream).
- CsvRoundTrip.SerializeRoundTrip: the round trip is proved only for rows that each have a column and end in a non-empty column. For other rows it does not hold: `CsvRoundTrip.EmptyLastColumnIsLost` shows ["a", ""] reading back as ["a"].
- `CsvSerializer.DeserializeAsync` is not modelled, and neither are the overloads taking a `TextWriter`/`TextReader`. The model works on strings.
- The `CsvSerializerOption` setters (CsvSerializerOption.cs lines 32 and 52) test the field's old value, not the new one, so they accept any delimiter while the current one is valid. The model does not carry that setter check: `ValidOption` is the rule the option documents, and the round trip assumes it.
- Local-time and time-zone conversion around the DOS date/time functions is not modelled. A `DateTime` here is its calendar fields.
- The ZIP archive reader and writer, ZIP64 end-of-central-directory parsing and extra fields are stream-driven. Only the data-descriptor recogniser and the volume mapping are modelled.
- The shared-memory backing of `VolumeDiskCollection` and `EnumerateVolumeDisks` are not modelled; the in-memory list is. The `UInt32` cast of the disk count is not modelled: disk numbers are naturals.
- `ShiftJisChar.ToPlaneRowCell` is not modelled, because it cannot invert `FromPlaneRowCell`. It finds the cell correctly from the trail byte (ShiftJisChar.cs line 163), but it uses the lead byte itself as a row index into the plane 1 and plane 2 row-to-lead-byte tables (lines 165 and 168) instead of looking it up in the lead-byte-to-plane-and-row table, and its plane 2 branch reports plane 1 (line 170). The lead-byte-to-plane-and-row table, which the static constructor fills but nothing reads, and the trail-byte-to-cell table are not modelled either. `PlaneRowCellNumber`, `ToString`, `EnumerateAllCharacters` and the `Encoding` field are not part of this model.
- `ChunkAsString` is modelled on a string, not on a lazily enumerated `IEnumerable<char>`. Deferred execution is not captured.
- The `CommandLineArgumentEncode` helpers of `StringExtensions` are not modelled. `EastAsianWidth` depends on a Unicode table that is not part of this model.
- `Color256.FromRgb`, `EnumerateGrayScaleColors` and `ToString` are not modelled. Nor are `Color8.GetValues`/`ToString`, nor `Color16` beyond its RGB table. `Color88` and `TrueColor` are not part of this model.
- `CrcCalculationMethod.Calculate` over an `IEnumerable<byte>` with a progress reporter is modelled on sequences. The progress counter is time-based and is not modelled.
- `GetSequenceWithCrc` and the `Range` overloads of `Calculate` are not modelled.
- `ExpansionState.ReaderStartsWith` is not modelled. The interpreter never calls it on the expansion path.
- A C# `Exception` thrown without a more specific type is modelled as `InvalidOperation`.
- Terminfo variables are maps from the variable letter to a parameter. Only ASCII digits count as digits in format specifications.
- ExpansionParameters.FormatNumber: its contract fixes the failures (an unknown conversion, and `Int32.MinValue` under `%d`). It states the text only for `%d` (`PlainDecimal`, `DecimalSign`), not for `%c`, `%o`, `%u`, `%x` and `%X`; for those the digit text is stated by `Digits` and `DigitsRoundTrip` and the padding by `Layout`, but no lemma puts them together.
- ExpansionParameters.Format: its contract states only that a malformed format specification is a syntax error. The formatted text is stated by `FormatNumber` and `FormatText`.
- ExpansionMachine.ExpandFrom: its contract states only that the machine moves forward within the same source. The output is stated by lemmas in `ExpansionProperties`: `TextStep`, `DirectiveStep`, `ConditionalStep` and `StopStep` give one step each, `PlainText` covers a run of text without '%', and `EscapedPercent`, `StrayTerminator`, `IfThenElseOf` and `IfElseIfOf` cover whole constructs. No lemma states the output of an arbitrary source in one formula.
- ExpansionMachine.Directive: its contract states only that a successful directive moves the machine forward. The effect of each directive is stated by separate lemmas. `FormatDirective`, `BinaryDirective` and `UnaryDirective` cover the format, binary and unary directives. `PushArgument` covers `%p`, `StoreVariable` covers `%P`, `FetchVariable` covers `%g`, `CharConstant` covers `%'c'` and `BracedNumber` covers `%{digits}`. `IncrementArguments` and `IncrementNeedsArgument` cover `%i` with two arguments and with none.
- ExpansionMachine.IfFrom: its contract states only that the machine moves forward. The choice of branch is proved by `IfThenElseOf`, for `%? c %t a %e b %;`, and by `IfElseIfOf`, for `%? c1 %t a %e c2 %t b %;`. Both hold for any condition, but only when the branches are text without '%'. Longer else-if chains and branches that hold directives are not stated as one lemma.

## Findings

| source | as written | input that shows it | evidently intended | confidence | as-written member | corrected member |
|---|---|---|---|---|---|---|
| Palmtree.Core/ArrayExtensions.SequenceCompare.cs:730-738 | the primitive-type path (used for `int[]`) compares only the first min(length1, length2) elements and returns 0 when they agree | `[1]` against `[1, 2]` gives 0 | a shorter array that is a prefix of the longer one compares below it, as on the generic path | not executed | SequenceCompare.UnmanagedIgnoresLength | SequenceCompare.SequenceCompareArrays |
| Palmtree.Core/NumericExtensions.cs:981-983 | for a negative divisor and a positive remainder the correction adds one to the quotient instead of subtracting one, and subtracts the divisor from the remainder instead of adding it | `7.DivMod(-2)` gives (-2, 3): 7 = (-2) * (-2) + 3 holds, but the remainder 3 is positive and exceeds the divisor's magnitude, where a floored remainder lies in (-2, 0] | the floored pair (-4, -1) | not executed | CheckedArithmetic.DivModAsWrittenMisplacesRemainder | CheckedArithmetic.DivModFloored |
| Palmtree.Core/NumericExtensions.cs:1331-1365 | `Modulo` applies the same correction as `DivMod` | `7.Modulo(-2)` gives 3 | the floored remainder -1 | not executed | CheckedArithmetic.ModuloAsWrittenMisplacesRemainder | CheckedArithmetic.ModuloIsDivModRemainder |
| Palmtree.Core/Collections/RandomAccessQueue.cs:120-129 | `Normalize` removes and adds keys inside a `foreach` over the same `SortedDictionary` | any non-empty queue whose keys pass `UInt32` range: the enumerator raises InvalidOperationException | the entries re-keyed 0 .. n - 1 in order | not executed | RandomAccessQueues.RebaseAsWritten | RandomAccessQueues.Rebase |
| Palmtree.IO/BuffetredTextReader.cs:181-182 | `FillCache` stops at the end of the underlying reader without setting the end-of-stream flag, so `IsEndOfReader` (lines 82-89) stays false at the real end | reading CSV from "x CR LF" gives the rows ["x"], [""]; from "" gives [""] | the end is seen once nothing is pending: "x CR LF" reads ["x"], "" reads no rows, and a quote left open still raises EndOfStreamException | not executed | CsvRoundTrip.TrailingBreakAsWritten | TextReaders.BufferedTextReader.IsEndOfReader |
| Palmtree.IO/Serialization/CsvSerializer.cs:17 | the line-feed constant is '\r' (carriage return), so a column holding LF is not quoted and LF does not end a row | the rows ["a"], ["b"] with the row delimiter LF serialize as "a LF b LF", which reads back as the single column "a LF b LF"; a column "a LF b" is not quoted | the line-feed constant is '\n' and the serializer round-trips | not executed | CsvRoundTrip.LineFeedAsWrittenJoinsRows | CsvRoundTrip.SerializeRoundTrip |
| Palmtree.Core/Text/ShiftJisChar.cs:74-94 | the trail byte of a cell is chosen by the parity of the cell | plane 1, rows 1 and 2, cell 2 both give 0x81 0xA0 | Shift_JIS chooses the trail-byte range by the parity of the row: row 1 cell 2 is 0x81 0x41 | not executed | ShiftJis.RowsCollideAsWritten | ShiftJis.FromPlaneRowCellIsInjective |
| Palmtree.IO.Console.TerminalInfo/StringExpansion/Expansion.cs:176-178 | `%^` computes the difference of its operands | 6 and 3 give 3 | terminfo's `%^` is the bitwise exclusive or: 5 | not executed | ExpansionMachine.ExclusiveOrAsWrittenSubtracts | ExpansionMachine.ExclusiveOrUndoes |
| Palmtree.IO.Console.TerminalInfo/StringExpansion/Expansion.cs:290-300 | `ReadFormatSpec` reads the precision's '.' but does not append it to the spec | "%5.3d" gives the spec "53d" | the spec "5.3d": width 5, precision 3 | not executed | ExpansionProperties.FormatSpecAsWrittenDropsDot | ExpansionProperties.FormatSpecWithPrecision |
| Palmtree.IO.Console.TerminalInfo/Color256.cs:121 | the gray scales are `Enumerable.Repeat(232, 24)` | every entry is colour 232, so the last gray is as dark as the first | colours 232 .. 255 (`Enumerable.Range`), growing brighter | not executed | TerminalColors.GrayScalesAsWrittenIsFlat | TerminalColors.GrayScalesBrighten |
| Palmtree.IO.Console.TerminalInfo/Color256.cs:334 | the cube distance adds the blue difference to itself instead of squaring it | RGB (0, 0, 216) gives distance -2 | the squared distance 1 | not executed | TerminalColors.CubeDistanceAsWrittenCanBeNegative | TerminalColors.CubeDistanceIsEuclidean |
