/** `Palmtree.IO.Serialization.CsvSerializer`: rows of string columns to
    CSV text and back.

    Serializing quotes a column (doubling its inner quotes) when it holds the
    column delimiter, a double quote or a line break, joins the columns of a
    row with the delimiter and ends every row with the row delimiter.
    Deserializing reads through a `BufferedTextReader` with a 2-character
    cache: a row ends at CR LF, CR or LF, an unquoted column ends at the
    delimiter (consumed) or before a line break, a quoted column turns `""`
    into `"`, and rows without columns are dropped.

    The deserializer is specified by functions over a `Cursor` (the unread
    text and whether the reader has recorded the end of the stream); they
    are parameterized by the reader's end-of-text behaviour and by the
    line-feed character, so that the source's line-feed constant and its
    reader's end detection can be stated beside the intended ones. The
    methods use the intended ones. */
module CsvSerialization {
  import opened Wrappers
  import opened TextReaders

  const DOUBLE_QUOTE: char := '"'
  const CARRIAGE_RETURN: char := '\r'
  /** The source declares its line-feed constant as '\r'. */
  const LINE_FEED_AS_WRITTEN: char := '\r'
  const LINE_FEED: char := '\n'
  const CRLF: string := "\r\n"

  /** `CsvSerializerOption`: the column delimiter and the row delimiter
      written after every row. */
  datatype CsvOption = CsvOption(columnDelimiter: char, rowDelimiter: string)

  /** The default option: ',' and CR LF. */
  const DEFAULT_OPTION: CsvOption := CsvOption(',', CRLF)

  /** The delimiters the option documents as valid: a column delimiter
      other than a double quote, CR, LF or SUB, and CR LF, LF or CR between
      rows. */
  predicate ValidOption(option: CsvOption)
  {
    option.columnDelimiter !in {DOUBLE_QUOTE, CARRIAGE_RETURN, LINE_FEED, '\U{1a}'}
    && option.rowDelimiter in {CRLF, "\n", "\r"}
  }

  // ---------------------------------------------------------------- writing

  predicate IsLineBreak(c: char, lineFeed: char)
  {
    c == CARRIAGE_RETURN || c == lineFeed
  }

  /** The `IndexOfAny` test of `SerializeColumn`: the column holds the
      delimiter, a double quote or a line break. */
  predicate NeedsQuotes(column: string, delimiter: char, lineFeed: char)
  {
    exists i :: 0 <= i < |column| && (column[i] == delimiter || column[i] == DOUBLE_QUOTE || IsLineBreak(column[i], lineFeed))
  }

  /** `column.Replace("\"", "\"\"")`. */
  function DoubleQuotes(s: string): (r: string)
    ensures |r| >= |s|
  {
    if s == [] then []
    else (if s[0] == DOUBLE_QUOTE then [DOUBLE_QUOTE, DOUBLE_QUOTE] else [s[0]]) + DoubleQuotes(s[1..])
  }

  /** `SerializeColumn(column, option)`. */
  function SerializeColumn(column: string, delimiter: char, lineFeed: char): string
  {
    if !NeedsQuotes(column, delimiter, lineFeed) then column
    else [DOUBLE_QUOTE] + DoubleQuotes(column) + [DOUBLE_QUOTE]
  }

  /** `String.Join(delimiter, columns)`. */
  function Join(columns: seq<string>, delimiter: char): string
  {
    if |columns| == 0 then []
    else if |columns| == 1 then columns[0]
    else columns[0] + [delimiter] + Join(columns[1..], delimiter)
  }

  /** `SerializeRow(row, option)`: the serialized columns joined by the
      delimiter. */
  function SerializeRow(row: seq<string>, delimiter: char, lineFeed: char): string
  {
    Join(seq(|row|, i requires 0 <= i < |row| => SerializeColumn(row[i], delimiter, lineFeed)), delimiter)
  }

  /** The text `Serialize` writes: each row followed by the row delimiter. */
  function SerializedText(rows: seq<seq<string>>, option: CsvOption, lineFeed: char): string
  {
    if rows == [] then []
    else SerializeRow(rows[0], option.columnDelimiter, lineFeed) + option.rowDelimiter
         + SerializedText(rows[1..], option, lineFeed)
  }

  /** `Serialize(writer, data, option)`: writes every row and its row
      delimiter in turn. */
  method Serialize(data: seq<seq<string>>, option: CsvOption) returns (text: string)
    ensures text == SerializedText(data, option, LINE_FEED)
  {
    text := [];
    var i := 0;
    while i < |data|
      invariant 0 <= i <= |data|
      invariant text + SerializedText(data[i..], option, LINE_FEED) == SerializedText(data, option, LINE_FEED)
    {
      var row := SerializeRow(data[i], option.columnDelimiter, LINE_FEED);
      SerializedStep(data, i, option);
      Associate(text + row, option.rowDelimiter, SerializedText(data[i + 1..], option, LINE_FEED));
      Associate(text, row, option.rowDelimiter + SerializedText(data[i + 1..], option, LINE_FEED));
      text := text + row + option.rowDelimiter;
      i := i + 1;
    }
    assert data[i..] == [];
  }

  /** The text of the rows from i on is row i, its delimiter, and the text
      of the rows after it. */
  lemma SerializedStep(data: seq<seq<string>>, i: nat, option: CsvOption)
    requires i < |data|
    ensures SerializedText(data[i..], option, LINE_FEED)
            == SerializeRow(data[i], option.columnDelimiter, LINE_FEED) + (option.rowDelimiter + SerializedText(data[i + 1..], option, LINE_FEED))
  {
    assert data[i..][1..] == data[i + 1..];
  }

  // ---------------------------------------------------------------- reading

  /** How `IsEndOfReader` decides: as the source's reader does (the end is
      only seen once a `Read` has returned nothing), or as intended (the end
      is seen as soon as no character is left). */
  datatype EndDetection = AsWritten | Intended

  /** The reader as the deserializer sees it: the unread text and whether
      the end of the stream has been recorded. */
  datatype Cursor = Cursor(text: string, endOfStream: bool)

  /** `reader.IsEndOfReader`. */
  predicate AtEnd(c: Cursor, detection: EndDetection)
  {
    c.text == [] && (c.endOfStream || detection == Intended)
  }

  /** Decreases with every character read and when the end is recorded. */
  function Size(c: Cursor): nat
  {
    |c.text| + if c.endOfStream then 0 else 1
  }

  /** `DeserializeUnquotedColumn` (also the part of a quoted column after
      its closing quote): characters up to the delimiter, which is
      consumed, or up to a line break, which is not; a `Read` that returns
      nothing ends the column and records the end of the stream. */
  function Unquoted(c: Cursor, detection: EndDetection, delimiter: char, lineFeed: char): (r: (string, Cursor))
    ensures Size(r.1) <= Size(c)
    ensures Size(r.1) == Size(c) ==>
              r.1 == c && (AtEnd(c, detection) || (c.text != [] && c.text[0] != delimiter && IsLineBreak(c.text[0], lineFeed)))
    ensures detection == Intended ==> r.1.endOfStream == c.endOfStream
    decreases |c.text|
  {
    if AtEnd(c, detection) then ([], c)
    else if c.text == [] then ([], Cursor([], true))
    else if c.text[0] == delimiter then ([], Cursor(c.text[1..], c.endOfStream))
    else if IsLineBreak(c.text[0], lineFeed) then ([], c)
    else
      var r := Unquoted(Cursor(c.text[1..], c.endOfStream), detection, delimiter, lineFeed);
      ([c.text[0]] + r.0, r.1)
  }

  /** The quoted part of `DeserializeQuotedColumn`, after the opening
      quote: `""` gives `"`, a single `"` closes the quotes, any other
      character is kept; a `Read` that returns nothing inside the quotes
      raises `EndOfStreamException`. As written, the loop ends without
      error when the reader reports its end; with the end detected when
      the text runs out, that is where a quote left open ends, and it is
      the `EndOfStreamException` the source documents for it. */
  function QuotedBody(c: Cursor, detection: EndDetection, delimiter: char, lineFeed: char): (r: Result<(string, Cursor)>)
    ensures r.Ok? ==> Size(r.value.1) <= Size(c)
    ensures r.Err? ==> r.error == EndOfStream
    ensures detection == Intended && r.Ok? ==> r.value.1.endOfStream == c.endOfStream
    ensures !c.endOfStream && DOUBLE_QUOTE !in c.text ==> r == Err(EndOfStream)
    decreases |c.text|
  {
    if AtEnd(c, detection) then
      if detection == Intended then Err(EndOfStream) else Ok(([], c))
    else if |c.text| >= 2 && c.text[0] == DOUBLE_QUOTE && c.text[1] == DOUBLE_QUOTE then
      var r :- QuotedBody(Cursor(c.text[2..], c.endOfStream), detection, delimiter, lineFeed);
      Ok(([DOUBLE_QUOTE] + r.0, r.1))
    else if c.text != [] && c.text[0] == DOUBLE_QUOTE then
      Ok(Unquoted(Cursor(c.text[1..], c.endOfStream), detection, delimiter, lineFeed))
    else if c.text == [] then Err(EndOfStream)
    else
      var r :- QuotedBody(Cursor(c.text[1..], c.endOfStream), detection, delimiter, lineFeed);
      Ok(([c.text[0]] + r.0, r.1))
  }

  /** One column: quoted when the next character is a double quote. */
  function Column(c: Cursor, detection: EndDetection, delimiter: char, lineFeed: char): (r: Result<(string, Cursor)>)
    ensures r.Ok? ==> Size(r.value.1) <= Size(c)
    ensures r.Ok? && !AtEnd(c, detection) && (c.text == [] || !IsLineBreak(c.text[0], lineFeed)) ==>
              Size(r.value.1) < Size(c)
    ensures r.Err? ==> r.error == EndOfStream
    ensures detection == Intended && r.Ok? ==> r.value.1.endOfStream == c.endOfStream
    ensures c.text == [] || c.text[0] != DOUBLE_QUOTE ==> r.Ok?
  {
    if c.text != [] && c.text[0] == DOUBLE_QUOTE then
      QuotedBody(Cursor(c.text[1..], c.endOfStream), detection, delimiter, lineFeed)
    else Ok(Unquoted(c, detection, delimiter, lineFeed))
  }

  /** `DeserializeRow`: columns until a line break (CR LF, CR or LF, all
      consumed) or the end. */
  function Row(c: Cursor, detection: EndDetection, delimiter: char, lineFeed: char): (r: Result<(seq<string>, Cursor)>)
    ensures r.Ok? ==> Size(r.value.1) <= Size(c)
    ensures r.Ok? && !AtEnd(c, detection) ==> Size(r.value.1) < Size(c)
    ensures r.Err? ==> r.error == EndOfStream
    ensures detection == Intended && r.Ok? ==> r.value.1.endOfStream == c.endOfStream
    decreases Size(c)
  {
    if AtEnd(c, detection) then Ok(([], c))
    else if |c.text| >= 2 && c.text[..2] == CRLF then Ok(([], Cursor(c.text[2..], c.endOfStream)))
    else if c.text != [] && IsLineBreak(c.text[0], lineFeed) then Ok(([], Cursor(c.text[1..], c.endOfStream)))
    else
      var column :- Column(c, detection, delimiter, lineFeed);
      var rest :- Row(column.1, detection, delimiter, lineFeed);
      Ok(([column.0] + rest.0, rest.1))
  }

  /** `DeserializeRows`: rows until the end, dropping rows without
      columns. */
  function Rows(c: Cursor, detection: EndDetection, delimiter: char, lineFeed: char): (r: Result<seq<seq<string>>>)
    ensures r.Err? ==> r.error == EndOfStream
    decreases Size(c)
  {
    if AtEnd(c, detection) then Ok([])
    else
      var row :- Row(c, detection, delimiter, lineFeed);
      var rest :- Rows(row.1, detection, delimiter, lineFeed);
      Ok(if |row.0| > 0 then [row.0] + rest else rest)
  }

  /** The rows `Deserialize(text, option)` yields. */
  function Deserialized(text: string, detection: EndDetection, delimiter: char, lineFeed: char): Result<seq<seq<string>>>
  {
    Rows(Cursor(text, false), detection, delimiter, lineFeed)
  }

  /** A reading result after what was already read: `done` goes in
      front of what the rest reads, and a failure stays a failure. */
  function Consed<T>(done: seq<T>, r: Result<(seq<T>, Cursor)>): (s: Result<(seq<T>, Cursor)>)
    ensures s.Ok? <==> r.Ok?
    ensures s.Ok? ==> s.value == (done + r.value.0, r.value.1)
    ensures s.Err? ==> s.error == r.error
    ensures done == [] ==> s == r
  {
    if r.Ok? then
      assert done == [] ==> done + r.value.0 == r.value.0;
      Ok((done + r.value.0, r.value.1))
    else Err(r.error)
  }

  lemma ConsedTwice<T>(done: seq<T>, read: seq<T>, r: Result<(seq<T>, Cursor)>)
    ensures Consed(done, Consed(read, r)) == Consed(done + read, r)
  {
    if r.Ok? {
      assert done + (read + r.value.0) == (done + read) + r.value.0;
    }
  }

  /** One step of `QuotedBody` on `""`. */
  lemma QuotedPair(t: string, delimiter: char, lineFeed: char)
    requires |t| >= 2 && t[0] == DOUBLE_QUOTE && t[1] == DOUBLE_QUOTE
    ensures QuotedBody(Cursor(t, false), Intended, delimiter, lineFeed)
            == Consed([DOUBLE_QUOTE], QuotedBody(Cursor(t[2..], false), Intended, delimiter, lineFeed))
  {
  }

  /** One step of `QuotedBody` on a closing quote. */
  lemma QuotedClose(t: string, delimiter: char, lineFeed: char)
    requires t != [] && t[0] == DOUBLE_QUOTE && !(|t| >= 2 && t[1] == DOUBLE_QUOTE)
    ensures QuotedBody(Cursor(t, false), Intended, delimiter, lineFeed)
            == Ok(Unquoted(Cursor(t[1..], false), Intended, delimiter, lineFeed))
  {
  }

  /** One step of `QuotedBody` on another character. */
  lemma QuotedChar(t: string, delimiter: char, lineFeed: char)
    requires t != [] && t[0] != DOUBLE_QUOTE
    ensures QuotedBody(Cursor(t, false), Intended, delimiter, lineFeed)
            == Consed([t[0]], QuotedBody(Cursor(t[1..], false), Intended, delimiter, lineFeed))
  {
  }

  /** One step of `Row` on a column: a column that fails fails the row. */
  lemma RowColumn(t: string, delimiter: char, lineFeed: char)
    requires t != [] && !IsLineBreak(t[0], lineFeed)
    ensures var column := Column(Cursor(t, false), Intended, delimiter, lineFeed);
            Row(Cursor(t, false), Intended, delimiter, lineFeed)
            == if column.Err? then Err(column.error)
               else Consed([column.value.0], Row(column.value.1, Intended, delimiter, lineFeed))
    ensures var column := Column(Cursor(t, false), Intended, delimiter, lineFeed);
            column.Ok? ==> column.value.1.endOfStream == false
  {
  }

  /** One step of `Rows`: a row, kept when it has columns, then the rest;
      a row that fails fails the whole. */
  lemma RowsStep(t: string, delimiter: char, lineFeed: char)
    requires t != []
    ensures var row := Row(Cursor(t, false), Intended, delimiter, lineFeed);
            row.Ok? ==> row.value.1.endOfStream == false
    ensures var row := Row(Cursor(t, false), Intended, delimiter, lineFeed);
            Rows(Cursor(t, false), Intended, delimiter, lineFeed)
            == if row.Err? then Err(row.error)
               else RowsAfter(if |row.value.0| > 0 then [row.value.0] else [], Rows(row.value.1, Intended, delimiter, lineFeed))
  {
  }

  /** The rows read after the rows already read; a failure stays one. */
  function RowsAfter(done: seq<seq<string>>, r: Result<seq<seq<string>>>): (s: Result<seq<seq<string>>>)
    ensures s.Ok? <==> r.Ok?
    ensures s.Ok? ==> s.value == done + r.value
    ensures s.Err? ==> s.error == r.error
    ensures done == [] ==> s == r
  {
    if r.Ok? then
      assert done == [] ==> done + r.value == r.value;
      Ok(done + r.value)
    else Err(r.error)
  }

  lemma RowsAfterTwice(done: seq<seq<string>>, read: seq<seq<string>>, r: Result<seq<seq<string>>>)
    ensures RowsAfter(done, RowsAfter(read, r)) == RowsAfter(done + read, r)
  {
    if r.Ok? {
      assert done + (read + r.value) == (done + read) + r.value;
    }
  }

  lemma Regroup<T>(done: seq<T>, x: T, rest: seq<T>)
    ensures done + ([x] + rest) == (done + [x]) + rest
  {
  }

  lemma Associate<T>(done: seq<T>, read: seq<T>, rest: seq<T>)
    ensures done + (read + rest) == (done + read) + rest
  {
  }

  // ---------------------------------------------------------------- methods

  /** `DeserializeUnquotedColumn(reader, option)`. */
  method DeserializeUnquotedColumn(reader: BufferedTextReader, option: CsvOption) returns (column: string)
    requires reader.Valid()
    modifies reader, reader.cache
    ensures reader.Valid()
    ensures var r := Unquoted(Cursor(old(reader.Pending()), false), Intended, option.columnDelimiter, LINE_FEED);
            column == r.0 && reader.Pending() == r.1.text
  {
    ghost var goal := Unquoted(Cursor(reader.Pending(), false), Intended, option.columnDelimiter, LINE_FEED);
    column := [];
    while true
      invariant reader.Valid()
      invariant var r := Unquoted(Cursor(reader.Pending(), false), Intended, option.columnDelimiter, LINE_FEED);
                goal.0 == column + r.0 && goal.1.text == r.1.text
      decreases |reader.Pending()|
    {
      ghost var t := reader.Pending();
      var atEnd := reader.IsEndOfReader();
      if atEnd {
        break;
      }
      var isDelimiter := reader.StartsWithChar(option.columnDelimiter);
      if isDelimiter {
        var _ := reader.Read();
        break;
      }
      var isLineBreak := reader.StartsWithChar(CARRIAGE_RETURN);
      if !isLineBreak {
        isLineBreak := reader.StartsWithChar(LINE_FEED);
      }
      if isLineBreak {
        break;
      }
      var c := reader.Read();
      if c.None? {
        break;
      }
      ghost var rest := Unquoted(Cursor(t[1..], false), Intended, option.columnDelimiter, LINE_FEED);
      assert c.value == t[0] && reader.Pending() == t[1..];
      Regroup(column, c.value, rest.0);
      column := column + [c.value];
    }
  }

  /** `DeserializeQuotedColumn(reader, option)`: the reader is at the
      opening quote. A quote still open when the reader reports its end is
      the `EndOfStreamException` of a `Read` that finds nothing there. */
  method DeserializeQuotedColumn(reader: BufferedTextReader, option: CsvOption) returns (column: Result<string>)
    requires reader.Valid() && reader.Pending() != [] && reader.Pending()[0] == DOUBLE_QUOTE
    requires reader.cache.Length >= 2
    modifies reader, reader.cache
    ensures reader.Valid()
    ensures var r := Column(Cursor(old(reader.Pending()), false), Intended, option.columnDelimiter, LINE_FEED);
            column.Ok? <==> r.Ok?
    ensures var r := Column(Cursor(old(reader.Pending()), false), Intended, option.columnDelimiter, LINE_FEED);
            column.Ok? ==> column.value == r.value.0 && reader.Pending() == r.value.1.text
    ensures column.Err? ==> column.error == EndOfStream
  {
    ghost var t := reader.Pending();
    var _ := reader.Read();
    assert reader.Pending() == t[1..];
    ghost var goal := QuotedBody(Cursor(reader.Pending(), false), Intended, option.columnDelimiter, LINE_FEED);
    var text := [];
    var quotedMode := true;
    while true
      invariant reader.Valid()
      invariant quotedMode ==>
                  goal == Consed(text, QuotedBody(Cursor(reader.Pending(), false), Intended, option.columnDelimiter, LINE_FEED))
      invariant !quotedMode ==>
                  goal == Consed(text, Ok(Unquoted(Cursor(reader.Pending(), false), Intended, option.columnDelimiter, LINE_FEED)))
      decreases |reader.Pending()|
    {
      var atEnd := reader.IsEndOfReader();
      if atEnd {
        if quotedMode {
          // The end of the text inside the quotes: EndOfStreamException.
          return Err(EndOfStream);
        }
        break;
      }
      var read, stop;
      if quotedMode {
        read, stop := QuotedColumnStep(reader, option);
        quotedMode := !stop;
        if quotedMode {
          ConsedTwice(text, read, QuotedBody(Cursor(reader.Pending(), false), Intended, option.columnDelimiter, LINE_FEED));
        } else {
          assert text + read == text;
        }
      } else {
        read, stop := UnquotedColumnStep(reader, option);
        if stop {
          break;
        }
        ConsedTwice(text, read, Ok(Unquoted(Cursor(reader.Pending(), false), Intended, option.columnDelimiter, LINE_FEED)));
      }
      text := text + read;
    }
    return Ok(text);
  }

  /** The quoted-mode branch of the `DeserializeQuotedColumn` loop: `""`
      adds one quote, a lone `"` closes the quoted part (stop), any other
      character is added. */
  method QuotedColumnStep(reader: BufferedTextReader, option: CsvOption) returns (read: string, stop: bool)
    requires reader.Valid() && reader.Pending() != [] && reader.cache.Length >= 2
    modifies reader, reader.cache
    ensures reader.Valid() && |reader.Pending()| < |old(reader.Pending())|
    ensures var before := QuotedBody(Cursor(old(reader.Pending()), false), Intended, option.columnDelimiter, LINE_FEED);
            if stop then
              read == [] && before == Ok(Unquoted(Cursor(reader.Pending(), false), Intended, option.columnDelimiter, LINE_FEED))
            else
              before == Consed(read, QuotedBody(Cursor(reader.Pending(), false), Intended, option.columnDelimiter, LINE_FEED))
  {
    ghost var t := reader.Pending();
    var twoQuotes := reader.StartsWithString([DOUBLE_QUOTE, DOUBLE_QUOTE]);
    if twoQuotes == Ok(true) {
      QuotedPair(t, option.columnDelimiter, LINE_FEED);
      var _ := reader.Read();
      var _ := reader.Read();
      assert reader.Pending() == t[2..];
      return [DOUBLE_QUOTE], false;
    }
    var oneQuote := reader.StartsWithChar(DOUBLE_QUOTE);
    if oneQuote {
      QuotedClose(t, option.columnDelimiter, LINE_FEED);
      var _ := reader.Read();
      assert reader.Pending() == t[1..];
      return [], true;
    }
    var c := reader.Read();
    if c.None? {
      // EndOfStreamException: the reader reported characters left.
      assert false;
    }
    QuotedChar(t, option.columnDelimiter, LINE_FEED);
    assert c.value == t[0] && reader.Pending() == t[1..];
    return [c.value], false;
  }

  /** The unquoted-mode branch of the `DeserializeQuotedColumn` loop: a
      delimiter is consumed and ends the column (stop), a line break ends
      it unconsumed, any other character is added. */
  method UnquotedColumnStep(reader: BufferedTextReader, option: CsvOption) returns (read: string, stop: bool)
    requires reader.Valid() && reader.Pending() != []
    modifies reader, reader.cache
    ensures reader.Valid()
    ensures var before := Unquoted(Cursor(old(reader.Pending()), false), Intended, option.columnDelimiter, LINE_FEED);
            if stop then
              read == [] && before.0 == [] && before.1.text == reader.Pending()
            else
              var after := Unquoted(Cursor(reader.Pending(), false), Intended, option.columnDelimiter, LINE_FEED);
              |reader.Pending()| < |old(reader.Pending())| && before == (read + after.0, after.1)
  {
    ghost var t := reader.Pending();
    var isDelimiter := reader.StartsWithChar(option.columnDelimiter);
    if isDelimiter {
      var _ := reader.Read();
      return [], true;
    }
    var isLineBreak := reader.StartsWithChar(CARRIAGE_RETURN);
    if !isLineBreak {
      isLineBreak := reader.StartsWithChar(LINE_FEED);
    }
    if isLineBreak {
      return [], true;
    }
    var c := reader.Read();
    if c.None? {
      // End of stream: the reader reported characters left.
      assert false;
    }
    assert c.value == t[0] && reader.Pending() == t[1..];
    return [c.value], false;
  }

  /** `DeserializeRow(reader, option)`. */
  method DeserializeRow(reader: BufferedTextReader, option: CsvOption) returns (row: Result<seq<string>>)
    requires reader.Valid() && reader.cache.Length >= 2
    modifies reader, reader.cache
    ensures reader.Valid()
    ensures var r := Row(Cursor(old(reader.Pending()), false), Intended, option.columnDelimiter, LINE_FEED);
            row.Ok? <==> r.Ok?
    ensures var r := Row(Cursor(old(reader.Pending()), false), Intended, option.columnDelimiter, LINE_FEED);
            row.Ok? ==> row.value == r.value.0 && reader.Pending() == r.value.1.text
    ensures row.Err? ==> row.error == EndOfStream
  {
    ghost var goal := Row(Cursor(reader.Pending(), false), Intended, option.columnDelimiter, LINE_FEED);
    var columns := [];
    while true
      invariant reader.Valid()
      invariant goal == Consed(columns, Row(Cursor(reader.Pending(), false), Intended, option.columnDelimiter, LINE_FEED))
      decreases |reader.Pending()|
    {
      ghost var t := reader.Pending();
      var atEnd := reader.IsEndOfReader();
      if atEnd {
        break;
      }
      var crlf := reader.StartsWithString(CRLF);
      if crlf == Ok(true) {
        var _ := reader.Read();
        var _ := reader.Read();
        assert reader.Pending() == t[2..];
        break;
      }
      var isLineBreak := reader.StartsWithChar(CARRIAGE_RETURN);
      if !isLineBreak {
        isLineBreak := reader.StartsWithChar(LINE_FEED);
      }
      if isLineBreak {
        var _ := reader.Read();
        break;
      }
      var quoted := reader.StartsWithChar(DOUBLE_QUOTE);
      ghost var next := Column(Cursor(t, false), Intended, option.columnDelimiter, LINE_FEED);
      RowColumn(t, option.columnDelimiter, LINE_FEED);
      var column;
      if quoted {
        column := DeserializeQuotedColumn(reader, option);
      } else {
        var text := DeserializeUnquotedColumn(reader, option);
        column := Ok(text);
      }
      if column.Err? {
        return Err(column.error);
      }
      assert column.value == next.value.0 && next.value.1 == Cursor(reader.Pending(), false);
      ConsedTwice(columns, [column.value], Row(next.value.1, Intended, option.columnDelimiter, LINE_FEED));
      columns := columns + [column.value];
    }
    assert columns + [] == columns;
    return Ok(columns);
  }

  /** `DeserializeRows(reader, option)`: the rows with at least one column,
      until the reader reports its end. */
  method DeserializeRows(reader: BufferedTextReader, option: CsvOption) returns (rows: Result<seq<seq<string>>>)
    requires reader.Valid() && reader.cache.Length >= 2
    modifies reader, reader.cache
    ensures reader.Valid()
    ensures rows == Rows(Cursor(old(reader.Pending()), false), Intended, option.columnDelimiter, LINE_FEED)
    ensures rows.Ok? ==> reader.Pending() == []
  {
    ghost var goal := Rows(Cursor(reader.Pending(), false), Intended, option.columnDelimiter, LINE_FEED);
    var done := [];
    while true
      invariant reader.Valid()
      invariant goal == RowsAfter(done, Rows(Cursor(reader.Pending(), false), Intended, option.columnDelimiter, LINE_FEED))
      decreases |reader.Pending()|
    {
      ghost var t := reader.Pending();
      var atEnd := reader.IsEndOfReader();
      if atEnd {
        break;
      }
      var row := DeserializeRow(reader, option);
      RowsStep(t, option.columnDelimiter, LINE_FEED);
      if row.Err? {
        return Err(row.error);
      }
      ghost var kept := if |row.value| > 0 then [row.value] else [];
      RowsAfterTwice(done, kept, Rows(Cursor(reader.Pending(), false), Intended, option.columnDelimiter, LINE_FEED));
      if |row.value| > 0 {
        done := done + [row.value];
      } else {
        assert done + kept == done;
      }
    }
    assert done + [] == done;
    return Ok(done);
  }

  /** `Deserialize(text, option)`: the text read through a reader with a
      2-character cache. */
  method Deserialize(text: string, option: CsvOption) returns (rows: Result<seq<seq<string>>>)
    ensures rows == Deserialized(text, Intended, option.columnDelimiter, LINE_FEED)
  {
    var reader := new BufferedTextReader(text, 2);
    rows := DeserializeRows(reader, option);
  }
}
