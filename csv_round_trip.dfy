/** What the CSV serializer and deserializer promise together: text written
    by `Serialize` reads back as the same rows, for rows that have columns
    and do not end with an empty column; and, beside it, what the source's
    line-feed constant and its reader's end detection do instead. */
module CsvRoundTrip {
  import opened Wrappers
  import opened CsvSerialization

  /** A delimiter the option admits. */
  predicate GoodDelimiter(d: char)
  {
    d != DOUBLE_QUOTE && d != CARRIAGE_RETURN && d != LINE_FEED
  }

  /** Rows the format can carry exactly: each has a column and its last
      column is not empty (an empty last column and the row break after it
      read as a row break). */
  predicate Representable(rows: seq<seq<string>>)
  {
    forall i :: 0 <= i < |rows| ==> |rows[i]| > 0 && rows[i][|rows[i]| - 1] != []
  }

  /** Characters after an unquoted column or a closing quote: nothing, the
      delimiter, or a line break. */
  predicate EndsColumn(t: string, d: char)
  {
    t == [] || t[0] == d || IsLineBreak(t[0], LINE_FEED)
  }

  /** Where a column that is followed by `t` leaves the reader. */
  function AfterColumn(t: string, d: char): Cursor
  {
    if t != [] && t[0] == d then Cursor(t[1..], false) else Cursor(t, false)
  }

  /** Reading stops at once where a column ends. */
  lemma UnquotedStops(t: string, d: char)
    requires GoodDelimiter(d) && EndsColumn(t, d)
    ensures Unquoted(Cursor(t, false), Intended, d, LINE_FEED) == ([], AfterColumn(t, d))
  {
  }

  /** An unquoted column reads back up to where it ends. */
  lemma {:induction false} UnquotedReadsBack(x: string, t: string, d: char)
    requires GoodDelimiter(d) && EndsColumn(t, d)
    requires !NeedsQuotes(x, d, LINE_FEED)
    ensures Unquoted(Cursor(x + t, false), Intended, d, LINE_FEED) == (x, AfterColumn(t, d))
  {
    if x == [] {
      assert x + t == t;
      UnquotedStops(t, d);
    } else {
      assert (x + t)[1..] == x[1..] + t;
      assert !NeedsQuotes(x[1..], d, LINE_FEED) by {
        forall i | 0 <= i < |x[1..]|
          ensures !(x[1..][i] == d || x[1..][i] == DOUBLE_QUOTE || IsLineBreak(x[1..][i], LINE_FEED))
        {
          assert x[1..][i] == x[i + 1];
        }
      }
      assert !(x[0] == d || x[0] == DOUBLE_QUOTE || IsLineBreak(x[0], LINE_FEED));
      UnquotedReadsBack(x[1..], t, d);
      assert [x[0]] + x[1..] == x;
    }
  }

  /** The doubled quotes of a quoted column, and its closing quote, read
      back as the column. */
  lemma {:induction false} QuotedReadsBack(x: string, t: string, d: char)
    requires GoodDelimiter(d) && EndsColumn(t, d)
    ensures QuotedBody(Cursor(DoubleQuotes(x) + [DOUBLE_QUOTE] + t, false), Intended, d, LINE_FEED)
            == Ok((x, AfterColumn(t, d)))
  {
    if x == [] {
      UnquotedStops(t, d);
    } else {
      QuotedReadsBack(x[1..], t, d);
      QuotedStep(x, t, d);
      assert [x[0]] + x[1..] == x;
    }
  }

  /** One character of a quoted column, doubled when it is a quote, reads
      back as itself. */
  lemma QuotedStep(x: string, t: string, d: char)
    requires x != []
    ensures QuotedBody(Cursor(DoubleQuotes(x) + [DOUBLE_QUOTE] + t, false), Intended, d, LINE_FEED)
            == Consed([x[0]], QuotedBody(Cursor(DoubleQuotes(x[1..]) + [DOUBLE_QUOTE] + t, false), Intended, d, LINE_FEED))
  {
    var text := DoubleQuotes(x) + [DOUBLE_QUOTE] + t;
    var inner := DoubleQuotes(x[1..]) + [DOUBLE_QUOTE] + t;
    if x[0] == DOUBLE_QUOTE {
      assert text == [DOUBLE_QUOTE, DOUBLE_QUOTE] + inner;
      assert text[2..] == inner;
      QuotedPair(text, d, LINE_FEED);
    } else {
      assert text == [x[0]] + inner;
      assert text[1..] == inner;
      QuotedChar(text, d, LINE_FEED);
    }
  }

  /** A serialized column reads back as the column. */
  lemma ColumnReadsBack(x: string, t: string, d: char)
    requires GoodDelimiter(d) && EndsColumn(t, d)
    ensures Column(Cursor(SerializeColumn(x, d, LINE_FEED) + t, false), Intended, d, LINE_FEED)
            == Ok((x, AfterColumn(t, d)))
  {
    if NeedsQuotes(x, d, LINE_FEED) {
      var text := SerializeColumn(x, d, LINE_FEED) + t;
      assert text[1..] == DoubleQuotes(x) + [DOUBLE_QUOTE] + t;
      QuotedReadsBack(x, t, d);
    } else {
      UnquotedReadsBack(x, t, d);
      if x != [] {
        assert x[0] != DOUBLE_QUOTE;
      }
    }
  }

  /** A serialized column followed by the column delimiter reads back as
      the column, leaving what follows the delimiter. */
  lemma ColumnThenDelimiter(x: string, tail: string, d: char)
    requires GoodDelimiter(d)
    ensures Column(Cursor(SerializeColumn(x, d, LINE_FEED) + ([d] + tail), false), Intended, d, LINE_FEED)
            == Ok((x, Cursor(tail, false)))
  {
    assert ([d] + tail)[1..] == tail;
    ColumnReadsBack(x, [d] + tail, d);
  }

  /** A serialized column is empty only for the empty column and never
      starts with a line break. */
  lemma ColumnStart(x: string, d: char)
    requires GoodDelimiter(d)
    ensures SerializeColumn(x, d, LINE_FEED) == [] <==> x == []
    ensures SerializeColumn(x, d, LINE_FEED) != [] ==> !IsLineBreak(SerializeColumn(x, d, LINE_FEED)[0], LINE_FEED)
  {
    if !NeedsQuotes(x, d, LINE_FEED) && x != [] {
      assert !(x[0] == d || x[0] == DOUBLE_QUOTE || IsLineBreak(x[0], LINE_FEED));
    }
  }

  /** The serialized columns of a row. */
  function Cells(row: seq<string>, d: char): (r: seq<string>)
    ensures |r| == |row|
  {
    seq(|row|, i requires 0 <= i < |row| => SerializeColumn(row[i], d, LINE_FEED))
  }

  /** A serialized row with a column is neither empty nor starts with a
      line break, unless it is the single empty column. */
  lemma RowStart(row: seq<string>, d: char)
    requires GoodDelimiter(d) && |row| > 0 && row[|row| - 1] != []
    ensures SerializeRow(row, d, LINE_FEED) != []
    ensures !IsLineBreak(SerializeRow(row, d, LINE_FEED)[0], LINE_FEED)
  {
    var cells := Cells(row, d);
    ColumnStart(row[0], d);
    if |row| > 1 {
      assert SerializeRow(row, d, LINE_FEED) == cells[0] + [d] + Join(cells[1..], d);
      if cells[0] == [] {
        assert SerializeRow(row, d, LINE_FEED)[0] == d;
      }
    }
  }

  /** A row delimiter ends the row, also a lone CR that is not followed by
      a line feed. */
  lemma RowBreak(rd: string, rest: string, d: char)
    requires rd == CRLF || rd == "\n" || rd == "\r"
    requires rest == [] || rest[0] != LINE_FEED
    ensures Row(Cursor(rd + rest, false), Intended, d, LINE_FEED) == Ok(([], Cursor(rest, false)))
  {
    if rd == CRLF {
      assert (rd + rest)[..2] == CRLF && (rd + rest)[2..] == rest;
    } else {
      assert (rd + rest)[1..] == rest;
      assert |rd + rest| >= 2 ==> (rd + rest)[1] == rest[0];
    }
  }

  /** A serialized row, its row delimiter and what follows read back as the
      row, leaving what follows. */
  lemma {:induction false} RowReadsBack(row: seq<string>, rd: string, rest: string, d: char)
    requires GoodDelimiter(d) && |row| > 0 && row[|row| - 1] != []
    requires rd == CRLF || rd == "\n" || rd == "\r"
    requires rest == [] || rest[0] != LINE_FEED
    ensures Row(Cursor(SerializeRow(row, d, LINE_FEED) + rd + rest, false), Intended, d, LINE_FEED)
            == Ok((row, Cursor(rest, false)))
  {
    if |row| == 1 {
      RowSingle(row, rd, rest, d);
    } else {
      RowReadsBack(row[1..], rd, rest, d);
      RowCons(row, rd, rest, d);
    }
  }

  /** A row of one column: the column, then the row delimiter. */
  lemma RowSingle(row: seq<string>, rd: string, rest: string, d: char)
    requires GoodDelimiter(d) && |row| == 1 && row[0] != []
    requires rd == CRLF || rd == "\n" || rd == "\r"
    requires rest == [] || rest[0] != LINE_FEED
    ensures Row(Cursor(SerializeRow(row, d, LINE_FEED) + rd + rest, false), Intended, d, LINE_FEED)
            == Ok((row, Cursor(rest, false)))
  {
    var text := SerializeRow(row, d, LINE_FEED) + rd + rest;
    RowStart(row, d);
    assert text[0] == SerializeRow(row, d, LINE_FEED)[0];
    assert text == SerializeColumn(row[0], d, LINE_FEED) + (rd + rest);
    ColumnReadsBack(row[0], rd + rest, d);
    RowBreak(rd, rest, d);
    ColumnThenRow(text, row[0], rd + rest, [], Cursor(rest, false), d);
    assert [row[0]] + [] == row;
  }

  /** A row of two or more columns: the first column, the delimiter, then
      the rest of the row read as a row. */
  lemma RowCons(row: seq<string>, rd: string, rest: string, d: char)
    requires GoodDelimiter(d) && |row| > 1 && row[|row| - 1] != []
    requires Row(Cursor(SerializeRow(row[1..], d, LINE_FEED) + rd + rest, false), Intended, d, LINE_FEED)
             == Ok((row[1..], Cursor(rest, false)))
    ensures Row(Cursor(SerializeRow(row, d, LINE_FEED) + rd + rest, false), Intended, d, LINE_FEED)
            == Ok((row, Cursor(rest, false)))
  {
    var after := rd + rest;
    var tail := SerializeRow(row[1..], d, LINE_FEED) + after;
    var text := SerializeRow(row, d, LINE_FEED) + after;
    assert SerializeRow(row[1..], d, LINE_FEED) + rd + rest == tail;
    assert SerializeRow(row, d, LINE_FEED) + rd + rest == text;
    assert [row[0]] + row[1..] == row;
    FirstColumn(row, after, d);
    ColumnThenRow(text, row[0], tail, row[1..], Cursor(rest, false), d);
  }

  /** The first column of a row of two or more columns reads back, and
      leaves the rest of the row. */
  lemma FirstColumn(row: seq<string>, after: string, d: char)
    requires GoodDelimiter(d) && |row| > 1 && row[|row| - 1] != []
    ensures var tail := SerializeRow(row[1..], d, LINE_FEED) + after;
            var text := SerializeRow(row, d, LINE_FEED) + after;
            text != [] && !IsLineBreak(text[0], LINE_FEED)
            && Column(Cursor(text, false), Intended, d, LINE_FEED) == Ok((row[0], Cursor(tail, false)))
  {
    var tail := SerializeRow(row[1..], d, LINE_FEED) + after;
    RowConsText(row, after, d);
    ColumnThenDelimiter(row[0], tail, d);
  }

  /** The text of a row of two or more columns, followed by `after`: the
      first column, the delimiter, then the rest of the row and `after`;
      it does not start with a line break. */
  lemma RowConsText(row: seq<string>, after: string, d: char)
    requires GoodDelimiter(d) && |row| > 1 && row[|row| - 1] != []
    ensures var tail := SerializeRow(row[1..], d, LINE_FEED) + after;
            var text := SerializeRow(row, d, LINE_FEED) + after;
            text == SerializeColumn(row[0], d, LINE_FEED) + ([d] + tail)
            && ([d] + tail)[1..] == tail
            && text != [] && !IsLineBreak(text[0], LINE_FEED)
  {
    var tail := SerializeRow(row[1..], d, LINE_FEED) + after;
    RowSplit(row, d, tail, after);
    assert ([d] + tail)[1..] == tail;
    RowStart(row, d);
    assert (SerializeRow(row, d, LINE_FEED) + after)[0] == SerializeRow(row, d, LINE_FEED)[0];
  }

  /** A column that does not start with a line break, and the row after
      it, make the row. */
  lemma ColumnThenRow(text: string, column: string, tail: string, more: seq<string>, end: Cursor, d: char)
    requires text != [] && !IsLineBreak(text[0], LINE_FEED)
    requires Column(Cursor(text, false), Intended, d, LINE_FEED) == Ok((column, Cursor(tail, false)))
    requires Row(Cursor(tail, false), Intended, d, LINE_FEED) == Ok((more, end))
    ensures Row(Cursor(text, false), Intended, d, LINE_FEED) == Ok(([column] + more, end))
  {
    RowColumn(text, d, LINE_FEED);
  }

  /** A row of two or more columns serializes as its first column, the
      delimiter and the rest. */
  lemma RowSplit(row: seq<string>, d: char, tail: string, after: string)
    requires |row| > 1 && tail == SerializeRow(row[1..], d, LINE_FEED) + after
    ensures SerializeRow(row, d, LINE_FEED) + after == SerializeColumn(row[0], d, LINE_FEED) + ([d] + tail)
  {
    var cells := Cells(row, d);
    assert Cells(row[1..], d) == cells[1..];
  }

  /** Serialized text reads back as its rows. */
  lemma {:induction false} RowsReadBack(rows: seq<seq<string>>, option: CsvOption)
    requires ValidOption(option) && Representable(rows)
    ensures Rows(Cursor(SerializedText(rows, option, LINE_FEED), false), Intended, option.columnDelimiter, LINE_FEED)
            == Ok(rows)
  {
    var d := option.columnDelimiter;
    assert GoodDelimiter(d);
    if rows != [] {
      var row, more := rows[0], rows[1..];
      var rest := SerializedText(more, option, LINE_FEED);
      var text := SerializedText(rows, option, LINE_FEED);
      assert text == SerializeRow(row, d, LINE_FEED) + option.rowDelimiter + rest;
      RepresentableParts(rows);
      RestStart(more, option);
      RowReadsBack(row, option.rowDelimiter, rest, d);
      RowsReadBack(more, option);
      RowStart(row, d);
      RowThenRows(text, row, rest, more, d);
      assert [row] + more == rows;
    }
  }

  /** The first of representable rows can be carried, and so can the rest. */
  lemma RepresentableParts(rows: seq<seq<string>>)
    requires Representable(rows) && rows != []
    ensures |rows[0]| > 0 && rows[0][|rows[0]| - 1] != []
    ensures Representable(rows[1..])
  {
    forall i | 0 <= i < |rows[1..]|
      ensures |rows[1..][i]| > 0 && rows[1..][i][|rows[1..][i]| - 1] != []
    {
      assert rows[1..][i] == rows[i + 1];
    }
  }

  /** Serialized representable rows do not start with a line feed. */
  lemma RestStart(rows: seq<seq<string>>, option: CsvOption)
    requires ValidOption(option) && Representable(rows)
    ensures var rest := SerializedText(rows, option, LINE_FEED);
            rest == [] || rest[0] != LINE_FEED
  {
    if rows != [] {
      var d := option.columnDelimiter;
      assert GoodDelimiter(d);
      RepresentableParts(rows);
      RowStart(rows[0], d);
      var rest := SerializedText(rows, option, LINE_FEED);
      assert rest == SerializeRow(rows[0], d, LINE_FEED) + option.rowDelimiter + SerializedText(rows[1..], option, LINE_FEED);
      assert rest[0] == SerializeRow(rows[0], d, LINE_FEED)[0];
    }
  }

  /** A row that is not empty, and the rows after it, make the rows. */
  lemma RowThenRows(text: string, row: seq<string>, rest: string, more: seq<seq<string>>, d: char)
    requires text != [] && row != []
    requires Row(Cursor(text, false), Intended, d, LINE_FEED) == Ok((row, Cursor(rest, false)))
    requires Rows(Cursor(rest, false), Intended, d, LINE_FEED) == Ok(more)
    ensures Rows(Cursor(text, false), Intended, d, LINE_FEED) == Ok([row] + more)
  {
    RowsStep(text, d, LINE_FEED);
  }

  /** `Deserialize(Serialize(rows, option), option)` gives the rows back. */
  lemma SerializeRoundTrip(rows: seq<seq<string>>, option: CsvOption)
    requires ValidOption(option) && Representable(rows)
    ensures Deserialized(SerializedText(rows, option, LINE_FEED), Intended, option.columnDelimiter, LINE_FEED)
            == Ok(rows)
  {
    RowsReadBack(rows, option);
  }

  // ------------------------------------------------------ as the source has it

  /** The line-feed constant as written is '\r': a column holding '\n' is
      written without quotes, and a '\n' row delimiter is written as is. */
  lemma LineFeedAsWrittenLeavesNewlineBare()
    ensures SerializeColumn("a\nb", ',', LINE_FEED_AS_WRITTEN) == "a\nb"
    ensures SerializeColumn("a\nb", ',', LINE_FEED) == "\"a\nb\""
    ensures SerializedText([["a"], ["b"]], CsvOption(',', "\n"), LINE_FEED_AS_WRITTEN) == "a\nb\n"
  {
    assert NeedsQuotes("a\nb", ',', LINE_FEED) by {
      assert "a\nb"[1] == LINE_FEED;
    }
    assert DoubleQuotes("a\nb") == "a\nb" by {
      assert DoubleQuotes("b") == "b";
      assert DoubleQuotes("\nb") == "\nb";
    }
  }

  /** With the line-feed constant as written, a '\n' does not end a row
      when read back, so the two rows written above come back as one
      column. */
  lemma LineFeedAsWrittenJoinsRows()
    ensures Deserialized("a\nb\n", Intended, ',', LINE_FEED_AS_WRITTEN) == Ok([["a\nb\n"]])
  {
    var lf := LINE_FEED_AS_WRITTEN;
    assert "a\nb\n"[1..] == "\nb\n" && "\nb\n"[1..] == "b\n" && "b\n"[1..] == "\n" && "\n"[1..] == "";
    assert ['b'] + "\n" == "b\n" && ['\n'] + "b\n" == "\nb\n" && ['a'] + "\nb\n" == "a\nb\n";
    assert "\n" + [] == "\n" && ["a\nb\n"] + [] == [["a\nb\n"]][0];
    assert "a\nb\n"[0] == 'a' && "a\nb\n"[..2] != CRLF;
    assert Unquoted(Cursor("", false), Intended, ',', lf) == ([], Cursor("", false));
    assert Unquoted(Cursor("\n", false), Intended, ',', lf) == ("\n", Cursor("", false));
    assert Unquoted(Cursor("b\n", false), Intended, ',', lf) == ("b\n", Cursor("", false));
    assert Unquoted(Cursor("\nb\n", false), Intended, ',', lf) == ("\nb\n", Cursor("", false));
    assert Unquoted(Cursor("a\nb\n", false), Intended, ',', lf) == ("a\nb\n", Cursor("", false));
    assert Row(Cursor("", false), Intended, ',', lf) == Ok(([], Cursor("", false)));
    assert Row(Cursor("a\nb\n", false), Intended, ',', lf) == Ok((["a\nb\n"], Cursor("", false)));
    assert Rows(Cursor("", false), Intended, ',', lf) == Ok([]);
    assert [["a\nb\n"]] + [] == [["a\nb\n"]];
  }

  /** With '\n' as the line feed, the same text reads back as its two
      rows. */
  lemma NewlineEndsRows()
    ensures Deserialized("a\nb\n", Intended, ',', LINE_FEED) == Ok([["a"], ["b"]])
  {
    assert "a\nb\n"[1..] == "\nb\n" && "\nb\n"[1..] == "b\n" && "b\n"[1..] == "\n" && "\n"[1..] == "";
    assert "a\nb\n"[0] == 'a' && "a\nb\n"[..2] != CRLF && "b\n"[..2] != CRLF && "\nb\n"[..2] != CRLF;
    assert ['a'] + [] == "a" && ["a"] + [] == [["a"]][0] && ['b'] + [] == "b" && ["b"] + [] == [["b"]][0];
    assert Unquoted(Cursor("\n", false), Intended, ',', LINE_FEED) == ([], Cursor("\n", false));
    assert Unquoted(Cursor("\nb\n", false), Intended, ',', LINE_FEED) == ([], Cursor("\nb\n", false));
    assert Unquoted(Cursor("b\n", false), Intended, ',', LINE_FEED) == ("b", Cursor("\n", false));
    assert Unquoted(Cursor("a\nb\n", false), Intended, ',', LINE_FEED) == ("a", Cursor("\nb\n", false));
    assert Row(Cursor("\n", false), Intended, ',', LINE_FEED) == Ok(([], Cursor("", false)));
    assert Row(Cursor("\nb\n", false), Intended, ',', LINE_FEED) == Ok(([], Cursor("b\n", false)));
    assert Column(Cursor("a\nb\n", false), Intended, ',', LINE_FEED) == Ok(("a", Cursor("\nb\n", false)));
    assert Column(Cursor("b\n", false), Intended, ',', LINE_FEED) == Ok(("b", Cursor("\n", false)));
    assert Row(Cursor("b\n", false), Intended, ',', LINE_FEED) == Ok((["b"], Cursor("", false)));
    assert Row(Cursor("a\nb\n", false), Intended, ',', LINE_FEED) == Ok((["a"], Cursor("b\n", false)));
    assert Rows(Cursor("", false), Intended, ',', LINE_FEED) == Ok([]);
    assert [["b"]] + [] == [["b"]] && [["a"]] + [["b"]] == [["a"], ["b"]];
    assert Rows(Cursor("b\n", false), Intended, ',', LINE_FEED) == Ok([["b"]]);
  }

  /** The reader as written records the end of the stream only when a
      `Read` finds nothing, so the empty text, and the text after the last
      row delimiter, read as one more row of one empty column. The empty
      text, as written: one row of one empty column, then the end; read as
      intended, no rows. */
  lemma EmptyTextAsWritten()
    ensures Deserialized("", AsWritten, ',', LINE_FEED) == Ok([[""]])
    ensures Deserialized("", Intended, ',', LINE_FEED) == Ok([])
  {
    var lf := LINE_FEED;
    var end := Cursor("", true);
    assert [[]] + [] == [""];
    assert Unquoted(Cursor("", false), AsWritten, ',', lf) == ([], end);
    assert Row(end, AsWritten, ',', lf) == Ok(([], end));
    assert Row(Cursor("", false), AsWritten, ',', lf) == Ok(([""], end));
    assert Rows(end, AsWritten, ',', lf) == Ok([]);
    assert [[""]] + [] == [[""]];
  }

  /** "x\r\n": the row "x", then, as written, the empty text after the row
      delimiter as one more row. */
  lemma TrailingBreakAsWritten()
    ensures Deserialized("x\r\n", AsWritten, ',', LINE_FEED) == Ok([["x"], [""]])
    ensures Deserialized("x\r\n", Intended, ',', LINE_FEED) == Ok([["x"]])
  {
    var lf := LINE_FEED;
    EmptyTextAsWritten();
    assert "x\r\n"[1..] == "\r\n" && ['x'] + [] == "x";
    assert "x\r\n"[0] == 'x' && "x\r\n"[..2] != CRLF;
    assert "\r\n"[..2] == "\r\n" && "\r\n"[2..] == "";
    assert ["x"] + [] == [["x"]][0] && [["x"]] + [[""]] == [["x"], [""]] && [["x"]] + [] == [["x"]];
    assert Unquoted(Cursor("\r\n", false), AsWritten, ',', lf) == ([], Cursor("\r\n", false));
    assert Unquoted(Cursor("x\r\n", false), AsWritten, ',', lf) == ("x", Cursor("\r\n", false));
    assert Row(Cursor("\r\n", false), AsWritten, ',', lf) == Ok(([], Cursor("", false)));
    assert Row(Cursor("x\r\n", false), AsWritten, ',', lf) == Ok((["x"], Cursor("", false)));
    assert Unquoted(Cursor("\r\n", false), Intended, ',', lf) == ([], Cursor("\r\n", false));
    assert Unquoted(Cursor("x\r\n", false), Intended, ',', lf) == ("x", Cursor("\r\n", false));
    assert Row(Cursor("\r\n", false), Intended, ',', lf) == Ok(([], Cursor("", false)));
    assert Row(Cursor("x\r\n", false), Intended, ',', lf) == Ok((["x"], Cursor("", false)));
  }

  /** A quote opened and never closed: whatever follows it, and however
      the end is detected, reading fails with `EndOfStreamException`. */
  lemma OpenQuoteFails(t: string, d: char, detection: EndDetection)
    requires DOUBLE_QUOTE !in t
    ensures Deserialized([DOUBLE_QUOTE] + t, detection, d, LINE_FEED) == Err(EndOfStream)
  {
    var text := [DOUBLE_QUOTE] + t;
    assert text[0] == DOUBLE_QUOTE && text[1..] == t;
    assert Column(Cursor(text, false), detection, d, LINE_FEED) == Err(EndOfStream);
    assert Row(Cursor(text, false), detection, d, LINE_FEED) == Err(EndOfStream);
  }

  /** The format cannot carry an empty last column: ["a", ""] is written as
      "a," and reads back as ["a"]. */
  lemma EmptyLastColumnIsLost()
    ensures SerializeRow(["a", ""], ',', LINE_FEED) == "a,"
    ensures Deserialized("a,\r\n", Intended, ',', LINE_FEED) == Ok([["a"]])
  {
    var lf := LINE_FEED;
    var cells := Cells(["a", ""], ',');
    assert !NeedsQuotes("a", ',', lf) by {
      assert "a"[0] == 'a';
    }
    assert !NeedsQuotes("", ',', lf);
    assert cells == ["a", ""];
    assert Join(cells, ',') == "a" + [','] + Join(cells[1..], ',');
    assert "a,\r\n"[1..] == ",\r\n" && ",\r\n"[1..] == "\r\n" && "\r\n"[2..] == "";
    assert "a,\r\n"[..2][0] == 'a' && ",\r\n"[..2][0] == ',' && "\r\n"[..2] == CRLF;
    assert ['a'] + [] == "a" && ["a"] + [] == [["a"]][0] && [["a"]] + [] == [["a"]];
    assert Unquoted(Cursor(",\r\n", false), Intended, ',', lf) == ([], Cursor("\r\n", false));
    assert Unquoted(Cursor("a,\r\n", false), Intended, ',', lf) == ("a", Cursor("\r\n", false));
    assert Row(Cursor("\r\n", false), Intended, ',', lf) == Ok(([], Cursor("", false)));
    assert Row(Cursor("a,\r\n", false), Intended, ',', lf) == Ok((["a"], Cursor("", false)));
    assert Rows(Cursor("", false), Intended, ',', lf) == Ok([]);
  }
}
