/** The client's CSV export: the quoting of one cell, the joining of cells
    into rows and rows into a document behind a byte-order mark, a reader
    for that format against which the writer is proved, and the
    `YYYYMMDD` stamp of the download's file name. */
module CsvExport {
  import opened Wrappers

  /** The byte-order mark put in front of the document. */
  const BOM: char := '﻿'

  const Quote: char := '"'

  // ---------------------------------------------------------------------
  // One cell
  // ---------------------------------------------------------------------

  /** A cell is quoted when it holds a comma, a line feed or a double quote.
      A carriage return alone does not trigger quoting. */
  predicate NeedsQuoting(cell: string) {
    ',' in cell || '\n' in cell || Quote in cell
  }

  /** Every double quote written twice (`replace(/"/g, '""')`). */
  function DoubleQuotes(s: string): (r: string)
    ensures |r| >= |s|
    ensures Quote !in s ==> r == s
    decreases |s|
  {
    if s == [] then []
    else (if s[0] == Quote then [Quote, Quote] else [s[0]]) + DoubleQuotes(s[1..])
  }

  /** The body of a quoted field: double quotes only in adjacent pairs
      (the 2DQUOTE of section 2 of RFC 4180). */
  predicate PairedQuotes(s: string)
    decreases |s|
  {
    if s == [] then true
    else if s[0] == Quote then |s| >= 2 && s[1] == Quote && PairedQuotes(s[2..])
    else PairedQuotes(s[1..])
  }

  /** A field as section 2 of RFC 4180 writes it: either plain text without
      a separator or a quote, or a quoted body with paired quotes. */
  predicate IsField(f: string) {
    !NeedsQuoting(f) ||
    (|f| >= 2 && f[0] == Quote && f[|f| - 1] == Quote && PairedQuotes(f[1..|f| - 1]))
  }

  /** The inverse of DoubleQuotes: every `""` read as one `"`. */
  function CollapseQuotes(s: string): string
    decreases |s|
  {
    if s == [] then []
    else if |s| >= 2 && s[0] == Quote && s[1] == Quote then [Quote] + CollapseQuotes(s[2..])
    else [s[0]] + CollapseQuotes(s[1..])
  }

  /** Reads one field back: a quoted field loses its outer quotes and its
      doubled quotes; any other text is the cell itself. */
  function DecodeCell(f: string): string {
    if |f| >= 2 && f[0] == Quote && f[|f| - 1] == Quote then CollapseQuotes(f[1..|f| - 1])
    else f
  }

  /** The cell mapper of `exportToExcel`. */
  function EncodeCell(cell: string): (r: string)
    ensures IsField(r)
    ensures DecodeCell(r) == cell
    ensures r == cell <==> !NeedsQuoting(cell)
  {
    if NeedsQuoting(cell) then
      DoubledQuotesArePaired(cell);
      CollapseAfterDouble(cell);
      var r := [Quote] + DoubleQuotes(cell) + [Quote];
      assert r[1..|r| - 1] == DoubleQuotes(cell);
      r
    else
      cell
  }

  lemma {:induction false} DoubledQuotesArePaired(s: string)
    ensures PairedQuotes(DoubleQuotes(s))
    decreases |s|
  {
    if s != [] {
      DoubledQuotesArePaired(s[1..]);
      var t := DoubleQuotes(s[1..]);
      if s[0] == Quote {
        assert ([Quote, Quote] + t)[2..] == t;
      } else {
        assert ([s[0]] + t)[1..] == t;
      }
    }
  }

  /** Collapsing the doubled quotes gives the cell back. */
  lemma {:induction false} CollapseAfterDouble(s: string)
    ensures CollapseQuotes(DoubleQuotes(s)) == s
    decreases |s|
  {
    if s != [] {
      CollapseAfterDouble(s[1..]);
      var t := DoubleQuotes(s[1..]);
      if s[0] == Quote {
        assert ([Quote, Quote] + t)[2..] == t;
      } else {
        assert ([s[0]] + t)[1..] == t;
      }
      assert s == [s[0]] + s[1..];
    }
  }

  /** A lone carriage return is written verbatim (section 2 of RFC 4180,
      rule 6, would quote it). */
  lemma CarriageReturnIsNotQuoted()
    ensures EncodeCell("\r") == "\r"
    ensures EncodeCell("a\rb") == "a\rb"
  {
  }

  // ---------------------------------------------------------------------
  // Rows and the document
  // ---------------------------------------------------------------------

  /** `Array.prototype.join(sep)`: the empty list joins to the empty string. */
  function Join(sep: char, parts: seq<string>): (r: string)
    ensures |parts| == 0 ==> r == ""
    ensures |parts| == 1 ==> r == parts[0]
    decreases |parts|
  {
    if |parts| == 0 then ""
    else if |parts| == 1 then parts[0]
    else parts[0] + [sep] + Join(sep, parts[1..])
  }

  /** The joined text starts with the first part, the separator follows it
      when more parts come, and every further part adds at least its
      separator. */
  lemma {:induction false} JoinLayout(sep: char, parts: seq<string>)
    requires |parts| >= 1
    ensures parts[0] <= Join(sep, parts)
    ensures |Join(sep, parts)| >= |parts[0]| + |parts| - 1
    ensures |parts| >= 2 ==> Join(sep, parts)[|parts[0]|] == sep
    decreases |parts|
  {
    if |parts| >= 2 {
      JoinLayout(sep, parts[1..]);
      assert Join(sep, parts) == parts[0] + ([sep] + Join(sep, parts[1..]));
    }
  }

  function EncodeCells(row: seq<string>): (r: seq<string>)
    ensures |r| == |row|
    ensures forall i :: 0 <= i < |row| ==> r[i] == EncodeCell(row[i])
  {
    seq(|row|, i requires 0 <= i < |row| => EncodeCell(row[i]))
  }

  /** One line of the export: the encoded cells joined by commas. */
  function EncodeRow(row: seq<string>): string {
    Join(',', EncodeCells(row))
  }

  function EncodeRows(data: seq<seq<string>>): (r: seq<string>)
    ensures |r| == |data|
    ensures forall i :: 0 <= i < |data| ==> r[i] == EncodeRow(data[i])
  {
    seq(|data|, i requires 0 <= i < |data| => EncodeRow(data[i]))
  }

  /** The downloaded text: the byte-order mark, then the lines joined by
      line feeds, with no line feed after the last one. */
  function Document(data: seq<seq<string>>): (r: string)
    ensures |r| >= 1 && r[0] == BOM
    ensures data == [] ==> r == [BOM]
  {
    [BOM] + Join('\n', EncodeRows(data))
  }

  // ---------------------------------------------------------------------
  // A reader for the written format
  // ---------------------------------------------------------------------

  /** Reads a quoted body up to its closing quote; yields the unescaped
      text and what follows the closing quote. */
  function ReadQuoted(s: string): (r: Option<(string, string)>)
    ensures r.Some? ==> |r.value.1| < |s|
    decreases |s|
  {
    if s == [] then None
    else if s[0] == Quote then
      if |s| >= 2 && s[1] == Quote then
        match ReadQuoted(s[2..])
        case None => None
        case Some(p) => Some(([Quote] + p.0, p.1))
      else Some(([], s[1..]))
    else
      match ReadQuoted(s[1..])
      case None => None
      case Some(p) => Some(([s[0]] + p.0, p.1))
  }

  /** Reads unquoted text up to the next comma or line feed. */
  function ReadPlain(s: string): (r: (string, string))
    ensures |r.1| <= |s|
    decreases |s|
  {
    if s == [] || s[0] == ',' || s[0] == '\n' then ([], s)
    else
      var p := ReadPlain(s[1..]);
      ([s[0]] + p.0, p.1)
  }

  /** Reads one field; yields its cell and the text after it. */
  function ReadField(s: string): (r: Option<(string, string)>)
    ensures r.Some? ==> |r.value.1| <= |s|
  {
    if |s| >= 1 && s[0] == Quote then ReadQuoted(s[1..]) else Some(ReadPlain(s))
  }

  /** Reads the lines of a document body into rows of cells; every row read
      has at least one cell. */
  function ReadRows(s: string): (r: Option<seq<seq<string>>>)
    ensures r.Some? ==> |r.value| >= 1 && |r.value[0]| >= 1
    decreases |s|
  {
    match ReadField(s)
    case None => None
    case Some(p) =>
      var (cell, rest) := p;
      if rest == [] then Some([[cell]])
      else if rest[0] == ',' then
        match ReadRows(rest[1..])
        case None => None
        case Some(rows) => Some([[cell] + rows[0]] + rows[1..])
      else if rest[0] == '\n' then
        match ReadRows(rest[1..])
        case None => None
        case Some(rows) => Some([[cell]] + rows)
      else None
  }

  /** Reads a whole downloaded document: the byte-order mark, then rows. */
  function ReadDocument(doc: string): Option<seq<seq<string>>> {
    if |doc| >= 1 && doc[0] == BOM then
      if |doc| == 1 then Some([]) else ReadRows(doc[1..])
    else None
  }

  /** What may follow a field: the end, a comma or a line feed. */
  predicate FieldEnd(rest: string) {
    rest == [] || rest[0] == ',' || rest[0] == '\n'
  }

  lemma ReadQuotedAfterPair(t: string, text: string, rest: string)
    requires ReadQuoted(t) == Some((text, rest))
    ensures ReadQuoted([Quote, Quote] + t) == Some(([Quote] + text, rest))
  {
    assert ([Quote, Quote] + t)[2..] == t;
  }

  lemma ReadQuotedAfterChar(x: char, t: string, text: string, rest: string)
    requires x != Quote
    requires ReadQuoted(t) == Some((text, rest))
    ensures ReadQuoted([x] + t) == Some(([x] + text, rest))
  {
    assert ([x] + t)[1..] == t;
  }

  lemma ReadQuotedClose(rest: string)
    requires rest == [] || rest[0] != Quote
    ensures ReadQuoted([Quote] + rest) == Some(([], rest))
  {
    assert ([Quote] + rest)[1..] == rest;
  }

  lemma {:induction false} ReadQuotedDoubled(c: string, rest: string)
    requires rest == [] || rest[0] != Quote
    ensures ReadQuoted(DoubleQuotes(c) + [Quote] + rest) == Some((c, rest))
    decreases |c|
  {
    if c == [] {
      assert DoubleQuotes(c) + [Quote] + rest == [Quote] + rest;
      ReadQuotedClose(rest);
    } else {
      ReadQuotedDoubled(c[1..], rest);
      ReadQuotedDoubledStep(c, rest);
    }
  }

  lemma ReadQuotedDoubledStep(c: string, rest: string)
    requires c != []
    requires ReadQuoted(DoubleQuotes(c[1..]) + [Quote] + rest) == Some((c[1..], rest))
    ensures ReadQuoted(DoubleQuotes(c) + [Quote] + rest) == Some((c, rest))
  {
    var d := DoubleQuotes(c[1..]);
    var tail := d + [Quote] + rest;
    assert c == [c[0]] + c[1..];
    if c[0] == Quote {
      assert DoubleQuotes(c) == [Quote, Quote] + d;
      Regroup([Quote, Quote], d, [Quote], rest);
      ReadQuotedAfterPair(tail, c[1..], rest);
    } else {
      assert DoubleQuotes(c) == [c[0]] + d;
      Regroup([c[0]], d, [Quote], rest);
      ReadQuotedAfterChar(c[0], tail, c[1..], rest);
    }
  }

  lemma Regroup(a: string, b: string, c: string, d: string)
    ensures a + b + c + d == a + (b + c + d)
  {
  }

  lemma {:induction false} ReadPlainText(c: string, rest: string)
    requires ',' !in c && '\n' !in c
    requires FieldEnd(rest)
    ensures ReadPlain(c + rest) == (c, rest)
    decreases |c|
  {
    if c == [] {
      assert c + rest == rest;
    } else {
      assert (c + rest)[1..] == c[1..] + rest;
      ReadPlainText(c[1..], rest);
      assert c == [c[0]] + c[1..];
    }
  }

  /** Every written cell is read back whole, whatever separator follows it. */
  lemma ReadEncodedCell(c: string, rest: string)
    requires FieldEnd(rest)
    ensures ReadField(EncodeCell(c) + rest) == Some((c, rest))
  {
    if NeedsQuoting(c) {
      ReadQuotedCell(c, rest);
    } else {
      ReadPlainCell(c, rest);
    }
  }

  lemma ReadQuotedCell(c: string, rest: string)
    requires FieldEnd(rest) && NeedsQuoting(c)
    ensures ReadField(EncodeCell(c) + rest) == Some((c, rest))
  {
    var body := DoubleQuotes(c) + [Quote] + rest;
    Regroup([Quote], DoubleQuotes(c), [Quote], rest);
    assert EncodeCell(c) + rest == [Quote] + body;
    assert ([Quote] + body)[1..] == body;
    ReadQuotedDoubled(c, rest);
  }

  lemma ReadPlainCell(c: string, rest: string)
    requires FieldEnd(rest) && !NeedsQuoting(c)
    ensures ReadField(EncodeCell(c) + rest) == Some((c, rest))
  {
    var s := c + rest;
    assert |s| >= 1 ==> s[0] != Quote by {
      if c != [] {
        assert s[0] == c[0];
      } else {
        assert s == rest;
      }
    }
    ReadPlainText(c, rest);
  }

  lemma ReadRowsLast(s: string, cell: string)
    requires ReadField(s) == Some((cell, []))
    ensures ReadRows(s) == Some([[cell]])
  {
  }

  lemma ReadRowsComma(s: string, cell: string, rest: string, rows: seq<seq<string>>)
    requires ReadField(s) == Some((cell, [','] + rest))
    requires ReadRows(rest) == Some(rows)
    ensures ReadRows(s) == Some([[cell] + rows[0]] + rows[1..])
  {
    assert ([','] + rest)[1..] == rest;
  }

  lemma ReadRowsNewline(s: string, cell: string, rest: string, rows: seq<seq<string>>)
    requires ReadField(s) == Some((cell, ['\n'] + rest))
    requires ReadRows(rest) == Some(rows)
    ensures ReadRows(s) == Some([[cell]] + rows)
  {
    assert (['\n'] + rest)[1..] == rest;
  }

  /** A written line followed by the end or by a line feed and further
      lines is read as that row followed by the further rows. */
  lemma {:induction false} ReadEncodedRow(row: seq<string>, tail: string, more: seq<seq<string>>)
    requires |row| >= 1
    requires (tail == [] && more == []) ||
             (|tail| >= 1 && tail[0] == '\n' && ReadRows(tail[1..]) == Some(more))
    ensures ReadRows(EncodeRow(row) + tail) == Some([row] + more)
    decreases |row|
  {
    if |row| == 1 {
      ReadEncodedRowLast(row, tail, more);
    } else {
      var rest := EncodeRow(row[1..]) + tail;
      ReadEncodedRow(row[1..], tail, more);
      ReadEncodedRowStep(row, tail, rest, more);
    }
  }

  lemma ReadEncodedRowLast(row: seq<string>, tail: string, more: seq<seq<string>>)
    requires |row| == 1
    requires (tail == [] && more == []) ||
             (|tail| >= 1 && tail[0] == '\n' && ReadRows(tail[1..]) == Some(more))
    ensures ReadRows(EncodeRow(row) + tail) == Some([row] + more)
  {
    var c := row[0];
    assert EncodeRow(row) == EncodeCell(c);
    assert row == [c];
    ReadEncodedCell(c, tail);
    if tail == [] {
      ReadRowsLast(EncodeCell(c) + tail, c);
      assert [row] + more == [[c]];
    } else {
      assert tail == ['\n'] + tail[1..];
      ReadRowsNewline(EncodeCell(c) + tail, c, tail[1..], more);
    }
  }

  lemma ReadEncodedRowStep(row: seq<string>, tail: string, rest: string, more: seq<seq<string>>)
    requires |row| >= 2
    requires rest == EncodeRow(row[1..]) + tail
    requires ReadRows(rest) == Some([row[1..]] + more)
    ensures ReadRows(EncodeRow(row) + tail) == Some([row] + more)
  {
    var cells := EncodeCells(row);
    assert EncodeCells(row[1..]) == cells[1..];
    assert EncodeRow(row) == EncodeCell(row[0]) + [','] + EncodeRow(row[1..]);
    Regroup(EncodeCell(row[0]), [','], EncodeRow(row[1..]), tail);
    assert [','] + EncodeRow(row[1..]) + tail == [','] + rest;
    ReadEncodedCell(row[0], [','] + rest);
    ReadRowsComma(EncodeRow(row) + tail, row[0], rest, [row[1..]] + more);
    assert [row[0]] + row[1..] == row;
  }

  lemma {:induction false} ReadEncodedLines(data: seq<seq<string>>)
    requires |data| >= 1
    requires forall i :: 0 <= i < |data| ==> |data[i]| >= 1
    ensures ReadRows(Join('\n', EncodeRows(data))) == Some(data)
    decreases |data|
  {
    if |data| == 1 {
      assert Join('\n', EncodeRows(data)) == EncodeRow(data[0]);
      ReadEncodedRow(data[0], [], []);
      assert EncodeRow(data[0]) + [] == EncodeRow(data[0]);
      assert data == [data[0]] + [];
    } else {
      ReadEncodedLines(data[1..]);
      ReadEncodedLinesStep(data);
    }
  }

  lemma ReadEncodedLinesStep(data: seq<seq<string>>)
    requires |data| >= 2 && |data[0]| >= 1
    requires ReadRows(Join('\n', EncodeRows(data[1..]))) == Some(data[1..])
    ensures ReadRows(Join('\n', EncodeRows(data))) == Some(data)
  {
    var lines := EncodeRows(data);
    assert EncodeRows(data[1..]) == lines[1..];
    var tail := ['\n'] + Join('\n', lines[1..]);
    assert tail[1..] == Join('\n', lines[1..]);
    assert Join('\n', lines) == EncodeRow(data[0]) + tail;
    ReadEncodedRow(data[0], tail, data[1..]);
    assert [data[0]] + data[1..] == data;
  }

  /** The round trip of the export: reading the downloaded document gives
      back the rows, provided no row is empty (an empty row and a row of
      one empty cell are both written as an empty line) and the data is not
      the single empty cell (written, like no data, as the mark alone). */
  lemma DocumentRoundTrip(data: seq<seq<string>>)
    requires forall i :: 0 <= i < |data| ==> |data[i]| >= 1
    requires data != [[""]]
    ensures ReadDocument(Document(data)) == Some(data)
  {
    var doc := Document(data);
    if data != [] {
      var lines := EncodeRows(data);
      ReadEncodedLines(data);
      assert doc[1..] == Join('\n', lines);
      if |data| >= 2 {
        assert |Join('\n', lines)| >= 1;
      } else if |data[0]| >= 2 {
        assert Join('\n', lines) == lines[0];
        assert |EncodeRow(data[0])| >= 1;
      } else {
        assert Join('\n', lines) == lines[0] == EncodeCell(data[0][0]);
        assert data[0] == [data[0][0]];
        assert |EncodeCell(data[0][0])| >= 1;
      }
    }
  }

  /** Both lines of the ambiguity: `[]` and `[""]` are written alike. */
  lemma EmptyRowIsAmbiguous()
    ensures Document([[], ["x"]]) == Document([[""], ["x"]])
  {
  }

  // ---------------------------------------------------------------------
  // The file name
  // ---------------------------------------------------------------------

  /** `String(n)` for a non-negative integer: decimal, no leading zeros. */
  function DecimalString(n: nat): (r: string)
    ensures |r| >= 1 && AllDigits(r)
    ensures n >= 1 ==> r[0] != '0'
    decreases n
  {
    if n < 10 then [DigitChar(n)] else DecimalString(n / 10) + [DigitChar(n % 10)]
  }

  function DigitChar(d: nat): (c: char)
    requires d < 10
    ensures '0' <= c <= '9'
    ensures d >= 1 ==> c != '0'
  {
    ['0', '1', '2', '3', '4', '5', '6', '7', '8', '9'][d]
  }

  predicate AllDigits(s: string) {
    forall i :: 0 <= i < |s| ==> '0' <= s[i] <= '9'
  }

  /** The number a string of decimal digits denotes (a reader for stamps). */
  function DigitsValue(s: string): int
    decreases |s|
  {
    if s == [] then 0
    else DigitsValue(s[..|s| - 1]) * 10 + (s[|s| - 1] as int - '0' as int)
  }

  /** `padStart(len, fill)`: pads on the left up to `len` characters. */
  function PadStart(s: string, len: nat, fill: char): (r: string)
    ensures |s| < len ==> |r| == len
    ensures |s| >= len ==> r == s
    ensures r[|r| - |s|..] == s
    ensures forall i :: 0 <= i < |r| - |s| ==> r[i] == fill
  {
    if |s| >= len then s else seq(len - |s|, _ => fill) + s
  }

  /** The `YYYYMMDD` stamp of `exportToExcel`, built from the year, the
      zero-based month index and the day of the month. */
  function DateStamp(year: nat, monthIndex: int, day: int): (r: string)
    requires 0 <= monthIndex <= 11 && 1 <= day <= 31
    ensures |r| == |DecimalString(year)| + 4
    ensures AllDigits(r)
    ensures DigitsValue(r[..|r| - 4]) == year
    ensures DigitsValue(r[|r| - 4..|r| - 2]) == monthIndex + 1
    ensures DigitsValue(r[|r| - 2..]) == day
  {
    var y := DecimalString(year);
    var m := PadStart(DecimalString(monthIndex + 1), 2, '0');
    var d := PadStart(DecimalString(day), 2, '0');
    var r := y + m + d;
    TwoDigitPad(monthIndex + 1);
    TwoDigitPad(day);
    DecimalRoundTrip(year);
    StampParts(y, m, d);
    assert r[..|r| - 4] == y;
    assert r[|r| - 4..|r| - 2] == m;
    assert r[|r| - 2..] == d;
    r
  }

  lemma StampParts(y: string, m: string, d: string)
    requires |m| == 2 && |d| == 2
    requires AllDigits(y) && AllDigits(m) && AllDigits(d)
    ensures AllDigits(y + m + d)
    ensures (y + m + d)[..|y|] == y
    ensures (y + m + d)[|y|..|y| + 2] == m
    ensures (y + m + d)[|y| + 2..] == d
  {
  }

  const FileNamePrefix := "APP版號管理報表_"
  const FileNameSuffix := ".csv"

  /** `APP版號管理報表_<YYYYMMDD>.csv`: the prefix, the stamp, the
      extension. */
  function ExportFileName(year: nat, monthIndex: int, day: int): (r: string)
    requires 0 <= monthIndex <= 11 && 1 <= day <= 31
    ensures |r| == |FileNamePrefix| + |DecimalString(year)| + 4 + |FileNameSuffix|
    ensures r[..|FileNamePrefix|] == FileNamePrefix
    ensures r[|FileNamePrefix|..|r| - |FileNameSuffix|] == DateStamp(year, monthIndex, day)
    ensures r[|r| - |FileNameSuffix|..] == FileNameSuffix
  {
    var stamp := DateStamp(year, monthIndex, day);
    ThreeParts(FileNamePrefix, stamp, FileNameSuffix);
    FileNamePrefix + stamp + FileNameSuffix
  }

  lemma ThreeParts(a: string, b: string, c: string)
    ensures |a + b + c| == |a| + |b| + |c|
    ensures (a + b + c)[..|a|] == a
    ensures (a + b + c)[|a|..|a + b + c| - |c|] == b
    ensures (a + b + c)[|a + b + c| - |c|..] == c
  {
  }

  /** Reading the decimal text of a number gives the number. */
  lemma {:induction false} DecimalRoundTrip(n: nat)
    ensures DigitsValue(DecimalString(n)) == n
    decreases n
  {
    var s := DecimalString(n);
    DigitCharValue(n % 10);
    if n < 10 {
      assert s == [DigitChar(n)] && s[..0] == [];
    } else {
      DecimalRoundTrip(n / 10);
      assert s == DecimalString(n / 10) + [DigitChar(n % 10)];
      assert s[..|s| - 1] == DecimalString(n / 10);
      assert DigitsValue(s) == (n / 10) * 10 + n % 10;
    }
  }

  lemma DigitCharValue(d: nat)
    requires d < 10
    ensures DigitChar(d) as int - '0' as int == d
  {
  }

  lemma {:induction false} LeadingZerosAreIgnored(k: nat, s: string)
    ensures DigitsValue(seq(k, _ => '0') + s) == DigitsValue(s)
    decreases |s|
  {
    var z := seq(k, _ => '0');
    if s == [] {
      assert z + s == z;
      ZerosAreZero(k);
    } else {
      LeadingZerosAreIgnored(k, s[..|s| - 1]);
      assert (z + s)[..|z + s| - 1] == z + s[..|s| - 1];
    }
  }

  lemma {:induction false} ZerosAreZero(k: nat)
    ensures DigitsValue(seq(k, _ => '0')) == 0
    decreases k
  {
    if k > 0 {
      ZerosAreZero(k - 1);
      assert seq(k, _ => '0')[..k - 1] == seq(k - 1, _ => '0');
    }
  }

  /** A month or a day is padded to exactly two digits that read back as it. */
  lemma TwoDigitPad(n: nat)
    requires 1 <= n <= 99
    ensures |PadStart(DecimalString(n), 2, '0')| == 2
    ensures AllDigits(PadStart(DecimalString(n), 2, '0'))
    ensures DigitsValue(PadStart(DecimalString(n), 2, '0')) == n
  {
    var s := DecimalString(n);
    DecimalRoundTrip(n);
    if n >= 10 {
      assert DecimalString(n / 10) == [DigitChar(n / 10)];
    } else {
      assert |s| == 1;
      LeadingZerosAreIgnored(1, s);
    }
  }

  /** A four-digit year gives the familiar eight-digit stamp. */
  lemma StampOfFourDigitYear(year: nat, monthIndex: int, day: int)
    requires 1000 <= year <= 9999
    requires 0 <= monthIndex <= 11 && 1 <= day <= 31
    ensures |DateStamp(year, monthIndex, day)| == 8
    ensures DigitsValue(DateStamp(year, monthIndex, day)) == year * 10000 + (monthIndex + 1) * 100 + day
  {
    var r := DateStamp(year, monthIndex, day);
    FourDigits(year);
    EightDigitValue(r);
  }

  /** Eight digits read as four, two and two digits in their places. */
  lemma EightDigitValue(r: string)
    requires |r| == 8
    ensures DigitsValue(r) == DigitsValue(r[..4]) * 10000 + DigitsValue(r[4..6]) * 100 + DigitsValue(r[6..])
  {
    var a, b, c := r[..4], r[4..6], r[6..];
    assert a + b + c == r;
    DigitsAppend(a + b, c);
    DigitsAppend(a, b);
    Positional(DigitsValue(a), DigitsValue(b), DigitsValue(c));
  }

  lemma Positional(y: int, m: int, d: int)
    ensures (y * 100 + m) * 100 + d == y * 10000 + m * 100 + d
  {
  }

  lemma FourDigits(year: nat)
    requires 1000 <= year <= 9999
    ensures |DecimalString(year)| == 4
  {
    var a, b, c := year / 10, year / 10 / 10, year / 10 / 10 / 10;
    assert 1 <= c < 10 && 10 <= b < 100 && 100 <= a < 1000;
    assert |DecimalString(c)| == 1;
    assert |DecimalString(b)| == 2;
    assert |DecimalString(a)| == 3;
  }

  lemma DigitsAppend(a: string, b: string)
    requires |b| == 2
    ensures DigitsValue(a + b) == DigitsValue(a) * 100 + DigitsValue(b)
  {
    var ab := a + b;
    var d0, d1 := b[0] as int - '0' as int, b[1] as int - '0' as int;
    assert ab[..|ab| - 1] == a + [b[0]];
    assert (a + [b[0]])[..|a|] == a;
    assert DigitsValue(ab) == DigitsValue(a + [b[0]]) * 10 + d1;
    assert DigitsValue(a + [b[0]]) == DigitsValue(a) * 10 + d0;
    assert b[..1] == [b[0]];
    assert [b[0]][..0] == [];
    assert DigitsValue(b) == DigitsValue([b[0]]) * 10 + d1;
    assert DigitsValue([b[0]]) == d0;
    assert (DigitsValue(a) * 10 + d0) * 10 + d1 == DigitsValue(a) * 100 + (d0 * 10 + d1);
  }
}
