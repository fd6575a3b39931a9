/** The CSV reader `parseCSV`: the first line names the columns, every later
    non-blank line becomes one row binding each column name to the trimmed
    value at the same position. Fields are cut at every comma; there is no
    quoting or escaping. */
module CsvParser {
  import opened JsStrings

  /** A parsed data line: column name to text value. */
  type Row = map<string, string>

  // ---------------------------------------------------------------------
  // Specification
  // ---------------------------------------------------------------------

  /** The column names: the pieces of the header line cut at commas, each
      trimmed, in order. There is one per piece, so at least one even for an
      empty line: reading the header never fails. */
  function HeaderNames(firstLine: string): (names: seq<string>)
    ensures |names| == |Split(firstLine, ',')| >= 1
  {
    var pieces := Split(firstLine, ',');
    seq(|pieces|, j requires 0 <= j < |pieces| => Trim(pieces[j]))
  }

  /** The value bound to column `j`: the line's `j`-th value trimmed, or the
      empty string when the line has no `j`-th value. */
  function Cell(values: seq<string>, j: nat): (cell: string)
    ensures |cell| <= if j < |values| then |values[j]| else 0
  {
    if j < |values| then Trim(values[j]) else ""
  }

  /** The row built from a line's values by assigning the columns one after
      another, left to right. It binds no name other than a column name. */
  function BuildRow(headers: seq<string>, values: seq<string>): (row: Row)
    ensures forall h :: h in row ==> h in headers
  {
    if headers == [] then map[]
    else
      var n := |headers| - 1;
      BuildRow(headers[..n], values)[headers[n] := Cell(values, n)]
  }

  /** The row a data line yields: the line is trimmed, then cut at commas. */
  function RowOf(headers: seq<string>, line: string): (row: Row)
    ensures forall h :: h in row ==> h in headers
  {
    BuildRow(headers, Split(Trim(line), ','))
  }

  /** The rows of the data lines, in order; blank lines yield none. */
  function DataRows(headers: seq<string>, lines: seq<string>): (rows: seq<Row>)
    ensures |rows| <= |lines|
  {
    if lines == [] then []
    else
      var n := |lines| - 1;
      DataRows(headers, lines[..n])
        + (if Trim(lines[n]) == [] then [] else [RowOf(headers, lines[n])])
  }

  /** The rows of the given lines, one per line and in the same order. */
  function RowsOf(headers: seq<string>, kept: seq<string>): seq<Row>
  {
    seq(|kept|, k requires 0 <= k < |kept| => RowOf(headers, kept[k]))
  }

  /** What `parseCSV` returns for a text: the text is cut into lines at
      '\n', the first line gives the column names and the rest the rows.
      The first line never yields a row, so there are fewer rows than lines. */
  function CsvRows(text: string): (rows: seq<Row>)
    ensures |rows| < |Split(text, '\n')|
  {
    var lines := Split(text, '\n');
    DataRows(HeaderNames(lines[0]), lines[1..])
  }

  /** The lines that are not blank once trimmed, in their original order. */
  function NonBlankLines(lines: seq<string>): (kept: seq<string>)
    ensures |kept| <= |lines|
  {
    if lines == [] then []
    else
      var n := |lines| - 1;
      NonBlankLines(lines[..n]) + (if Trim(lines[n]) == [] then [] else [lines[n]])
  }

  // ---------------------------------------------------------------------
  // The parser
  // ---------------------------------------------------------------------

  /** `parseCSV(csvText)`: an outer loop over the lines that appends one row
      per non-blank line, and an inner loop that fills the row column by
      column. */
  method ParseCSV(csvText: string) returns (result: seq<Row>)
    ensures result == CsvRows(csvText)
  {
    var lines := Split(csvText, '\n');
    result := [];
    var headers := HeaderNames(lines[0]);
    for i := 1 to |lines|
      invariant result == DataRows(headers, lines[1..i])
    {
      var line := Trim(lines[i]);
      if line == [] {
        DataRowsStep(headers, lines, i);
        continue;
      }
      var values := Split(line, ',');
      var row: Row := map[];
      for j := 0 to |headers|
        invariant row == BuildRow(headers[..j], values)
      {
        BuildRowStep(headers, values, j);
        // `values[j]?.trim() || ''`: a missing value reads as the empty string
        var cell := if j < |values| then Trim(values[j]) else "";
        assert cell == Cell(values, j);
        row := row[headers[j] := cell];
      }
      assert headers[..|headers|] == headers;
      DataRowsStep(headers, lines, i);
      result := result + [row];
    }
    assert lines[1..|lines|] == lines[1..];
  }

  /** The outer loop's step: one more line adds its row unless it is blank. */
  lemma DataRowsStep(headers: seq<string>, lines: seq<string>, i: nat)
    requires 1 <= i < |lines|
    ensures DataRows(headers, lines[1..i + 1]) == DataRows(headers, lines[1..i])
      + (if Trim(lines[i]) == [] then [] else [RowOf(headers, lines[i])])
  {
    assert lines[1..i + 1][..i - 1] == lines[1..i];
  }

  /** The inner loop's step: one more column is assigned its cell. */
  lemma BuildRowStep(headers: seq<string>, values: seq<string>, j: nat)
    requires j < |headers|
    ensures BuildRow(headers[..j + 1], values) == BuildRow(headers[..j], values)[headers[j] := Cell(values, j)]
  {
    assert headers[..j + 1][..j] == headers[..j];
  }

  // ---------------------------------------------------------------------
  // Properties
  // ---------------------------------------------------------------------

  /** The header names are the first line's comma-separated pieces, trimmed
      and in order: one more than the commas in that line, each free of
      commas and of whitespace at its ends. */
  lemma HeaderNamesSpec(firstLine: string)
    ensures |HeaderNames(firstLine)| == multiset(firstLine)[','] + 1
    ensures forall j :: 0 <= j < |HeaderNames(firstLine)| ==>
      && HeaderNames(firstLine)[j] == Trim(Split(firstLine, ',')[j])
      && ',' !in HeaderNames(firstLine)[j]
      && Trim(HeaderNames(firstLine)[j]) == HeaderNames(firstLine)[j]
  {
    SplitCount(firstLine, ',');
    var pieces := Split(firstLine, ',');
    forall j | 0 <= j < |pieces|
      ensures ',' !in Trim(pieces[j]) && Trim(Trim(pieces[j])) == Trim(pieces[j])
    {
      var p, q := TrimSlice(pieces[j]);
      TrimIdempotent(pieces[j]);
      assert forall k :: 0 <= k < |Trim(pieces[j])| ==> Trim(pieces[j])[k] == pieces[j][|p| + k];
    }
  }

  /** A cell is empty past the end of the values; otherwise it is the value
      with the whitespace at both ends cut away, so it is already trimmed. */
  lemma CellSpec(values: seq<string>, j: nat)
    ensures j >= |values| ==> Cell(values, j) == ""
    ensures j < |values| ==> exists p, q ::
      AllWhitespace(p) && AllWhitespace(q) && values[j] == p + Cell(values, j) + q
    ensures Trim(Cell(values, j)) == Cell(values, j)
  {
    if j < |values| {
      CellIsTrimmed(values[j]);
    } else {
      assert Trim([]) == [];
    }
  }

  /** A trimmed value sits between whitespace and is already trimmed. */
  lemma CellIsTrimmed(v: string)
    ensures exists p, q :: AllWhitespace(p) && AllWhitespace(q) && v == p + Trim(v) + q
    ensures Trim(Trim(v)) == Trim(v)
  {
    var p, q := TrimSlice(v);
    TrimIdempotent(v);
  }

  /** A built row binds exactly the header names, whatever the values. */
  lemma {:induction false} BuildRowKeys(headers: seq<string>, values: seq<string>)
    ensures BuildRow(headers, values).Keys == set h | h in headers
  {
    if headers != [] {
      var n := |headers| - 1;
      BuildRowKeys(headers[..n], values);
      ElementsOfSnoc(headers, headers[..n], headers[n]);
    }
  }

  /** The elements of a non-empty sequence: those before the last, and the last. */
  lemma ElementsOfSnoc<T>(s: seq<T>, init: seq<T>, last: T)
    requires s != [] && init == s[..|s| - 1] && last == s[|s| - 1]
    ensures (set x | x in s) == (set x | x in init) + {last}
  {
    assert s == init + [last];
  }

  /** Column `j` of a built row holds the `j`-th value trimmed, or the empty
      string past the end of the values, unless a later column has the same
      name. */
  lemma {:induction false} BuildRowLookup(headers: seq<string>, values: seq<string>, j: nat)
    requires j < |headers|
    requires forall k :: j < k < |headers| ==> headers[k] != headers[j]
    ensures headers[j] in BuildRow(headers, values)
    ensures BuildRow(headers, values)[headers[j]] == Cell(values, j)
  {
    var n := |headers| - 1;
    var prev := BuildRow(headers[..n], values);
    assert BuildRow(headers, values) == prev[headers[n] := Cell(values, n)];
    if j < n {
      assert headers[..n][j] == headers[j];
      BuildRowLookup(headers[..n], values, j);
      assert headers[n] != headers[j];
    }
  }

  /** A built row depends only on the cells of the named columns. */
  lemma {:induction false} BuildRowSameCells(headers: seq<string>, v1: seq<string>, v2: seq<string>)
    requires forall j :: 0 <= j < |headers| ==> Cell(v1, j) == Cell(v2, j)
    ensures BuildRow(headers, v1) == BuildRow(headers, v2)
  {
    if headers != [] {
      BuildRowSameCells(headers[..|headers| - 1], v1, v2);
    }
  }

  /** The cells of a data line are those of its untrimmed form: trimming the
      whole line only cuts whitespace that trimming each value cuts anyway. */
  lemma CellsOfLine(line: string, j: nat)
    ensures Cell(Split(Trim(line), ','), j) == Cell(Split(line, ','), j)
  {
    TrimThenSplit(line, ',');
  }

  /** Every row binds exactly the header names, whatever the number of
      values on its line. For a column whose name no later column repeats,
      the value is the line's value at that position, trimmed, and the empty
      string when the line is too short. */
  lemma RowOfLookup(headers: seq<string>, line: string, j: nat)
    requires j < |headers|
    requires forall k :: j < k < |headers| ==> headers[k] != headers[j]
    ensures RowOf(headers, line).Keys == set h | h in headers
    ensures var values := Split(line, ',');
      RowOf(headers, line)[headers[j]] == if j < |values| then Trim(values[j]) else ""
  {
    BuildRowKeys(headers, Split(Trim(line), ','));
    BuildRowLookup(headers, Split(Trim(line), ','), j);
    CellsOfLine(line, j);
  }

  /** With a repeated column name, the row holds the value of the last
      column bearing it: the later assignment overwrites the earlier one. */
  lemma DuplicateHeaderLastWins(headers: seq<string>, line: string, i: nat, j: nat)
    requires i < j < |headers| && headers[i] == headers[j]
    requires forall k :: j < k < |headers| ==> headers[k] != headers[j]
    ensures headers[i] in RowOf(headers, line)
    ensures RowOf(headers, line)[headers[i]] == Cell(Split(line, ','), j)
  {
    RowOfLookup(headers, line, j);
  }

  /** Values beyond the header count are ignored: appending further
      comma-separated fields to a line that already has a value for every
      column leaves its row unchanged. */
  lemma ExtraFieldsIgnored(headers: seq<string>, line: string, extra: string)
    requires |headers| <= |Split(line, ',')|
    ensures RowOf(headers, line + [','] + extra) == RowOf(headers, line)
  {
    var longer := line + [','] + extra;
    SplitAtSep(line, extra, ',');
    forall j | 0 <= j < |headers|
      ensures Cell(Split(Trim(longer), ','), j) == Cell(Split(Trim(line), ','), j)
    {
      CellsOfLine(longer, j);
      CellsOfLine(line, j);
    }
    BuildRowSameCells(headers, Split(Trim(longer), ','), Split(Trim(line), ','));
  }

  /** The rows are those of the non-blank lines, one per such line and in
      line order: skipping blank lines, then reading the rest, gives the
      same result as the loop that tests each line as it goes. */
  lemma {:induction false} DataRowsFollowLines(headers: seq<string>, lines: seq<string>)
    ensures DataRows(headers, lines) == RowsOf(headers, NonBlankLines(lines))
  {
    if lines != [] {
      var n := |lines| - 1;
      DataRowsFollowLines(headers, lines[..n]);
      if Trim(lines[n]) != [] {
        KeptLine(headers, lines);
        RowsOfSnoc(headers, NonBlankLines(lines[..n]), lines[n]);
      } else {
        BlankLine(headers, lines);
      }
    }
  }

  /** A line is kept exactly when it is one of the lines and is not blank
      once trimmed. */
  lemma {:induction false} NonBlankLinesSpec(lines: seq<string>)
    ensures forall x :: x in NonBlankLines(lines) <==> x in lines && Trim(x) != []
  {
    if lines != [] {
      var n := |lines| - 1;
      NonBlankLinesSpec(lines[..n]);
      NonBlankLinesStep(lines);
      ElementsOfSnoc(lines, lines[..n], lines[n]);
    }
  }

  /** One more line is kept unless it is blank. */
  lemma NonBlankLinesStep(lines: seq<string>)
    requires lines != []
    ensures NonBlankLines(lines) == NonBlankLines(lines[..|lines| - 1])
      + (if Trim(lines[|lines| - 1]) == [] then [] else [lines[|lines| - 1]])
  {
  }

  /** A last line that is blank adds neither a row nor a kept line. */
  lemma BlankLine(headers: seq<string>, lines: seq<string>)
    requires lines != [] && Trim(lines[|lines| - 1]) == []
    ensures DataRows(headers, lines) == DataRows(headers, lines[..|lines| - 1])
    ensures NonBlankLines(lines) == NonBlankLines(lines[..|lines| - 1])
  {
  }

  /** A last line that is not blank adds its row and is kept. */
  lemma KeptLine(headers: seq<string>, lines: seq<string>)
    requires lines != [] && Trim(lines[|lines| - 1]) != []
    ensures DataRows(headers, lines) == DataRows(headers, lines[..|lines| - 1]) + [RowOf(headers, lines[|lines| - 1])]
    ensures NonBlankLines(lines) == NonBlankLines(lines[..|lines| - 1]) + [lines[|lines| - 1]]
  {
  }

  /** One more line adds its row at the end. */
  lemma RowsOfSnoc(headers: seq<string>, kept: seq<string>, line: string)
    ensures RowsOf(headers, kept + [line]) == RowsOf(headers, kept) + [RowOf(headers, line)]
  {
  }

  /** The parsed rows are the rows of the non-blank lines after the first,
      in order, so there are as many rows as such lines. */
  lemma CsvRowsFollowLines(text: string)
    ensures var lines := Split(text, '\n');
      var data := NonBlankLines(lines[1..]);
      && |CsvRows(text)| == |data|
      && forall k :: 0 <= k < |data| ==>
           CsvRows(text)[k] == RowOf(HeaderNames(lines[0]), data[k])
  {
    var lines := Split(text, '\n');
    DataRowsFollowLines(HeaderNames(lines[0]), lines[1..]);
  }

  /** Every parsed row has exactly the header names as its keys. */
  lemma {:induction false} DataRowsKeys(headers: seq<string>, lines: seq<string>)
    ensures forall k :: 0 <= k < |DataRows(headers, lines)| ==>
      DataRows(headers, lines)[k].Keys == set h | h in headers
  {
    if lines != [] {
      var n := |lines| - 1;
      DataRowsKeys(headers, lines[..n]);
      BuildRowKeys(headers, Split(Trim(lines[n]), ','));
    }
  }

  /** Every parsed row has exactly the header names as its keys. */
  lemma CsvRowsKeys(text: string)
    ensures forall k :: 0 <= k < |CsvRows(text)| ==>
      CsvRows(text)[k].Keys == set h | h in HeaderNames(Split(text, '\n')[0])
  {
    var lines := Split(text, '\n');
    DataRowsKeys(HeaderNames(lines[0]), lines[1..]);
  }

  /** The first line only names the columns and never yields a row: the
      text after its newline is read as data lines under those names. */
  lemma FirstLineIsHeader(first: string, rest: string)
    requires '\n' !in first
    ensures CsvRows(first + ['\n'] + rest) == DataRows(HeaderNames(first), Split(rest, '\n'))
  {
    SplitAtSep(first, rest, '\n');
    SplitWithoutSep(first, '\n');
    assert Split(first + ['\n'] + rest, '\n') == [first] + Split(rest, '\n');
  }

  /** A text without a newline, the empty text among them, is a header
      line at most and gives no rows. */
  lemma NoNewlineNoRows(text: string)
    requires '\n' !in text
    ensures CsvRows(text) == []
  {
    SplitWithoutSep(text, '\n');
  }

  /** Data lines that are all blank give no rows. */
  lemma {:induction false} BlankLinesNoRows(headers: seq<string>, lines: seq<string>)
    requires forall k :: 0 <= k < |lines| ==> Trim(lines[k]) == []
    ensures DataRows(headers, lines) == []
  {
    if lines != [] {
      var n := |lines| - 1;
      BlankLinesNoRows(headers, lines[..n]);
      BlankLine(headers, lines);
    }
  }

  /** A header line ended by a newline, as a saved file usually is, still
      gives no rows: the empty line after the newline is blank. */
  lemma HeaderLineOnlyNoRows(first: string)
    requires '\n' !in first
    ensures CsvRows(first + ['\n']) == []
  {
    HeaderThenEmptyLine(first);
    BlankLinesNoRows(HeaderNames(first), Split([], '\n'));
  }

  /** After a header line and its newline comes a single empty line. */
  lemma HeaderThenEmptyLine(first: string)
    requires '\n' !in first
    ensures CsvRows(first + ['\n']) == DataRows(HeaderNames(first), Split([], '\n'))
  {
    FirstLineIsHeader(first, []);
    assert first + ['\n'] + [] == first + ['\n'];
  }

  /** There are never more rows than newlines in the text. */
  lemma RowCountBound(text: string)
    ensures |CsvRows(text)| <= multiset(text)['\n']
  {
    SplitCount(text, '\n');
  }
}
