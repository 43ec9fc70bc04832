/**
 * The `csv_parser` module: a table parser built from parser combinators
 * (lines separated by '\n', fields by ','), and three queries that each
 * parse the input again and propagate a parse failure unchanged.
 *
 * The combinators are modelled by their observable effect: a step either
 * fails (`None`) or yields a value and the input it did not consume.
 */
module CsvParser {
  import opened Wrappers
  import opened Strings
  import opened IntParse

  /** `ParseError`. Its two `From` conversions are the constructors `ParseIntError` and `CsvParseError`. */
  datatype ParseError = ParseIntError(kind: IntErrorKind) | IndexOutOfBounds | CsvParseError

  type Row = seq<string>
  type Table = seq<Row>

  /** A successful combinator step: what it produced and the input left over. */
  datatype Parsed<T> = Parsed(value: T, rest: string)

  /** The characters a field cannot contain (`is_not(",\n")`). */
  const FIELD_STOPS: set<char> := {',', '\n'}

  /** `char::is_alphanumeric`, restricted to ASCII letters and digits. */
  predicate IsAlnum(c: char)
  {
    'a' <= c <= 'z' || 'A' <= c <= 'Z' || '0' <= c <= '9'
  }

  predicate AllAlnum(s: string) { forall i :: 0 <= i < |s| ==> IsAlnum(s[i]) }

  predicate AllCellsAlnum(cells: seq<string>) { forall j :: 0 <= j < |cells| ==> AllAlnum(cells[j]) }

  predicate IsCleanRow(row: Row) { |row| >= 1 && AllCellsAlnum(row) }

  predicate AllRowsClean(rows: Table) { forall i :: 0 <= i < |rows| ==> IsCleanRow(rows[i]) }

  /** What a successful parse guarantees: at least one row, no empty row, only alphanumeric cells. */
  predicate IsCleanTable(t: Table) { |t| >= 1 && AllRowsClean(t) }

  /** `t` is what is left of `s` after some prefix was consumed. */
  predicate IsSuffix(t: string, s: string) { |t| <= |s| && t == s[|s| - |t|..] }

  lemma SuffixOfSuffix(t: string, u: string, s: string)
    requires IsSuffix(t, u) && IsSuffix(u, s)
    ensures IsSuffix(t, s)
  {
    assert s[|s| - |u|..][|u| - |t|..] == s[|s| - |t|..];
  }

  lemma CellsCons(x: string, xs: seq<string>)
    requires AllAlnum(x) && AllCellsAlnum(xs)
    ensures AllCellsAlnum([x] + xs)
  {
    assert forall j :: 1 <= j < |xs| + 1 ==> ([x] + xs)[j] == xs[j - 1];
  }

  lemma RowsCons(row: Row, rows: Table)
    requires IsCleanRow(row) && AllRowsClean(rows)
    ensures AllRowsClean([row] + rows)
  {
    assert forall i :: 1 <= i < |rows| + 1 ==> ([row] + rows)[i] == rows[i - 1];
  }

  /** `clean_field`: the alphanumeric characters of the field, in their original order. */
  function Clean(field: string): (r: string)
    ensures AllAlnum(r)
    ensures |r| <= |field|
    decreases |field|
  {
    if field == [] then []
    else if IsAlnum(field[0]) then [field[0]] + Clean(field[1..])
    else Clean(field[1..])
  }

  /** `is_not(",\n")`: the longest run of characters other than ',' and '\n', failing when that run is empty. */
  function IsNot(s: string): (r: Option<Parsed<string>>)
    ensures r.None? <==> s == [] || s[0] in FIELD_STOPS
    ensures r.Some? ==>
      && r.value.value != [] && s == r.value.value + r.value.rest
      && (forall i :: 0 <= i < |r.value.value| ==> r.value.value[i] !in FIELD_STOPS)
      && (r.value.rest == [] || r.value.rest[0] in FIELD_STOPS)
  {
    var n := Span(s, FIELD_STOPS);
    if n == 0 then None else Some(Parsed(s[..n], s[n..]))
  }

  /** `parse_field`: one raw field, cleaned. */
  function ParseField(s: string): (r: Option<Parsed<string>>)
    ensures r.None? <==> s == [] || s[0] in FIELD_STOPS
    ensures r.Some? ==> AllAlnum(r.value.value) && |r.value.rest| < |s| && IsSuffix(r.value.rest, s)
    ensures r.Some? ==> r.value.rest == [] || r.value.rest[0] in FIELD_STOPS
  {
    match IsNot(s)
    case None => None
    case Some(raw) => Some(Parsed(Clean(raw.value), raw.rest))
  }

  /**
   * The loop of `separated_list1(char(','), parse_field)` after its first
   * field: a ',' followed by a field adds that field; the first ',' that is
   * not followed by a field ends the list and is left unconsumed.
   */
  function FieldsAfter(s: string): (r: Parsed<seq<string>>)
    ensures IsSuffix(r.rest, s)
    ensures AllCellsAlnum(r.value)
    ensures r.rest == [] || r.rest[0] != ',' || |r.rest| == 1 || r.rest[1] in FIELD_STOPS
    decreases |s|
  {
    if s != [] && s[0] == ',' then
      match ParseField(s[1..])
      case None => Parsed([], s)
      case Some(field) =>
        var more := FieldsAfter(field.rest);
        CellsCons(field.value, more.value);
        assert IsSuffix(field.rest, s) by { SuffixOfSuffix(field.rest, s[1..], s); }
        SuffixOfSuffix(more.rest, field.rest, s);
        Parsed([field.value] + more.value, more.rest)
    else
      Parsed([], s)
  }

  /** `parse_record`: `separated_list1(char(','), parse_field)`, which needs a first field. */
  function ParseRecord(s: string): (r: Option<Parsed<Row>>)
    ensures r.None? <==> s == [] || s[0] in FIELD_STOPS
    ensures r.Some? ==> IsCleanRow(r.value.value)
    ensures r.Some? ==> |r.value.rest| < |s| && IsSuffix(r.value.rest, s)
  {
    match ParseField(s)
    case None => None
    case Some(first) =>
      var more := FieldsAfter(first.rest);
      CellsCons(first.value, more.value);
      SuffixOfSuffix(more.rest, first.rest, s);
      Some(Parsed([first.value] + more.value, more.rest))
  }

  /** The loop of `separated_list1(newline, parse_record)` after its first record. */
  function RecordsAfter(s: string): (r: Parsed<Table>)
    ensures IsSuffix(r.rest, s)
    ensures AllRowsClean(r.value)
    ensures r.rest == [] || r.rest[0] != '\n' || |r.rest| == 1 || r.rest[1] in FIELD_STOPS
    decreases |s|
  {
    if s != [] && s[0] == '\n' then
      match ParseRecord(s[1..])
      case None => Parsed([], s)
      case Some(record) =>
        var more := RecordsAfter(record.rest);
        assert IsSuffix(record.rest, s) by { SuffixOfSuffix(record.rest, s[1..], s); }
        SuffixOfSuffix(more.rest, record.rest, s);
        RowsCons(record.value, more.value);
        Parsed([record.value] + more.value, more.rest)
    else
      Parsed([], s)
  }

  /**
   * `parse_csv`: `separated_list1(newline, parse_record)`; whatever input is
   * left unconsumed is dropped, and a failure becomes CsvParseError.
   */
  function ParseCsv(input: string): (r: Result<Table, ParseError>)
    ensures r.Err? <==> input == [] || input[0] in FIELD_STOPS
    ensures r.Err? ==> r.error == CsvParseError
    ensures r.Ok? ==> IsCleanTable(r.value)
  {
    match ParseRecord(input)
    case None => Err(CsvParseError)
    case Some(first) =>
      var more := RecordsAfter(first.rest);
      RowsCons(first.value, more.value);
      Ok([first.value] + more.value)
  }

  /** `parse_and_get_line_from_csv`: row `lineNumber` with its cells joined by ", ". */
  function GetLine(input: string, lineNumber: nat): (r: Result<string, ParseError>)
    ensures ParseCsv(input).Err? ==> r == Err(CsvParseError)
    ensures ParseCsv(input).Ok? ==> (r.Ok? <==> lineNumber < |ParseCsv(input).value|)
    ensures ParseCsv(input).Ok? && r.Err? ==> r.error == IndexOutOfBounds
    ensures ParseCsv(input).Ok? && lineNumber < |ParseCsv(input).value| ==>
      r == Ok(Join(ParseCsv(input).value[lineNumber], ", "))
  {
    match ParseCsv(input)
    case Err(e) => Err(e)
    case Ok(records) =>
      if lineNumber < |records| then Ok(Join(records[lineNumber], ", ")) else Err(IndexOutOfBounds)
  }

  /** Cell `colNumber` of every row, or IndexOutOfBounds when some row is too short. */
  function Column(records: Table, colNumber: nat): (r: Result<seq<string>, ParseError>)
    ensures r.Ok? <==> forall i :: 0 <= i < |records| ==> colNumber < |records[i]|
    ensures r.Ok? ==> |r.value| == |records| && forall i :: 0 <= i < |records| ==> r.value[i] == records[i][colNumber]
    ensures r.Err? ==> r == Err(IndexOutOfBounds) && exists i :: 0 <= i < |records| && |records[i]| <= colNumber
  {
    if forall i :: 0 <= i < |records| ==> colNumber < |records[i]|
    then Ok(seq(|records|, i requires 0 <= i < |records| && colNumber < |records[i]| => records[i][colNumber]))
    else Err(IndexOutOfBounds)
  }

  /** What `parse_and_get_col_from_csv` returns, as a function for the other members to use. */
  function ColumnOf(input: string, colNumber: nat): (r: Result<seq<string>, ParseError>)
    ensures ParseCsv(input).Err? ==> r == Err(CsvParseError)
    ensures ParseCsv(input).Ok? ==> r == Column(ParseCsv(input).value, colNumber)
    ensures r.Ok? ==> forall i :: 0 <= i < |r.value| ==> AllAlnum(r.value[i])
  {
    match ParseCsv(input)
    case Err(e) => Err(e)
    case Ok(records) => Column(records, colNumber)
  }

  /** `column` holds cell `c` of the first `|column|` rows. */
  predicate IsColumnPrefix(records: Table, c: nat, column: seq<string>)
  {
    |column| <= |records| && forall j :: 0 <= j < |column| ==> c < |records[j]| && column[j] == records[j][c]
  }

  lemma ColumnPrefixExtend(records: Table, c: nat, column: seq<string>)
    requires IsColumnPrefix(records, c, column) && |column| < |records| && c < |records[|column|]|
    ensures IsColumnPrefix(records, c, column + [records[|column|][c]])
  {
  }

  lemma ColumnPrefixDone(records: Table, c: nat, column: seq<string>)
    requires IsColumnPrefix(records, c, column) && |column| == |records|
    ensures Column(records, c) == Ok(column)
  {
    assert column == seq(|records|, j requires 0 <= j < |records| && c < |records[j]| => records[j][c]);
  }

  /**
   * `parse_and_get_col_from_csv`: pushes cell `colNumber` of each row in
   * turn, returning IndexOutOfBounds at the first row that lacks it.
   */
  method GetCol(input: string, colNumber: nat) returns (r: Result<seq<string>, ParseError>)
    ensures r == ColumnOf(input, colNumber)
  {
    var parsed := ParseCsv(input);
    if parsed.Err? {
      return Err(parsed.error);
    }
    var records := parsed.value;
    var column: seq<string> := [];
    for i := 0 to |records|
      invariant |column| == i && IsColumnPrefix(records, colNumber, column)
    {
      if colNumber < |records[i]| {
        ColumnPrefixExtend(records, colNumber, column);
        column := column + [records[i][colNumber]];
      } else {
        return Err(IndexOutOfBounds);
      }
    }
    ColumnPrefixDone(records, colNumber, column);
    return Ok(column);
  }

  /**
   * `map(parse::<i32>)` collected into a `Result`: every value in order, or
   * the error of the first cell that does not parse.
   */
  function ParseCells(cells: seq<string>): (r: Result<seq<int>, IntErrorKind>)
    ensures r.Ok? <==> forall i :: 0 <= i < |cells| ==> ParseI32(cells[i]).Ok?
    ensures r.Ok? ==> |r.value| == |cells| && forall i :: 0 <= i < |cells| ==> r.value[i] == ParseI32(cells[i]).value
    ensures r.Err? ==> exists i :: 0 <= i < |cells| && ParseI32(cells[i]) == Err(r.error)
                                  && forall j :: 0 <= j < i ==> ParseI32(cells[j]).Ok?
    decreases |cells|
  {
    if cells == [] then Ok([])
    else
      match ParseI32(cells[0])
      case Err(kind) => Err(kind)
      case Ok(v) =>
        match ParseCells(cells[1..])
        case Err(kind) =>
          assert forall i :: 1 <= i < |cells| ==> cells[1..][i - 1] == cells[i];
          Err(kind)
        case Ok(vs) => Ok([v] + vs)
  }

  function Sum(values: seq<int>): int
  {
    if values == [] then 0 else values[0] + Sum(values[1..])
  }

  /** `iter().skip(1)`: everything but the first element, if there is one. */
  function SkipHeader<T>(column: seq<T>): seq<T>
  {
    if column == [] then [] else column[1..]
  }

  /**
   * The pipeline after `skip(1)`: each cell parsed as an i32, the first
   * failure turned into a ParseIntError, the values summed.
   */
  function SumCells(cells: seq<string>): (r: Result<int, ParseError>)
    ensures r.Err? ==> r.error.ParseIntError?
  {
    match ParseCells(cells)
    case Err(kind) => Err(ParseIntError(kind))
    case Ok(values) => Ok(Sum(values))
  }

  /**
   * `parse_and_sum_col_from_csv`: the column without its header cell, each
   * cell parsed as an i32, summed; the first cell that does not parse turns
   * the whole result into its ParseIntError.
   */
  function SumCol(input: string, colNumber: nat): (r: Result<int, ParseError>)
    ensures ColumnOf(input, colNumber).Err? ==> r == Err(ColumnOf(input, colNumber).error)
    ensures ColumnOf(input, colNumber).Ok? && r.Err? ==> r.error.ParseIntError?
  {
    match ColumnOf(input, colNumber)
    case Err(e) => Err(e)
    case Ok(column) => SumCells(SkipHeader(column))
  }
}
