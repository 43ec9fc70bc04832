# CSV parser model

A Dafny model of the `csv_parser` module of `src/main.rs`. The module turns a CSV text into a
table of cleaned cells and answers three queries on it: one line, one column, and the sum of a
column.

- **Parser.** `parse_csv` reads records separated by `'\n'`. `parse_record` reads fields
  separated by `','`. `parse_field` reads a maximal non-empty run of characters other than `','`
  and `'\n'` (`is_not(",\n")`), and `clean_field` keeps its alphanumeric characters. The
  combinators are modelled by what they do: each step fails (`None`) or returns a value and the
  unconsumed input (`Parsed`). `separated_list1` needs a first element. It stops without
  failing at the first separator that is not followed by an element, and leaves that separator
  unconsumed. `parse_csv` drops whatever input is left over.
- **Reference.** `CsvProperties.Reference` defines the same parse independently. It cuts the
  input at every `'\n'` and each line at every `','`, keeps each line's fields up to the first
  empty one and cleans them, and ends the table at the first line that has an empty field.
  `ParseCsvIsReference` proves the combinator model equal to it on every input.
- **Queries.** `GetLine` joins the cells of row `n` with `", "`. `GetCol` is a method with a
  loop, as in the source. It pushes cell `c` of each row and returns `IndexOutOfBounds` at the
  first row that is too short. `SumCol` skips the header cell, parses every other cell as an
  `i32`, stops at the first failure, and sums the values. A parse error passes through all
  three queries unchanged.
- **Integer parsing.** `IntParse` models Rust's `str::parse::<i32>`: an optional sign, then
  decimal digits. It returns the error kind `Empty`, `InvalidDigit`, `PosOverflow` or
  `NegOverflow`, as Rust's `ParseIntError` does. The error carries the kind, not the text.
- **Test data.** `Biostats` holds the 19 rows that the repository's tests expect from their data
  file, written back as text. It checks each query answer those tests assert. It also checks
  the doc examples and the edge cases of truncation.

Behaviours of the code worth knowing:

- Empty input, or input that starts with `','` or `'\n'`, is a `CsvParseError`.
- An empty field or an empty line is not an error and is not kept. Parsing stops there and
  drops the rest of the input. So a trailing `'\n'` adds no row, and a trailing `','` adds no
  cell.
- A field is rejected only when its raw text is empty. A field such as `" "` is accepted and
  cleans to `""`.
- The integer error carries only its kind, and one `IndexOutOfBounds` serves both lines and
  columns.
- The doc comment of `parse_and_get_line_from_csv` gives Bert as line 1. The tests, and the
  code, put Bert at line 2 because the header is line 0.

## Model

| member | source | states |
|---|---|---|
| CsvParser.Clean | src/main.rs:100-105 | the cleaned field is all alphanumeric and no longer than the field |
| CsvParser.IsNot | src/main.rs:83 | fails exactly on empty input or a leading ',' or '\n'; otherwise splits the input into a non-empty run free of ',' and '\n' and a rest that is empty or starts with one of them |
| CsvParser.ParseField | src/main.rs:82-86 | same failure condition as `is_not`; on success the value is alphanumeric and strictly shorter input remains, empty or starting at a separator |
| CsvParser.FieldsAfter | src/main.rs:67 | the fields after the first are all alphanumeric, the rest is a suffix of the input, and it stops only at an end, a non-',' or a ',' not followed by a field |
| CsvParser.ParseRecord | src/main.rs:66-68 | fails exactly when the first field is missing; a record has at least one cell, all alphanumeric, and consumes input |
| CsvParser.RecordsAfter | src/main.rs:48 | the later records are clean rows, and the loop stops only where no '\n' is followed by a record |
| CsvParser.ParseCsv | src/main.rs:47-52 | `Err(CsvParseError)` exactly when the input is empty or starts with ',' or '\n'; on success at least one row, every row non-empty, every cell alphanumeric |
| CsvParser.GetLine | src/main.rs:154-162 | parse errors pass through; `Ok` exactly when the line number is below the row count, and then the value is that row's cells joined by ", "; otherwise `IndexOutOfBounds` |
| CsvParser.Column | src/main.rs:179-189 | `Ok` exactly when every row has the column; then one cell per row, cell i being row i's cell; otherwise `IndexOutOfBounds`, with a row that is too short |
| CsvParser.ColumnOf | src/main.rs:176-192 | parse errors pass through as `CsvParseError`; otherwise the column of the parsed rows, whose cells are alphanumeric |
| CsvParser.GetCol | src/main.rs:176-192 | the pushing loop with its early return computes exactly `ColumnOf` |
| CsvParser.ParseCells | src/main.rs:213-214 | `Ok` exactly when every cell parses, with the values in order; otherwise the error of the first cell that fails, all earlier cells parsing |
| CsvParser.SumCells | src/main.rs:212-216 | a failure of the cell pipeline is always a `ParseIntError` |
| CsvParser.SumCol | src/main.rs:207-221 | column errors pass through unchanged; any other failure is a `ParseIntError` |
| CsvProperties.CleanMembers | src/main.rs:100-105 | a character is in the cleaned field exactly when it is in the field and alphanumeric |
| CsvProperties.CleanAppend | src/main.rs:100-105 | cleaning works character by character: cleaning a concatenation concatenates the cleaned parts, so order is kept |
| CsvProperties.CleanFixed | src/main.rs:100-105 | cleaning leaves a field unchanged exactly when it is already alphanumeric |
| CsvProperties.CleanIdempotent | src/main.rs:100-105 | cleaning twice is cleaning once |
| CsvProperties.RecordMatchesLine | src/main.rs:66-86 | `parse_record` reads the first line's fields up to the first empty one, cleaned, failing exactly when the first is empty, and stops at the line end or at the ',' before the gap |
| CsvProperties.RecordsMatchLines | src/main.rs:47-52 | the records read from any input are the rows the split-based reading gives |
| CsvProperties.ParseCsvIsReference | src/main.rs:47-86 | `ParseCsv` equals the split-and-truncate reference on every input |
| CsvProperties.ParseCsvEncoded | src/main.rs:47-86 | R lines of non-empty fields without ',' or '\n', joined by '\n', parse to R rows with each row's number of cells, each cell the cleaned field |
| CsvProperties.CleanTableCells | src/main.rs:82-86 | the table of cleaned rows has one row per written row, the same number of cells in each, and each cell is the cleaned field |
| CsvProperties.ParseCsvStopsAtLine | src/main.rs:47-52 | after such lines and a '\n', an end of input, a blank line or a line starting with ',' ends the table and the rest is ignored; this includes one trailing '\n' |
| CsvProperties.ParseCsvStopsAtField | src/main.rs:66-68 | after such lines, a ',' followed by an end of input or a separator ends the table after the current row's fields, and the rest is ignored |
| CsvProperties.JoinSpaced | src/main.rs:158 | joining cells with ", " is joining, with ',', the first cell and the other cells each preceded by a space |
| CsvProperties.JoinedRowReparses | src/main.rs:158 | a parsed row whose first cell is non-empty, joined with ", ", parses back to exactly that row |
| CsvProperties.GetLineReparses | src/main.rs:154-162 | the line returned for row n parses back to row n, when its first cell is non-empty |
| CsvProperties.CellsParse | src/main.rs:213-214 | alphanumeric cells all parse exactly when each is a non-empty ASCII-digit string of value at most 2^31-1, and the values sum to the sum of their decimal values |
| CsvProperties.SumCellsMeaning | src/main.rs:212-216 | the sum succeeds exactly when every cell is such a decimal; it is their sum, 0 for no cells; otherwise it fails with the error of the first cell that is not one |
| CsvProperties.SumColMeaning | src/main.rs:207-221 | column errors pass through; otherwise the sum succeeds exactly when every cell below the header is a non-empty ASCII-digit string of value at most 2^31-1, and is then the sum of their values (0 for a header alone); otherwise it fails with the `ParseIntError` of the first cell below the header that is not one |
| IntParse.ParseI32 | src/main.rs:213 | a parsed value lies in the i32 range; `Empty` exactly for the empty string |
| IntParse.AccumulatePositive | src/main.rs:213 | reading digits upward gives `PosOverflow` when the leading digits exceed 2^31-1, else `InvalidDigit` at a non-digit, else their value |
| IntParse.AccumulateNegative | src/main.rs:213 | the same for a '-' sign, with `NegOverflow` below -2^31 |
| IntParse.ParseUnsigned | src/main.rs:213 | for unsigned text: `Empty`, `PosOverflow`, `InvalidDigit` or the value, decided by the leading digits |
| IntParse.ParseUnsignedOk | src/main.rs:213 | unsigned text parses exactly when it is a non-empty digit string of value at most 2^31-1, to that value |
| IntParse.ParseToDecimal | src/main.rs:213 | the decimal text of any i32 value, bare, with '+' or with '-', parses back to that value |
| Biostats.BiostatsParses | src/main.rs:299-324 | the test data parses to the 19 expected rows |
| Biostats.BiostatsLines | src/main.rs:366-384 | line 2 is "Bert, M, 42, 68, 166"; line 42 is `IndexOutOfBounds` |
| Biostats.BiostatsColumns | src/main.rs:401-442 | column 0 is the 19 names, header first; column 6 is `IndexOutOfBounds` |
| Biostats.BiostatsSums | src/main.rs:459-493 | column 4 sums to 2641; column 0 fails on "Alex" with `InvalidDigit`; column 6 is `IndexOutOfBounds` |
| Biostats.CleanExamples | src/main.rs:92-97 | " Alex ", " 41 ", "     41 " and "Carl!" clean to "Alex", "41", "41" and "Carl" |
| Biostats.DocText | src/main.rs:33 | the doc example's input is its three lines, each ended by '\n' |
| Biostats.DocExample | src/main.rs:33-42 | that input parses to the three rows of the doc comment, with no row for the trailing '\n' |
| Biostats.EdgeCases | src/main.rs:47-86 | "a,,b" and "a\n\nb" give [["a"]], "a,b," gives [["a","b"]], " " gives [[""]] |
| Biostats.ParseErrors | src/main.rs:47-52 | "", ",a" and "\na" are `CsvParseError` |

## Left out

- `pretty_print_csv` and `main` are not modelled. They only print and read files.
- The tests read `biostats1.csv` from disk, and that file is not part of this model. The
  fixture is the 19 rows that the tests expect, written one line per row with a final '\n'.
  The file's own spacing and punctuation, which cleaning removes, are therefore not reproduced.
- CsvParser.Clean: keeps ASCII letters and digits only. Rust's `char::is_alphanumeric` also
  keeps non-ASCII letters and digits; the Unicode tables are not modelled.
- CsvParser.SumCol: sums over unbounded integers. The source's `sum::<i32>` panics on overflow
  in debug builds and wraps in release builds; neither behaviour is modelled.
- CsvParser.SumCells: the same unbounded sum, computed by `Sum`. For the cells "2147483647" and
  "1" the model gives `Ok(2147483648)` where the source panics or wraps.
- CsvProperties.SumCellsMeaning: "succeeds exactly when" holds for the unbounded sum only; an
  i32 overflow of the total is not a failure in the model.
- CsvProperties.SumColMeaning: the same; the total is not reduced to the i32 range.
- The two `From` conversions of `ParseError` are the datatype constructors. The nom error that
  `From<()>` would convert is mapped to `CsvParseError` directly inside `ParseCsv`.
- nom's `IResult` error values and its `Incomplete` state are not modelled. The complete-input
  combinators used here never return `Incomplete`, and the code discards the error detail.
- `str::parse::<i32>` is modelled for radix 10 only, which is all the code uses.
