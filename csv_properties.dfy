/**
 * What the parser and the queries promise, proved about the model:
 * the cleaning step, an independent split-based definition of the parse,
 * the shape round trip, truncation at the first gap, and the three queries.
 */
module CsvProperties {
  import opened Wrappers
  import opened Strings
  import opened IntParse
  import opened CsvParser

  // ---------------------------------------------------------------- cleaning

  /** Cleaning keeps a character exactly when it is alphanumeric. */
  lemma {:induction false} CleanMembers(field: string)
    ensures forall c :: c in Clean(field) <==> c in field && IsAlnum(c)
    decreases |field|
  {
    if field != [] {
      CleanMembers(field[1..]);
      assert field == [field[0]] + field[1..];
    }
  }

  /** Cleaning works character by character, so it keeps the original order. */
  lemma {:induction false} CleanAppend(a: string, b: string)
    ensures Clean(a + b) == Clean(a) + Clean(b)
    decreases |a|
  {
    if a == [] {
      assert a + b == b;
    } else {
      assert (a + b)[0] == a[0] && (a + b)[1..] == a[1..] + b;
      CleanAppend(a[1..], b);
    }
  }

  /** A field is left unchanged by cleaning exactly when it is already alphanumeric. */
  lemma {:induction false} CleanFixed(field: string)
    ensures Clean(field) == field <==> AllAlnum(field)
    decreases |field|
  {
    if field != [] {
      CleanFixed(field[1..]);
      if !IsAlnum(field[0]) {
        assert |Clean(field)| <= |field[1..]| < |field|;
      }
    }
  }

  /** Cleaning twice is cleaning once. */
  lemma CleanIdempotent(field: string)
    ensures Clean(Clean(field)) == Clean(field)
  {
    CleanFixed(Clean(field));
  }

  // ------------------------------------------------- the split-based reference

  /** The longest prefix of `fields` whose fields are all non-empty. */
  function NonEmptyPrefix(fields: seq<string>): (kept: seq<string>)
    ensures |kept| <= |fields| && kept == fields[..|kept|]
    ensures forall j :: 0 <= j < |kept| ==> kept[j] != []
    ensures |kept| < |fields| ==> fields[|kept|] == []
  {
    if fields == [] || fields[0] == [] then [] else [fields[0]] + NonEmptyPrefix(fields[1..])
  }

  function CleanFields(fields: seq<string>): (cells: seq<string>)
    ensures |cells| == |fields|
  {
    if fields == [] then [] else [Clean(fields[0])] + CleanFields(fields[1..])
  }

  /** Each field is cleaned on its own. */
  lemma {:induction false} CleanFieldsEach(fields: seq<string>)
    ensures forall j :: 0 <= j < |fields| ==> CleanFields(fields)[j] == Clean(fields[j])
    decreases |fields|
  {
    if fields != [] {
      CleanFieldsEach(fields[1..]);
      assert forall j :: 1 <= j < |fields| ==> fields[j] == fields[1..][j - 1];
    }
  }

  /**
   * The table read from `lines`: each line cut at ',', its fields kept up to
   * the first empty one and cleaned; a line with an empty field ends the
   * table (after its kept fields, if it has any).
   */
  function Rows(lines: seq<string>): Table
    decreases |lines|
  {
    if lines == [] then []
    else
      var fields := Split(lines[0], ',');
      var kept := NonEmptyPrefix(fields);
      if kept == [] then []
      else if |kept| < |fields| then [CleanFields(kept)]
      else [CleanFields(kept)] + Rows(lines[1..])
  }

  /** The parse, defined by cutting the whole input at '\n' and each line at ','. */
  function Reference(input: string): Result<Table, ParseError>
  {
    var rows := Rows(Split(input, '\n'));
    if rows == [] then Err(CsvParseError) else Ok(rows)
  }

  /** Length of the first line of `s`. */
  function LineLength(s: string): nat
  {
    Span(s, {'\n'})
  }

  /** The fields of the first line of `s`. */
  function LineFields(s: string): seq<string>
  {
    Split(s[..LineLength(s)], ',')
  }

  /** The first field of `s` lies inside its first line, and is the first line's first field. */
  lemma FieldInLine(s: string)
    ensures Span(s, FIELD_STOPS) <= LineLength(s)
    ensures Span(s[..LineLength(s)], {','}) == Span(s, FIELD_STOPS)
    ensures Span(s, FIELD_STOPS) < LineLength(s) ==> s[Span(s, FIELD_STOPS)] == ','
  {
    var n := Span(s, FIELD_STOPS);
    var k := LineLength(s);
    SpanIs(s[..k], {','}, n);
  }

  /** The first line of `s` after its first `m + 1` characters, when those lie inside it. */
  lemma LineAfter(s: string, m: nat)
    requires m < LineLength(s)
    ensures LineLength(s[m + 1..]) == LineLength(s) - m - 1
  {
    var k := LineLength(s);
    var t := s[m + 1..];
    assert forall i :: 0 <= i < k - m - 1 ==> t[i] == s[m + 1 + i];
    SpanIs(t, {'\n'}, k - m - 1);
  }

  /** Cutting the first `k` characters of `s` at ',' when the first ',' is at `n`. */
  lemma SplitPrefixStep(s: string, k: nat, n: nat)
    requires n < k <= |s| && Span(s[..k], {','}) == n
    ensures Split(s[..k], ',') == [s[..n]] + Split(s[n + 1..][..k - n - 1], ',')
  {
    SplitStep(s[..k], ',', n);
    assert s[..k][..n] == s[..n];
    assert s[..k][n + 1..] == s[n + 1..][..k - n - 1];
  }

  /** The fields of the first line of `s`, when its first ',' is at `n`, before the line's end `k`. */
  lemma FieldsAt(s: string, k: nat, n: nat)
    requires n < k == LineLength(s) && Span(s[..k], {','}) == n
    ensures LineFields(s) == [s[..n]] + LineFields(s[n + 1..])
  {
    LineAfter(s, n);
    SplitPrefixStep(s, k, n);
  }

  /** A first field that ends before the first line does ends at a ','. */
  lemma FieldBeforeComma(s: string)
    requires Span(s, FIELD_STOPS) < LineLength(s)
    ensures var n := Span(s, FIELD_STOPS);
      s[n] == ',' && LineFields(s) == [s[..n]] + LineFields(s[n + 1..])
  {
    FieldInLine(s);
    FieldsAt(s, LineLength(s), Span(s, FIELD_STOPS));
  }

  /** The first field of `s` ends where its first line does, or at a ',' inside it. */
  lemma FirstFieldOfLine(s: string)
    ensures var n := Span(s, FIELD_STOPS); var k := LineLength(s);
      && n <= k
      && LineFields(s)[0] == s[..n]
      && (n == k ==> LineFields(s) == [s[..n]])
      && (n < k ==> s[n] == ',' && LineFields(s) == [s[..n]] + LineFields(s[n + 1..]))
  {
    FieldInLine(s);
    if Span(s, FIELD_STOPS) < LineLength(s) {
      FieldBeforeComma(s);
    }
  }

  /** The rows `separated_list1(newline, parse_record)` reads from `s`, nothing when it fails. */
  ghost function RecordsFrom(s: string): Table
  {
    match ParseRecord(s)
    case None => []
    case Some(first) => [first.value] + RecordsAfter(first.rest).value
  }

  /** `parse_field` on input with a non-empty first field of length `n`. */
  lemma ParseFieldAt(s: string, n: nat)
    requires 0 < n == Span(s, FIELD_STOPS)
    ensures ParseField(s) == Some(Parsed(Clean(s[..n]), s[n..]))
  {
  }

  /** After a ',', the field loop reads what `parse_record` reads from the rest, or nothing. */
  lemma FieldsAfterComma(t: string)
    requires t != [] && t[0] == ','
    ensures ParseRecord(t[1..]).None? ==> FieldsAfter(t) == Parsed([], t)
    ensures ParseRecord(t[1..]).Some? ==> FieldsAfter(t) == ParseRecord(t[1..]).value
  {
  }

  /** A record whose first field reaches the end of the line. */
  lemma RecordWholeLine(s: string, n: nat)
    requires 0 < n == Span(s, FIELD_STOPS) == LineLength(s)
    ensures ParseRecord(s) == Some(Parsed([Clean(s[..n])], s[n..]))
  {
    ParseFieldAt(s, n);
    assert s[n..] == [] || s[n..][0] == '\n';
    assert FieldsAfter(s[n..]) == Parsed([], s[n..]);
    assert [Clean(s[..n])] + [] == [Clean(s[..n])];
  }

  /**
   * The record `parse_record` yields after a first field that cleans to
   * `cell` and is followed by `rest`, which starts with ',', given what it
   * yields from the text after that ','.
   */
  function WithFirst(cell: string, rest: string, more: Option<Parsed<Row>>): Option<Parsed<Row>>
  {
    match more
    case None => Some(Parsed([cell], rest))
    case Some(m) => Some(Parsed([cell] + m.value, m.rest))
  }

  /** A record whose first field, of length `n`, ends at a ',' inside the line. */
  lemma RecordAtComma(s: string, n: nat)
    requires 0 < n == Span(s, FIELD_STOPS) < |s| && s[n] == ','
    ensures ParseRecord(s) == WithFirst(Clean(s[..n]), s[n..], ParseRecord(s[n + 1..]))
  {
    ParseFieldAt(s, n);
    var more := FieldsAfter(s[n..]);
    assert ParseRecord(s) == Some(Parsed([Clean(s[..n])] + more.value, more.rest));
    assert s[n..][1..] == s[n + 1..];
    FieldsAfterComma(s[n..]);
    if ParseRecord(s[n + 1..]).None? {
      assert [Clean(s[..n])] + [] == [Clean(s[..n])];
    }
  }

  /**
   * What one record `r` read from `s` must be: nothing exactly when the
   * first field of the first line is empty; otherwise the kept fields,
   * cleaned, ending at the end of the line when every field was kept, or at
   * a ',' when one was empty.
   */
  ghost predicate RecordSpec(s: string, r: Option<Parsed<Row>>)
  {
    RecordShape(LineFields(s), s[LineLength(s)..], r)
  }

  /**
   * `RecordSpec` for a line cut into `fields`, with `lineEnd` the input from
   * the end of that line on.
   */
  predicate RecordShape(fields: seq<string>, lineEnd: string, r: Option<Parsed<Row>>)
  {
    var kept := NonEmptyPrefix(fields);
    && (r.None? <==> kept == [])
    && (r.Some? ==>
         && r.value.value == CleanFields(kept)
         && (|kept| == |fields| ==> r.value.rest == lineEnd)
         && (|kept| < |fields| ==> r.value.rest != [] && r.value.rest[0] == ','))
  }

  /** A non-empty field in front of a line's fields puts its cleaned text in front of the record. */
  lemma ShapeCons(f: string, fields: seq<string>, lineEnd: string, rest: string, more: Option<Parsed<Row>>)
    requires f != [] && |fields| >= 1 && rest != [] && rest[0] == ','
    requires RecordShape(fields, lineEnd, more)
    ensures RecordShape([f] + fields, lineEnd, WithFirst(Clean(f), rest, more))
  {
    var all := [f] + fields;
    assert all[1..] == fields;
    var kept := NonEmptyPrefix(fields);
    assert NonEmptyPrefix(all) == [f] + kept;
    assert ([f] + kept)[1..] == kept;
    assert CleanFields([f] + kept) == [Clean(f)] + CleanFields(kept);
    if kept == [] {
      assert [Clean(f)] + [] == [Clean(f)];
    }
  }

  lemma RecordEmptyFirst(s: string)
    requires Span(s, FIELD_STOPS) == 0
    ensures RecordSpec(s, None)
  {
    FirstFieldOfLine(s);
    assert LineFields(s)[0] == [];
  }

  lemma RecordOneField(s: string, n: nat)
    requires 0 < n == Span(s, FIELD_STOPS) == LineLength(s)
    ensures RecordSpec(s, Some(Parsed([Clean(s[..n])], s[n..])))
  {
    FirstFieldOfLine(s);
    assert NonEmptyPrefix(LineFields(s)) == LineFields(s) == [s[..n]];
  }

  lemma RecordMoreFields(s: string, n: nat, more: Option<Parsed<Row>>)
    requires 0 < n == Span(s, FIELD_STOPS) < LineLength(s)
    requires RecordSpec(s[n + 1..], more)
    ensures RecordSpec(s, WithFirst(Clean(s[..n]), s[n..], more))
  {
    FirstFieldOfLine(s);
    LineAfter(s, n);
    var t := s[n + 1..];
    assert t[LineLength(t)..] == s[LineLength(s)..];
    ShapeCons(s[..n], LineFields(t), s[LineLength(s)..], s[n..], more);
  }

  /**
   * `parse_record` reads the first line of `s` up to its first empty field,
   * as `RecordSpec` describes.
   */
  lemma {:induction false} RecordMatchesLine(s: string)
    ensures RecordSpec(s, ParseRecord(s))
    decreases |s|
  {
    FirstFieldOfLine(s);
    var n := Span(s, FIELD_STOPS);
    if n == 0 {
      RecordEmptyFirst(s);
    } else if n == LineLength(s) {
      RecordWholeLine(s, n);
      RecordOneField(s, n);
    } else {
      RecordMatchesLine(s[n + 1..]);
      RecordAtComma(s, n);
      RecordMoreFields(s, n, ParseRecord(s[n + 1..]));
    }
  }

  /** After a '\n', the record loop reads what `RecordsFrom` reads from the rest; otherwise nothing. */
  lemma RecordsAfterNewline(t: string)
    ensures t != [] && t[0] == '\n' ==> RecordsAfter(t).value == RecordsFrom(t[1..])
    ensures t == [] || t[0] != '\n' ==> RecordsAfter(t).value == []
  {
  }

  /** The table of the lines of `s` starts with the row of its first line. */
  lemma RowsOfLines(s: string)
    ensures var k := LineLength(s); var fields := LineFields(s); var kept := NonEmptyPrefix(fields);
      Rows(Split(s, '\n')) ==
        if kept == [] then []
        else if |kept| < |fields| || k == |s| then [CleanFields(kept)]
        else [CleanFields(kept)] + Rows(Split(s[k + 1..], '\n'))
  {
    var k := LineLength(s);
    var lines := Split(s, '\n');
    assert lines[0] == s[..k];
    if k < |s| {
      assert lines[1..] == Split(s[k + 1..], '\n');
    } else {
      assert lines[1..] == [];
    }
  }

  /** The table whose first row is the record `r`, if any, followed by `after`. */
  function ConsRow(r: Option<Parsed<Row>>, after: Table): Table
  {
    if r.None? then [] else [r.value.value] + after
  }

  /** A record read as `RecordSpec` says, followed by the rows of the later lines. */
  lemma RowsAfterRecord(s: string, r: Option<Parsed<Row>>, after: Table)
    requires RecordSpec(s, r)
    requires var fields := LineFields(s); var k := LineLength(s);
      r.Some? && |NonEmptyPrefix(fields)| == |fields| && k < |s| ==> after == Rows(Split(s[k + 1..], '\n'))
    requires var fields := LineFields(s); var k := LineLength(s);
      r.Some? && (|NonEmptyPrefix(fields)| < |fields| || k == |s|) ==> after == []
    ensures ConsRow(r, after) == Rows(Split(s, '\n'))
  {
    RowsOfLines(s);
    if r.Some? && after == [] {
      assert [r.value.value] + [] == [r.value.value];
    }
  }

  /** Whether the first line of `s` is read whole and followed by another line. */
  ghost predicate ReadsOn(s: string)
  {
    var fields := LineFields(s);
    ParseRecord(s).Some? && |NonEmptyPrefix(fields)| == |fields| && LineLength(s) < |s|
  }

  /** Reading records from `s` is reading the table of its lines. */
  lemma {:induction false} RecordsMatchLines(s: string)
    ensures RecordsFrom(s) == Rows(Split(s, '\n'))
    decreases |s|
  {
    if ReadsOn(s) {
      RecordsMatchLines(s[LineLength(s) + 1..]);
    }
    RecordsStep(s);
  }

  /** After a record that ends at a ',' or at the end of the input, no more records are read. */
  lemma RecordsAfterLastLine(s: string, r: Option<Parsed<Row>>)
    requires RecordSpec(s, r) && r.Some?
    requires |NonEmptyPrefix(LineFields(s))| < |LineFields(s)| || LineLength(s) == |s|
    ensures RecordsAfter(r.value.rest).value == []
  {
  }

  /** After a record that takes a whole line followed by '\n', records are read from the next line. */
  lemma RecordsAfterLine(s: string, r: Option<Parsed<Row>>)
    requires RecordSpec(s, r) && r.Some?
    requires |NonEmptyPrefix(LineFields(s))| == |LineFields(s)| && LineLength(s) < |s|
    ensures RecordsAfter(r.value.rest).value == RecordsFrom(s[LineLength(s) + 1..])
  {
    var k := LineLength(s);
    var rest := r.value.rest;
    assert rest == s[k..] && s[k] == '\n';
    assert rest[1..] == s[k + 1..];
    RecordsAfterNewline(rest);
  }

  /** One step of `RecordsMatchLines`: the first record, then the later lines. */
  lemma RecordsStep(s: string)
    requires ReadsOn(s) ==> RecordsFrom(s[LineLength(s) + 1..]) == Rows(Split(s[LineLength(s) + 1..], '\n'))
    ensures RecordsFrom(s) == Rows(Split(s, '\n'))
  {
    RecordMatchesLine(s);
    var r := ParseRecord(s);
    var k := LineLength(s);
    if r.Some? {
      var fields := LineFields(s);
      var after := RecordsAfter(r.value.rest).value;
      if |NonEmptyPrefix(fields)| < |fields| || k == |s| {
        RecordsAfterLastLine(s, r);
      } else {
        RecordsAfterLine(s, r);
      }
      RowsAfterRecord(s, r, after);
    } else {
      RowsAfterRecord(s, r, []);
    }
  }

  /** The combinator parser computes exactly the split-based table. */
  lemma ParseCsvIsReference(input: string)
    ensures ParseCsv(input) == Reference(input)
  {
    RecordsMatchLines(input);
  }

  // ------------------------------------------------------------- round trip

  /** A field as it can be written in the text: non-empty, with no separator in it. */
  predicate IsRawField(f: string)
  {
    f != [] && ',' !in f && '\n' !in f
  }

  predicate IsRawRow(row: seq<string>)
  {
    |row| >= 1 && forall j :: 0 <= j < |row| ==> IsRawField(row[j])
  }

  predicate AllRawRows(rows: seq<seq<string>>)
  {
    forall i :: 0 <= i < |rows| ==> IsRawRow(rows[i])
  }

  /** Each row written as one line, its fields separated by ','. */
  function EncodeLines(rows: seq<seq<string>>): (lines: seq<string>)
    ensures |lines| == |rows|
  {
    seq(|rows|, i requires 0 <= i < |rows| => Join(rows[i], ","))
  }

  /** The rows written out as text, lines separated by '\n'. */
  function Encode(rows: seq<seq<string>>): string
  {
    Join(EncodeLines(rows), "\n")
  }

  /** Every field of every row cleaned. */
  function CleanTable(rows: seq<seq<string>>): (t: Table)
    ensures |t| == |rows|
  {
    seq(|rows|, i requires 0 <= i < |rows| => CleanFields(rows[i]))
  }

  /** The cleaned table has the shape of the written one, each cell the cleaned field. */
  lemma CleanTableCells(rows: seq<seq<string>>)
    ensures |CleanTable(rows)| == |rows|
    ensures forall i :: 0 <= i < |rows| ==> |CleanTable(rows)[i]| == |rows[i]|
    ensures forall i, j :: 0 <= i < |rows| && 0 <= j < |rows[i]| ==> CleanTable(rows)[i][j] == Clean(rows[i][j])
  {
    forall i | 0 <= i < |rows|
      ensures forall j :: 0 <= j < |rows[i]| ==> CleanTable(rows)[i][j] == Clean(rows[i][j])
    {
      CleanFieldsEach(rows[i]);
    }
  }

  /** The first row written, then the others. */
  lemma EncodeLinesCons(rows: seq<seq<string>>)
    requires rows != []
    ensures EncodeLines(rows) == [Join(rows[0], ",")] + EncodeLines(rows[1..])
  {
  }

  /** The first row cleaned, then the others. */
  lemma CleanTableCons(rows: seq<seq<string>>)
    requires rows != []
    ensures CleanTable(rows) == [CleanFields(rows[0])] + CleanTable(rows[1..])
  {
  }

  /** A written row is one line that cuts back into the row, all of which is kept. */
  lemma RawLine(row: seq<string>)
    requires IsRawRow(row)
    ensures '\n' !in Join(row, ",")
    ensures Split(Join(row, ","), ',') == row
    ensures NonEmptyPrefix(row) == row
  {
    JoinAvoids(row, ",", '\n');
    SplitJoin(row, ',');
  }

  /** A first line that is a written row reads as that row, cleaned, before the later lines. */
  lemma RowsOfRawLine(row: seq<string>, later: seq<string>, lines: seq<string>)
    requires IsRawRow(row) && lines == [Join(row, ",")] + later
    ensures Rows(lines) == [CleanFields(row)] + Rows(later)
  {
    RawLine(row);
    assert lines[1..] == later;
  }

  /** The lines of written rows read back as those rows, cleaned, before whatever follows. */
  lemma {:induction false} RowsEncoded(rows: seq<seq<string>>, more: seq<string>)
    requires AllRawRows(rows)
    ensures Rows(EncodeLines(rows) + more) == CleanTable(rows) + Rows(more)
    decreases |rows|
  {
    if rows == [] {
      RowsEncodedNil(rows, more);
    } else {
      RawRowsTail(rows);
      RowsEncoded(rows[1..], more);
      RowsEncodedCons(rows, more);
      CleanTableCons(rows);
      Associative([CleanFields(rows[0])], CleanTable(rows[1..]), Rows(more));
    }
  }

  lemma RowsEncodedNil(rows: seq<seq<string>>, more: seq<string>)
    requires rows == []
    ensures Rows(EncodeLines(rows) + more) == CleanTable(rows) + Rows(more)
  {
    assert EncodeLines(rows) + more == more;
    assert CleanTable(rows) + Rows(more) == Rows(more);
  }

  lemma Associative<T>(a: seq<T>, b: seq<T>, c: seq<T>)
    ensures a + (b + c) == (a + b) + c
  {
  }

  /** The first written row reads back before the lines of the others. */
  lemma RowsEncodedCons(rows: seq<seq<string>>, more: seq<string>)
    requires rows != [] && IsRawRow(rows[0])
    ensures Rows(EncodeLines(rows) + more) == [CleanFields(rows[0])] + Rows(EncodeLines(rows[1..]) + more)
  {
    var later := EncodeLines(rows[1..]) + more;
    EncodeLinesCons(rows);
    assert EncodeLines(rows) + more == [Join(rows[0], ",")] + later;
    RowsOfRawLine(rows[0], later, EncodeLines(rows) + more);
  }

  /** The first of written rows, and the others. */
  lemma RawRowsTail(rows: seq<seq<string>>)
    requires rows != [] && AllRawRows(rows)
    ensures IsRawRow(rows[0]) && AllRawRows(rows[1..])
  {
    assert forall i :: 0 <= i < |rows| - 1 ==> rows[1..][i] == rows[i + 1];
  }

  /** A line that is empty or starts with ',' ends the table without adding a row. */
  lemma RowsStopAtGap(more: seq<string>)
    requires more == [] || more[0] == [] || more[0][0] == ','
    ensures Rows(more) == []
  {
    if more != [] {
      var fields := Split(more[0], ',');
      assert fields[0] == [];
    }
  }

  /** The lines of `s`, when `s` is empty or starts with ',' or '\n'. */
  lemma LinesAtGap(s: string)
    requires s == [] || s[0] in FIELD_STOPS
    ensures var lines := Split(s, '\n'); lines[0] == [] || lines[0][0] == ','
  {
    if s != [] && s[0] == '\n' {
      SplitAt([], '\n', s[1..]);
      assert [] + ['\n'] + s[1..] == s;
    }
  }

  /**
   * The shape round trip: written rows of non-empty fields, with no ',' or
   * '\n' inside a field, parse back to the same number of rows of the same
   * number of cells, each the cleaned field.
   */
  lemma ParseCsvEncoded(rows: seq<seq<string>>)
    requires |rows| >= 1 && AllRawRows(rows)
    ensures ParseCsv(Encode(rows)) == Ok(CleanTable(rows))
  {
    LinesOfEncoded(rows);
    ParseCsvIsReference(Encode(rows));
  }

  /** The written rows cut at '\n' are their lines, which read back as the rows cleaned. */
  lemma LinesOfEncoded(rows: seq<seq<string>>)
    requires |rows| >= 1 && AllRawRows(rows)
    ensures Rows(Split(Encode(rows), '\n')) == CleanTable(rows)
  {
    var lines := EncodeLines(rows);
    forall i | 0 <= i < |lines|
      ensures '\n' !in lines[i]
    {
      RawLine(rows[i]);
    }
    SplitJoin(lines, '\n');
    RowsEncoded(rows, []);
    assert lines + [] == lines;
    assert Rows([]) == [];
    assert CleanTable(rows) + [] == CleanTable(rows);
  }

  /**
   * Truncation at a line: after written rows and a '\n', an end of input, a
   * blank line or a line starting with ',' ends the table, and nothing after
   * it is read. With `rest` empty this is the round trip with one trailing '\n'.
   */
  lemma ParseCsvStopsAtLine(rows: seq<seq<string>>, rest: string)
    requires |rows| >= 1 && AllRawRows(rows)
    requires rest == [] || rest[0] in FIELD_STOPS
    ensures ParseCsv(Encode(rows) + "\n" + rest) == Ok(CleanTable(rows))
  {
    var lines := EncodeLines(rows);
    forall i | 0 <= i < |lines|
      ensures '\n' !in lines[i]
    {
      RawLine(rows[i]);
    }
    SplitJoinThen(lines, '\n', rest);
    LinesAtGap(rest);
    RowsStopAtGap(Split(rest, '\n'));
    RowsEncoded(rows, Split(rest, '\n'));
    assert CleanTable(rows) + [] == CleanTable(rows);
    ParseCsvIsReference(Encode(rows) + "\n" + rest);
  }

  /** Non-empty fields followed by an empty one: exactly the non-empty ones are kept. */
  lemma {:induction false} NonEmptyPrefixStops(a: seq<string>, b: seq<string>)
    requires forall j :: 0 <= j < |a| ==> a[j] != []
    requires b != [] && b[0] == []
    ensures NonEmptyPrefix(a + b) == a
    decreases |a|
  {
    if a == [] {
      assert a + b == b;
    } else {
      assert (a + b)[1..] == a[1..] + b;
      NonEmptyPrefixStops(a[1..], b);
      assert a == [a[0]] + a[1..];
    }
  }

  /** The first line of `x + rest`, when `x` holds no '\n'. */
  lemma FirstLineAfter(x: string, rest: string)
    requires '\n' !in x
    ensures Split(x + rest, '\n')[0] == x + rest[..LineLength(rest)]
  {
    var L := LineLength(rest);
    SpanIs(x + rest, {'\n'}, |x| + L);
    assert (x + rest)[..|x| + L] == x + rest[..L];
  }

  /** A first line whose fields are a full row and then an empty field gives that row alone. */
  lemma RowsOfCutLine(lines: seq<string>, row: seq<string>, b: seq<string>)
    requires lines != [] && Split(lines[0], ',') == row + b
    requires IsRawRow(row) && b != [] && b[0] == []
    ensures Rows(lines) == [CleanFields(row)]
  {
    NonEmptyPrefixStops(row, b);
  }

  /** A written row followed by ',' and then a gap reads as that row alone. */
  lemma LastRowStops(last: seq<string>, rest: string)
    requires IsRawRow(last)
    requires rest == [] || rest[0] in FIELD_STOPS
    ensures Rows(Split(Join(last, ",") + "," + rest, '\n')) == [CleanFields(last)]
  {
    RawLine(last);
    var r := rest[..LineLength(rest)];
    FirstLineAfter(Join(last, ",") + ",", rest);
    assert Join(last, ",") + "," + r == Join(last, [',']) + [','] + r;
    SplitJoinThen(last, ',', r);
    assert Split(r, ',')[0] == [];
    RowsOfCutLine(Split(Join(last, ",") + "," + rest, '\n'), last, Split(r, ','));
  }

  /** The single-row case of `LinesStopAtField`. */
  lemma OneRowStopsAtField(rows: seq<seq<string>>, rest: string)
    requires |rows| == 1 && AllRawRows(rows)
    requires rest == [] || rest[0] in FIELD_STOPS
    ensures Rows(Split(Encode(rows) + "," + rest, '\n')) == CleanTable(rows)
  {
    LastRowStops(rows[0], rest);
    assert EncodeLines(rows) == [Join(rows[0], ",")];
    assert CleanTable(rows) == [CleanFields(rows[0])];
  }

  /** Written rows, cut before the last one. */
  lemma EncodeSnoc(init: seq<seq<string>>, last: seq<string>)
    requires |init| >= 1 && AllRawRows(init)
    ensures var lines := EncodeLines(init);
      && Encode(init + [last]) == Join(lines, ['\n']) + ['\n'] + Join(last, ",")
      && forall i :: 0 <= i < |lines| ==> '\n' !in lines[i]
  {
    var lines := EncodeLines(init);
    assert EncodeLines(init + [last]) == lines + [Join(last, ",")];
    JoinSnoc(lines, Join(last, ","), "\n");
    forall i | 0 <= i < |lines|
      ensures '\n' !in lines[i]
    {
      RawLine(init[i]);
    }
  }

  /** Cleaning written rows, cut before the last one. */
  lemma CleanTableSnoc(init: seq<seq<string>>, last: seq<string>)
    ensures CleanTable(init + [last]) == CleanTable(init) + [CleanFields(last)]
  {
  }

  /** `LinesStopAtField` for rows `init` and then `last`. */
  lemma LinesStopAfterInit(init: seq<seq<string>>, last: seq<string>, rest: string)
    requires |init| >= 1 && AllRawRows(init) && IsRawRow(last)
    requires rest == [] || rest[0] in FIELD_STOPS
    ensures Rows(Split(Encode(init + [last]) + "," + rest, '\n')) == CleanTable(init + [last])
  {
    EncodeSnoc(init, last);
    var lines := EncodeLines(init);
    var tail := Join(last, ",") + "," + rest;
    assert Encode(init + [last]) + "," + rest == Join(lines, ['\n']) + ['\n'] + tail;
    SplitJoinThen(lines, '\n', tail);
    LastRowStops(last, rest);
    RowsEncoded(init, Split(tail, '\n'));
    CleanTableSnoc(init, last);
  }

  /** The rows `Reference` reads from written rows that end in ',' and a gap. */
  lemma LinesStopAtField(rows: seq<seq<string>>, rest: string)
    requires |rows| >= 1 && AllRawRows(rows)
    requires rest == [] || rest[0] in FIELD_STOPS
    ensures Rows(Split(Encode(rows) + "," + rest, '\n')) == CleanTable(rows)
  {
    var n := |rows|;
    if n == 1 {
      OneRowStopsAtField(rows, rest);
    } else {
      assert rows == rows[..n - 1] + [rows[n - 1]];
      LinesStopAfterInit(rows[..n - 1], rows[n - 1], rest);
    }
  }

  /**
   * Truncation inside a line: written rows followed by ',' and then an end
   * of input or another separator read as those rows; the empty field and
   * everything after it are dropped.
   */
  lemma ParseCsvStopsAtField(rows: seq<seq<string>>, rest: string)
    requires |rows| >= 1 && AllRawRows(rows)
    requires rest == [] || rest[0] in FIELD_STOPS
    ensures ParseCsv(Encode(rows) + "," + rest) == Ok(CleanTable(rows))
  {
    LinesStopAtField(rows, rest);
    ParseCsvIsReference(Encode(rows) + "," + rest);
  }

  // ----------------------------------------------------------------- queries

  /** Cells after the first, each with the space that ", " puts before it. */
  function Spaced(cells: seq<string>): (pieces: seq<string>)
    ensures |pieces| == |cells|
  {
    seq(|cells|, i requires 0 <= i < |cells| => " " + cells[i])
  }

  /** Joining with ", " is joining with ',' after putting a space before every cell but the first. */
  lemma {:induction false} JoinSpaced(row: seq<string>)
    requires |row| >= 1
    ensures Join(row, ", ") == Join([row[0]] + Spaced(row[1..]), ",")
    decreases |row|
  {
    if |row| > 1 {
      var tail := row[1..];
      JoinSpaced(tail);
      var sp := Spaced(tail);
      assert sp == [" " + tail[0]] + Spaced(tail[1..]);
      PrependJoin(" ", [tail[0]] + Spaced(tail[1..]), ",");
      assert ([tail[0]] + Spaced(tail[1..]))[1..] == Spaced(tail[1..]);
      var pieces := [row[0]] + sp;
      assert pieces[1..] == sp;
      assert Join(row, ", ") == row[0] + "," + (" " + Join(tail, ", "));
    }
  }

  /** A space before an alphanumeric cell is what cleaning removes. */
  lemma CleanSpaced(cell: string)
    requires AllAlnum(cell)
    ensures Clean(" " + cell) == cell
  {
    assert (" " + cell)[1..] == cell;
    CleanFixed(cell);
  }

  /** The pieces a joined row is cut into at ',' are raw fields that clean back to the cells. */
  lemma SpacedPieces(row: Row)
    requires IsCleanRow(row) && row[0] != []
    ensures var pieces := [row[0]] + Spaced(row[1..]);
      IsRawRow(pieces) && CleanFields(pieces) == row
  {
    var pieces := [row[0]] + Spaced(row[1..]);
    CleanFieldsEach(pieces);
    forall j | 0 <= j < |pieces|
      ensures IsRawField(pieces[j]) && Clean(pieces[j]) == row[j]
    {
      if j == 0 {
        CleanFixed(row[0]);
      } else {
        assert pieces[j] == " " + row[j];
        CleanSpaced(row[j]);
      }
      assert forall c :: c in pieces[j] ==> c == ' ' || IsAlnum(c);
    }
  }

  /** A row joined with ", " parses back to that row. */
  lemma JoinedRowReparses(row: Row)
    requires IsCleanRow(row) && row[0] != []
    ensures ParseCsv(Join(row, ", ")) == Ok([row])
  {
    var pieces := [row[0]] + Spaced(row[1..]);
    JoinSpaced(row);
    SpacedPieces(row);
    ParseCsvEncoded([pieces]);
    OneRowTable(pieces);
  }

  /** A table of one row is written as that row's line. */
  lemma OneRowTable(row: seq<string>)
    ensures Encode([row]) == Join(row, ",") && CleanTable([row]) == [CleanFields(row)]
  {
    assert EncodeLines([row]) == [Join(row, ",")];
  }

  /**
   * The line `parse_and_get_line_from_csv` returns holds the row: parsed
   * again, it gives back exactly that row, provided its first cell is not
   * empty (an empty first cell would make the line start with ',').
   */
  lemma GetLineReparses(input: string, lineNumber: nat)
    requires ParseCsv(input).Ok? && lineNumber < |ParseCsv(input).value|
    requires ParseCsv(input).value[lineNumber][0] != []
    ensures GetLine(input, lineNumber).Ok?
    ensures ParseCsv(GetLine(input, lineNumber).value) == Ok([ParseCsv(input).value[lineNumber]])
  {
    var rows := ParseCsv(input).value;
    assert IsCleanRow(rows[lineNumber]);
    JoinedRowReparses(rows[lineNumber]);
  }

  /** The sum of the values of cells that are all i32 decimals. */
  function DecimalSum(cells: seq<string>): int
    requires forall i :: 0 <= i < |cells| ==> IsI32Decimal(cells[i])
  {
    if cells == [] then 0
    else
      assert IsI32Decimal(cells[0]);
      DecimalValue(cells[0]) + DecimalSum(cells[1..])
  }

  /** Alphanumeric cells carry no sign, so each parses exactly when it is an i32 decimal. */
  lemma {:induction false} CellsParse(cells: seq<string>)
    requires forall i :: 0 <= i < |cells| ==> AllAlnum(cells[i])
    ensures ParseCells(cells).Ok? <==> forall i :: 0 <= i < |cells| ==> IsI32Decimal(cells[i])
    ensures ParseCells(cells).Ok? ==> Sum(ParseCells(cells).value) == DecimalSum(cells)
    decreases |cells|
  {
    forall i | 0 <= i < |cells|
      ensures ParseI32(cells[i]).Ok? <==> IsI32Decimal(cells[i])
      ensures IsI32Decimal(cells[i]) ==> ParseI32(cells[i]) == Ok(DecimalValue(cells[i]))
    {
      assert cells[i] == [] || IsAlnum(cells[i][0]);
      ParseUnsignedOk(cells[i]);
    }
    if cells != [] {
      CellsParse(cells[1..]);
      if ParseCells(cells).Ok? {
        assert ParseCells(cells).value == [DecimalValue(cells[0])] + ParseCells(cells[1..]).value;
      }
    }
  }

  /**
   * Summing the cells below the header: it succeeds exactly when every cell
   * is a non-empty string of ASCII digits of value at most 2^31 - 1, and is
   * then the sum of their values (0 when there are none); otherwise it fails
   * with the error of the first cell that is not.
   */
  lemma SumCellsMeaning(cells: seq<string>)
    requires forall i :: 0 <= i < |cells| ==> AllAlnum(cells[i])
    ensures SumCells(cells).Ok? <==> forall i :: 0 <= i < |cells| ==> IsI32Decimal(cells[i])
    ensures SumCells(cells).Ok? ==> SumCells(cells).value == DecimalSum(cells)
    ensures cells == [] ==> SumCells(cells) == Ok(0)
    ensures SumCells(cells).Err? ==>
      exists i :: 0 <= i < |cells| && !IsI32Decimal(cells[i]) && ParseI32(cells[i]).Err?
        && SumCells(cells) == Err(ParseIntError(ParseI32(cells[i]).error))
        && forall j :: 0 <= j < i ==> IsI32Decimal(cells[j])
  {
    CellsParse(cells);
    forall i | 0 <= i < |cells|
      ensures ParseI32(cells[i]).Ok? <==> IsI32Decimal(cells[i])
    {
      assert cells[i] == [] || IsAlnum(cells[i][0]);
      ParseUnsignedOk(cells[i]);
    }
  }

  /**
   * `parse_and_sum_col_from_csv`: errors of the column lookup pass through
   * unchanged; otherwise the header cell is ignored and the other cells are
   * summed as `SumCellsMeaning` describes.
   */
  lemma SumColMeaning(input: string, colNumber: nat)
    ensures ColumnOf(input, colNumber).Err? ==> SumCol(input, colNumber) == Err(ColumnOf(input, colNumber).error)
    ensures ColumnOf(input, colNumber).Ok? ==>
      SumCol(input, colNumber) == SumCells(SkipHeader(ColumnOf(input, colNumber).value))
    ensures ColumnOf(input, colNumber).Ok? ==> SumsBelowHeader(ColumnOf(input, colNumber).value, SumCol(input, colNumber))
  {
    SumColOfColumn(input, colNumber);
    if ColumnOf(input, colNumber).Ok? {
      SumBelowHeader(ColumnOf(input, colNumber).value);
    }
  }

  /**
   * `r` sums the cells of `column` below its header: it succeeds exactly when
   * each of them is an i32 decimal and is then the sum of their values (0 for
   * a header alone); otherwise it carries the error of the first of them that
   * is not one.
   */
  predicate SumsBelowHeader(column: seq<string>, r: Result<int, ParseError>)
  {
    && (r.Ok? <==> forall i :: 1 <= i < |column| ==> IsI32Decimal(column[i]))
    && (r.Ok? ==> r.value == DecimalSum(SkipHeader(column)))
    && (|column| <= 1 ==> r == Ok(0))
    && (r.Err? ==>
          exists i :: 1 <= i < |column| && !IsI32Decimal(column[i]) && ParseI32(column[i]).Err?
            && r == Err(ParseIntError(ParseI32(column[i]).error))
            && forall j :: 1 <= j < i ==> IsI32Decimal(column[j]))
  }

  /** `SumCellsMeaning` for the cells below a column's header, counted from the header. */
  lemma SumBelowHeader(column: seq<string>)
    requires forall i :: 0 <= i < |column| ==> AllAlnum(column[i])
    ensures SumsBelowHeader(column, SumCells(SkipHeader(column)))
  {
    var cells := SkipHeader(column);
    assert forall i :: 0 <= i < |cells| ==> cells[i] == column[i + 1];
    SumCellsMeaning(cells);
    if SumCells(cells).Err? {
      var k :| 0 <= k < |cells| && !IsI32Decimal(cells[k]) && ParseI32(cells[k]).Err?
        && SumCells(cells) == Err(ParseIntError(ParseI32(cells[k]).error))
        && forall j :: 0 <= j < k ==> IsI32Decimal(cells[j]);
      assert forall j :: 1 <= j < k + 1 ==> column[j] == cells[j - 1];
      assert 1 <= k + 1 < |column| && column[k + 1] == cells[k];
    }
  }

  lemma SumColOfColumn(input: string, colNumber: nat)
    ensures ColumnOf(input, colNumber).Err? ==> SumCol(input, colNumber) == Err(ColumnOf(input, colNumber).error)
    ensures ColumnOf(input, colNumber).Ok? ==>
      SumCol(input, colNumber) == SumCells(SkipHeader(ColumnOf(input, colNumber).value))
  {
  }
}
