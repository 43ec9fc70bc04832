/**
 * The table the repository's tests read from `biostats1.csv`, as the 19
 * rows their expected result spells out, written back as text with one
 * trailing '\n', and the answers the tests expect of the three queries.
 * Also the examples of the doc comments and a few edge cases of the parser.
 */
module Biostats {
  import opened Wrappers
  import opened Strings
  import opened IntParse
  import opened CsvParser
  import opened CsvProperties

  const BIOSTATS: Table := [
    ["Name", "Sex", "Age", "Heightin", "Weightlbs"],
    ["Alex", "M", "41", "74", "170"],
    ["Bert", "M", "42", "68", "166"],
    ["Carl", "M", "32", "70", "155"],
    ["Dave", "M", "39", "72", "167"],
    ["Elly", "F", "30", "66", "124"],
    ["Fran", "F", "33", "66", "115"],
    ["Gwen", "F", "26", "64", "121"],
    ["Hank", "M", "30", "71", "158"],
    ["Ivan", "M", "53", "72", "175"],
    ["Jake", "M", "32", "69", "143"],
    ["Kate", "F", "47", "69", "139"],
    ["Luke", "M", "34", "72", "163"],
    ["Myra", "F", "23", "62", "98"],
    ["Neil", "M", "36", "75", "160"],
    ["Omar", "M", "38", "70", "145"],
    ["Page", "F", "31", "67", "135"],
    ["Quin", "M", "29", "71", "176"],
    ["Ruth", "F", "28", "65", "131"]
  ]

  /** The table as a file: one line per row, each ended by '\n'. */
  const BIOSTATS_TEXT: string := Encode(BIOSTATS) + "\n"

  /** A row of non-empty alphanumeric cells can be written as text and is left as it is by cleaning. */
  lemma CleanRowIsRaw(row: Row)
    requires IsCleanRow(row) && forall j :: 0 <= j < |row| ==> row[j] != []
    ensures IsRawRow(row) && CleanFields(row) == row
  {
    CleanFieldsEach(row);
    forall j | 0 <= j < |row|
      ensures IsRawField(row[j]) && Clean(row[j]) == row[j]
    {
      CleanFixed(row[j]);
      assert forall c :: c in row[j] ==> IsAlnum(c);
    }
  }

  // The rows are checked a few at a time: one `forall` over all 19 rows puts
  // every cell of the table into a single proof obligation, which exceeds the
  // solver's resource budget.
  lemma BiostatsRawTo1()
    ensures forall i :: 0 <= i < 1 ==> IsRawRow(BIOSTATS[i]) && CleanFields(BIOSTATS[i]) == BIOSTATS[i]
  {
    forall i | 0 <= i < 1
      ensures IsRawRow(BIOSTATS[i]) && CleanFields(BIOSTATS[i]) == BIOSTATS[i]
    {
      CleanRowIsRaw(BIOSTATS[i]);
    }
  }

  lemma BiostatsRawTo4()
    ensures forall i :: 1 <= i < 4 ==> IsRawRow(BIOSTATS[i]) && CleanFields(BIOSTATS[i]) == BIOSTATS[i]
  {
    forall i | 1 <= i < 4
      ensures IsRawRow(BIOSTATS[i]) && CleanFields(BIOSTATS[i]) == BIOSTATS[i]
    {
      CleanRowIsRaw(BIOSTATS[i]);
    }
  }

  lemma BiostatsRawTo7()
    ensures forall i :: 4 <= i < 7 ==> IsRawRow(BIOSTATS[i]) && CleanFields(BIOSTATS[i]) == BIOSTATS[i]
  {
    forall i | 4 <= i < 7
      ensures IsRawRow(BIOSTATS[i]) && CleanFields(BIOSTATS[i]) == BIOSTATS[i]
    {
      CleanRowIsRaw(BIOSTATS[i]);
    }
  }

  lemma BiostatsRawTo10()
    ensures forall i :: 7 <= i < 10 ==> IsRawRow(BIOSTATS[i]) && CleanFields(BIOSTATS[i]) == BIOSTATS[i]
  {
    forall i | 7 <= i < 10
      ensures IsRawRow(BIOSTATS[i]) && CleanFields(BIOSTATS[i]) == BIOSTATS[i]
    {
      CleanRowIsRaw(BIOSTATS[i]);
    }
  }

  lemma BiostatsRawTo13()
    ensures forall i :: 10 <= i < 13 ==> IsRawRow(BIOSTATS[i]) && CleanFields(BIOSTATS[i]) == BIOSTATS[i]
  {
    forall i | 10 <= i < 13
      ensures IsRawRow(BIOSTATS[i]) && CleanFields(BIOSTATS[i]) == BIOSTATS[i]
    {
      CleanRowIsRaw(BIOSTATS[i]);
    }
  }

  lemma BiostatsRawTo16()
    ensures forall i :: 13 <= i < 16 ==> IsRawRow(BIOSTATS[i]) && CleanFields(BIOSTATS[i]) == BIOSTATS[i]
  {
    forall i | 13 <= i < 16
      ensures IsRawRow(BIOSTATS[i]) && CleanFields(BIOSTATS[i]) == BIOSTATS[i]
    {
      CleanRowIsRaw(BIOSTATS[i]);
    }
  }

  lemma BiostatsRawTo19()
    ensures forall i :: 16 <= i < 19 ==> IsRawRow(BIOSTATS[i]) && CleanFields(BIOSTATS[i]) == BIOSTATS[i]
  {
    forall i | 16 <= i < 19
      ensures IsRawRow(BIOSTATS[i]) && CleanFields(BIOSTATS[i]) == BIOSTATS[i]
    {
      CleanRowIsRaw(BIOSTATS[i]);
    }
  }

  lemma BiostatsIsRaw()
    ensures AllRawRows(BIOSTATS) && CleanTable(BIOSTATS) == BIOSTATS
  {
    BiostatsRawTo1();
    BiostatsRawTo4();
    BiostatsRawTo7();
    BiostatsRawTo10();
    BiostatsRawTo13();
    BiostatsRawTo16();
    BiostatsRawTo19();
  }

  /** `parse_csv` on the file gives the 19 rows back. */
  lemma BiostatsParses()
    ensures ParseCsv(BIOSTATS_TEXT) == Ok(BIOSTATS)
  {
    BiostatsIsRaw();
    ParseCsvStopsAtLine(BIOSTATS, "");
    assert Encode(BIOSTATS) + "\n" + "" == BIOSTATS_TEXT;
  }

  /** The queries on a text whose parse is known. */
  lemma QueriesOf(input: string, rows: Table, n: nat)
    requires ParseCsv(input) == Ok(rows)
    ensures GetLine(input, n) == if n < |rows| then Ok(Join(rows[n], ", ")) else Err(IndexOutOfBounds)
    ensures ColumnOf(input, n) == Column(rows, n)
  {
  }

  lemma BertJoined()
    ensures Join(BIOSTATS[2], ", ") == "Bert, M, 42, 68, 166"
  {
    assert BIOSTATS[2] == ["Bert", "M", "42", "68", "166"];
    BertNumbers();
    assert Join(["M", "42", "68", "166"], ", ") == "M, 42, 68, 166";
  }

  lemma BertNumbers()
    ensures Join(["42", "68", "166"], ", ") == "42, 68, 166"
  {
    assert Join(["166"], ", ") == "166";
    assert Join(["68", "166"], ", ") == "68, 166";
  }

  /** Line 2 (the header is line 0) is Bert's, its cells joined by ", "; there is no line 42. */
  lemma BiostatsLines()
    ensures GetLine(BIOSTATS_TEXT, 2) == Ok("Bert, M, 42, 68, 166")
    ensures GetLine(BIOSTATS_TEXT, 42) == Err(IndexOutOfBounds)
  {
    BiostatsParses();
    QueriesOf(BIOSTATS_TEXT, BIOSTATS, 2);
    QueriesOf(BIOSTATS_TEXT, BIOSTATS, 42);
    BertJoined();
  }

  const NAMES: seq<string> := ["Name", "Alex", "Bert", "Carl", "Dave", "Elly", "Fran", "Gwen", "Hank", "Ivan",
                                "Jake", "Kate", "Luke", "Myra", "Neil", "Omar", "Page", "Quin", "Ruth"]

  const WEIGHTS: seq<string> := ["Weightlbs", "170", "166", "155", "167", "124", "115", "121", "158", "175",
                                  "143", "139", "163", "98", "160", "145", "135", "176", "131"]

  lemma NamesAndWeights()
    ensures Column(BIOSTATS, 0) == Ok(NAMES)
    ensures Column(BIOSTATS, 4) == Ok(WEIGHTS)
  {
    Names();
    Weights();
  }

  lemma Names()
    ensures Column(BIOSTATS, 0) == Ok(NAMES)
  {
    assert Column(BIOSTATS, 0).value == NAMES;
  }

  lemma Weights()
    ensures Column(BIOSTATS, 4) == Ok(WEIGHTS)
  {
    assert forall i :: 0 <= i < |BIOSTATS| ==> 4 < |BIOSTATS[i]|;
    assert Column(BIOSTATS, 4).value == WEIGHTS;
  }

  /** Column 0 is the names, header first; there is no column 6. */
  lemma BiostatsColumns()
    ensures ColumnOf(BIOSTATS_TEXT, 0) == Ok(NAMES)
    ensures ColumnOf(BIOSTATS_TEXT, 4) == Ok(WEIGHTS)
    ensures ColumnOf(BIOSTATS_TEXT, 6) == Err(IndexOutOfBounds)
  {
    BiostatsParses();
    QueriesOf(BIOSTATS_TEXT, BIOSTATS, 0);
    QueriesOf(BIOSTATS_TEXT, BIOSTATS, 4);
    QueriesOf(BIOSTATS_TEXT, BIOSTATS, 6);
    NamesAndWeights();
    assert |BIOSTATS[0]| <= 6;
  }

  /** The weights below the header, in three groups of six, as text and as numbers. */
  const WEIGHTS_1: seq<string> := ["170", "166", "155", "167", "124", "115"]
  const WEIGHTS_2: seq<string> := ["121", "158", "175", "143", "139", "163"]
  const WEIGHTS_3: seq<string> := ["98", "160", "145", "135", "176", "131"]
  const VALUES_1: seq<int> := [170, 166, 155, 167, 124, 115]
  const VALUES_2: seq<int> := [121, 158, 175, 143, 139, 163]
  const VALUES_3: seq<int> := [98, 160, 145, 135, 176, 131]

  /** Cells that each parse to the matching value parse, together, to all the values. */
  lemma CellsParseTo(cells: seq<string>, values: seq<int>)
    requires |cells| == |values|
    requires forall i :: 0 <= i < |cells| ==> ParseI32(cells[i]) == Ok(values[i])
    ensures ParseCells(cells) == Ok(values)
  {
    assert ParseCells(cells).value == values;
  }

  lemma {:induction false} SumAppend(a: seq<int>, b: seq<int>)
    ensures Sum(a + b) == Sum(a) + Sum(b)
    decreases |a|
  {
    if a == [] {
      assert a + b == b;
    } else {
      assert (a + b)[1..] == a[1..] + b;
      SumAppend(a[1..], b);
    }
  }

  lemma Weights1()
    ensures forall i :: 0 <= i < |WEIGHTS_1| ==> ParseI32(WEIGHTS_1[i]) == Ok(VALUES_1[i])
  {
    assert ParseI32("170") == Ok(170);
    assert ParseI32("166") == Ok(166);
    assert ParseI32("155") == Ok(155);
    assert ParseI32("167") == Ok(167);
    assert ParseI32("124") == Ok(124);
    assert ParseI32("115") == Ok(115);
  }

  lemma Weights2()
    ensures forall i :: 0 <= i < |WEIGHTS_2| ==> ParseI32(WEIGHTS_2[i]) == Ok(VALUES_2[i])
  {
    assert ParseI32("121") == Ok(121);
    assert ParseI32("158") == Ok(158);
    assert ParseI32("175") == Ok(175);
    assert ParseI32("143") == Ok(143);
    assert ParseI32("139") == Ok(139);
    assert ParseI32("163") == Ok(163);
  }

  lemma Weights3()
    ensures forall i :: 0 <= i < |WEIGHTS_3| ==> ParseI32(WEIGHTS_3[i]) == Ok(VALUES_3[i])
  {
    assert ParseI32("98") == Ok(98);
    assert ParseI32("160") == Ok(160);
    assert ParseI32("145") == Ok(145);
    assert ParseI32("135") == Ok(135);
    assert ParseI32("176") == Ok(176);
    assert ParseI32("131") == Ok(131);
  }

  lemma WeightsParse()
    ensures ParseCells(SkipHeader(WEIGHTS)) == Ok(VALUES_1 + VALUES_2 + VALUES_3)
  {
    var cells := WEIGHTS_1 + WEIGHTS_2 + WEIGHTS_3;
    assert SkipHeader(WEIGHTS) == cells;
    Weights1();
    Weights2();
    Weights3();
    CellsParseTo(cells, VALUES_1 + VALUES_2 + VALUES_3);
  }

  /** The weights below the header add up to 2641. */
  lemma WeightsSum()
    ensures SumCells(SkipHeader(WEIGHTS)) == Ok(2641)
  {
    WeightsParse();
    SumAppend(VALUES_1 + VALUES_2, VALUES_3);
    SumAppend(VALUES_1, VALUES_2);
    assert Sum(VALUES_1) == 897;
    assert Sum(VALUES_2) == 899;
    assert Sum(VALUES_3) == 845;
  }

  /** Alex's name is not a number: the sum of the names fails on it with InvalidDigit. */
  lemma NamesSum()
    ensures SumCells(SkipHeader(NAMES)) == Err(ParseIntError(InvalidDigit))
  {
    var cells := SkipHeader(NAMES);
    assert cells[0] == "Alex";
    assert ParseI32("Alex") == Err(InvalidDigit);
  }

  /**
   * Column 4 (the weights) sums to 2641; column 0 fails on "Alex" with a
   * ParseIntError of kind InvalidDigit; column 6 does not exist.
   */
  lemma BiostatsSums()
    ensures SumCol(BIOSTATS_TEXT, 4) == Ok(2641)
    ensures SumCol(BIOSTATS_TEXT, 0) == Err(ParseIntError(InvalidDigit))
    ensures SumCol(BIOSTATS_TEXT, 6) == Err(IndexOutOfBounds)
  {
    BiostatsColumns();
    SumColMeaning(BIOSTATS_TEXT, 4);
    SumColMeaning(BIOSTATS_TEXT, 0);
    SumColMeaning(BIOSTATS_TEXT, 6);
    WeightsSum();
    NamesSum();
  }

  // ------------------------------------------------ doc examples, edge cases

  /** The doc example of `clean_field`. */
  lemma CleanExamples()
    ensures Clean(" Alex ") == "Alex"
    ensures Clean(" 41 ") == "41"
    ensures Clean("     41 ") == "41"
    ensures Clean("Carl!") == "Carl"
  {
    CleanPadded();
    CleanPunctuated();
  }

  lemma CleanPadded()
    ensures Clean(" Alex ") == "Alex"
    ensures Clean(" 41 ") == "41"
    ensures Clean("     41 ") == "41"
  {
    CleanPaddedNumber();
    assert Clean("     41 ") == Clean(" 41 ");
  }

  lemma CleanPaddedNumber()
    ensures Clean(" 41 ") == "41"
  {
  }

  lemma CleanPunctuated()
    ensures Clean("Carl!") == "Carl"
  {
  }

  const DOC_ROWS: Table := [
    ["Alex", "M", "41", "74", "170"],
    ["Bert", "M", "42", "68", "166"],
    ["Carl", "F", "32", "70", "155"]
  ]

  /** A row of five cells written as one line. */
  lemma FiveCells(row: Row)
    requires |row| == 5
    ensures Join(row, ",") == row[0] + "," + row[1] + "," + row[2] + "," + row[3] + "," + row[4]
  {
    assert row[1..][1..] == row[2..] && row[2..][1..] == row[3..] && row[3..][1..] == row[4..];
    assert Join(row[4..], ",") == row[4];
    assert Join(row[3..], ",") == row[3] + "," + row[4];
    assert Join(row[2..], ",") == row[2] + "," + row[3] + "," + row[4];
    assert Join(row[1..], ",") == row[1] + "," + row[2] + "," + row[3] + "," + row[4];
  }

  lemma DocLines()
    ensures EncodeLines(DOC_ROWS) == ["Alex,M,41,74,170", "Bert,M,42,68,166", "Carl,F,32,70,155"]
  {
    var lines := EncodeLines(DOC_ROWS);
    FiveCells(DOC_ROWS[0]);
    FiveCells(DOC_ROWS[1]);
    FiveCells(DOC_ROWS[2]);
    assert lines[0] == "Alex,M,41,74,170";
    assert lines[1] == "Bert,M,42,68,166";
    assert lines[2] == "Carl,F,32,70,155";
  }

  /** Three lines written as text. */
  lemma ThreeLines(lines: seq<string>)
    requires |lines| == 3
    ensures Join(lines, "\n") == lines[0] + "\n" + lines[1] + "\n" + lines[2]
  {
    assert lines[1..][1..] == lines[2..];
    assert Join(lines[2..], "\n") == lines[2];
  }

  /** The doc example's input, written from its rows. */
  const DOC_TEXT: string := Encode(DOC_ROWS) + "\n"

  /** It is the text of the doc comment of `parse_csv`. */
  lemma DocText()
    ensures DOC_TEXT == "Alex,M,41,74,170" + "\n" + "Bert,M,42,68,166" + "\n" + "Carl,F,32,70,155" + "\n"
  {
    DocLines();
    DocJoin();
  }

  lemma DocJoin()
    ensures Join(["Alex,M,41,74,170", "Bert,M,42,68,166", "Carl,F,32,70,155"], "\n") + "\n"
         == "Alex,M,41,74,170" + "\n" + "Bert,M,42,68,166" + "\n" + "Carl,F,32,70,155" + "\n"
  {
    ThreeLines(["Alex,M,41,74,170", "Bert,M,42,68,166", "Carl,F,32,70,155"]);
  }

  /** The doc example of `parse_csv`: three lines, the last ended by '\n', give three rows. */
  lemma DocRowsAreRaw()
    ensures AllRawRows(DOC_ROWS) && CleanTable(DOC_ROWS) == DOC_ROWS
  {
    forall i | 0 <= i < |DOC_ROWS|
      ensures IsRawRow(DOC_ROWS[i]) && CleanFields(DOC_ROWS[i]) == DOC_ROWS[i]
    {
      CleanRowIsRaw(DOC_ROWS[i]);
    }
  }

  lemma DocExample()
    ensures ParseCsv(DOC_TEXT) == Ok(DOC_ROWS)
  {
    DocRowsAreRaw();
    ParseCsvStopsAtLine(DOC_ROWS, "");
    assert DOC_TEXT == Encode(DOC_ROWS) + "\n" + "";
  }

  const A: Table := [["a"]]
  const AB: Table := [["a", "b"]]
  const SPACE: Table := [[" "]]

  /** Inputs written from small tables. */
  const EMPTY_FIELD: string := Encode(A) + "," + ",b"
  const BLANK_LINE: string := Encode(A) + "\n" + "\nb"
  const TRAILING_COMMA: string := Encode(AB) + "," + ""
  const BLANK: string := Encode(SPACE)

  lemma SmallTables()
    ensures AllRawRows(A) && CleanTable(A) == A && Encode(A) == "a"
    ensures AllRawRows(AB) && CleanTable(AB) == AB && Encode(AB) == "a,b"
    ensures AllRawRows(SPACE) && CleanTable(SPACE) == [[""]] && Encode(SPACE) == " "
  {
    assert Clean("a") == "a" && Clean("b") == "b" && Clean(" ") == "";
    assert CleanTable(A)[0] == ["a"];
    assert CleanTable(AB)[0] == ["a", "b"];
    assert CleanTable(SPACE)[0] == [""];
    assert Join(["a", "b"], ",") == "a,b";
    assert EncodeLines(A) == ["a"];
    assert EncodeLines(AB) == ["a,b"];
    assert EncodeLines(SPACE) == [" "];
  }

  lemma EdgeTexts()
    ensures EMPTY_FIELD == "a,,b" && BLANK_LINE == "a\n\nb" && TRAILING_COMMA == "a,b," && BLANK == " "
  {
    SmallTables();
  }

  /**
   * Where the parse stops: at an empty field ("a,,b"), at a blank line
   * ("a\n\nb"), at a trailing ',' ("a,b,"); a field of spaces (" ") is
   * kept as an empty cell.
   */
  lemma EdgeCases()
    ensures ParseCsv(EMPTY_FIELD) == Ok([["a"]])
    ensures ParseCsv(BLANK_LINE) == Ok([["a"]])
    ensures ParseCsv(TRAILING_COMMA) == Ok([["a", "b"]])
    ensures ParseCsv(BLANK) == Ok([[""]])
  {
    SmallTables();
    ParseCsvStopsAtField(A, ",b");
    ParseCsvStopsAtLine(A, "\nb");
    ParseCsvStopsAtField(AB, "");
    ParseCsvEncoded(SPACE);
  }

  /** Empty input and input starting with a separator are parse errors. */
  lemma ParseErrors()
    ensures ParseCsv("") == Err(CsvParseError)
    ensures ParseCsv(",a") == Err(CsvParseError)
    ensures ParseCsv("\na") == Err(CsvParseError)
  {
  }
}
