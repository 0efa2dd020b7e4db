/**
 * The CSV the benchmark writes: its header line and one line per successful run,
 * `chunk_size,run_number,read_time_ms,throughput_mbps`, in that field order.
 */
module ResultsCsv {
  import opened Wrappers
  import opened Decimal
  import opened CsvText

  const CHUNK_SIZE_COLUMN: string := "chunk_size"
  const RUN_NUMBER_COLUMN: string := "run_number"
  const READ_TIME_COLUMN: string := "read_time_ms"
  const THROUGHPUT_COLUMN: string := "throughput_mbps"

  /** The column names the header announces, in field order. */
  const COLUMNS: seq<string> := [CHUNK_SIZE_COLUMN, RUN_NUMBER_COLUMN, READ_TIME_COLUMN, THROUGHPUT_COLUMN]

  /** The header line, `chunk_size,run_number,read_time_ms,throughput_mbps` and a newline. */
  const HEADER: string :=
    CHUNK_SIZE_COLUMN + "," + RUN_NUMBER_COLUMN + "," + READ_TIME_COLUMN + "," + THROUGHPUT_COLUMN + "\n"

  /**
   * A metric is carried as the text `{:.3f}` gives for it; the clock readings and the
   * floating-point arithmetic that produce the number are not part of this model.
   */
  predicate IsFieldText(s: string) {
    ',' !in s && '\n' !in s
  }

  /** One run's outcome, the record `BenchmarkResult`. */
  datatype BenchmarkResult = BenchmarkResult(
    chunkSize: nat,
    runNumber: nat,
    readTimeMs: string,
    throughputMbps: string)

  predicate WellFormed(r: BenchmarkResult) {
    IsFieldText(r.readTimeMs) && IsFieldText(r.throughputMbps)
  }

  /** A line of the results file. */
  datatype Line = Header | Data(result: BenchmarkResult)

  /** The four fields of a data line, in the order the format string puts them. */
  function Fields(r: BenchmarkResult): seq<string> {
    [NatToDecimal(r.chunkSize), NatToDecimal(r.runNumber), r.readTimeMs, r.throughputMbps]
  }

  /**
   * The bytes one `write` call puts in the file for a line: the header, or the format
   * `{},{},{:.3f},{:.3f}` followed by a newline.
   */
  function RenderLine(line: Line): string {
    match line
    case Header => HEADER
    case Data(r) =>
      NatToDecimal(r.chunkSize) + "," + NatToDecimal(r.runNumber) + "," + r.readTimeMs + "," + r.throughputMbps + "\n"
  }

  /** The text of a line without its terminating newline. */
  function Body(line: Line): (b: string)
    ensures RenderLine(line) == b + "\n"
  {
    match line
    case Header => HEADER[..|HEADER| - 1]
    case Data(r) => NatToDecimal(r.chunkSize) + "," + NatToDecimal(r.runNumber) + "," + r.readTimeMs + "," + r.throughputMbps
  }

  /** A data line is its four fields joined by commas. */
  lemma DataBodyJoinsFields(r: BenchmarkResult)
    ensures Body(Data(r)) == Join(Fields(r), ',')
  {
    JoinFour(NatToDecimal(r.chunkSize), NatToDecimal(r.runNumber), r.readTimeMs, r.throughputMbps, ',');
  }

  lemma JoinFour(a: string, b: string, c: string, d: string, sep: char)
    ensures Join([a, b, c, d], sep) == a + [sep] + b + [sep] + c + [sep] + d
  {
    assert [a, b, c, d][1..] == [b, c, d];
    assert [b, c, d][1..] == [c, d];
    assert [c, d][1..] == [d];
    var cd := c + [sep] + d;
    assert Join([c, d], sep) == cd;
    var bcd := b + [sep] + cd;
    assert Join([b, c, d], sep) == bcd;
    assert a + [sep] + bcd == a + [sep] + b + [sep] + c + [sep] + d;
  }

  /** The text of a whole results file holding `lines`. */
  function FileText(lines: seq<Line>): string
    decreases |lines|
  {
    if lines == [] then "" else RenderLine(lines[0]) + FileText(lines[1..])
  }

  function Bodies(lines: seq<Line>): (bs: seq<string>)
    ensures |bs| == |lines|
    ensures forall i :: 0 <= i < |lines| ==> bs[i] == Body(lines[i])
  {
    seq(|lines|, i requires 0 <= i < |lines| => Body(lines[i]))
  }

  /** How a CSV reader takes a data line apart: four fields, the first two decimal. */
  function ParseDataLine(s: string): (r: Option<BenchmarkResult>)
    ensures r.Some? ==> |s| >= 1 && s[|s| - 1] == '\n'
  {
    if |s| == 0 || s[|s| - 1] != '\n' then None
    else
      var fields := Split(s[..|s| - 1], ',');
      if |fields| != 4 then None
      else
        match (ParseNat(fields[0]), ParseNat(fields[1]))
        case (Some(c), Some(n)) => Some(BenchmarkResult(c, n, fields[2], fields[3]))
        case _ => None
  }

  lemma DigitsHaveNoSeparator(s: string, ch: char)
    requires AllDigits(s) && !IsDigit(ch)
    ensures ch !in s
  {
  }

  lemma ColumnsAreFieldText()
    ensures forall i :: 0 <= i < |COLUMNS| ==> ',' !in COLUMNS[i] && '\n' !in COLUMNS[i]
  {
  }

  /** The header line without its newline: the four column names joined by commas. */
  lemma HeaderBody()
    ensures Body(Header) == CHUNK_SIZE_COLUMN + [','] + (RUN_NUMBER_COLUMN + [','] + (READ_TIME_COLUMN + [','] + THROUGHPUT_COLUMN))
  {
  }

  /** Splitting the header line at commas yields exactly the four column names. */
  lemma HeaderColumns()
    ensures Split(Body(Header), ',') == COLUMNS
  {
    ColumnsAreFieldText();
    HeaderBody();
    JoinFour(CHUNK_SIZE_COLUMN, RUN_NUMBER_COLUMN, READ_TIME_COLUMN, THROUGHPUT_COLUMN, ',');
    SplitJoin(COLUMNS, ',');
  }

  /** No line's body contains a newline, so each rendered line is exactly one line of text. */
  lemma BodyIsOneLine(line: Line)
    requires line.Data? ==> WellFormed(line.result)
    ensures '\n' !in Body(line)
  {
    if line.Header? {
      ColumnsAreFieldText();
      HeaderBody();
      assert COLUMNS[0] == CHUNK_SIZE_COLUMN && COLUMNS[1] == RUN_NUMBER_COLUMN;
      assert COLUMNS[2] == READ_TIME_COLUMN && COLUMNS[3] == THROUGHPUT_COLUMN;
    } else {
      var fields := Fields(line.result);
      DigitsHaveNoSeparator(fields[0], '\n');
      DigitsHaveNoSeparator(fields[1], '\n');
      DataBodyJoinsFields(line.result);
      JoinChars(fields, ',', '\n');
    }
  }

  /** A data line written for a well-formed result reads back as that result. */
  lemma DataLineRoundTrip(r: BenchmarkResult)
    requires WellFormed(r)
    ensures ParseDataLine(RenderLine(Data(r))) == Some(r)
  {
    var fields := Fields(r);
    DigitsHaveNoSeparator(fields[0], ',');
    DigitsHaveNoSeparator(fields[1], ',');
    var s := RenderLine(Data(r));
    DataBodyJoinsFields(r);
    assert s[..|s| - 1] == Join(fields, ',');
    SplitJoin(fields, ',');
    ParseNatRoundTrip(r.chunkSize);
    ParseNatRoundTrip(r.runNumber);
  }

  lemma {:induction false} FileTextIsLines(lines: seq<Line>)
    ensures FileText(lines) == Lines(Bodies(lines))
    decreases |lines|
  {
    if lines != [] {
      FileTextIsLines(lines[1..]);
      assert Bodies(lines)[1..] == Bodies(lines[1..]);
    }
  }

  /**
   * A results file of n lines splits at newlines into the n line bodies and one empty
   * tail: it holds exactly n text lines, one per `write`.
   */
  lemma FileTextSplits(lines: seq<Line>)
    requires forall i :: 0 <= i < |lines| ==> lines[i].Data? ==> WellFormed(lines[i].result)
    ensures Split(FileText(lines), '\n') == Bodies(lines) + [""]
    ensures |Split(FileText(lines), '\n')| == |lines| + 1
  {
    FileTextIsLines(lines);
    forall i | 0 <= i < |lines|
      ensures '\n' !in Bodies(lines)[i]
    {
      BodyIsOneLine(lines[i]);
    }
    SplitLines(Bodies(lines));
  }

  /**
   * A results file of the header and result lines reads back: its text holds one line
   * more than there are results, the first splitting into the column names and each
   * later one parsing as the result written there.
   */
  lemma ResultsFileReadsBack(results: seq<Line>)
    requires forall k :: 0 <= k < |results| ==> results[k].Data? && WellFormed(results[k].result)
    ensures var text := Split(FileText([Header] + results), '\n');
      |text| == |results| + 2 && text[|results| + 1] == "" && Split(text[0], ',') == COLUMNS &&
      forall k :: 0 <= k < |results| ==> ParseDataLine(text[k + 1] + "\n") == Some(results[k].result)
  {
    var lines := [Header] + results;
    FileTextSplits(lines);
    HeaderColumns();
    var text := Split(FileText(lines), '\n');
    forall k | 0 <= k < |results|
      ensures ParseDataLine(text[k + 1] + "\n") == Some(results[k].result)
    {
      assert text[k + 1] == Body(lines[k + 1]);
      DataLineRoundTrip(results[k].result);
    }
  }
}
