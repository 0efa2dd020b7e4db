/**
 * The orchestration script's own logic: the column check of `load_and_validate_results`
 * and the tables `generate_plots` builds, the chunk-size labels and the list of chunk
 * sizes it expects. Reading the CSV, the statistics and the drawing are not modelled.
 */
module PlotScript {
  import opened Wrappers
  import opened Decimal
  import opened CsvText
  import ResultsCsv
  import Driver

  /** The columns `load_and_validate_results` insists on, in its order. */
  const EXPECTED_COLUMNS: seq<string> := ["chunk_size", "run_number", "read_time_ms", "throughput_mbps"]

  /**
   * `all(col in df.columns for col in expected_cols)`: every expected name is among the
   * loaded columns.
   */
  function AllPresent(expected: seq<string>, columns: seq<string>): (ok: bool)
    ensures ok <==> forall k :: 0 <= k < |expected| ==> expected[k] in columns
    decreases |expected|
  {
    expected == [] || (expected[0] in columns && AllPresent(expected[1..], columns))
  }

  /** A loaded results table: its column names and its rows of fields. */
  datatype Frame = Frame(columns: seq<string>, rows: seq<seq<string>>)

  /**
   * `load_and_validate_results` once the file is read: the table comes back unchanged
   * when all four expected columns are there, and nothing comes back when one is missing.
   */
  function LoadAndValidateResults(frame: Frame): (r: Option<Frame>)
    ensures r.None? <==> exists k :: 0 <= k < |EXPECTED_COLUMNS| && EXPECTED_COLUMNS[k] !in frame.columns
    ensures r.Some? ==> r.value == frame
  {
    if AllPresent(EXPECTED_COLUMNS, frame.columns) then Some(frame) else None
  }

  /** The results file's header, split at its commas, passes the column check. */
  lemma HeaderPassesColumnCheck(rows: seq<seq<string>>)
    ensures LoadAndValidateResults(Frame(Split(ResultsCsv.Body(ResultsCsv.Header), ','), rows)).Some?
  {
    ResultsCsv.HeaderColumns();
    assert ResultsCsv.COLUMNS == EXPECTED_COLUMNS;
  }

  /**
   * The label `chunk_size_map` gives a chunk size: "100B", "1KiB", and "{8i}KiB" for
   * 8192 * i with i from 1 to 32; other sizes have none.
   */
  function Label(c: nat): Option<string> {
    if c == 100 then Some("100B")
    else if c == 1024 then Some("1KiB")
    else if c % 8192 == 0 && 1 <= c / 8192 <= 32 then Some(NatToDecimal(8 * (c / 8192)) + "KiB")
    else None
  }

  /**
   * `chunk_size_map`: "100B" and "1KiB", then a loop over i = 1..32 adding the label of
   * 8192 * i. The map it builds is the one `Label` describes.
   */
  method BuildLabelMap() returns (labels: map<nat, string>)
    ensures forall c: nat :: c in labels <==> Label(c).Some?
    ensures forall c: nat :: c in labels ==> labels[c] == Label(c).value
  {
    labels := map[100 := "100B", 1024 := "1KiB"];
    var i := 1;
    while i < 33
      invariant 1 <= i <= 33
      invariant forall c: nat :: c in labels <==> Label(c).Some? && c < 8192 * i
      invariant forall c: nat :: c in labels ==> labels[c] == Label(c).value
    {
      var size := i * 8192;
      LabelStep(i);
      labels := labels[size := NatToDecimal(8 * i) + "KiB"];
      i := i + 1;
    }
  }

  /** The sizes with a label below 8192 * (i + 1) are those below 8192 * i and 8192 * i itself. */
  lemma LabelStep(i: nat)
    requires 1 <= i <= 32
    ensures Label(i * 8192) == Some(NatToDecimal(8 * i) + "KiB")
    ensures forall c: nat :: Label(c).Some? && c < 8192 * (i + 1) <==> (Label(c).Some? && c < 8192 * i) || c == i * 8192
  {
    assert (i * 8192) / 8192 == i && (i * 8192) % 8192 == 0;
    forall c: nat | Label(c).Some? && 8192 * i <= c < 8192 * (i + 1)
      ensures c == i * 8192
    {
      assert c / 8192 == i;
    }
  }

  /**
   * `expected_chunk_sizes`: [100, 1024] extended with 8192 * i for i = 1..32. It is the
   * benchmark program's schedule.
   */
  function ExpectedChunkSizes(): (expected: seq<nat>)
    ensures expected == Driver.SCHEDULE
  {
    var expected := [100, 1024] + seq(32, j requires 0 <= j < 32 => 8192 * (j + 1));
    Driver.ScheduleFacts();
    assert |expected| == |Driver.SCHEDULE|;
    assert forall k :: 0 <= k < |expected| ==> expected[k] == Driver.SCHEDULE[k];
    expected
  }

  /** Every expected chunk size has a label, so the lookup in the summary loop succeeds. */
  lemma ExpectedSizesLabelled()
    ensures forall k :: 0 <= k < |ExpectedChunkSizes()| ==> Label(ExpectedChunkSizes()[k]).Some?
  {
    var expected := ExpectedChunkSizes();
    forall k | 0 <= k < |expected|
      ensures Label(expected[k]).Some?
    {
      assert expected[k] in Driver.SCHEDULE;
      Driver.ScheduleMembers(expected[k]);
    }
  }

  /** Distinct chunk sizes get distinct labels, so no two boxes of a plot share one. */
  lemma {:induction false} LabelsDistinct(c: nat, d: nat)
    requires Label(c).Some? && Label(d).Some? && c != d
    ensures Label(c).value != Label(d).value
  {
    var lc, ld := Label(c).value, Label(d).value;
    if c != 100 && c != 1024 && d != 100 && d != 1024 {
      var a, b := NatToDecimal(8 * (c / 8192)), NatToDecimal(8 * (d / 8192));
      if a + "KiB" == b + "KiB" {
        assert a == (a + "KiB")[..|a|];
        assert b == (b + "KiB")[..|b|];
        NatToDecimalInjective(8 * (c / 8192), 8 * (d / 8192));
      }
    } else {
      LabelShape(c);
      LabelShape(d);
    }
  }

  /**
   * How the labels tell sizes apart: "100B" is the only one whose next to last character
   * is '0', and "1KiB" is the only one of the form "{n}KiB" with n = 1.
   */
  lemma LabelShape(c: nat)
    requires Label(c).Some?
    ensures var l := Label(c).value;
      |l| >= 4 && (l[|l| - 2] == '0' <==> c == 100) && (l == "1KiB" <==> c == 1024)
  {
    var l := Label(c).value;
    if c != 100 && c != 1024 {
      var n := 8 * (c / 8192);
      var digits := NatToDecimal(n);
      assert l == digits + "KiB";
      assert l[|l| - 2] == 'i';
      if l == "1KiB" {
        assert digits == l[..|digits|];
        assert |digits| == 1;
        assert digits == "1" == NatToDecimal(1);
        NatToDecimalInjective(n, 1);
      }
    }
  }

  /** The labels of the first and last sizes of the sweep. */
  lemma SweepLabels()
    ensures Label(8192) == Some("8KiB") && Label(262144) == Some("256KiB")
  {
    assert NatToDecimal(8) == "8";
    assert 8192 % 8192 == 0 && 8192 / 8192 == 1;
    assert Label(8192) == Some(NatToDecimal(8) + "KiB");
    assert "8" + "KiB" == "8KiB";
    assert NatToDecimal(2) == "2";
    assert NatToDecimal(25) == NatToDecimal(2) + "5" == "25";
    assert NatToDecimal(256) == NatToDecimal(25) + "6" == "256";
    assert 262144 % 8192 == 0 && 262144 / 8192 == 32;
    assert Label(262144) == Some(NatToDecimal(256) + "KiB");
    assert "256" + "KiB" == "256KiB";
  }
}
