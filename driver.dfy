/**
 * The benchmark program: `main` truncates the results file, writes the header, and
 * benchmarks each chunk size of the schedule in turn; `benchmark_chunk_size` performs
 * 30 timed full-file reads and appends one result line per run. Any failure ends the
 * program with exit status 1 before the failing run's line is written.
 *
 * Everything outside the program is an oracle in `Env`, indexed by chunk size and run
 * number where it can differ from run to run.
 */
module Driver {
  import opened Chunking
  import opened ChunkedRead
  import opened ResultsCsv
  import opened CsvText
  import opened Wrappers

  const SMALL_CHUNK: nat := 100
  const MEDIUM_CHUNK: nat := 1024
  const INCREMENTAL: nat := 8192
  const INCREMENTAL_START: nat := 8192
  const LARGEST_CHUNK: nat := 256 * 1024

  /** Timed runs per chunk size, numbered 1 to 30. */
  const RUNS: nat := 30

  /** How many sizes the sweep from 8 KiB to 256 KiB in steps of 8 KiB visits. */
  const SWEEP_COUNT: nat := (LARGEST_CHUNK - INCREMENTAL_START) / INCREMENTAL + 1

  /** The `i`-th size of the sweep, counting from zero. */
  function SweepSize(i: nat): (size: nat)
    ensures size % INCREMENTAL == 0 && size >= INCREMENTAL_START
  {
    INCREMENTAL_START + INCREMENTAL * i
  }

  /** The sizes the sweep loop visits, from 8 KiB up in steps of 8 KiB, n of them. */
  function SweepSizes(n: nat): (sizes: seq<nat>)
    ensures |sizes| == n
    ensures forall i :: 0 <= i < n ==> sizes[i] == 8192 * (i + 1)
    ensures forall i, j :: 0 <= i < j < n ==> sizes[i] < sizes[j]
  {
    seq(n, i requires 0 <= i < n => SweepSize(i))
  }

  /** The chunk sizes in the order `main` benchmarks them. */
  const SCHEDULE: seq<nat> := [SMALL_CHUNK, MEDIUM_CHUNK] + SweepSizes(SWEEP_COUNT)

  /** What the operating system and the clock answer. */
  datatype Env = Env(
    outputOpens: bool,                         // open of benchmark_results.csv succeeds
    headerWritten: int,                        // what write returns for the header
    allocates: nat -> bool,                    // malloc of a chunk-size buffer succeeds
    testOpens: (nat, nat) -> bool,             // open of test_file.bin, by chunk size and run
    read: (nat, nat, nat, nat) -> int,         // read, by chunk size, run, offset and count
    testCloses: (nat, nat) -> bool,            // close of the test file, by chunk size and run
    metrics: (nat, nat) -> (string, string),   // the `{:.3f}` texts of read time and throughput
    rowWritten: (nat, nat) -> int,             // what write returns for a result line
    outputCloses: bool)                        // close of the results file succeeds

  ghost predicate HonestEnv(env: Env) {
    forall chunk: nat, run: nat, pos: nat, n: nat :: env.read(chunk, run, pos, n) <= n
  }

  /** The test file as one run sees it. */
  function RunRead(env: Env, chunk: nat, run: nat): (read: ReadFn)
    requires HonestEnv(env)
    ensures Honest(read)
    ensures forall pos: nat, n: nat :: read(pos, n) == env.read(chunk, run, pos, n)
  {
    (pos: nat, n: nat) => env.read(chunk, run, pos, n)
  }

  /** The record built after run `run` of chunk size `chunk`. */
  function ResultOf(env: Env, chunk: nat, run: nat): BenchmarkResult {
    BenchmarkResult(chunk, run, env.metrics(chunk, run).0, env.metrics(chunk, run).1)
  }

  /**
   * A run gets its line written when the test file opens, the loop reads all
   * `FILE_SIZE` bytes, the file closes, and the line is written in full.
   */
  predicate RunSucceeds(env: Env, chunk: nat, run: nat)
    requires HonestEnv(env)
  {
    env.testOpens(chunk, run) &&
    env.testCloses(chunk, run) &&
    FinalTotal(RunRead(env, chunk, run), FILE_SIZE, chunk, 0) == FILE_SIZE &&
    env.rowWritten(chunk, run) == |RenderLine(Data(ResultOf(env, chunk, run)))|
  }

  /** Which runs of a chunk size succeed. */
  function RunOutcomes(env: Env, chunk: nat): (ok: nat -> bool)
    requires HonestEnv(env)
    ensures forall run :: ok(run) == RunSucceeds(env, chunk, run)
  {
    (run: nat) => RunSucceeds(env, chunk, run)
  }

  /** The first run, from `run` on, that fails; `RUNS + 1` when none does. */
  function FirstFailure(ok: nat -> bool, run: nat): (k: nat)
    requires 1 <= run <= RUNS + 1
    ensures run <= k <= RUNS + 1
    decreases RUNS + 1 - run
  {
    if run > RUNS || !ok(run) then run else FirstFailure(ok, run + 1)
  }

  /** All 30 runs of a chunk size succeed (and its buffer was allocated). */
  predicate ChunkCompletes(env: Env, chunk: nat)
    requires HonestEnv(env)
  {
    env.allocates(chunk) && forall run :: 1 <= run <= RUNS ==> RunSucceeds(env, chunk, run)
  }

  /** The result lines of the first n runs of a chunk size. */
  function RunLines(env: Env, chunk: nat, n: nat): (lines: seq<Line>)
    ensures |lines| == n
    ensures forall i :: 0 <= i < n ==>
      lines[i].Data? && lines[i].result.chunkSize == chunk && lines[i].result.runNumber == i + 1
    ensures forall i, j :: 0 <= i < j < n ==> lines[i].result.runNumber < lines[j].result.runNumber
    ensures forall i :: 0 <= i < n ==> lines[i] == Data(ResultOf(env, chunk, i + 1))
  {
    seq(n, i requires 0 <= i < n => Data(ResultOf(env, chunk, i + 1)))
  }

  /** The lines one chunk size adds: one per run up to the first failure. */
  function ChunkLines(env: Env, chunk: nat): seq<Line>
    requires HonestEnv(env)
  {
    if env.allocates(chunk) then RunLines(env, chunk, FirstFailure(RunOutcomes(env, chunk), 1) - 1) else []
  }

  /** What benchmarking one chunk size amounts to, seen from `main`. */
  datatype ChunkOutcome = ChunkOutcome(completes: bool, lines: seq<Line>)

  function OutcomeOf(env: Env, chunk: nat): ChunkOutcome
    requires HonestEnv(env)
  {
    ChunkOutcome(ChunkCompletes(env, chunk), ChunkLines(env, chunk))
  }

  /** The outcome of every chunk size. */
  function OutcomesOf(env: Env): (o: nat -> ChunkOutcome)
    requires HonestEnv(env)
    ensures Describes(env, o)
  {
    (chunk: nat) => OutcomeOf(env, chunk)
  }

  /** `o` gives, for each chunk size, what benchmarking it in `env` amounts to. */
  ghost predicate Describes(env: Env, o: nat -> ChunkOutcome)
    requires HonestEnv(env)
  {
    forall chunk: nat {:trigger OutcomeOf(env, chunk)} :: o(chunk) == OutcomeOf(env, chunk)
  }

  /** Every chunk size of the schedule completes, checked from the last one back. */
  predicate ScheduleCompletes(o: nat -> ChunkOutcome, sched: seq<nat>)
    decreases |sched|
  {
    sched == [] || (ScheduleCompletes(o, sched[..|sched| - 1]) && o(sched[|sched| - 1]).completes)
  }

  /** The result lines of a schedule: chunk after chunk, until one fails. */
  function ScheduleLines(o: nat -> ChunkOutcome, sched: seq<nat>): seq<Line>
    decreases |sched|
  {
    if sched == [] then []
    else
      var prefix := sched[..|sched| - 1];
      if ScheduleCompletes(o, prefix) then ScheduleLines(o, prefix) + o(sched[|sched| - 1]).lines
      else ScheduleLines(o, prefix)
  }

  /** The program exits with status 0. */
  predicate Succeeds(env: Env)
    requires HonestEnv(env)
  {
    env.outputOpens && env.headerWritten == |HEADER| && ScheduleCompletes(OutcomesOf(env), SCHEDULE) && env.outputCloses
  }

  /** The results file, `benchmark_results.csv`, as the lines written to it so far. */
  class ResultsFile {
    var lines: seq<Line>

    /** Opening with O_CREAT | O_TRUNC: whatever the file held before is gone. */
    constructor Create()
      ensures lines == []
    {
      lines := [];
    }

    /**
     * One `write` of a line, whose result `written` comes from the system; the write
     * counts only when every byte went out, and otherwise the program gives up.
     */
    method Write(line: Line, written: int) returns (ok: bool)
      modifies this
      ensures ok <==> written == |RenderLine(line)|
      ensures lines == if ok then old(lines) + [line] else old(lines)
    {
      ok := written == |RenderLine(line)|;
      if ok {
        lines := lines + [line];
      }
    }
  }

  /** Every run before the first failure succeeds, and the first failure does fail. */
  lemma {:induction false} FirstFailureFails(ok: nat -> bool, run: nat)
    requires 1 <= run <= RUNS + 1
    ensures forall j :: run <= j < FirstFailure(ok, run) ==> ok(j)
    ensures FirstFailure(ok, run) <= RUNS ==> !ok(FirstFailure(ok, run))
    decreases RUNS + 1 - run
  {
    if run <= RUNS && ok(run) {
      FirstFailureFails(ok, run + 1);
    }
  }

  /** The first failure is the run k when all runs from `run` to k - 1 succeed and k fails. */
  lemma {:induction false} FirstFailureIs(ok: nat -> bool, run: nat, k: nat)
    requires 1 <= run <= k <= RUNS + 1
    requires forall j :: run <= j < k ==> ok(j)
    requires k <= RUNS ==> !ok(k)
    ensures FirstFailure(ok, run) == k
    decreases k - run
  {
    if run < k {
      FirstFailureIs(ok, run + 1, k);
    }
  }

  /**
   * `benchmark_chunk_size`: 30 runs of one chunk size. It returns false when the
   * program must exit with failure. The file gains one line per successful run, in run
   * order, and nothing for the run that failed or any run after it.
   */
  method BenchmarkChunkSize(env: Env, chunk: nat, out: ResultsFile) returns (ok: bool)
    requires HonestEnv(env)
    modifies out
    ensures ok == ChunkCompletes(env, chunk)
    ensures out.lines == old(out.lines) + ChunkLines(env, chunk)
  {
    if !env.allocates(chunk) {
      return false;
    }
    var run := 0;
    while run < RUNS
      invariant 0 <= run <= RUNS
      invariant forall j :: 1 <= j <= run ==> RunSucceeds(env, chunk, j)
      invariant out.lines == old(out.lines) + RunLines(env, chunk, run)
    {
      var runNumber := run + 1;
      ok := TimedRun(env, chunk, runNumber, out);
      if !ok {
        FirstFailureIs(RunOutcomes(env, chunk), 1, runNumber);
        return false;
      }
      assert RunLines(env, chunk, run) + [Data(ResultOf(env, chunk, runNumber))] == RunLines(env, chunk, runNumber);
      run := runNumber;
    }
    FirstFailureIs(RunOutcomes(env, chunk), 1, RUNS + 1);
    return true;
  }

  /**
   * One pass of the run loop of `benchmark_chunk_size`: open the test file, read it whole,
   * close it, and append the run's line. It returns false where the program would exit.
   */
  method TimedRun(env: Env, chunk: nat, runNumber: nat, out: ResultsFile) returns (ok: bool)
    requires HonestEnv(env)
    modifies out
    ensures ok == RunSucceeds(env, chunk, runNumber)
    ensures out.lines == if ok then old(out.lines) + [Data(ResultOf(env, chunk, runNumber))] else old(out.lines)
  {
    if !env.testOpens(chunk, runNumber) {
      return false;
    }
    var totalRead, _ := ReadLoop(FILE_SIZE, chunk, RunRead(env, chunk, runNumber));
    if !env.testCloses(chunk, runNumber) || totalRead != FILE_SIZE {
      return false;
    }
    var result := BenchmarkResult(chunk, runNumber, env.metrics(chunk, runNumber).0, env.metrics(chunk, runNumber).1);
    ok := out.Write(Data(result), env.rowWritten(chunk, runNumber));
  }

  /**
   * `main`: the exit status is 0 exactly when everything succeeds. When the results
   * file opens, it holds the header followed by the lines of the schedule up to the
   * first failure, or nothing at all when the header write fails.
   */
  method RunBenchmark(env: Env) returns (status: int, out: ResultsFile?)
    requires HonestEnv(env)
    ensures status == (if Succeeds(env) then 0 else 1)
    ensures out == null <==> !env.outputOpens
    ensures out != null ==>
      out.lines == if env.headerWritten == |HEADER| then [Header] + ScheduleLines(OutcomesOf(env), SCHEDULE) else []
  {
    if !env.outputOpens {
      return 1, null;
    }
    out := new ResultsFile.Create();
    var ok := out.Write(Header, env.headerWritten);
    if !ok {
      return 1, out;
    }
    ghost var o := OutcomesOf(env);
    ScheduleAt(0);
    assert SCHEDULE[..0] == [];
    ok := BenchmarkScheduled(env, SMALL_CHUNK, out, o, SCHEDULE, 0);
    if !ok {
      return 1, out;
    }
    ok := BenchmarkScheduled(env, MEDIUM_CHUNK, out, o, SCHEDULE, 1);
    if !ok {
      return 1, out;
    }
    ok := BenchmarkSweep(env, out, o);
    if !ok {
      return 1, out;
    }
    if !env.outputCloses {
      return 1, out;
    }
    return 0, out;
  }

  /**
   * The loop of `main` over 8 KiB, 16 KiB, ..., 256 KiB, entered once the first two sizes
   * have completed; it stops at the first size that fails.
   */
  method BenchmarkSweep(env: Env, out: ResultsFile, ghost o: nat -> ChunkOutcome) returns (ok: bool)
    requires HonestEnv(env) && Describes(env, o)
    requires ScheduleCompletes(o, SCHEDULE[..2])
    requires out.lines == [Header] + ScheduleLines(o, SCHEDULE[..2])
    modifies out
    ensures ok == ScheduleCompletes(o, SCHEDULE)
    ensures out.lines == [Header] + ScheduleLines(o, SCHEDULE)
  {
    var size := INCREMENTAL_START;
    ghost var k := 0;
    while size <= LARGEST_CHUNK
      invariant 0 <= k <= SWEEP_COUNT && size == SweepSize(k)
      invariant ScheduleCompletes(o, SCHEDULE[..k + 2])
      invariant out.lines == [Header] + ScheduleLines(o, SCHEDULE[..k + 2])
    {
      SweepStep(k);
      ScheduleAt(k);
      ok := BenchmarkScheduled(env, size, out, o, SCHEDULE, k + 2);
      if !ok {
        return false;
      }
      size := size + INCREMENTAL;
      k := k + 1;
    }
    SweepStep(k);
    assert SCHEDULE[..k + 2] == SCHEDULE;
    return true;
  }

  /**
   * `benchmark_chunk_size` for the size at position i of a schedule whose earlier sizes
   * all completed.
   */
  method BenchmarkScheduled(env: Env, chunk: nat, out: ResultsFile, ghost o: nat -> ChunkOutcome,
                            ghost sched: seq<nat>, ghost i: nat)
    returns (ok: bool)
    requires HonestEnv(env) && Describes(env, o) && i < |sched| && sched[i] == chunk
    requires ScheduleCompletes(o, sched[..i])
    requires out.lines == [Header] + ScheduleLines(o, sched[..i])
    modifies out
    ensures ok == ScheduleCompletes(o, sched[..i + 1])
    ensures out.lines == [Header] + ScheduleLines(o, sched[..i + 1])
    ensures !ok ==> !ScheduleCompletes(o, sched) && out.lines == [Header] + ScheduleLines(o, sched)
  {
    ghost var before := out.lines;
    ok := BenchmarkChunkSize(env, chunk, out);
    assert o(chunk) == OutcomeOf(env, chunk);
    ChunkStep(o, sched, i, before, out.lines, ok);
  }

  /**
   * A chunk size contributes the lines of its runs in run order, each of a run that
   * succeeded, up to the first run that fails; it completes exactly when its buffer
   * was allocated and all 30 lines are there.
   */
  lemma ChunkLinesAreRuns(env: Env, chunk: nat)
    requires HonestEnv(env)
    ensures var lines := ChunkLines(env, chunk);
      |lines| <= RUNS &&
      (forall i :: 0 <= i < |lines| ==> lines[i] == Data(ResultOf(env, chunk, i + 1)) && RunSucceeds(env, chunk, i + 1)) &&
      (env.allocates(chunk) && |lines| < RUNS ==> !RunSucceeds(env, chunk, |lines| + 1)) &&
      (ChunkCompletes(env, chunk) <==> env.allocates(chunk) && |lines| == RUNS)
  {
    FirstFailureFails(RunOutcomes(env, chunk), 1);
  }

  /** For each size of `sched` in turn, the lines of all 30 of its runs, in run order. */
  function AllRunLines(env: Env, sched: seq<nat>): seq<Line>
    decreases |sched|
  {
    if sched == [] then [] else AllRunLines(env, sched[..|sched| - 1]) + RunLines(env, sched[|sched| - 1], RUNS)
  }

  lemma {:induction false} AllRunLinesLength(env: Env, sched: seq<nat>)
    ensures |AllRunLines(env, sched)| == |sched| * RUNS
    decreases |sched|
  {
    if sched != [] {
      AllRunLinesLength(env, sched[..|sched| - 1]);
      MulSucc(|sched| - 1, RUNS);
    }
  }

  lemma MulSucc(k: nat, width: nat)
    ensures (k + 1) * width == k * width + width
  {
  }

  /** A schedule whose every size completed holds every run's line of every size. */
  lemma {:induction false} CompletedScheduleLines(env: Env, o: nat -> ChunkOutcome, sched: seq<nat>)
    requires ScheduleCompletes(o, sched)
    requires forall i :: 0 <= i < |sched| ==> o(sched[i]).lines == RunLines(env, sched[i], RUNS)
    ensures ScheduleLines(o, sched) == AllRunLines(env, sched)
    decreases |sched|
  {
    if sched != [] {
      var prefix := sched[..|sched| - 1];
      assert forall i :: 0 <= i < |prefix| ==> prefix[i] == sched[i];
      CompletedScheduleLines(env, o, prefix);
    }
  }

  /** A schedule whose sizes contribute only result lines holds only result lines. */
  lemma {:induction false} ScheduleLinesAreData(o: nat -> ChunkOutcome, sched: seq<nat>)
    requires forall c: nat, k :: 0 <= k < |o(c).lines| ==> o(c).lines[k].Data?
    ensures forall k :: 0 <= k < |ScheduleLines(o, sched)| ==> ScheduleLines(o, sched)[k].Data?
    decreases |sched|
  {
    if sched != [] {
      ScheduleLinesAreData(o, sched[..|sched| - 1]);
    }
  }

  /**
   * When the program exits with status 0, the file holds the header and then 34 × 30
   * result lines: for each size of the schedule in turn, the lines of its runs 1 to 30.
   */
  lemma SuccessfulOutput(env: Env)
    requires HonestEnv(env) && Succeeds(env)
    ensures ScheduleLines(OutcomesOf(env), SCHEDULE) == AllRunLines(env, SCHEDULE)
    ensures |[Header] + AllRunLines(env, SCHEDULE)| == 1 + |SCHEDULE| * RUNS == 1021
  {
    var o := OutcomesOf(env);
    ScheduleCompletesAll(o, SCHEDULE);
    forall i | 0 <= i < |SCHEDULE|
      ensures o(SCHEDULE[i]).lines == RunLines(env, SCHEDULE[i], RUNS)
    {
      assert o(SCHEDULE[i]) == OutcomeOf(env, SCHEDULE[i]);
      ChunkLinesAreRuns(env, SCHEDULE[i]);
    }
    CompletedScheduleLines(env, o, SCHEDULE);
    AllRunLinesLength(env, SCHEDULE);
    ScheduleAt(0);
  }

  /** The header is the first line of the results file, and no other line is a header. */
  lemma HeaderOnlyFirst(env: Env)
    requires HonestEnv(env)
    ensures var lines := [Header] + ScheduleLines(OutcomesOf(env), SCHEDULE);
      forall k :: 0 <= k < |lines| ==> (lines[k].Header? <==> k == 0)
  {
    var o := OutcomesOf(env);
    forall c: nat, k | 0 <= k < |o(c).lines|
      ensures o(c).lines[k].Data?
    {
      ChunkLinesAreRuns(env, c);
    }
    ScheduleLinesAreData(o, SCHEDULE);
  }

  /** The metric texts `{:.3f}` produces hold no comma and no newline. */
  ghost predicate MetricsAreText(env: Env) {
    forall chunk: nat, run: nat :: IsFieldText(env.metrics(chunk, run).0) && IsFieldText(env.metrics(chunk, run).1)
  }

  /** The lines of complete runs are result lines, of the sizes scheduled, with metric text. */
  lemma {:induction false} AllRunLinesAreResults(env: Env, sched: seq<nat>)
    requires MetricsAreText(env)
    ensures forall k :: 0 <= k < |AllRunLines(env, sched)| ==>
      AllRunLines(env, sched)[k].Data? && WellFormed(AllRunLines(env, sched)[k].result) &&
      AllRunLines(env, sched)[k].result.chunkSize in sched
    decreases |sched|
  {
    if sched != [] {
      var prefix := sched[..|sched| - 1];
      AllRunLinesAreResults(env, prefix);
      var before := AllRunLines(env, prefix);
      var block := RunLines(env, sched[|sched| - 1], RUNS);
      var lines := before + block;
      forall k | 0 <= k < |lines|
        ensures lines[k].Data? && WellFormed(lines[k].result) && lines[k].result.chunkSize in sched
      {
        if k < |before| {
          assert lines[k] == before[k];
          assert forall c :: c in prefix ==> c in sched;
        } else {
          var run := k - |before| + 1;
          assert lines[k] == Data(ResultOf(env, sched[|sched| - 1], run));
          assert IsFieldText(env.metrics(sched[|sched| - 1], run).0);
          assert IsFieldText(env.metrics(sched[|sched| - 1], run).1);
        }
      }
    }
  }

  /**
   * The text of a results file the program completed: 1021 newline-terminated lines,
   * the first splitting into the four column names, every other one reading back as
   * the result of its run.
   */
  lemma SuccessfulText(env: Env)
    requires HonestEnv(env) && Succeeds(env) && MetricsAreText(env)
    ensures var results := ScheduleLines(OutcomesOf(env), SCHEDULE);
      var text := Split(FileText([Header] + results), '\n');
      |results| == 1020 && |text| == 1022 && Split(text[0], ',') == COLUMNS &&
      forall k :: 0 <= k < |results| ==>
        results[k].Data? && ParseDataLine(text[k + 1] + "\n") == Some(results[k].result)
  {
    SuccessfulOutput(env);
    AllRunLinesAreResults(env, SCHEDULE);
    ResultsFileReadsBack(AllRunLines(env, SCHEDULE));
  }

  /**
   * One chunk size of the schedule, seen from `main`: the file gains its lines after those
   * of the sizes before it, and when it fails the schedule stops there.
   */
  lemma ChunkStep(o: nat -> ChunkOutcome, sched: seq<nat>, i: nat, before: seq<Line>, after: seq<Line>, ok: bool)
    requires i < |sched|
    requires ScheduleCompletes(o, sched[..i])
    requires before == [Header] + ScheduleLines(o, sched[..i])
    requires after == before + o(sched[i]).lines
    requires ok == o(sched[i]).completes
    ensures ok == ScheduleCompletes(o, sched[..i + 1])
    ensures after == [Header] + ScheduleLines(o, sched[..i + 1])
    ensures !ok ==> !ScheduleCompletes(o, sched) && after == [Header] + ScheduleLines(o, sched)
  {
    ChunkDone(o, sched, i);
    AppendAssoc([Header], ScheduleLines(o, sched[..i]), o(sched[i]).lines);
  }

  lemma AppendAssoc<T>(a: seq<T>, b: seq<T>, c: seq<T>)
    ensures (a + b) + c == a + (b + c)
  {
  }

  /** Where each size of `main` sits in the schedule. */
  lemma ScheduleAt(k: nat)
    ensures SWEEP_COUNT == 32 && |SCHEDULE| == SWEEP_COUNT + 2
    ensures SCHEDULE[0] == SMALL_CHUNK && SCHEDULE[1] == MEDIUM_CHUNK
    ensures k < SWEEP_COUNT ==> SCHEDULE[k + 2] == SweepSize(k)
  {
  }

  /** The sweep goes on while the size is at most 256 KiB, and each size is 8 KiB past the last. */
  lemma SweepStep(k: nat)
    ensures SweepSize(k) <= LARGEST_CHUNK <==> k < SWEEP_COUNT
    ensures SweepSize(k) + INCREMENTAL == SweepSize(k + 1)
  {
  }

  /**
   * The schedule is 100, 1024, then 8192, 16384, ..., 262144: 34 sizes, each larger
   * than the one before.
   */
  lemma ScheduleFacts()
    ensures |SCHEDULE| == 34
    ensures SCHEDULE[0] == 100 && SCHEDULE[1] == 1024
    ensures forall i :: 2 <= i < |SCHEDULE| ==> SCHEDULE[i] == 8192 * (i - 1)
    ensures forall i, j :: 0 <= i < j < |SCHEDULE| ==> SCHEDULE[i] < SCHEDULE[j]
  {
  }

  /** A size is in the schedule exactly when it is 100, 1024, or a multiple of 8 KiB up to 256 KiB. */
  lemma ScheduleMembers(c: nat)
    ensures c in SCHEDULE <==> c == 100 || c == 1024 || (c % 8192 == 0 && 8192 <= c <= 262144)
  {
    ScheduleFacts();
    if c % 8192 == 0 && 8192 <= c <= 262144 {
      assert SCHEDULE[c / 8192 + 1] == c;
    }
  }

  /**
   * Benchmarking the chunk size at position i, once all before it completed, adds its
   * lines; when it fails, the schedule does not complete and nothing after it adds any.
   */
  lemma ChunkDone(o: nat -> ChunkOutcome, sched: seq<nat>, i: nat)
    requires i < |sched|
    requires ScheduleCompletes(o, sched[..i])
    ensures ScheduleLines(o, sched[..i + 1]) == ScheduleLines(o, sched[..i]) + o(sched[i]).lines
    ensures ScheduleCompletes(o, sched[..i + 1]) <==> o(sched[i]).completes
    ensures !o(sched[i]).completes ==>
      !ScheduleCompletes(o, sched) && ScheduleLines(o, sched) == ScheduleLines(o, sched[..i + 1])
  {
    assert sched[..i + 1][..i] == sched[..i];
    if !o(sched[i]).completes {
      ScheduleLinesStop(o, sched, i + 1);
    }
  }

  /** The recursive definition agrees with "every chunk size of the schedule completes". */
  lemma {:induction false} ScheduleCompletesAll(o: nat -> ChunkOutcome, sched: seq<nat>)
    ensures ScheduleCompletes(o, sched) <==> forall i :: 0 <= i < |sched| ==> o(sched[i]).completes
    decreases |sched|
  {
    if sched != [] {
      var prefix := sched[..|sched| - 1];
      ScheduleCompletesAll(o, prefix);
      assert forall i :: 0 <= i < |prefix| ==> prefix[i] == sched[i];
    }
  }

  /** Once a chunk size has failed, nothing later in the schedule adds a line. */
  lemma {:induction false} ScheduleLinesStop(o: nat -> ChunkOutcome, sched: seq<nat>, i: nat)
    requires i <= |sched|
    requires !ScheduleCompletes(o, sched[..i])
    ensures !ScheduleCompletes(o, sched)
    ensures ScheduleLines(o, sched) == ScheduleLines(o, sched[..i])
    decreases |sched|
  {
    if i < |sched| {
      var prefix := sched[..|sched| - 1];
      assert prefix[..i] == sched[..i];
      ScheduleLinesStop(o, prefix, i);
    } else {
      assert sched[..i] == sched;
    }
  }
}
