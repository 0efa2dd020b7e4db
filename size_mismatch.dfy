/**
 * The two halves together: the orchestration script writes the test file and then starts
 * the benchmark program, which reads that file 30 times per chunk size. The script's
 * generator writes 1 MiB while every run of the program must read 64 MiB.
 */
module SizeMismatch {
  import opened Chunking
  import opened ChunkedRead
  import opened ResultsCsv
  import opened Driver
  import TestFile

  /** The size the generator evidently should write: the 64 MiB every run reads. */
  const INTENDED_FILE_SIZE_MB: nat := 64
  const INTENDED_FILE_SIZE_BYTES: nat := INTENDED_FILE_SIZE_MB * 1024 * 1024

  /** Every read of every run sees the same regular file of `length` bytes. */
  ghost predicate ReadsFileOf(env: Env, length: nat) {
    forall chunk: nat, run: nat, pos: nat, n: nat :: env.read(chunk, run, pos, n) == FileRead(length, pos, n)
  }

  /** Every system call other than `read` succeeds, and every result line is written in full. */
  ghost predicate Cooperative(env: Env)
    requires HonestEnv(env)
  {
    env.outputOpens && env.headerWritten == |HEADER| && env.outputCloses &&
    (forall chunk: nat :: env.allocates(chunk)) &&
    (forall chunk: nat, run: nat :: env.testOpens(chunk, run) && env.testCloses(chunk, run)) &&
    (forall chunk: nat, run: nat :: env.rowWritten(chunk, run) == |RenderLine(Data(ResultOf(env, chunk, run)))|)
  }

  /** The generator as written produces 1 MiB, 63 MiB short of what a run reads. */
  lemma GeneratedFileSize()
    ensures |TestFile.Contents(Pieces(TestFile.FILE_SIZE_BYTES, TestFile.WRITE_CHUNK))| == 1048576
    ensures TestFile.FILE_SIZE_BYTES + 63 * 1048576 == FILE_SIZE
  {
    TestFile.ContentsLength(Pieces(TestFile.FILE_SIZE_BYTES, TestFile.WRITE_CHUNK));
    PiecesTotal(TestFile.FILE_SIZE_BYTES, TestFile.WRITE_CHUNK);
  }

  /**
   * Reading the file the script generates, every run of every chunk size ends 1 MiB in, at
   * end of file, and fails the total check: the program exits with status 1 after the
   * first run, and the results file holds no result line.
   */
  lemma GeneratedFileFailsEveryRun(env: Env)
    requires HonestEnv(env) && ReadsFileOf(env, TestFile.FILE_SIZE_BYTES)
    ensures forall chunk: nat, run: nat :: chunk > 0 ==>
      FinalTotal(RunRead(env, chunk, run), FILE_SIZE, chunk, 0) == TestFile.FILE_SIZE_BYTES &&
      !RunSucceeds(env, chunk, run)
    ensures !Succeeds(env)
    ensures ScheduleLines(OutcomesOf(env), SCHEDULE) == []
  {
    forall chunk: nat, run: nat | chunk > 0
      ensures FinalTotal(RunRead(env, chunk, run), FILE_SIZE, chunk, 0) == TestFile.FILE_SIZE_BYTES
    {
      ShortFileTotal(RunRead(env, chunk, run), TestFile.FILE_SIZE_BYTES, FILE_SIZE, chunk, 0);
    }
    var o := OutcomesOf(env);
    ScheduleAt(0);
    assert o(SMALL_CHUNK) == OutcomeOf(env, SMALL_CHUNK);
    assert !RunSucceeds(env, SMALL_CHUNK, 1);
    FirstFailureIs(RunOutcomes(env, SMALL_CHUNK), 1, 1);
    assert SCHEDULE[..0] == [];
    ChunkDone(o, SCHEDULE, 0);
  }

  /**
   * `main` of the benchmark program run against the generated file: it always exits with
   * status 1, and the results file, when it opens, holds at most the header.
   */
  method BenchmarkGeneratedFile(env: Env) returns (status: int, out: ResultsFile?)
    requires HonestEnv(env) && ReadsFileOf(env, TestFile.FILE_SIZE_BYTES)
    ensures status == 1
    ensures out != null ==> out.lines == [] || out.lines == [Header]
  {
    GeneratedFileFailsEveryRun(env);
    status, out := RunBenchmark(env);
  }

  /**
   * With the generator writing the intended 64 MiB, the file is exactly what a run reads,
   * and every run of every chunk size reads all of it.
   */
  lemma MatchingFileReadsFully(env: Env)
    requires HonestEnv(env) && ReadsFileOf(env, INTENDED_FILE_SIZE_BYTES)
    ensures forall chunk: nat, run: nat :: chunk > 0 ==>
      FinalTotal(RunRead(env, chunk, run), FILE_SIZE, chunk, 0) == FILE_SIZE
  {
    forall chunk: nat, run: nat | chunk > 0
      ensures FinalTotal(RunRead(env, chunk, run), FILE_SIZE, chunk, 0) == FILE_SIZE
    {
      LongFileTotal(RunRead(env, chunk, run), INTENDED_FILE_SIZE_BYTES, FILE_SIZE, chunk, 0);
    }
  }

  /** The generator, configured for 64 MiB, writes exactly the file size the reader expects. */
  lemma IntendedFileSize()
    ensures |TestFile.Contents(Pieces(INTENDED_FILE_SIZE_BYTES, TestFile.WRITE_CHUNK))| == FILE_SIZE
  {
    TestFile.ContentsLength(Pieces(INTENDED_FILE_SIZE_BYTES, TestFile.WRITE_CHUNK));
    PiecesTotal(INTENDED_FILE_SIZE_BYTES, TestFile.WRITE_CHUNK);
  }

  /**
   * With the intended 64 MiB file and every other call succeeding, the program exits with
   * status 0 and the results file holds the header and all 34 × 30 result lines.
   */
  lemma MatchingFileCompletes(env: Env)
    requires HonestEnv(env) && ReadsFileOf(env, INTENDED_FILE_SIZE_BYTES) && Cooperative(env)
    ensures Succeeds(env)
    ensures |[Header] + ScheduleLines(OutcomesOf(env), SCHEDULE)| == 1021
  {
    var o := OutcomesOf(env);
    ScheduleFacts();
    forall i | 0 <= i < |SCHEDULE|
      ensures o(SCHEDULE[i]).completes
    {
      assert o(SCHEDULE[i]) == OutcomeOf(env, SCHEDULE[i]);
      MatchingChunkCompletes(env, SCHEDULE[i]);
    }
    ScheduleCompletesAll(o, SCHEDULE);
    SuccessfulOutput(env);
  }

  /** With the intended file and every other call succeeding, each chunk size completes. */
  lemma MatchingChunkCompletes(env: Env, chunk: nat)
    requires HonestEnv(env) && ReadsFileOf(env, INTENDED_FILE_SIZE_BYTES) && Cooperative(env)
    requires chunk > 0
    ensures ChunkCompletes(env, chunk)
  {
    forall run: nat | 1 <= run <= RUNS
      ensures RunSucceeds(env, chunk, run)
    {
      LongFileTotal(RunRead(env, chunk, run), INTENDED_FILE_SIZE_BYTES, FILE_SIZE, chunk, 0);
    }
  }
}
