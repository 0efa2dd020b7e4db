# seq_read_bench in Dafny

A model of a sequential-read benchmark and the script that drives it.

The C++ program (`seq_read_bench.cpp`) works as follows:
- It truncates `benchmark_results.csv` and writes a CSV header.
- It benchmarks 34 chunk sizes in a fixed order: 100 B, 1 KiB, then 8 KiB to 256 KiB in 8 KiB steps.
- For each size it makes 30 runs. Each run opens `test_file.bin` and reads it in pieces of at most the chunk size until 64 MiB have arrived, or until a read returns 0 or less. It then closes the file, checks that all 64 MiB were read, and appends one result line.
- Any failure ends the program with status 1 before the failing run's line is written.

The Python script (`seq_read_bench.py`) does three things in the model:
- It generates the test file in 64 KiB pieces filled with the pattern `(i * 73 + 17) & 0xFF`.
- It checks the columns of the results file.
- It builds the chunk-size label map and the list of expected chunk sizes for its plots.

Modules:
- `Chunking`: the `min(chunk, remaining)` piece sizes that both the read loop and the generator's write loop use.
- `ChunkedRead`: the read loop as a method (`ReadLoop`). `read` is an oracle, indexed by file offset and byte count. The loop is proved against `Trace` (the calls it makes) and `FinalTotal` (the final `total_read`).
- `Decimal`, `CsvText`, `ResultsCsv`: the text of the header and of a result line, and how such a file reads back.
- `Driver`: `main`, `benchmark_chunk_size` and one run, as methods over an `Env` of system-call outcomes. The results file is the class `ResultsFile`, whose `lines` field the writes append to.
- `TestFile`: `create_test_file` as a method that fills each piece in an array.
- `PlotScript`: the column check, the label map (built by a loop) and the expected-size list.
- `SizeMismatch`: the two halves together. The generated 1 MiB file against the 64 MiB the reader expects (see Findings).

## Model

| member | source | states |
|---|---|---|
| Chunking.NextPiece | seq_read_bench.cpp:64-65 | the request is the whole chunk or what is left, whichever is smaller |
| Chunking.PiecesTotal | seq_read_bench.py:30-39 | the pieces of n add up to n |
| Chunking.PiecesShape | seq_read_bench.cpp:63-70 | every piece is 1..chunk bytes; all but the last are exactly chunk; the last is n - (k-1)·chunk |
| Chunking.PiecesCount | seq_read_bench.cpp:63-70 | the number of pieces k is ceil(n / chunk), with (k-1)·chunk < n <= k·chunk |
| Chunking.PiecesCover | seq_read_bench.cpp:63-70 | no pieces for 0; otherwise k >= 1 pieces with (k-1)·chunk < n <= k·chunk |
| ChunkedRead.FinalTotal | seq_read_bench.cpp:60-70 | the loop's final total lies between its starting total and the file size |
| ChunkedRead.FileRead | seq_read_bench.cpp:67 | a regular file returns no more than asked; all of it exactly when the range lies inside the file; 0 exactly at or past the end |
| ChunkedRead.RegularFile | seq_read_bench.cpp:67 | a regular file never returns more than asked for |
| ChunkedRead.ReadLoop | seq_read_bench.cpp:60-70 | the calls are exactly the trace; the total is the bytes delivered, never exceeds the file size, and equals the final total; the loop stops short only after a result of 0 or less |
| ChunkedRead.FinalTotalIsBytesRead | seq_read_bench.cpp:63-70 | the final total is the start plus the bytes every call of the trace delivered |
| ChunkedRead.BytesReadAppend | seq_read_bench.cpp:69 | one more call adds what it delivered to the total |
| ChunkedRead.BytesReadFull | seq_read_bench.cpp:69 | full reads deliver the sum of the pieces |
| ChunkedRead.TraceRequests | seq_read_bench.cpp:63-70 | every request is min(chunk, what is left), between 1 and chunk, made while bytes remain; every call but the last delivered something; the total never passes the file size |
| ChunkedRead.CallFollowsShift | seq_read_bench.cpp:63-69 | after a first call that delivered bytes, the later calls still ask for min(chunk, what is left) of the whole file |
| ChunkedRead.FullReadsTrace | seq_read_bench.cpp:63-70 | with every read full, the calls are the pieces of the file, each delivered whole |
| ChunkedRead.FullPiecesCount | seq_read_bench.cpp:63-70 | delivering the pieces of F in full takes ceil(F / chunk) calls of chunk bytes, except a last one of F - (k-1)·chunk, and delivers F bytes |
| ChunkedRead.FullReadsCount | seq_read_bench.cpp:63-70 | with every read full: ceil(F / chunk) calls reading all F bytes, chunk bytes each but the last, and F - (k-1)·chunk the last |
| ChunkedRead.LongFileReadsFully | seq_read_bench.cpp:67 | a file at least F long answers every request inside F in full |
| ChunkedRead.ShortFileTrace | seq_read_bench.cpp:63-70 | on a file shorter than F, the calls are its pieces plus one final read returning 0, and they deliver exactly the file's length |
| ChunkedRead.ShortFileTotal | seq_read_bench.cpp:63-70 | on a file shorter than F, the loop ends at the file's length |
| ChunkedRead.LongFileTotal | seq_read_bench.cpp:63-70 | on a file at least F long, the loop ends at F |
| Decimal.NatToDecimal | seq_read_bench.cpp:25 | `{}` of an integer is a non-empty run of digits, with no leading zero except for 0 |
| Decimal.ParseNat | seq_read_bench.cpp:25 | the inverse of `{}` for the integer fields: a field parses exactly when it is a non-empty run of digits |
| Decimal.DecimalRoundTrip | seq_read_bench.cpp:25 | the digits written for n denote n |
| Decimal.ParseNatRoundTrip | seq_read_bench.cpp:25 | reading back the text written for n gives n |
| Decimal.NatToDecimalInjective | seq_read_bench.py:116 | distinct numbers get distinct texts |
| CsvText.Split | seq_read_bench.cpp:25 | the inverse of joining fields with commas: splitting always yields at least one field |
| CsvText.SplitJoin | seq_read_bench.cpp:25 | splitting fields joined by a separator that none contains gives the fields back |
| CsvText.JoinChars | seq_read_bench.cpp:25 | a character other than the separator and in no field is not in the joined text |
| CsvText.SplitLines | seq_read_bench.cpp:32 | a file of newline-terminated lines without inner newlines splits into those lines and one empty tail |
| ResultsCsv.Body | seq_read_bench.cpp:25 | every line as written is its body followed by exactly one newline |
| ResultsCsv.DataBodyJoinsFields | seq_read_bench.cpp:25-30 | a result line is chunk_size, run_number, read time and throughput, joined by commas in that order |
| ResultsCsv.HeaderColumns | seq_read_bench.cpp:110 | the header splits at commas into exactly the four column names |
| ResultsCsv.BodyIsOneLine | seq_read_bench.cpp:25 | no line's body contains a newline, so each write adds exactly one line |
| ResultsCsv.DataLineRoundTrip | seq_read_bench.cpp:24-36 | a result line reads back as the result it was written for |
| ResultsCsv.FileTextSplits | seq_read_bench.cpp:32 | a file of n written lines splits into their n bodies and an empty tail |
| ResultsCsv.ResultsFileReadsBack | seq_read_bench.cpp:24-36 | a header plus results file holds one text line more than there are results; the first line splits into the column names, and each later one parses as its result |
| Driver.SweepSize | seq_read_bench.cpp:130-132 | every sweep size is a multiple of 8 KiB, at least 8 KiB |
| Driver.SweepSizes | seq_read_bench.cpp:130-132 | the i-th size the sweep visits is 8192·(i+1), each larger than the one before |
| Driver.RunRead | seq_read_bench.cpp:67 | one run's reads are the environment's reads for that chunk size and run |
| Driver.FirstFailure | seq_read_bench.cpp:46-96 | the first failing run lies between the starting run and 31 (none failed) |
| Driver.RunLines | seq_read_bench.cpp:94 | the first n runs' lines are result lines of that chunk size, line i carrying run number i+1, in strictly increasing run order |
| Driver.ResultsFile.Create | seq_read_bench.cpp:103 | opening with truncation leaves the file empty |
| Driver.ResultsFile.Write | seq_read_bench.cpp:32-36 | a write succeeds exactly when every byte went out; only then is the line appended |
| Driver.FirstFailureFails | seq_read_bench.cpp:46-96 | every run before the first failure succeeds, and the first failure fails |
| Driver.FirstFailureIs | seq_read_bench.cpp:46-96 | the first failure is the run after an unbroken stretch of successes |
| Driver.BenchmarkChunkSize | seq_read_bench.cpp:39-99 | succeeds exactly when the buffer was allocated and all 30 runs succeed; appends the lines of the runs before the first failure |
| Driver.TimedRun | seq_read_bench.cpp:46-95 | a run succeeds exactly when the open, the full 64 MiB read, the close and the line write all succeed; only then is its line appended |
| Driver.RunBenchmark | seq_read_bench.cpp:101-145 | exit status 0 exactly when everything succeeds; the file holds the header and then the schedule's lines up to the first failure, or nothing when the header write fails |
| Driver.BenchmarkSweep | seq_read_bench.cpp:130-135 | the sweep completes exactly when every size completes, and appends their lines in order |
| Driver.BenchmarkScheduled | seq_read_bench.cpp:122-134 | one size of the schedule appends its lines after the earlier sizes'; when it fails, the schedule ends there |
| Driver.ChunkLinesAreRuns | seq_read_bench.cpp:46-96 | a chunk size's lines are runs 1, 2, ... in order, each a successful run; the run after them failed; the size completes exactly when all 30 are there |
| Driver.AllRunLinesLength | seq_read_bench.cpp:46 | all 30 runs of each of k sizes make 30·k lines |
| Driver.CompletedScheduleLines | seq_read_bench.cpp:120-135 | a schedule whose every size completed holds every size's 30 lines, in schedule order |
| Driver.ScheduleLinesAreData | seq_read_bench.cpp:120-135 | the schedule writes only result lines |
| Driver.SuccessfulOutput | seq_read_bench.cpp:101-145 | on exit status 0 the file holds the header and 34 × 30 result lines, 1021 in all, size by size and run by run |
| Driver.HeaderOnlyFirst | seq_read_bench.cpp:110-116 | the header is written once, as the first line |
| Driver.AllRunLinesAreResults | seq_read_bench.cpp:94-95 | complete runs give well-formed result lines of the scheduled sizes only |
| Driver.SuccessfulText | seq_read_bench.cpp:101-145 | on success the file's text has 1021 lines; the first is the four column names, and each of the 1020 others parses as its run's result |
| Driver.ChunkStep | seq_read_bench.cpp:120-135 | the file after a size is the file before plus that size's lines, and a failing size ends the schedule |
| Driver.ScheduleAt | seq_read_bench.cpp:11-15 | 100 and 1024 come first, then the sweep sizes |
| Driver.SweepStep | seq_read_bench.cpp:130-132 | the sweep runs while the size is at most 256 KiB, 8 KiB at a time, for 32 sizes |
| Driver.ScheduleFacts | seq_read_bench.cpp:11-15 | the schedule is 100, 1024, 8192, ..., 262144: 34 strictly increasing sizes |
| Driver.ScheduleMembers | seq_read_bench.cpp:11-15 | a size is scheduled exactly when it is 100, 1024 or a multiple of 8 KiB from 8 KiB to 256 KiB |
| Driver.ChunkDone | seq_read_bench.cpp:120-135 | a size adds its lines after the earlier ones; if it fails, no later size adds anything |
| Driver.ScheduleCompletesAll | seq_read_bench.cpp:120-135 | the schedule completes exactly when every size in it completes |
| Driver.ScheduleLinesStop | seq_read_bench.cpp:120-135 | once a size fails, no later size adds a line |
| TestFile.FillPiece | seq_read_bench.py:35-37 | the filled bytearray is exactly the piece |
| TestFile.CreateTestFile | seq_read_bench.py:22-39 | the writes are the 64 KiB pieces of the size, and the file is their patterns one after another |
| TestFile.WriteStep | seq_read_bench.py:32-39 | one pass of the write loop keeps the bytes written plus the rest equal to the whole |
| TestFile.ContentsLength | seq_read_bench.py:38 | the file is as long as its writes add up to |
| TestFile.ContentsAt | seq_read_bench.py:30-39 | byte p of the file is the pattern at p mod the piece size |
| TestFile.ContentsFirst | seq_read_bench.py:38 | a piece's bytes come before those of later writes |
| TestFile.PatternIgnoresRestart | seq_read_bench.py:37 | restarting i every 64 KiB changes no byte: byte p is (p·73+17) & 0xFF |
| TestFile.TestFileShape | seq_read_bench.py:16-39 | 16 writes of 64 KiB, 1 MiB in all, and byte p is (p·73+17) & 0xFF |
| PlotScript.AllPresent | seq_read_bench.py:77 | true exactly when every expected name is among the columns |
| PlotScript.LoadAndValidateResults | seq_read_bench.py:76-79 | None exactly when an expected column is missing; otherwise the table unchanged |
| PlotScript.HeaderPassesColumnCheck | seq_read_bench.py:76-79 | the header the benchmark writes passes the column check |
| PlotScript.BuildLabelMap | seq_read_bench.py:110-116 | the map's keys are exactly 100, 1024 and 8192·i for i in 1..32, labelled "100B", "1KiB" and "{8i}KiB" |
| PlotScript.LabelStep | seq_read_bench.py:114-116 | each pass of the label loop adds exactly the key 8192·i |
| PlotScript.ExpectedChunkSizes | seq_read_bench.py:117-118 | the expected sizes are exactly the benchmark's schedule |
| PlotScript.ExpectedSizesLabelled | seq_read_bench.py:161-162 | every expected size has a label, so the summary's lookup cannot fail |
| PlotScript.LabelsDistinct | seq_read_bench.py:110-116 | distinct sizes get distinct labels |
| PlotScript.LabelShape | seq_read_bench.py:110-116 | "100B" and "1KiB" differ from every "{8i}KiB" label |
| PlotScript.SweepLabels | seq_read_bench.py:114-116 | 8192 is labelled "8KiB" and 262144 "256KiB" |
| SizeMismatch.GeneratedFileSize | seq_read_bench.py:16-17 | the generator writes 1 MiB, 63 MiB short of the 64 MiB a run reads |
| SizeMismatch.GeneratedFileFailsEveryRun | seq_read_bench.cpp:83-87 | on the generated file every run ends 1 MiB in and fails the total check; the program fails with no result line |
| SizeMismatch.BenchmarkGeneratedFile | seq_read_bench.cpp:101-145 | on the generated file the program exits with status 1, and the file holds at most the header |
| SizeMismatch.IntendedFileSize | seq_read_bench.py:16-17 | a 64 MiB generator writes exactly the size the reader expects |
| SizeMismatch.MatchingFileReadsFully | seq_read_bench.cpp:63-70 | on a 64 MiB file every run reads all 64 MiB |
| SizeMismatch.MatchingChunkCompletes | seq_read_bench.cpp:46-96 | on a 64 MiB file, with the other calls succeeding, every chunk size completes |
| SizeMismatch.MatchingFileCompletes | seq_read_bench.cpp:101-145 | on a 64 MiB file, with the other calls succeeding, the program succeeds and writes 1021 lines |

## Left out

- Timing: the clock readings, `read_time_ms` and `throughput_mbps`, and their `{:.3f}` formatting are floating point. Each run's two metric fields are the texts the environment supplies (`Env.metrics`). Only the fact that they hold no comma or newline is assumed, and only where reading back is stated.
- POSIX calls: `open`, `read`, `write`, `close` and `malloc` are outcomes in `Env`. `read` is a function of chunk size, run, offset and count. The loop never asks twice at the same offset in a run, so this covers every behaviour.
- The bytes that `read` puts into the buffer are not modelled. Only the counts are.
- Short writes: a write that does not put out every byte appends nothing in the model. In the program, the bytes it did put out stay in the file, and then it exits.
- `total_read` and `to_read` are 32-bit `int` in the program and unbounded here. Every value stays at or below 64 MiB, so this loses nothing.
- The outputs to stdout and stderr, and `std::exit` itself: an abort is the method returning false and the exit status 1.
- `ChunkedRead.ReadLoop`: the file descriptor and the 30 repeated opens are not modelled. Each run's reads come from `Env`.
- `& 0xFF` is written as `% 256`. They agree on the non-negative values the pattern produces.
- `run_benchmark` (a subprocess with a timeout) is process I/O.
- `pd.read_csv`, the statistics and every plotting call are foreign libraries and floating point. The reading side of the CSV is the model's own inverse of the writer: `CsvText.Split` at newlines and commas, and `ResultsCsv.ParseDataLine`.
- Decimal.ParseNat: a digits-only stand-in for the number parsing of `pd.read_csv`, which also accepts fields such as "-5", "+5" or "5.0". It is there to state that what the program writes reads back, not to model pandas.
- The Python `main` and its exception handling.
- `PlotScript.ExpectedChunkSizes`: the list literal and its `extend` by a comprehension are a function returning the final list. No element-by-element loop is modelled.

## Findings

| source | as written | input that shows it | evidently intended | confidence | as-written member | corrected member |
|---|---|---|---|---|---|---|
| seq_read_bench.py:16-17 | the generator writes `FILE_SIZE_MB = 1`, i.e. 1 MiB, while the reader requires 64 MiB (`FILE_SIZE` at seq_read_bench.cpp:10); every run reads 1 MiB, hits end of file, fails the total check at seq_read_bench.cpp:83-87, and the program exits with status 1 having written no result line | any run of the script: the first run of chunk size 100 | a 64 MiB test file, matching the reader | high for the mismatch, medium that 64 MiB is the intended size; not executed | SizeMismatch.GeneratedFileFailsEveryRun | SizeMismatch.MatchingFileCompletes |

The script's 1 MiB matches an older version of the benchmark, which read a 1 MiB file with three fixed chunk sizes. The C++ program modelled here is the later sweep version, which reads 64 MiB. The model follows the code as written: `TestFile` keeps 1 MiB, and `SizeMismatch` states both outcomes.
