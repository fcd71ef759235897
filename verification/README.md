# py-log-analyzer: chunk planning, failure re-planning and chunk metrics

This project models the two pieces of pure logic in the log analyzer's
coordinator and worker, and proves properties of them in Dafny.

- **Chunk planning** (`Coordinator.distribute_work`). The coordinator takes the
  size of a log file and its ordered dict of workers. It computes
  `chunk_size = file_size // n` and gives each worker one byte range
  `[start, start + chunk_size)`, in iteration order, starting at offset 0.
  With no workers the floor division raises `ZeroDivisionError`.
- **Failure re-planning** (`Coordinator.handle_worker_failure`). The coordinator
  pops the failed worker from the dict and re-plans the file that worker
  held over the workers that remain. `pop` raises `KeyError` for an unknown
  id. The removal persists even when the re-plan raises.
- **Chunk metrics** (`Worker.process_chunk`, taken after the read). The chunk
  text is stripped and split at newlines. The worker counts the lines that
  contain `"ERROR"`. For each line that contains `"Request processed in"`, it
  parses `int(line.split("in")[-1].strip("ms"))` as a duration. It returns the
  error rate, the average duration (0 with no requests) and the request count.
  Both quotients are exact `real`s.

Python exceptions are values of `Exceptions.Result` (`Ok` or `Raise`). The
Python string operations the worker uses are written out in `PyStr`:
`str.strip`, `str.strip(chars)`, `in`, `str.split` and `[-1]`. `PyInt` is
`int()` on a string: surrounding whitespace, an optional sign, ASCII digits and
single underscores between digits. The file system is a snapshot
`map<Path, nat>` of file sizes. Each `assign_task` call becomes one
`Assignment` record in the returned plan.

The docstring of `distribute_work` (coordinator.py:18) says it splits the file
and assigns the chunks to the workers. As written, the code leaves the last
`file_size % n` bytes unassigned. The model follows the code, and the dropped
bytes are the finding below.

## Model

| member | source | states |
|---|---|---|
| `Coordinator.PlanFrom` | coordinator.py:21-26 | The loop that advances `start` by `chunk_size` after each assignment makes, for the k-th id, the range at `start + k * chunk_size` of length `chunk_size`, one per id. |
| `Coordinator.PlanChunks` | coordinator.py:20-26 | Raises ZeroDivisionError exactly when there are no workers; otherwise assigns the workers in dict iteration order. |
| `Coordinator.PlanShape` | coordinator.py:20-26 | The k-th assignment goes to the k-th worker, starts at `k * (file_size // n)` and has length `file_size // n`. |
| `Coordinator.PlanContiguous` | coordinator.py:21-26 | The first range starts at 0, and each later range starts where the previous one ends. |
| `Coordinator.PlanDisjointInBounds` | coordinator.py:19-26 | Every range ends within the file, and no byte lies in two ranges. |
| `Coordinator.PlanCoverage` | coordinator.py:19-26 | A byte is assigned iff it lies in `[0, n * (file_size // n))`; the unassigned tail is shorter than `n` bytes. |
| `Coordinator.PlanOncePerWorker` | coordinator.py:23-25 | With distinct worker ids, no worker gets two ranges and every worker gets one. |
| `Coordinator.PlanChunksDropsTail` | coordinator.py:20-26 | For 10 bytes and workers w1, w2, w3 the plan is [0,3), [3,6), [6,9), and byte 9 is assigned to nobody. |
| `Coordinator.PlanChunksToEof` | coordinator.py:20-26 | The corrected plan raises ZeroDivisionError iff there are no workers, and otherwise assigns the workers in order. |
| `Coordinator.PlanToEofCovers` | coordinator.py:19-26 | The corrected plan assigns a byte iff it lies in `[0, file_size)`. |
| `Coordinator.PlanToEofOnce` | coordinator.py:23-26 | No byte lies in two ranges of the corrected plan. |
| `Coordinator.PlanToEofExtendsLast` | coordinator.py:20-26 | The corrected plan differs from the code's plan only in its last range, which grows by the dropped remainder `file_size - n * (file_size // n)`. |
| `Coordinator.DistributeWork` | coordinator.py:17-26 | A missing file raises FileNotFoundError before anything else; then an empty dict raises ZeroDivisionError; otherwise the plan assigns exactly the dict's workers, in order. |
| `Coordinator.Distribute` | coordinator.py:17-26 | The imperative loop over the dict produces the same result as the plan. |
| `Coordinator.Lookup` | coordinator.py:30 | A dict lookup finds nothing iff the id is not a key; a value it finds is stored under that key. |
| `Coordinator.Remove` | coordinator.py:30 | The dict after the pop holds exactly the entries whose id is not the popped one. |
| `Coordinator.Pop` | coordinator.py:30 | `pop` raises KeyError(id) iff the id is not a key. Otherwise it returns the value stored for the id, and the dict it leaves is the old dict without that key. |
| `Coordinator.RemoveAt` | coordinator.py:30 | Popping the key at position i of a dict leaves the entries before and after it, in their insertion order. |
| `Coordinator.RemoveKeepsOthers` | coordinator.py:30 | Popping one id leaves the value of every other id unchanged. |
| `Coordinator.RemovePresent` | coordinator.py:30 | Popping a present id leaves a dict (ids still distinct) with exactly one entry fewer. |
| `Coordinator.RemoveAbsent` | coordinator.py:30 | Removing an id that is not a key leaves the dict as it was. |
| `Coordinator.HandleWorkerFailure` | coordinator.py:28-32 | An unknown id raises KeyError and leaves the dict unchanged; a known id is removed from the dict whatever happens next. |
| `Coordinator.FailureReplans` | coordinator.py:28-32 | After a failure the failed worker's file is re-planned over the remaining workers only: `n - 1` ranges of `file_size // (n - 1)` bytes, none for the failed worker. |
| `Coordinator.FailureKeepsOrder` | coordinator.py:23-32 | After the worker at position i fails, the k-th range of the re-plan goes to the k-th surviving worker in the dict's original order. |
| `Coordinator.LastWorkerFails` | coordinator.py:30-32 | When the only worker fails, the dict ends empty and the re-plan raises ZeroDivisionError. |
| `Coordinator.FailureWithoutPath` | coordinator.py:30-32 | A worker stored without a `filepath` is still popped, and then reading `failed_task["filepath"]` raises KeyError. |
| `Worker.Lines` | worker.py:22 | The line list is never empty, so `error_count / len(lines)` never divides by zero. |
| `Worker.LinesMeaning` | worker.py:22 | Joining the lines with newlines gives back the stripped chunk, and no line contains a newline. |
| `Worker.ProcessChunk` | worker.py:22-38 | The Python loop, with its running counts and its raise on the first unparsable duration, returns the same result as `Worker.ProcessText`, the line-by-line definition of the metrics. |
| `Worker.TallyOk` | worker.py:24-31 | The loop finishes iff no request line fails to parse. Then the error count is the number of error lines, the request count equals both the number of request lines and the number of collected durations, and the durations are those of the request lines, in order. |
| `Worker.TallyFirstFailure` | worker.py:28-30 | When the loop raises, it raises the error of a failing request line with no failing request line before it. |
| `Worker.ProcessTextRaises` | worker.py:25-31 | `Worker.ProcessText` (`process_chunk` after the read) succeeds iff `Worker.Duration` parses on every request line; otherwise it raises the error of the first request line whose duration does not parse. The OverflowError of a mean beyond the float range is not modelled (see "## Left out"). |
| `Worker.ProcessTextCounts` | worker.py:25-37 | On success, the request count is the number of lines containing "Request processed in"; the error rate is the number of lines containing "ERROR" divided by the number of lines, and lies in [0, 1]; with no requests the average is 0. |
| `Worker.AverageOverRequestLines` | worker.py:28-33 | The average response time is the mean of the durations of the request lines. |
| `Worker.AverageBetween` | worker.py:33 | The mean of durations bounded by `lo` and `hi` lies between `lo` and `hi`. |
| `Worker.DurationTail` | worker.py:29 | For a line ending "Request processed in <n>ms", the text after the last "in" is " <n>ms". |
| `Worker.UnitStripped` | worker.py:29 | Stripping `m` and `s` from " <n>ms" leaves " <n>". |
| `Worker.RequestLineDuration` | worker.py:28-29 | A line ending "Request processed in <n>ms" is a request line, and `Worker.Duration` of it is `Ok(n)`. |
| `Worker.ReadRequestLine` | worker.py:25-31 | Such a line without a capital E before the marker counts as a request with duration n and not as an error. |
| `WorkerExamples.SampleChunk` | worker.py:22-38 | The three-line sample (127 ms, an ERROR line, 95 ms) gives error rate 1/3, average 111 and request count 2. |
| `WorkerExamples.BlankChunk` | worker.py:22-37 | An empty or all-whitespace chunk is the single line "" and gives error rate 0, average 0 and request count 0. |
| `WorkerExamples.ErrorRequestLine` | worker.py:26-31 | The ERROR test and the request test are independent: one line can count toward both. |
| `WorkerExamples.TrailingInRaises` | worker.py:29 | Text after the duration that contains "in" moves the split, so `int("")` raises ValueError. |
| `PyStr.StripByFactor` | worker.py:22 | `strip` removes a prefix and a suffix made only of stripped characters, and leaves a result whose first and last characters are not stripped. |
| `PyStr.StripExact` | worker.py:22 | Stripping whitespace, then text with non-whitespace ends, then whitespace returns exactly that text. |
| `PyStr.ContainsIffOccurs` | worker.py:26 | `p in s` holds iff p occurs at some index of s. |
| `PyStr.Find` | worker.py:29 | The separator search returns the leftmost occurrence, and returns none only when there is no occurrence. |
| `PyStr.Split` | worker.py:22 | `split` always returns at least one piece. |
| `PyStr.JoinSplit` | worker.py:22 | Joining the pieces of `s.split(sep)` with `sep` gives back s. |
| `PyStr.SplitPiecesFree` | worker.py:22 | No piece of `s.split(sep)` contains sep. |
| `PyStr.SplitJoin` | worker.py:22 | Splitting at a one-character separator the join of pieces that do not contain it returns those pieces. |
| `PyStr.LastPieceAfterLastSep` | worker.py:29 | For a separator with no self-overlap, `(a + sep + b).split(sep)[-1]` is b when b does not contain sep. |
| `PyInt.ParseIntNeedsDigit` | worker.py:29 | `PyInt.ParseInt` (`int()`) accepts a string only if it contains a digit. |
| `PyInt.ParseDecimal` | worker.py:29 | `PyInt.ParseInt` (`int()`) of the decimal form of n, with surrounding whitespace, returns n. |
| `PyInt.NatDecimalValue` | worker.py:29 | The digits of the decimal form of n have value n. |

## Left out

- The file reads in `process_chunk` (`open`, `seek`, `read`, worker.py:19-21): the model starts from the chunk text. Text-mode seek offsets are not related to string indices.
- `os.path.getsize` (coordinator.py:19) is a lookup in a snapshot of file sizes. coordinator.py never imports `os`, so as written the call raises NameError; the model assumes the size is available.
- `assign_task` (coordinator.py:25) is not defined in the repository and is a network call. It becomes a record in the returned plan. The model does not include its failures.
- `report_health`, the constructors, `start` and the command-line entry points are process, network and CLI plumbing.
- async/await: both coordinator methods are treated as sequential. The model does not include other tasks changing the worker dict while `distribute_work` awaits.
- Float rounding of `error_rate` and `avg_response_time`: both are exact `real`s.
- The OverflowError that `sum(...) / len(...)` (worker.py:33) raises when the mean of the durations lies beyond the largest float (about 1.8e308) is not modelled. For example, one request line with a 401-digit duration makes `process_chunk` raise, while `Worker.ProcessText` returns that mean exactly. `error_count / len(lines)` cannot overflow, since it lies in [0, 1].
- `int()`: non-ASCII decimal digits, the 4300-digit limit and lone surrogates are not modelled. The accepted syntax is ASCII digits with single underscores between them.
- Strings are sequences of code points; the model does not include decoding of the file's bytes.
- Line-boundary alignment, heartbeats, task generations and result merging do not exist in coordinator.py or worker.py.
- A registry is a sequence of entries, and nothing in its type keeps the ids distinct. `Lookup`, `Remove`, `Pop`, `DistributeWork` and `HandleWorkerFailure` also accept sequences with a repeated id, which no Python dict can be. The lemmas that depend on distinct keys require `Distinct`.
- Neither coordinator.py nor worker.py fills `self.workers`. The model assumes each worker's value is a dict that may hold a `"filepath"` string, and models nothing else stored in it.
- Worker.ProcessTextRaises: its "succeeds iff" holds with exact quotients. In Python, `process_chunk` also raises OverflowError when the mean of the durations is beyond the float range, a case the model does not include.
- Coordinator.Remove: its own contract states only which entries survive. The order of the survivors is stated by `Coordinator.RemoveAt`, for dicts with distinct keys.

## Findings

| source | as written | input that shows it | evidently intended | confidence | as-written member | corrected member |
|---|---|---|---|---|---|---|
| coordinator.py:20-26 | Every worker reads `file_size // n` bytes from `k * chunk_size`, so the last `file_size % n` bytes of the file go to no worker. | A 10-byte file and three workers: the ranges are [0,3), [3,6), [6,9), and byte 9 is never read. | The ranges cover the whole file, with the last range running to the end. | high (not executed) | `Coordinator.PlanChunksDropsTail` | `Coordinator.PlanToEofCovers` |

`Coordinator.PlanChunksToEof` is the corrected planner. `PlanToEofCovers` and
`PlanToEofOnce` prove that it reads every byte of the file exactly once.
`PlanToEofExtendsLast` proves that it changes only the last range.
`DistributeWork` and `HandleWorkerFailure` keep the planner as written.
