# Word-counting tasks, their registry and the signal thread

This project models the sequential core of a small C++ demo in which four
word-counting tasks run on a thread pool while a dedicated thread waits for
signals and cancels whatever is still running. Four pieces are modelled as
pure functions and short methods over immutable values:

- **WordCount** (`wordcount.dfy`): a line is split into words exactly as a
  repeated `std::getline(ss, word, ' ')` does it. Only the space character
  separates words. A leading space or two spaces in a row yield an empty
  word. A trailing space yields nothing more. The words are then folded into
  the task's `std::map<std::string, uint32_t>` by `count_word`, and
  `words_total` sums the table.
- **Registry** (`registry.dfy`): `TasksRegistry` is a `map<Tid, TaskRef>` from
  thread identity to task pointer. Its constructor (register, which
  overwrites), destructor (unregister, which erases) and `GetRunningTasks`
  (a copy of the non-null tasks in ascending thread order) are each one
  atomic transition, since each holds the registry mutex for its whole body.
- **Task** (`task.dfy`): `Task::operator()` registers the thread, returns
  early when the file cannot be opened, skips empty lines, counts the
  non-empty lines and their words, and computes `words_total`. The scoped
  registry entry is destroyed on every way out. The file is the sequence of
  lines `getline(in_file, line)` yields. A `pthread_cancel` that takes effect
  is modelled as the task stopping before it reads a given line.
- **SignalMonitor** (`monitor.dfy`): `sig_handle_worker_routine` is modelled
  as a loop over the results of successive `sigwait` calls. It decides when
  to cancel and then tries `pthread_cancel` on every task of one registry
  snapshot. A failed call does not stop the loop.

`example-02.cpp` holds the same `Task::operator()` and `TasksRegistry` code
as `example-03.cpp`, line for line: 163-210 match 237-284, and 214-239 match
288-313. The table cites `example-03.cpp`, and the same model covers both
files. The signal thread exists only in `example-03.cpp`.

What the code does, and the model with it:

- A second registration of the same thread overwrites the entry.
- Words are split on `' '` only; tabs and other blanks stay inside words.
- A task registers itself before it opens its file, so a task whose file
  cannot be opened is in the registry briefly and is then removed.
- Cancellation is `pthread_cancel` from the signal thread, which takes
  effect at a cancellation point of the task's thread.
- `Task::operator()` resets `_line_count` to 0 but never clears
  `_word_counters`, so a second call on the same object adds to the counts
  of the first. The model takes the table on entry as an input. In this
  program every call starts from an empty table, because `tp.schedule`
  copies each freshly constructed task into the pool
  (`example-03.cpp:165-173`).

## Model

| member | source | states |
|---|---|---|
| WordCount.Split | example-03.cpp:258-262 | no word the line splitter yields contains a space |
| WordCount.TerminatedSplit | example-03.cpp:258-262 | the words, each followed by one space, give back the line itself when it is empty or ends in a space, and the line plus one space otherwise; so leading, doubled and trailing spaces lose nothing |
| WordCount.SplitTerminated | example-03.cpp:258-262 | any sequence of space-free words, written each followed by a space, splits back into exactly those words, empty words included |
| WordCount.SplitLength | example-03.cpp:258-262 | a line yields one word per space, plus one more exactly when it is non-empty and does not end in a space |
| WordCount.CountWord | example-03.cpp:251-254 | `count_word` raises the count of its word by exactly one, reading an absent word as 0; it adds only that key and leaves every other entry unchanged |
| WordCount.CountWords | example-03.cpp:256-263 | after counting a sequence of words, each word's count has grown by its number of occurrences in the sequence (a multiset), and the keys are the old keys plus the words seen |
| WordCount.CountWordsAppend | example-03.cpp:260-262 | counting two runs of words one after the other equals counting their concatenation |
| WordCount.TotalRemove | example-03.cpp:276-279 | the sum of all counts does not depend on the order in which the keys are visited |
| WordCount.TotalCountWord | example-03.cpp:251-254 | one `count_word` adds exactly one to the sum of all counts |
| WordCount.TotalCountWords | example-03.cpp:256-263 | counting a sequence of words adds its length to the sum of all counts |
| WordCount.WordsTotal | example-03.cpp:276-279 | the `words_total` loop returns the sum of every counter in the table |
| Registry.Register | example-03.cpp:288-294 | registering binds the thread to the task whether or not it was bound before, adds no other key and changes no other thread's entry |
| Registry.Unregister | example-03.cpp:296-302 | unregistering removes only the calling thread's key and keeps every other entry unchanged |
| Registry.UnregisterAbsent | example-03.cpp:300 | erasing a thread that holds no entry is a no-op |
| Registry.RegisterThenUnregister | example-03.cpp:288-302 | for a thread not yet registered, the scoped entry's constructor followed by its destructor gives back the exact table it started from |
| Registry.RegisterOverwrites | example-03.cpp:292 | a second registration of a registered thread does not fail: the new task replaces the old, and after the destructor the thread has no entry at all, so the old entry is not restored |
| Registry.OtherThreadDuringRun | example-03.cpp:288-302 | a register or unregister by another thread between a thread's register and unregister does not spoil the round trip: the end result is the other step applied alone |
| Registry.SortedKeys | example-03.cpp:307 | the thread identities are listed in strictly ascending order, each exactly once, as `std::map` iterates them |
| Registry.IncreasingUnique | example-03.cpp:307 | a set of thread identities has only one strictly ascending enumeration |
| Registry.Collect | example-03.cpp:307-310 | walking keys and keeping non-null entries yields only non-null tasks, at most one per key, and exactly the non-null values stored at those keys |
| Registry.CollectInOrder | example-03.cpp:307-310 | walking ascending keys and keeping the non-null entries yields the entries at the ascending list of non-null keys |
| Registry.RunningKeys | example-03.cpp:307-310 | the threads whose entry is non-null, ascending, each once |
| Registry.GetRunningTasks | example-03.cpp:304-313 | the snapshot is a value and changes nothing; it holds exactly the non-null tasks of the table, one per thread with a non-null entry, in ascending thread order, so it is no longer than the table |
| Task.AppendLines | example-03.cpp:269-274 | the number of non-empty lines and the words of a file add up over any split of the file into two parts |
| Task.EmptyLineIgnored | example-03.cpp:270-271 | an empty line anywhere in the file changes neither the line count nor the words counted |
| Task.CountNextLine | example-03.cpp:269-274 | one more line adds one to the line count exactly when it is non-empty, and its words continue the count of the lines before it; an empty line has no words |
| Task.ProcessLines | example-03.cpp:251-274 | the line loop restarts `_line_count` from zero and ends with it equal to the number of non-empty lines; the table ends as the table it started with plus every word of every line counted once per occurrence |
| Task.RunTask | example-03.cpp:237-284 | the thread is registered with the task while the task runs. Afterwards the registry is back to its starting table when the thread was not registered before, on the open failure, on completion and on cancellation alike. An open failure is reported exactly when the file cannot be opened. A finished task reports the number of non-empty lines, a table whose keys and per-word counts are those it started with plus the words of all lines (with multiplicity), and `words_total` equal to the sum it started with plus the number of words on all lines. A cancelled task has the same counts for the lines it had read |
| SignalMonitor.ShouldCancel | example-03.cpp:97-98 | the test made after every wait: cancel when the emergency flag is set or the stored signal is SIGINT, SIGABRT or SIGTERM |
| SignalMonitor.Step | example-03.cpp:89-95 | one wait never clears the emergency flag; from a state that does not yet call for cancellation, it leads to one that does exactly when the wait is a recognised failure or delivers SIGINT, SIGABRT or SIGTERM |
| SignalMonitor.DispatchIndex | example-03.cpp:88-111 | the loop dispatches after the first wait at which the cancel test, applied to the locals as the waits so far left them, holds; the test holds after no earlier wait, and after no wait at all when there is no dispatch |
| SignalMonitor.DispatchAtFirstTrigger | example-03.cpp:88-110 | the loop dispatches exactly after the first wait that is a recognised failure or delivers SIGINT, SIGABRT or SIGTERM, and never when there is none; the emergency flag and the stored signal carry nothing else over between waits |
| SignalMonitor.AsWrittenOnlySignalsTrigger | example-03.cpp:89-92 | with the failure test as written and `sigwait` results as POSIX defines them, only a delivered SIGINT, SIGABRT or SIGTERM ends the loop |
| SignalMonitor.FailedWaitCounterexample | example-03.cpp:89-92 | a `sigwait` that fails with EINVAL leaves the thread waiting under the test as written, and makes it cancel at once under the POSIX test |
| SignalMonitor.CancelAll | example-03.cpp:101-108 | cancellation is tried on every snapshot task, in snapshot order, and each attempt records what `pthread_cancel` returned |
| SignalMonitor.FailuresSkipNoTask | example-03.cpp:102-108 | which tasks are tried does not depend on the result of any cancellation call, so a failure skips no later task |
| SignalMonitor.SignalThread | example-03.cpp:85-117 | the signal thread dispatches if and only if some wait fails or delivers SIGINT, SIGABRT or SIGTERM, does so at the first such wait, and then tries to cancel exactly the snapshot of running tasks |
| SignalMonitor.LaterWaitsIgnored | example-03.cpp:109 | after dispatching, the thread leaves its loop: any waits after the triggering one change nothing |

## Left out

- All of `example-01.cpp`: it installs signal handlers and runs busy-waiting threads, with no logic to state.
- OS signal plumbing: `sigemptyset`, `sigaddset`, `sigprocmask`, the blocking inside `sigwait`, `pthread_kill` and `pthread_join` are foreign calls. `sigwait` results are inputs. The `running` flag is left out because only the signal thread clears it, after its loop (`example-03.cpp:115`), and `main` only reads it; so `while (::running.load())` is always true inside the loop.
- The boost thread pool (`schedule`, `wait`) and `main`'s four tasks: their point is concurrency. Each task run is one `RunTask` call.
- The registry mutex and interleavings: each registry operation is one atomic step. The status printer reads `_tid` and `_line_count` without the lock, and `_tid` is assigned after registration; neither is modelled.
- Delivery of `pthread_cancel`: its result is an input function. On the task side, cancellation is modelled only at the read before a given line. The other cancellation points are not modelled: the `open` inside the `std::ifstream` constructor (`example-03.cpp:243`), the `std::cerr` write on the open-failure path (`:246-247`), the final end-of-file `getline`, the final console output, and the `std::cout` calls inside the registry entry's constructor and destructor (`example-03.cpp:291`, `:299`). A cancellation at those two would leave the registry mutex locked, and in the destructor it would also unwind out of a `noexcept` destructor. A cancellation at the `open` or the `std::cerr` write ends the task without the open failure being reported, so `Task.RunTask`'s open-failure outcome holds only when no cancellation takes effect there.
- `clock()` and `elapsed_time()`: wall-clock values and floating-point division.
- File I/O: the `ifstream`, `eof` and `getline` stream states are not modelled. The file is either unopenable or the sequence of its lines.
- Console and error output, and `main`'s sleep-based status loop.
- Bytes: a line and a word are `std::string`s of bytes, and the model reads each byte as one `char`. Nothing is lost, because splitting on the byte 0x20 and comparing keys byte by byte are the same on either reading.
- 32-bit wrap-around: the word counters and `words_total` are `uint32_t` in the code and unbounded naturals here, so a file with 2^32 or more words is not modelled faithfully.
- `Task.RunTask`: reports `running` as the table right after registration. Changes that other threads make while the task runs are covered only by `Registry.OtherThreadDuringRun`.
- `SignalMonitor.SignalThread`: uses the POSIX failure test from the finding below, not the test as written. The as-written behaviour is stated by `SignalMonitor.AsWrittenOnlySignalsTrigger`.

## Findings

| source | as written | input that shows it | evidently intended | confidence | as-written member | corrected member |
|---|---|---|---|---|---|---|
| example-03.cpp:89 | a failed `sigwait` is detected by `sigwait(...) < 0`, but POSIX `sigwait` returns 0 or a positive error number, so the emergency branch can never run; a failing wait stores no signal, and the loop keeps waiting | one wait that returns EINVAL (22) | any non-zero result counts as a failure, sets `emergency`, and cancels the running tasks | medium, not executed | SignalMonitor.FailedWaitCounterexample | SignalMonitor.SignalThread |
