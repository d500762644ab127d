/**
  One run of `Task::operator()` on a pool worker thread: the scoped registry
  entry, the open-failure early return, the line loop that counts words, and
  the final `words_total`. The file is given as the lines `getline(in, line)`
  yields, and thread cancellation as the line before which it takes effect.
 */
module Task {
  import opened WordCount
  import opened Registry

  /** What opening the task's file gives: a failure, or the file's lines. */
  datatype File = CannotOpen | Lines(lines: seq<string>)

  /**
    When `pthread_cancel` from the signal thread takes effect: never, or at
    the blocking read that would fetch line `line` (0-based). A request that
    arrives after the last line has been read does not stop the count.
   */
  datatype Cancel = NotCancelled | CancelledAtLine(line: nat)

  /** How a run ends, with the counts it had accumulated by then. */
  datatype Outcome =
    | OpenFailed
    | Completed(lineCount: nat, counters: Counters, wordsTotal: nat)
    | Cancelled(lineCount: nat, counters: Counters)

  /** The number of non-empty lines in `lines`. */
  function NonEmptyCount(lines: seq<string>): nat
  {
    if lines == [] then 0
    else NonEmptyCount(lines[..|lines| - 1]) + (if lines[|lines| - 1] != "" then 1 else 0)
  }

  /** Every word of every line, line after line. */
  function Words(lines: seq<string>): seq<string>
  {
    if lines == [] then [] else Words(lines[..|lines| - 1]) + Split(lines[|lines| - 1])
  }

  /** Both measures of a file add up over its parts. */
  lemma {:induction false} AppendLines(a: seq<string>, b: seq<string>)
    ensures NonEmptyCount(a + b) == NonEmptyCount(a) + NonEmptyCount(b)
    ensures Words(a + b) == Words(a) + Words(b)
    decreases |b|
  {
    if b == [] {
      assert a + b == a;
    } else {
      var b' := b[..|b| - 1];
      AppendLines(a, b');
      assert (a + b)[..|a + b| - 1] == a + b';
      assert (a + b)[|a + b| - 1] == b[|b| - 1];
    }
  }

  /** An empty line anywhere in the file adds no line and no word. */
  lemma EmptyLineIgnored(a: seq<string>, b: seq<string>)
    ensures NonEmptyCount(a + [""] + b) == NonEmptyCount(a + b)
    ensures Words(a + [""] + b) == Words(a + b)
  {
    AppendLines(a + [""], b);
    AppendLines(a, [""]);
    AppendLines(a, b);
    assert [""][..0] == [];
    assert Split("") == [];
  }

  /** How many of `lines` the task reads before cancellation stops it. */
  function LinesRead(lines: seq<string>, cancel: Cancel): (n: nat)
    ensures n <= |lines|
    ensures n < |lines| <==> cancel.CancelledAtLine? && cancel.line < |lines|
  {
    match cancel
    case NotCancelled => |lines|
    case CancelledAtLine(k) => if k < |lines| then k else |lines|
  }

  /** Counting the words of one more line continues the count of the lines before it. */
  lemma CountNextLine(c: Counters, lines: seq<string>, i: nat)
    requires i < |lines|
    ensures NonEmptyCount(lines[..i + 1]) == NonEmptyCount(lines[..i]) + (if lines[i] != "" then 1 else 0)
    ensures CountWords(c, Words(lines[..i + 1])) == CountWords(CountWords(c, Words(lines[..i])), Split(lines[i]))
    ensures lines[i] == "" ==> Split(lines[i]) == []
  {
    assert lines[..i + 1][..i] == lines[..i];
    CountWordsAppend(c, Words(lines[..i]), Split(lines[i]));
  }

  /**
    The line loop: empty lines are skipped; every other line adds one to
    `_line_count`, which starts again from zero, and each of its words to
    `_word_counters`, which keeps whatever it held before (`counters0`).
   */
  method ProcessLines(lines: seq<string>, counters0: Counters) returns (lineCount: nat, counters: Counters)
    ensures lineCount == NonEmptyCount(lines)
    ensures counters == CountWords(counters0, Words(lines))
  {
    lineCount := 0;
    counters := counters0;
    var i := 0;
    while i < |lines|
      invariant i <= |lines|
      invariant lineCount == NonEmptyCount(lines[..i])
      invariant counters == CountWords(counters0, Words(lines[..i]))
    {
      CountNextLine(counters0, lines, i);
      if lines[i] != "" {
        lineCount := lineCount + 1;
        counters := CountWords(counters, Split(lines[i]));
      }
      i := i + 1;
    }
    assert lines[..i] == lines;
  }

  /**
    `Task::operator()` run by thread `tid` for the task at `self`, starting
    from `registry` and with `counters0` in the task's `_word_counters`
    (the call never clears that table). `running` is the table while the
    task runs and `after` the table once its scoped entry is destroyed,
    which happens on every way out: the open failure, completion and
    cancellation.
   */
  method RunTask(registry: Table, tid: Tid, self: TaskRef, counters0: Counters, file: File, cancel: Cancel)
    returns (running: Table, after: Table, outcome: Outcome)
    ensures running == Register(registry, tid, self)
    ensures after == Unregister(running, tid)
    ensures tid !in registry ==> after == registry
    ensures outcome.OpenFailed? <==> file.CannotOpen?
    ensures outcome.Completed? <==> file.Lines? && LinesRead(file.lines, cancel) == |file.lines|
    ensures file.Lines? ==>
      var read := file.lines[..LinesRead(file.lines, cancel)];
      && outcome.lineCount == NonEmptyCount(read)
      && outcome.counters.Keys == counters0.Keys + (set w | w in Words(read))
      && forall w :: Count(outcome.counters, w) == Count(counters0, w) + multiset(Words(read))[w]
    ensures outcome.Completed? ==> outcome.wordsTotal == Total(counters0) + |Words(file.lines)|
  {
    running := Register(registry, tid, self);
    if file.CannotOpen? {
      outcome := OpenFailed;
    } else {
      var lines := file.lines;
      var stop := LinesRead(lines, cancel);
      var lineCount, counters := ProcessLines(lines[..stop], counters0);
      if stop < |lines| {
        outcome := Cancelled(lineCount, counters);
      } else {
        assert lines[..stop] == lines;
        TotalCountWords(counters0, Words(lines));
        var wordsTotal := WordsTotal(counters);
        outcome := Completed(lineCount, counters, wordsTotal);
      }
    }
    after := Unregister(running, tid);
    if tid !in registry {
      RegisterThenUnregister(registry, tid, self);
    }
  }
}
