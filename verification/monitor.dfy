/**
  The signal thread (`sig_handle_worker_routine`): it waits for one of the
  blocked signals at a time and, once the emergency flag is set or the
  signal is SIGINT, SIGABRT or SIGTERM, tries to cancel every task in a
  snapshot of the registry and stops. Each `sigwait` return is an input, and
  so is the result of each `pthread_cancel`.
 */
module SignalMonitor {
  import opened Registry

  /** Linux numbers of the signals that end the run. */
  const SIGINT: int := 2
  const SIGABRT: int := 6
  const SIGTERM: int := 15

  /** An error number `sigwait` may return (an invalid signal in the set). */
  const EINVAL: int := 22

  /** The signals after which the running tasks are cancelled. */
  predicate Terminating(sig: int)
  {
    sig == SIGINT || sig == SIGABRT || sig == SIGTERM
  }

  /** The test made after every wait: cancel on an emergency or an ending signal. */
  predicate ShouldCancel(emergency: bool, sig: int)
  {
    emergency || Terminating(sig)
  }

  /** One return of `sigwait`: its result, and the signal it stores when the result is 0. */
  datatype Wait = Wait(rc: int, sig: int)

  /** POSIX: `sigwait` returns 0, or a positive error number and stores nothing. */
  predicate PosixResult(w: Wait)
  {
    w.rc >= 0
  }

  /** How a failed wait is recognised: as the code tests it (`< 0`), or as POSIX reports it (`!= 0`). */
  datatype FailureTest = AsWritten | Corrected

  /** Whether the thread takes wait `w` for a failure under `test`. */
  predicate Failed(test: FailureTest, w: Wait)
  {
    match test
    case AsWritten => w.rc < 0
    case Corrected => w.rc != 0
  }

  /** The thread's locals: the last signal number `sigwait` stored, and the emergency flag. */
  datatype Listener = Listener(sigNum: int, emergency: bool)

  /** Both locals as the routine initialises them. */
  const Start := Listener(0, false)

  /** A wait that on its own makes the thread dispatch. */
  predicate Triggers(test: FailureTest, w: Wait)
  {
    Failed(test, w) || (w.rc == 0 && Terminating(w.sig))
  }

  /**
    One wait: a recognised failure sets the flag, otherwise a stored signal
    replaces the last one. The flag is never cleared, and from a state that
    does not yet call for cancellation, the step leads to one that does
    exactly when the wait on its own triggers.
   */
  function Step(test: FailureTest, st: Listener, w: Wait): (r: Listener)
    ensures st.emergency ==> r.emergency
    ensures !ShouldCancel(st.emergency, st.sigNum) ==>
      (ShouldCancel(r.emergency, r.sigNum) <==> Triggers(test, w))
  {
    if Failed(test, w) then st.(emergency := true)
    else st.(sigNum := if w.rc == 0 then w.sig else st.sigNum)
  }

  /** The locals after the waits `waits`, in order, starting from `st`. */
  function Replay(test: FailureTest, st: Listener, waits: seq<Wait>): Listener
    decreases |waits|
  {
    if waits == [] then st else Replay(test, Step(test, st, waits[0]), waits[1..])
  }

  /** Whether the test to cancel holds once wait `j` has returned. */
  predicate CancelsAfter(test: FailureTest, st: Listener, waits: seq<Wait>, j: nat)
    requires j < |waits|
  {
    var after := Replay(test, st, waits[..j + 1]);
    ShouldCancel(after.emergency, after.sigNum)
  }

  /** The test after wait `j` is the test after wait `j - 1` of the waits that follow the first. */
  lemma CancelsAfterCons(test: FailureTest, st: Listener, waits: seq<Wait>, j: nat)
    requires j < |waits|
    ensures var st' := Step(test, st, waits[0]);
      CancelsAfter(test, st, waits, j) ==
        if j == 0 then ShouldCancel(st'.emergency, st'.sigNum)
        else CancelsAfter(test, st', waits[1..], j - 1)
  {
    var p := waits[..j + 1];
    assert p[0] == waits[0];
    assert Replay(test, st, p) == Replay(test, Step(test, st, waits[0]), p[1..]);
    if j == 0 {
      assert p[1..] == [];
    } else {
      assert p[1..] == waits[1..][..j];
    }
  }

  /** Whether the loop ends with a dispatch, and after which wait. */
  datatype Dispatch = NoDispatch | DispatchAfter(index: nat)

  /**
    The wait loop: the index of the first wait after which the test to
    cancel holds, or no dispatch when it holds after none of them.
   */
  function DispatchIndex(test: FailureTest, st: Listener, waits: seq<Wait>): (r: Dispatch)
    ensures r.DispatchAfter? ==> r.index < |waits| && CancelsAfter(test, st, waits, r.index)
    ensures forall j :: 0 <= j < |waits| && (r.NoDispatch? || j < r.index) ==> !CancelsAfter(test, st, waits, j)
    decreases |waits|
  {
    if waits == [] then NoDispatch
    else
      var st' := Step(test, st, waits[0]);
      CancelsAfterCons(test, st, waits, 0);
      if ShouldCancel(st'.emergency, st'.sigNum) then DispatchAfter(0)
      else
        assert forall j :: 1 <= j < |waits| ==>
          CancelsAfter(test, st, waits, j) == CancelsAfter(test, st', waits[1..], j - 1) by {
          forall j | 1 <= j < |waits|
            ensures CancelsAfter(test, st, waits, j) == CancelsAfter(test, st', waits[1..], j - 1)
          {
            CancelsAfterCons(test, st, waits, j);
          }
        }
        match DispatchIndex(test, st', waits[1..])
        case NoDispatch => NoDispatch
        case DispatchAfter(i) => DispatchAfter(i + 1)
  }


  /**
    The locals carry no history that matters: from any state that does not
    already call for cancellation, the thread dispatches exactly after the
    first wait that is a recognised failure or delivers an ending signal,
    and never if there is no such wait.
   */
  lemma {:induction false} DispatchAtFirstTrigger(test: FailureTest, st: Listener, waits: seq<Wait>)
    requires !ShouldCancel(st.emergency, st.sigNum)
    ensures var r := DispatchIndex(test, st, waits);
      && (r.DispatchAfter? <==> exists i :: 0 <= i < |waits| && Triggers(test, waits[i]))
      && (r.DispatchAfter? ==>
            Triggers(test, waits[r.index]) && forall j :: 0 <= j < r.index ==> !Triggers(test, waits[j]))
    decreases |waits|
  {
    if waits != [] {
      var st' := Step(test, st, waits[0]);
      if !Triggers(test, waits[0]) {
        assert !ShouldCancel(st'.emergency, st'.sigNum);
        DispatchAtFirstTrigger(test, st', waits[1..]);
        var r' := DispatchIndex(test, st', waits[1..]);
        if r'.DispatchAfter? {
          assert forall j :: 1 <= j < r'.index + 1 ==> waits[j] == waits[1..][j - 1];
        }
        if exists i :: 0 <= i < |waits| && Triggers(test, waits[i]) {
          var i :| 0 <= i < |waits| && Triggers(test, waits[i]);
          assert waits[1..][i - 1] == waits[i];
        }
      }
    }
  }

  /**
    Under POSIX results the wait test as written never sees a failure: only
    a delivered SIGINT, SIGABRT or SIGTERM ends the loop.
   */
  lemma AsWrittenOnlySignalsTrigger(waits: seq<Wait>)
    requires forall i :: 0 <= i < |waits| ==> PosixResult(waits[i])
    ensures var r := DispatchIndex(AsWritten, Start, waits);
      r.DispatchAfter? <==> exists i :: 0 <= i < |waits| && waits[i].rc == 0 && Terminating(waits[i].sig)
  {
    DispatchAtFirstTrigger(AsWritten, Start, waits);
  }

  /**
    A `sigwait` that fails with EINVAL: as written the thread records no
    emergency and keeps waiting; with the POSIX test it cancels at once.
   */
  lemma FailedWaitCounterexample()
    ensures DispatchIndex(AsWritten, Start, [Wait(EINVAL, 0)]) == NoDispatch
    ensures DispatchIndex(Corrected, Start, [Wait(EINVAL, 0)]) == DispatchAfter(0)
  {
  }

  /** One call of `pthread_cancel` on a snapshot task, and whether it returned 0 (the request was queued). */
  datatype CancelAttempt = CancelAttempt(task: TaskRef, accepted: bool)

  /**
    The loop over the snapshot: cancellation is tried on every task, in
    snapshot order; `cancel` gives what each `pthread_cancel` returns.
   */
  function CancelAll(tasks: seq<TaskRef>, cancel: TaskRef -> bool): (r: seq<CancelAttempt>)
    ensures |r| == |tasks|
    ensures forall i :: 0 <= i < |r| ==> r[i].task == tasks[i] && r[i].accepted == cancel(tasks[i])
  {
    if tasks == [] then []
    else [CancelAttempt(tasks[0], cancel(tasks[0]))] + CancelAll(tasks[1..], cancel)
  }

  /** A failed cancellation skips nobody: the tasks tried do not depend on any call's result. */
  lemma FailuresSkipNoTask(tasks: seq<TaskRef>, cancel: TaskRef -> bool, other: TaskRef -> bool)
    ensures |CancelAll(tasks, cancel)| == |CancelAll(tasks, other)|
    ensures forall i :: 0 <= i < |tasks| ==> CancelAll(tasks, cancel)[i].task == CancelAll(tasks, other)[i].task
  {
  }

  /** How the signal thread ends up after the waits it was given. */
  datatype Run = StillWaiting | Dispatched(after: nat, attempts: seq<CancelAttempt>)

  /**
    The signal thread with the POSIX failure test, over the waits `waits`;
    `registry` is the table when the snapshot is taken.
   */
  function SignalThread(waits: seq<Wait>, registry: Table, cancel: TaskRef -> bool): (r: Run)
    ensures r.Dispatched? <==> exists i :: 0 <= i < |waits| && Triggers(Corrected, waits[i])
    ensures r.Dispatched? ==>
      && r.after < |waits|
      && Triggers(Corrected, waits[r.after])
      && (forall j :: 0 <= j < r.after ==> !Triggers(Corrected, waits[j]))
      && r.attempts == CancelAll(GetRunningTasks(registry), cancel)
  {
    DispatchAtFirstTrigger(Corrected, Start, waits);
    match DispatchIndex(Corrected, Start, waits)
    case NoDispatch => StillWaiting
    case DispatchAfter(i) => Dispatched(i, CancelAll(GetRunningTasks(registry), cancel))
  }

  /** After the dispatch the loop is left: later signals change nothing. */
  lemma LaterWaitsIgnored(waits: seq<Wait>, later: seq<Wait>, registry: Table, cancel: TaskRef -> bool)
    requires SignalThread(waits, registry, cancel).Dispatched?
    ensures var r := SignalThread(waits, registry, cancel);
      SignalThread(waits[..r.after + 1] + later, registry, cancel) == r
  {
    var r := SignalThread(waits, registry, cancel);
    var w' := waits[..r.after + 1] + later;
    assert forall j :: 0 <= j <= r.after ==> w'[j] == waits[j];
    assert Triggers(Corrected, w'[r.after]);
    var r' := SignalThread(w', registry, cancel);
    assert r'.after == r.after;
  }
}
