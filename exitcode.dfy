/** The exit status of ztime itself (src/main.go, the end of main): success, the
    child's own exit code, 128 plus the signal that killed the child, or 127 when
    the command could not be run at all. */
module ExitCode {
  import opened Optional

  /** The syscall.WaitStatus of a child that has finished running, as far as the
      exit mapping looks at it. `NotExited` is a status that reports neither
      Exited() nor Signaled() (a stopped or continued child). */
  datatype WaitStatus = Exited(status: int) | Signaled(signal: int) | NotExited

  /** The error cmd.Run() returned: an *exec.ExitError carrying the child's wait
      status, or any other error (the program was not found, could not be
      started, ...). */
  datatype RunError = ExitError(wait: WaitStatus) | LaunchError

  /** What main did: it printed its usage because no command was given, or it ran
      the command and cmd.Run() returned `err` (None for a nil error). */
  datatype Run = NoCommand | Ran(err: Option<RunError>)

  /** os/exec only reports an ExitError for a child that did not succeed: one that
      exited with a status from 1 to 255, or one that a signal (1 to 127) killed or
      that is otherwise not exited. */
  predicate WellFormed(run: Run) {
    run.Ran? && run.err.Some? && run.err.value.ExitError? ==>
      match run.err.value.wait
      case Exited(s) => 1 <= s <= 255
      case Signaled(sig) => 1 <= sig <= 127
      case NotExited => true
  }

  /** The argument main passes to os.Exit; exitErr.ExitCode() is the exit status of
      an exited child and -1 for any other. */
  function ExitCode(run: Run): (code: int)
    ensures WellFormed(run) ==> -1 <= code <= 255
  {
    match run
    case NoCommand => 0
    case Ran(None) => 0
    case Ran(Some(LaunchError)) => 127
    case Ran(Some(ExitError(w))) =>
      if w.Signaled? then 128 + w.signal else if w.Exited? then w.status else -1
  }

  /** The status the parent of ztime observes: POSIX keeps the low eight bits of the
      os.Exit argument. */
  function ObservedStatus(code: int): (s: int)
    ensures 0 <= s < 256
    ensures 0 <= code < 256 ==> s == code
    ensures (s - code) % 256 == 0
  {
    code % 256
  }

  // ---------------------------------------------------------------------------
  // Laws

  /** ztime exits with 0 exactly when it had no command or the command succeeded. */
  lemma ZeroIffSuccess(run: Run)
    requires WellFormed(run)
    ensures ExitCode(run) == 0 <==> run.NoCommand? || run.err.None?
  {
    if run.Ran? && run.err.Some? && run.err.value.ExitError? {
      var w := run.err.value.wait;
      assert w.Exited? ==> w.status != 0;
    }
  }

  /** A well-formed run exits with -1 only for an ExitError whose wait status is
      neither exited nor signaled; that -1 reaches the parent as 255. */
  lemma MinusOneOnlyWhenNotExited(run: Run)
    requires WellFormed(run)
    ensures ExitCode(run) == -1 <==> run == Ran(Some(ExitError(NotExited)))
    ensures ExitCode(run) == -1 ==> ObservedStatus(ExitCode(run)) == 255
  {
  }

  /** A child killed by signal n gives 128 + n, which lies above 128 and fits in the
      eight bits the parent sees. */
  lemma SignalCodesAbove128(run: Run)
    requires WellFormed(run)
    requires run.Ran? && run.err.Some? && run.err.value.ExitError? && run.err.value.wait.Signaled?
    ensures 129 <= ExitCode(run) <= 255
    ensures ExitCode(run) - 128 == run.err.value.wait.signal
  {
  }

  /** A child that exits with status s (1 to 255) makes ztime exit with s, and the
      parent sees s itself. */
  lemma ChildCodePassesThrough(s: int)
    requires 1 <= s <= 255
    ensures ExitCode(Ran(Some(ExitError(Exited(s))))) == s
    ensures ObservedStatus(ExitCode(Ran(Some(ExitError(Exited(s)))))) == s
  {
  }

  /** SIGINT (2) gives 130 and SIGKILL (9) gives 137. */
  lemma SignalExamples()
    ensures ExitCode(Ran(Some(ExitError(Signaled(2))))) == 130
    ensures ExitCode(Ran(Some(ExitError(Signaled(9))))) == 137
    ensures ExitCode(Ran(Some(LaunchError))) == 127
  {
  }
}
