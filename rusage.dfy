/** src/rusage_unix.go: copying the kernel's rusage counters into a Metrics record. */
module Rusage {
  import opened Int64
  import opened Optional
  import opened Metrics

  /** The counters of syscall.Rusage that populateUsage reads (getrusage(2) names).
      The Utime and Stime timevals are not read by populateUsage. */
  datatype Rusage = Rusage(
    maxrss: int64, ixrss: int64, idrss: int64, isrss: int64,
    minflt: int64, majflt: int64, nswap: int64, inblock: int64, oublock: int64,
    msgsnd: int64, msgrcv: int64, nsignals: int64, nvcsw: int64, nivcsw: int64)

  /** What the core reads of an os.ProcessState: the results of UserTime() and
      SystemTime(), and SysUsage() when it is a *syscall.Rusage (None otherwise). */
  datatype ProcessState = ProcessState(userTime: Duration, systemTime: Duration, sysUsage: Option<Rusage>)

  /** Every Metrics counter that populateUsage writes holds the matching rusage counter.
      Major faults are the page faults, minor faults the page reclaims. */
  predicate HoldsUsage(m: Metrics, u: Rusage)
    reads m
  {
    && m.maxRss == u.maxrss && m.sharedRss == u.ixrss
    && m.unsharedData == u.idrss && m.unsharedStk == u.isrss
    && m.pageFaults == u.majflt && m.pageReclaims == u.minflt
    && m.swaps == u.nswap && m.blockInput == u.inblock && m.blockOutput == u.oublock
    && m.msgsSent == u.msgsnd && m.msgsRecv == u.msgrcv && m.signals == u.nsignals
    && m.vCtxSwitches == u.nvcsw && m.iCtxSwitches == u.nivcsw
  }

  /** populateUsage: when the state carries a *syscall.Rusage, copy its counters one to
      one; otherwise leave the record exactly as it was. The command, the three
      durations, the CPU percentage and UnsharedRSS are never written. */
  method PopulateUsage(m: Metrics, state: ProcessState)
    modifies m
    ensures state.sysUsage.None? ==> unchanged(m)
    ensures state.sysUsage.Some? ==> HoldsUsage(m, state.sysUsage.value)
    ensures m.command == old(m.command) && m.userTime == old(m.userTime)
    ensures m.systemTime == old(m.systemTime) && m.elapsedTime == old(m.elapsedTime)
    ensures m.cpuPercent == old(m.cpuPercent) && m.unsharedRss == old(m.unsharedRss)
  {
    if state.sysUsage.Some? {
      var usage := state.sysUsage.value;
      m.maxRss := usage.maxrss;
      m.sharedRss := usage.ixrss;
      m.unsharedData := usage.idrss;
      m.unsharedStk := usage.isrss;
      m.pageFaults := usage.majflt;
      m.pageReclaims := usage.minflt;
      m.swaps := usage.nswap;
      m.blockInput := usage.inblock;
      m.blockOutput := usage.oublock;
      m.msgsSent := usage.msgsnd;
      m.msgsRecv := usage.msgrcv;
      m.signals := usage.nsignals;
      m.vCtxSwitches := usage.nvcsw;
      m.iCtxSwitches := usage.nivcsw;
    }
  }
}
