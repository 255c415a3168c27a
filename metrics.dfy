/** The Metrics record of src/main.go: the command line, three durations, the CPU
    percentage and the resource counters. It is a class because populateUsage and
    extractMetrics fill its fields in place through a pointer. */
module Metrics {
  import opened Int64

  /** time.Duration: a count of nanoseconds. */
  type Duration = int64

  const Second: int := 1_000_000_000
  const Minute: int := 60 * Second
  const Hour: int := 60 * Minute

  class Metrics {
    var command: string
    var userTime: Duration
    var systemTime: Duration
    var elapsedTime: Duration
    /** A Go int; see CpuPercent for its range. */
    var cpuPercent: int
    // The counters, in the units the kernel reports them (kilobytes for the memory sizes).
    var maxRss: int64
    var sharedRss: int64
    var unsharedRss: int64
    var unsharedData: int64
    var unsharedStk: int64
    var pageFaults: int64
    var pageReclaims: int64
    var swaps: int64
    var blockInput: int64
    var blockOutput: int64
    var msgsSent: int64
    var msgsRecv: int64
    var signals: int64
    var vCtxSwitches: int64
    var iCtxSwitches: int64

    /** True when every counter holds zero, as in Go's zero value `Metrics{}`. */
    predicate CountersZero()
      reads this
    {
      && maxRss == 0 && sharedRss == 0 && unsharedRss == 0 && unsharedData == 0
      && unsharedStk == 0 && pageFaults == 0 && pageReclaims == 0 && swaps == 0
      && blockInput == 0 && blockOutput == 0 && msgsSent == 0 && msgsRecv == 0
      && signals == 0 && vCtxSwitches == 0 && iCtxSwitches == 0
    }

    /** The zero value `Metrics{}`. */
    constructor ()
      ensures command == "" && userTime == 0 && systemTime == 0 && elapsedTime == 0
      ensures cpuPercent == 0 && CountersZero()
    {
      command := "";
      userTime, systemTime, elapsedTime := 0, 0, 0;
      cpuPercent := 0;
      maxRss, sharedRss, unsharedRss, unsharedData, unsharedStk := 0, 0, 0, 0, 0;
      pageFaults, pageReclaims, swaps := 0, 0, 0;
      blockInput, blockOutput, msgsSent, msgsRecv := 0, 0, 0, 0;
      signals, vCtxSwitches, iCtxSwitches := 0, 0, 0;
    }
  }
}
