/** extractMetrics and calculateCPUPercent of src/main.go: assembling the Metrics
    record once the child has exited. The clock readings and the process state are
    parameters (time.Now and os.ProcessState are outside the model). */
module Measure {
  import opened Int64
  import opened Optional
  import opened Metrics
  import opened Rusage

  /** calculateCPUPercent: user plus system time over wall time, times 100, truncated
      toward zero and never clamped; 0 when the wall time is not positive. */
  function CpuPercent(user: Duration, sys: Duration, elapsed: Duration): (r: int)
    ensures elapsed <= 0 ==> r == 0
    ensures elapsed > 0 && user as int + sys as int >= 0 ==>
      r * elapsed as int <= 100 * (user as int + sys as int) < (r + 1) * elapsed as int
    ensures elapsed > 0 && user as int + sys as int < 0 ==>
      (r - 1) * elapsed as int < 100 * (user as int + sys as int) <= r * elapsed as int
  {
    if elapsed > 0 then Quot(100 * (user as int + sys as int), elapsed as int) else 0
  }

  /** The percentage reaches 100 exactly when the CPU time reaches the wall time; it
      exceeds 100 for work spread over several cores. */
  lemma CpuPercentReaches100(user: Duration, sys: Duration, elapsed: Duration)
    requires elapsed > 0
    ensures CpuPercent(user, sys, elapsed) >= 100 <==> user as int + sys as int >= elapsed as int
  {
    var r := CpuPercent(user, sys, elapsed);
    var t := user as int + sys as int;
    var e := elapsed as int;
    if t >= 0 {
      if r >= 100 {
        assert 100 * e <= r * e by { MulMonotone(100, r, e); }
      } else {
        assert (r + 1) * e <= 100 * e by { MulMonotone(r + 1, 100, e); }
      }
    }
  }

  lemma MulMonotone(a: int, b: int, c: int)
    requires a <= b && c > 0
    ensures a * c <= b * c
  {
  }

  /** The cases of the source's test table. */
  lemma CpuPercentExamples()
    ensures CpuPercent(500_000_000, 500_000_000, 1_000_000_000) == 100
    ensures CpuPercent(500_000_000, 500_000_000, 0) == 0
    ensures CpuPercent(10_000_000, 10_000_000, 1_000_000_000) == 2
    ensures CpuPercent(2_000_000_000, 500_000_000, 1_000_000_000) == 250
  {
  }

  /** The Metrics invariant: the stored CPU percentage is the one the durations give. */
  predicate CpuConsistent(m: Metrics)
    reads m
  {
    m.cpuPercent == CpuPercent(m.userTime, m.systemTime, m.elapsedTime)
  }

  /** time.Time.Sub on two monotonic clock readings: the difference, saturated to the
      range of a Duration. */
  function Sub(t: int64, u: int64): (d: Duration)
    ensures u <= t ==> d >= 0
    ensures Min <= t as int - u as int <= Max ==> d as int == t as int - u as int
  {
    Saturate(t as int - u as int)
  }

  /** strings.Join. */
  function Join(elems: seq<string>, sep: string): (s: string)
    ensures |elems| == 1 ==> s == elems[0]
  {
    if |elems| == 0 then ""
    else if |elems| == 1 then elems[0]
    else elems[0] + sep + Join(elems[1..], sep)
  }

  /** extractMetrics: the command line joined by spaces and the elapsed time are always
      set; the CPU times, the percentage and the counters only when a process state is
      present. `state` stands for cmd.ProcessState (None when it is nil). */
  method ExtractMetrics(args: seq<string>, start: int64, end: int64, state: Option<ProcessState>)
    returns (m: Metrics)
    ensures fresh(m)
    ensures m.command == Join(args, " ") && m.elapsedTime == Sub(end, start)
    ensures CpuConsistent(m)
    ensures state.None? ==> m.userTime == 0 && m.systemTime == 0 && m.CountersZero()
    ensures state.Some? ==>
      && m.userTime == state.value.userTime && m.systemTime == state.value.systemTime
      && m.unsharedRss == 0
      && (state.value.sysUsage.Some? ==> HoldsUsage(m, state.value.sysUsage.value))
      && (state.value.sysUsage.None? ==> m.CountersZero())
  {
    var elapsed := Sub(end, start);
    m := new Metrics();
    m.command := Join(args, " ");
    m.elapsedTime := elapsed;
    if state.Some? {
      m.userTime := state.value.userTime;
      m.systemTime := state.value.systemTime;
      m.cpuPercent := CpuPercent(m.userTime, m.systemTime, elapsed);
      PopulateUsage(m, state.value);
    } else {
      NoWorkNoPercent(elapsed);
    }
  }

  /** No CPU time gives 0 percent, whatever the wall time. */
  lemma NoWorkNoPercent(elapsed: Duration)
    ensures CpuPercent(0, 0, elapsed) == 0
  {
  }
}
