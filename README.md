# ztime, modelled in Dafny

ztime runs a command, times it and reports what the kernel says about its
resource usage, in the manner of zsh's `time`. This project models the four
parts of ztime that decide what gets reported:

- the TIMEFMT template interpreter (`format` and its helpers);
- the assembly of the `Metrics` record after the child exits (`extractMetrics`,
  `calculateCPUPercent`);
- the copy of the kernel's rusage counters into that record (`populateUsage`);
- the exit status ztime gives its own parent.

The modules are:

- `Int64`: Go's `int64` and the Go operators the core relies on: wrap-around
  addition, division and remainder that truncate toward zero, and the saturation
  that `time.Time.Sub` applies.
- `Decimal`: the text `strconv.Itoa`, `strconv.FormatInt`, `%02d`, `%.2f` and
  `%05.2f` produce. Each rendering has a parser beside it and a round-trip
  lemma, and a canonical-form lemma rules out leading zeros, so the text is
  pinned down by the number it denotes.
- `Metrics`: the `Metrics` record, as a class. `populateUsage` and
  `extractMetrics` fill its fields in place.
- `Rusage`: `syscall.Rusage`, the part of `os.ProcessState` the core reads, and
  `populateUsage` as a method that changes the record.
- `Measure`: the CPU percentage, `time.Time.Sub`, `strings.Join` and
  `extractMetrics`.
- `Template`:
  - `Render` is the meaning of a template, read from the front.
  - `Format` is the source's byte loop with its `inPercent` flag, writing to a
    `Buffer` class that stands for `bytes.Buffer`. It is proved to produce
    exactly `Render`.
  - `HandleSpecifier`, `HandleIntSpecifier` and `HandleStar` are the source's
    switch tables, as methods on the buffer.
- `TemplateLaws`: the properties of `Render`: the grammar laws, what each
  specifier prints, the layout of the `%*E` clock, and the source's test cases.
- `ExitCode`: the mapping at the end of `main` from the outcome of `cmd.Run()`
  to the argument of `os.Exit`.

Each character of a template stands for one byte of the Go string. Every byte
the interpreter compares against is ASCII, so reading a UTF-8 template byte by
byte or character by character gives the same output.

A `time.Duration` is an `int64` count of nanoseconds. Clock readings are `int64`
monotonic readings passed in as parameters, and the process state is a
parameter too.

`%.2f` of a duration is modelled as the duration rounded to the nearest
hundredth of a second. The contracts leave the direction of an exact tie open.

With TIMEFMT empty, `printSummary` (src/main.go:131-154) does not use the
`Default` test's template `%J  %U user %S system %P cpu %*E total`
(src/main_test.go:38-42). It prints a styled line of its own, with `%.3fs` for
the elapsed time, and that line is outside the model.

The `%*E` clock takes its whole minutes before `%05.2f` rounds the seconds. A
remainder above 59.995 s therefore prints as `60.00` seconds, with no carry: 59.996 s prints as `0:60.00`, not `1:00.00` (ClockRoundsUpToSixty).

## Model

| member | source | states |
|---|---|---|
| Template.Render | src/main.go:174-229 | The meaning of a template, read from the front. A template with no `%` renders as itself, whatever the metrics. |
| Template.Format | src/main.go:174-206 | The output of the byte loop is exactly `Render(tmpl, m)`. In normal mode a non-`%` byte is copied and `%` enters specifier mode. In specifier mode the byte is handed to handleSpecifier, and `%c` is written when it is not handled. A `%` left open at the end is written alone. |
| Template.HandleSpecifier | src/main.go:208-229 | The byte is handled iff it is `%`, `J`, `U`, `S`, `E`, `*`, `P` or a counter letter. A handled byte appends its `Expansion`, an unhandled one appends nothing. Only `*E` advances the index, by one. |
| Template.HandleIntSpecifier | src/main.go:231-266 | The byte is handled iff it is one of the 14 counter letters. A handled letter appends its counter in decimal, and an unhandled byte appends nothing. |
| Template.HandleStar | src/main.go:268-284 | When the next byte exists and is `E`, the index moves onto it and the clock is appended. Otherwise `*` is appended and the index is unchanged. |
| Template.Counter | src/main.go:231-266 | A byte has a counter iff it is one of the counter letters. D is UnsharedData+UnsharedStk and K is SharedRSS+UnsharedData+UnsharedStk, both added with int64 wrap-around. |
| Template.Expansion | src/main.go:208-229 | A byte other than `*` has a text iff handleSpecifier accepts it. |
| Template.ElapsedClock | src/main.go:268-280 | The `%*E` clock has at least the seven characters of `M:SS.SS`, and at least the ten of `H:MM:SS.SS` once the whole hours are positive. |
| Template.RenderAtPercent | src/main.go:183-191 | One step of the template's meaning at a `%` followed by a byte. `%*E` yields the clock and skips three bytes. `%*` alone yields `*` and skips two. A known specifier yields its text and an unknown one yields `%c`, each skipping two. |
| TemplateLaws.RenderLiteralPrefix | src/main.go:192-197 | A prefix without `%` is copied verbatim and the rest is rendered independently. |
| TemplateLaws.RenderCommand | src/main.go:212-213 | `%J` renders as the command line, followed by the rendering of the rest. |
| TemplateLaws.RenderDoublePercent | src/main.go:210-211 | `%%` renders as one `%`, followed by the rendering of the rest. |
| TemplateLaws.HundredPercent | src/main_test.go:97-101 | `"100%%"` renders as `"100%"`. |
| TemplateLaws.RenderKnown | src/main.go:208-229 | A known one-byte specifier is replaced by its text, followed by the rendering of the rest. |
| TemplateLaws.RenderUnknown | src/main.go:184-189 | An unrecognised specifier byte X renders as the two bytes `%X` and is never dropped. |
| TemplateLaws.RenderTrailingPercent | src/main.go:201-203 | A `%` at the very end of a template renders as a lone `%`. |
| TemplateLaws.RenderStarE | src/main.go:268-280 | `%*E` consumes both `*` and `E` and is replaced by the clock. |
| TemplateLaws.RenderBareStar | src/main.go:281-283 | `%*` not followed by `E` renders `*`. The following byte is then read in normal mode, not as a specifier. |
| TemplateLaws.CounterText | src/main.go:233-260 | Each counter letter prints text that parses back to exactly its counter. |
| TemplateLaws.SumCounters | src/main.go:239-242 | When the sums fit in an int64, `%D` is UnsharedData+UnsharedStk and `%K` is SharedRSS+UnsharedData+UnsharedStk. |
| TemplateLaws.PercentText | src/main.go:222-223 | `%P` prints text that reads back as CPUPercent followed by `%`. |
| TemplateLaws.SecondsText | src/main.go:214-219 | `%U`, `%S` and `%E` print their duration in seconds followed by `s`. The two decimals read back as the duration rounded to the nearest hundredth. |
| TemplateLaws.SignedHundredths | src/main.go:215 | The number of hundredths `%.2f` shows is within half a hundredth of the duration. |
| TemplateLaws.SecondsFieldLayout | src/main.go:277-279 | For a remainder under a minute, the `%05.2f` seconds field is five characters `SS.SS`. It reads back as the remainder rounded to hundredths. |
| TemplateLaws.ElapsedClockLayout | src/main.go:271-280 | For a non-negative duration, write H for the whole hours, M for the total minutes mod 60 and S for the remainder after whole minutes, so the duration is H hours + M minutes + S. The clock is `H:MM:SS.SS` exactly when H > 0, that is from one hour on, and `M:SS.SS` otherwise. |
| TemplateLaws.MinutesToHours | src/main.go:272-274 | Whole minutes divided by 60 are the whole hours. The duration splits into hours, minutes mod 60 and the remainder. |
| TemplateLaws.ClockUnderAnHour | src/main_test.go:48-52 | 2500 ms gives `0:02.50`. |
| TemplateLaws.ClockOverAnHour | src/main_test.go:121-133 | 3661 s gives `1:01:01.00`. |
| TemplateLaws.ClockRoundsUpToSixty | src/main.go:272-279 | 59.996 s gives `0:60.00`. The seconds field rounds up to 60.00 and nothing carries into the minutes, which were taken before rounding. |
| TemplateLaws.RenderCounter | src/main.go:231-266 | A counter specifier followed by anything prints the counter in decimal, followed by the rendering of the rest. |
| TemplateLaws.RenderSpaced | src/main.go:180-198 | A blank-separated run of counter specifiers prints the blank-separated decimal counters. |
| TemplateLaws.CounterBatch | src/main_test.go:67-106 | The test's template `%W %X %D %K %F %R %I %O %r %s %k %w %c`, written `Spaced("WXDKFRIOrskwc")`, prints the numbers 5 512 384 896 10 20 100 200 50 60 2 15 25 separated by blanks. |
| TemplateLaws.SingleSpecifierExamples | src/main.go:184-189 | As in the tests (src/main_test.go:43-52 and 92-96), `%M` gives `1024`, `%E` gives `2.50s` and `%*E` gives `0:02.50`. The unknown `%Z` stays `%Z`, as lines 186-189 write it. |
| Measure.CpuPercent | src/main.go:286-295 | 0 when elapsed ≤ 0. Otherwise 100·(user+sys)/elapsed truncated toward zero, with no clamp at 100. |
| Measure.CpuPercentReaches100 | src/main.go:286-295 | The percentage is at least 100 exactly when the CPU time is at least the wall time. |
| Measure.CpuPercentExamples | src/main_test.go:136-186 | (500,500,1000) ms → 100, (500,500,0) → 0, (10,10,1000) → 2, (2000,500,1000) → 250. |
| Measure.Sub | src/main.go:157 | The difference of two clock readings, saturated to the Duration range. It is non-negative when the end is not before the start. |
| Measure.Join | src/main.go:159 | strings.Join. A single element joins to itself. |
| Measure.ExtractMetrics | src/main.go:156-172 | The result is a fresh record. Command is set to the arguments joined by spaces and ElapsedTime to end−start, and the CPU percentage agrees with the durations. With no process state, everything else is zero. With a process state, the CPU times come from it and the counters come from its rusage, or are zero when there is none. UnsharedRSS is always 0. |
| Rusage.PopulateUsage | src/rusage_unix.go:10-27 | With a rusage, the memory sizes are copied: MaxRSS←Maxrss, SharedRSS←Ixrss, UnsharedData←Idrss, UnsharedStk←Isrss. PageFaults←Majflt and PageReclaims←Minflt. The other eight counters are copied one to one. Command, the three durations, CPUPercent and UnsharedRSS are never written. Without a rusage the record is unchanged. |
| Metrics.Metrics.constructor | src/main.go:25-46 | Go's zero value of the record. |
| Template.Buffer.WriteByte | src/main.go:187-196 | bytes.Buffer.WriteByte appends one byte. |
| Template.Buffer.WriteString | src/main.go:213 | bytes.Buffer.WriteString appends the string. |
| Decimal.Digits | src/main.go:234 | The digits of a natural number: non-empty, all digits, no leading zero, one digit exactly below 10. |
| Decimal.DigitsRoundTrip | src/main.go:234 | The value of the digits of n is n. |
| Decimal.FormatInt | src/main.go:223 | strconv.FormatInt base 10 is non-empty and has a leading `-` exactly for negative numbers; its digits are canonical by FormatIntCanonical. |
| Decimal.FormatIntRoundTrip | src/main.go:223-260 | Parsing strconv's decimal text gives the number back. |
| Decimal.FormatIntCanonical | src/main.go:223-260 | strconv's decimal text is an optional `-` then digits with no leading zero (only 0 is written `0`) whose value is the absolute value. |
| Decimal.FormatIntInjective | src/main.go:223-260 | Distinct numbers never print alike. |
| Decimal.PadZero | src/main.go:277 | fmt's `0` flag with a width: zeros go after the sign until the width is reached, and longer text is unchanged. |
| Decimal.PadZeroKeepsValue | src/main.go:277 | Zero padding never changes the number the text denotes. |
| Decimal.PadTwoDigits | src/main.go:277 | `%02d` of 0..99 is its two digits. |
| Decimal.TwoDigits | src/main.go:277 | Two digits whose value is the number. |
| Decimal.LeadingZeros | src/main.go:277 | Leading zeros do not change the value of a digit string. |
| Decimal.RoundHundredths | src/main.go:215 | The hundredths `%.2f` shows are within half a hundredth of the value. |
| Decimal.FixedSeconds | src/main.go:215-219 | `%.2f` text has at least four characters with the point third from the end, and starts with `-` exactly for a negative duration. |
| Decimal.FixedSecondsRoundTrip | src/main.go:215-219 | `%.2f` text reads back as the sign and the duration rounded to hundredths. |
| Decimal.FixedSecondsCanonical | src/main.go:215-219 | In `%.2f` text the whole seconds after the optional sign are digits with no leading zero, so 0.5 s is `0.50`, never `00.50`. |
| Decimal.PaddedFixedSecondsRoundTrip | src/main.go:277-279 | `%05.2f` text reads back the same way. |
| Decimal.PadFixedSeconds | src/main.go:277-279 | The padding of `%.2f` text goes between the sign and the digits. |
| Decimal.PaddedBodyRoundTrip | src/main.go:277-279 | Zero-padded `I.FF` text reads back as its count of hundredths. |
| Int64.Wrap | src/main.go:240-242 | An in-range value is unchanged, and the result is congruent to the exact value modulo 2^64. |
| Int64.Add | src/main.go:240-242 | Go's int64 `+` is exact when the sum fits, and otherwise wraps modulo 2^64. |
| Int64.Quot | src/main.go:272-274 | The truncation toward zero of `int()` applied to the hours and minutes. The quotient is pinned down by its bounds for either sign. |
| Int64.Rem | src/main.go:273 | Go's `%`: the dividend is the quotient times the divisor plus the remainder, and the remainder takes the dividend's sign. |
| Int64.Saturate | src/main.go:157 | time.Time.Sub's difference is the int64 nearest to the exact difference: the difference itself when it fits. |
| ExitCode.ExitCode | src/main.go:61-96 | For a well-formed outcome, the code passed to os.Exit lies in -1..255. |
| ExitCode.ChildCodePassesThrough | src/main.go:90-91 | A child that exits with status s from 1 to 255 makes ztime exit with s, and the parent sees s itself. |
| ExitCode.ZeroIffSuccess | src/main.go:61-96 | ztime exits with 0 exactly when no command was given or the command succeeded. |
| ExitCode.SignalCodesAbove128 | src/main.go:87-89 | A child killed by signal n gives 128+n, which lies in 129..255. |
| ExitCode.MinusOneOnlyWhenNotExited | src/main.go:91 | -1 comes only from an ExitError whose status is neither exited nor signaled, and the parent sees it as 255. |
| ExitCode.ObservedStatus | src/main.go:82-96 | The parent sees the low eight bits of the os.Exit argument. |
| ExitCode.SignalExamples | src/main.go:85-96 | SIGINT gives 130, SIGKILL gives 137, and a launch failure gives 127. |

## Left out

- `runCommand` (src/main.go:99-129) is not modelled. It starts the child, relays signals to it from a goroutine and reads the clock, all of which needs the operating system. Its results enter the model as the parameters of `ExtractMetrics` and `ExitCode`.
- `signalList` (src/signal_unix.go) is not modelled either, because it only feeds that signal relay.
- Command-line parsing with kong, the JSON output and the lipgloss-styled summary of `printSummary` are not modelled. They are output formatting by libraries. The model covers the TIMEFMT path through `format` only. Reading TIMEFMT from the environment is not modelled; the template is a parameter.
- `ExitCode` models the usage screen for an empty command (src/main.go:61-65) only through its exit code, 0.
- The kernel's rusage is a parameter of `PopulateUsage`. `ProcessState.UserTime`, `SystemTime` and `SysUsage` are parameters of `ExtractMetrics`, because they read the `os.ProcessState` that `cmd.Run` fills in when the child is reaped, which is outside this model.
- Decimal.FixedSeconds: Go's `%.2f` works on the float64 value of `Duration.Seconds()` and rounds ties to even on that binary value. The model rounds the exact nanosecond count to hundredths, and its contracts leave exact ties open. A duration so large that float64 loses nanosecond precision may print a different last digit.
- Measure.CpuPercent: the source computes `int((user.Seconds()+sys.Seconds())/elapsed.Seconds()*100)` in float64. The model computes the exact truncated quotient. Where the float product falls just below a whole number the source prints one less: 145 ms plus 145 ms over one second gives 0.29·100, which is 28.999… in float64. The model gives 29 there. For runs lasting months the float product can also round up to one more: with an elapsed time of 2·10^16 ns and CPU time one nanosecond less, the source gives 100 and the model 99. The model also does not capture a float64 result so large that its conversion to `int` is out of range, which Go leaves implementation-defined.
- Template.ElapsedClock: the source takes hours, minutes and seconds from float64 `Hours()`, `Minutes()` and `Seconds()`. The model uses exact nanosecond arithmetic with the same truncation toward zero. The two can differ only where float64 rounding crosses a boundary.
- ExitCode.ObservedStatus: os.Exit's argument is reduced to eight bits by the operating system, not by ztime. It is stated separately from `ExitCode`.
- The `Default` case of the format test (src/main_test.go:38-42) is not restated as a concrete example. Its pieces are covered by RenderKnown, RenderStarE, SecondsText, PercentText and ClockUnderAnHour.
