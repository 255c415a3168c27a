/** What the template interpreter promises: the laws of Render, the layout of the
    `%*E` clock, what the counter and time specifiers print, and the source's own
    test cases. Render is the specification Template.Format is proved to meet. */
module TemplateLaws {
  import opened Int64
  import opened Optional
  import opened Decimal
  import opened Metrics
  import opened Template

  // ---------------------------------------------------------------------------
  // Laws of the grammar

  /** Bytes outside specifier mode are copied verbatim. */
  lemma {:induction false} RenderLiteralPrefix(p: string, t: string, m: Metrics)
    requires '%' !in p
    ensures Render(p + t, m) == p + Render(t, m)
    decreases |p|
  {
    if p != [] {
      assert p[0] in p && p[0] != '%';
      assert (p + t)[0] == p[0] && (p + t)[1..] == p[1..] + t;
      assert Render(p + t, m) == [p[0]] + Render(p[1..] + t, m);
      RenderLiteralPrefix(p[1..], t, m);
      Associative([p[0]], p[1..], Render(t, m));
      assert [p[0]] + p[1..] == p;
    } else {
      assert p + t == t;
    }
  }

  /** `%%` is one literal `%`. */
  lemma RenderDoublePercent(t: string, m: Metrics)
    ensures Render("%%" + t, m) == "%" + Render(t, m)
  {
    assert ("%%" + t)[2..] == t;
  }

  lemma HundredPercent(m: Metrics)
    ensures Render("100%%", m) == "100%"
  {
    RenderDoublePercent("", m);
    RenderLiteralPrefix("100", "%%", m);
    assert "100" + "%%" == "100%%";
  }

  /** A known one-byte specifier is replaced by its text. */
  lemma RenderKnown(c: char, t: string, m: Metrics)
    requires c != '*' && IsSpecifier(c)
    ensures Render(['%', c] + t, m) == Expansion(c, m).value + Render(t, m)
  {
    assert (['%', c] + t)[2..] == t;
  }

  /** `%J` is the command line. */
  lemma RenderCommand(t: string, m: Metrics)
    ensures Render("%J" + t, m) == m.command + Render(t, m)
  {
    RenderKnown('J', t, m);
    assert "%J" + t == ['%', 'J'] + t;
  }

  /** An unknown specifier byte is kept, with its `%`, and never dropped. */
  lemma RenderUnknown(c: char, t: string, m: Metrics)
    requires !IsSpecifier(c)
    ensures Render(['%', c] + t, m) == ['%', c] + Render(t, m)
  {
    assert (['%', c] + t)[2..] == t;
  }

  /** A `%` that ends the template stays a lone `%`. */
  lemma RenderTrailingPercent(p: string, m: Metrics)
    requires '%' !in p
    ensures Render(p + "%", m) == p + "%"
  {
    RenderLiteralPrefix(p, "%", m);
  }

  /** `%*E` consumes both bytes and is replaced by the clock. */
  lemma RenderStarE(t: string, m: Metrics)
    ensures Render("%*E" + t, m) == ElapsedClock(m.elapsedTime) + Render(t, m)
  {
    assert ("%*E" + t)[3..] == t;
  }

  /** `%*` not followed by `E` is a literal `*`, and the next byte is read in normal
      mode, not as a specifier. */
  lemma RenderBareStar(t: string, m: Metrics)
    requires t == [] || t[0] != 'E'
    ensures Render("%*" + t, m) == "*" + Render(t, m)
  {
    assert ("%*" + t)[2..] == t;
  }

  // ---------------------------------------------------------------------------
  // What the specifiers print

  /** Each counter letter prints its counter in decimal, which reads back as that counter. */
  lemma CounterText(c: char, m: Metrics)
    requires IsCounterLetter(c)
    ensures ParseInt(Render(['%', c], m)) == Some(Counter(c, m).value as int)
  {
    var n := Counter(c, m).value as int;
    RenderKnown(c, [], m);
    assert ['%', c] + [] == ['%', c];
    assert Expansion(c, m) == Some(FormatInt(n));
    assert Render(['%', c], m) == FormatInt(n);
    FormatIntRoundTrip(n);
  }

  /** %D and %K print the sums of the memory sizes whenever those sums fit in an int64. */
  lemma SumCounters(m: Metrics)
    ensures var d := m.unsharedData as int + m.unsharedStk as int;
      Min <= d <= Max ==> Counter('D', m) == Some(d as int64)
    ensures var k2 := m.sharedRss as int + m.unsharedData as int;
      var k := k2 + m.unsharedStk as int;
      Min <= k2 <= Max && Min <= k <= Max ==> Counter('K', m) == Some(k as int64)
  {
  }

  /** %P prints the CPU percentage, then `%`. */
  lemma PercentText(m: Metrics)
    ensures PercentTextOf(Render("%P", m)) == Some(m.cpuPercent)
  {
    var p := FormatInt(m.cpuPercent);
    RenderKnown('P', [], m);
    assert "%P" == ['%', 'P'] + [];
    assert Render("%P", m) == p + "%";
    assert (p + "%")[..|p|] == p;
    FormatIntRoundTrip(m.cpuPercent);
  }

  /** Reads "I.FFs" as a count of hundredths of a second. */
  function SecondsTextOf(r: string): Option<int> {
    if 1 <= |r| && r[|r| - 1] == 's' then ParseFixed(r[..|r| - 1]) else None
  }

  /** Reads "N%" as the number N. */
  function PercentTextOf(r: string): Option<int> {
    if 1 <= |r| && r[|r| - 1] == '%' then ParseInt(r[..|r| - 1]) else None
  }

  /** The number of hundredths of a second `%.2f` shows for a count of nanoseconds:
      the nearest one (either at an exact half). */
  function SignedHundredths(ns: int): (h: int)
    ensures Abs(h * NanosPerHundredth - ns) <= NanosPerHundredth / 2
  {
    var r := RoundHundredths(Abs(ns));
    if ns < 0 then -(r as int) else r
  }

  /** %U, %S and %E print the duration in seconds rounded to hundredths, then `s`. */
  lemma SecondsText(c: char, d: Duration, m: Metrics)
    requires c == 'U' || c == 'S' || c == 'E'
    requires d == (if c == 'U' then m.userTime else if c == 'S' then m.systemTime else m.elapsedTime)
    ensures SecondsTextOf(Render(['%', c], m)) == Some(SignedHundredths(d as int))
  {
    var f := FixedSeconds(d as int);
    RenderKnown(c, [], m);
    assert ['%', c] + [] == ['%', c];
    assert Render(['%', c], m) == f + "s";
    assert (f + "s")[..|f|] == f;
    FixedSecondsRoundTrip(d as int);
  }

  // ---------------------------------------------------------------------------
  // The %*E clock

  /** The seconds field of the clock: the remainder after whole minutes, `%05.2f`. */
  function SecondsField(ns: int): string {
    PadZero(FixedSeconds(ns), 5)
  }

  /** For a remainder under a minute the seconds field is five characters, SS.SS, and
      reads back as the remainder rounded to hundredths. */
  lemma SecondsFieldLayout(ns: int)
    requires 0 <= ns < Minute
    ensures |SecondsField(ns)| == 5
    ensures SecondsField(ns)[2] == '.'
    ensures ParseFixed(SecondsField(ns)) == Some(RoundHundredths(ns) as int)
  {
    var h := RoundHundredths(ns);
    assert h <= 6000;
    AtMostTwoDigits(h / 100);
    assert FixedSeconds(ns) == FixedBody(h);
    FiveWide(FixedSeconds(ns));
    PaddedFixedSecondsRoundTrip(ns, 5);
  }

  /** Unsigned `%.2f` text of four or five characters pads to five with its point third. */
  lemma FiveWide(f: string)
    requires 4 <= |f| <= 5 && f[|f| - 3] == '.' && f[0] != '-'
    ensures |PadZero(f, 5)| == 5 && PadZero(f, 5)[2] == '.'
  {
    if |f| == 4 {
      assert PadZero(f, 5) == Zeros(1) + f;
    }
  }

  /** A number of whole seconds up to 60 has at most two digits. */
  lemma AtMostTwoDigits(n: nat)
    requires n <= 60
    ensures |Digits(n)| <= 2
  {
    if n >= 10 {
      assert Digits(n) == Digits(n / 10) + [DigitChar(n % 10)];
    }
  }

  /** The clock of a non-negative duration: with H whole hours, M = total minutes mod 60
      and S the nanoseconds after the whole minutes (so the duration is H hours, M minutes
      and S nanoseconds), it reads H:MM:SS.SS when H > 0, that is from one hour on, and
      M:SS.SS below that. */
  lemma ElapsedClockLayout(d: Duration)
    requires d >= 0
    ensures var h := d as int / Hour;
      var mi := d as int / Minute % 60;
      var s := d as int % Minute;
      && d as int == h * Hour + mi * Minute + s
      && 0 <= mi < 60 && 0 <= s < Minute
      && (h > 0 <==> d as int >= Hour)
      && ElapsedClock(d) ==
           (if h > 0 then Digits(h) + ":" + TwoDigits(mi) + ":" else Digits(mi) + ":") + SecondsField(s)
  {
    var n := d as int;
    var h := n / Hour;
    var tm := n / Minute;
    var mi := tm % 60;
    var s := n % Minute;
    MinutesToHours(n);
    assert Quot(n, Minute) == tm && Quot(n, Hour) == h && Rem(tm, 60) == mi;
    assert n - tm * Minute == s;
    PadTwoDigits(mi);
  }

  /** Whole minutes divided into whole hours are the whole hours. */
  lemma MinutesToHours(n: nat)
    ensures n / Minute / 60 == n / Hour
    ensures n == n / Hour * Hour + n / Minute % 60 * Minute + n % Minute
  {
    var h := n / Hour;
    var r := n % Hour;
    assert n == h * Hour + r && 0 <= r < Hour;
    var rm := r / Minute;
    assert r == rm * Minute + r % Minute && 0 <= rm < 60;
    assert n == (h * 60 + rm) * Minute + r % Minute;
    assert n / Minute == h * 60 + rm;
    assert n % Minute == r % Minute;
  }

  // ---------------------------------------------------------------------------
  // The source's test cases

  /** 2.5 seconds. */
  lemma ClockUnderAnHour()
    ensures ElapsedClock(2_500_000_000) == "0:02.50"
  {
    var d: int := 2_500_000_000;
    assert Quot(d, Minute) == 0;
    assert Quot(d, Hour) == 0;
    assert Rem(0, 60) == 0;
    var f := FixedSeconds(d);
    TwoAndAHalfSeconds();
    assert PadZero(f, 5) == "02.50" by { assert Zeros(1) == "0"; }
    assert FormatInt(0) == "0";
    assert ElapsedClock(d as int64) == FormatInt(0) + ":" + PadZero(f, 5);
  }

  lemma TwoAndAHalfSeconds()
    ensures FixedSeconds(2_500_000_000) == "2.50"
  {
    assert RoundHundredths(2_500_000_000) == 250;
    assert Digits(2) == "2" && TwoDigits(50) == "50";
  }

  /** 59.996 seconds: `%05.2f` rounds the seconds up to `60.00`, and nothing carries into
      the minutes, because the minutes were taken before rounding. */
  lemma ClockRoundsUpToSixty()
    ensures ElapsedClock(59_996_000_000) == "0:60.00"
  {
    var d: int := 59_996_000_000;
    assert Quot(d, Minute) == 0;
    assert Quot(d, Hour) == 0;
    assert Rem(0, 60) == 0;
    var f := FixedSeconds(d);
    RoundsToSixty();
    assert PadZero(f, 5) == f;
    assert FormatInt(0) == "0";
    assert ElapsedClock(d as int64) == FormatInt(0) + ":" + PadZero(f, 5);
  }

  lemma RoundsToSixty()
    ensures FixedSeconds(59_996_000_000) == "60.00"
  {
    assert RoundHundredths(59_996_000_000) == 6000;
    assert Digits(60) == Digits(6) + [DigitChar(0)];
    assert Digits(60) == "60" && TwoDigits(0) == "00";
  }

  /** One hour, one minute and one second. */
  lemma ClockOverAnHour()
    ensures ElapsedClock(3661 * 1_000_000_000) == "1:01:01.00"
  {
    var d: int := 3661 * 1_000_000_000;
    assert Quot(d, Minute) == 61;
    assert Quot(d, Hour) == 1;
    assert Rem(61, 60) == 1;
    assert d - 61 * Minute == 1_000_000_000;
    var f := FixedSeconds(1_000_000_000);
    assert f == "1.00" by {
      assert RoundHundredths(1_000_000_000) == 100;
      assert Digits(1) == "1" && TwoDigits(0) == "00";
    }
    assert PadZero(f, 5) == "01.00" by { assert Zeros(1) == "0"; }
    assert PadZero("1", 2) == "01" by { assert Zeros(1) == "0"; }
    assert FormatInt(1) == "1";
    assert ElapsedClock(d as int64) == FormatInt(1) + ":" + PadZero(FormatInt(1), 2) + ":" + PadZero(f, 5);
  }

  /** A counter specifier followed by anything prints the counter in decimal. */
  lemma RenderCounter(c: char, t: string, m: Metrics)
    requires IsCounterLetter(c)
    ensures Render(['%', c] + t, m) == FormatInt(Counter(c, m).value as int) + Render(t, m)
  {
    RenderKnown(c, t, m);
    assert Expansion(c, m) == Some(FormatInt(Counter(c, m).value as int));
  }

  lemma RenderSpace(t: string, m: Metrics)
    ensures Render(" " + t, m) == " " + Render(t, m)
  {
    assert (" " + t)[0] == ' ' && (" " + t)[1..] == t;
  }

  /** The template that prints the counters named by `cs`, separated by blanks:
      Spaced("WX") is "%W %X". */
  function Spaced(cs: string): string {
    if |cs| <= 1 then (if cs == [] then [] else ['%', cs[0]]) else ['%', cs[0], ' '] + Spaced(cs[1..])
  }

  /** Numbers in decimal separated by blanks: Words([5, 512]) is "5 512". */
  function Words(ns: seq<int>): string {
    if |ns| <= 1 then (if ns == [] then [] else FormatInt(ns[0])) else FormatInt(ns[0]) + " " + Words(ns[1..])
  }

  /** A blank-separated run of counter specifiers prints the blank-separated counters. */
  lemma {:induction false} RenderSpaced(cs: string, ns: seq<int>, m: Metrics)
    requires |cs| == |ns|
    requires forall i | 0 <= i < |cs| :: IsCounterLetter(cs[i]) && Counter(cs[i], m).value as int == ns[i]
    ensures Render(Spaced(cs), m) == Words(ns)
  {
    if |cs| == 1 {
      RenderCounter(cs[0], [], m);
      assert ['%', cs[0]] + [] == ['%', cs[0]];
    } else if |cs| > 1 {
      var rest := Spaced(cs[1..]);
      RenderSpaced(cs[1..], ns[1..], m);
      RenderSpace(rest, m);
      RenderCounter(cs[0], " " + rest, m);
      assert ['%', cs[0], ' '] + rest == ['%', cs[0]] + (" " + rest);
    }
  }

  /** The counters of the batch test. */
  predicate BatchMetrics(m: Metrics)
    reads m
  {
    && m.swaps == 5 && m.sharedRss == 512 && m.unsharedData == 256 && m.unsharedStk == 128
    && m.pageFaults == 10 && m.pageReclaims == 20 && m.blockInput == 100 && m.blockOutput == 200
    && m.msgsRecv == 50 && m.msgsSent == 60 && m.signals == 2
    && m.vCtxSwitches == 15 && m.iCtxSwitches == 25
  }

  /** The batch test: "%W %X %D %K %F %R %I %O %r %s %k %w %c" prints
      "5 512 384 896 10 20 100 200 50 60 2 15 25". */
  lemma CounterBatch(m: Metrics)
    requires BatchMetrics(m)
    ensures Render(Spaced("WXDKFRIOrskwc"), m) == Words([5, 512, 384, 896, 10, 20, 100, 200, 50, 60, 2, 15, 25])
  {
    RenderSpaced("WXDKFRIOrskwc", [5, 512, 384, 896, 10, 20, 100, 200, 50, 60, 2, 15, 25], m);
  }

  lemma SingleSpecifierExamples(m: Metrics)
    requires m.maxRss == 1024 && m.elapsedTime == 2_500_000_000
    ensures Render("%M", m) == "1024"
    ensures Render("%E", m) == "2.50s"
    ensures Render("%*E", m) == "0:02.50"
    ensures Render("%Z", m) == "%Z"
  {
    MaxRssExample(m);
    ElapsedExample(m);
    ClockUnderAnHour();
    RenderStarE([], m);
    assert "%*E" == "%*E" + [];
    RenderUnknown('Z', [], m);
    assert "%Z" == ['%', 'Z'] + [];
  }

  lemma MaxRssExample(m: Metrics)
    requires m.maxRss == 1024
    ensures Render("%M", m) == "1024"
  {
    RenderKnown('M', [], m);
    assert "%M" == ['%', 'M'] + [] && FormatInt(1024) == "1024";
  }

  lemma ElapsedExample(m: Metrics)
    requires m.elapsedTime == 2_500_000_000
    ensures Render("%E", m) == "2.50s"
  {
    RenderKnown('E', [], m);
    assert "%E" == ['%', 'E'] + [];
    TwoAndAHalfSeconds();
  }
}
