/** The TIMEFMT template interpreter of src/main.go (format, handleSpecifier,
    handleIntSpecifier, handleStar). A template is scanned one byte at a time; `%`
    starts a specifier, which is decided by the next byte, except that `%*E` also
    consumes the `E`. Each character of a template stands for one byte of the Go string:
    every byte the interpreter compares against is ASCII. */
module Template {
  import opened Int64
  import opened Optional
  import opened Decimal
  import opened Metrics

  /** The bytes.Buffer the interpreter writes to. */
  class Buffer {
    var data: string

    constructor ()
      ensures data == []
    {
      data := [];
    }

    method WriteByte(c: char)
      modifies this
      ensures data == old(data) + [c]
    {
      data := data + [c];
    }

    method WriteString(s: string)
      modifies this
      ensures data == old(data) + s
    {
      data := data + s;
    }
  }

  // ---------------------------------------------------------------------------
  // Specification

  /** The counter letters of handleIntSpecifier. */
  predicate IsCounterLetter(c: char) {
    || c == 'M' || c == 'W' || c == 'X' || c == 'D' || c == 'K' || c == 'F' || c == 'R'
    || c == 'I' || c == 'O' || c == 'r' || c == 's' || c == 'k' || c == 'w' || c == 'c'
  }

  /** Every byte that handleSpecifier accepts after a `%`. */
  predicate IsSpecifier(c: char) {
    || c == '%' || c == 'J' || c == 'U' || c == 'S' || c == 'E' || c == '*' || c == 'P'
    || IsCounterLetter(c)
  }

  /** The counter a letter of handleIntSpecifier prints; %D and %K are sums, added
      with int64 wrap-around as in Go. */
  function Counter(c: char, m: Metrics): (r: Option<int64>)
    reads m
    ensures r.Some? <==> IsCounterLetter(c)
  {
    match c
    case 'M' => Some(m.maxRss)
    case 'W' => Some(m.swaps)
    case 'X' => Some(m.sharedRss)
    case 'D' => Some(Add(m.unsharedData, m.unsharedStk))
    case 'K' => Some(Add(Add(m.sharedRss, m.unsharedData), m.unsharedStk))
    case 'F' => Some(m.pageFaults)
    case 'R' => Some(m.pageReclaims)
    case 'I' => Some(m.blockInput)
    case 'O' => Some(m.blockOutput)
    case 'r' => Some(m.msgsRecv)
    case 's' => Some(m.msgsSent)
    case 'k' => Some(m.signals)
    case 'w' => Some(m.vCtxSwitches)
    case 'c' => Some(m.iCtxSwitches)
    case _ => None
  }

  /** The text of a one-byte specifier (every one except `*`), or None when the
      byte is not a specifier. */
  function Expansion(c: char, m: Metrics): (r: Option<string>)
    requires c != '*'
    reads m
    ensures r.Some? <==> IsSpecifier(c)
  {
    match c
    case '%' => Some("%")
    case 'J' => Some(m.command)
    case 'U' => Some(FixedSeconds(m.userTime as int) + "s")
    case 'S' => Some(FixedSeconds(m.systemTime as int) + "s")
    case 'E' => Some(FixedSeconds(m.elapsedTime as int) + "s")
    case 'P' => Some(FormatInt(m.cpuPercent) + "%")
    case _ =>
      match Counter(c, m)
      case Some(n) => Some(FormatInt(n as int))
      case None => None
  }

  /** The `%*E` clock: H:MM:SS.SS when the whole hours are positive, M:SS.SS otherwise.
      Hours and total minutes are truncated toward zero, the minutes field is the total
      minutes modulo 60 and the seconds field is what remains after the whole minutes. */
  function ElapsedClock(d: Duration): (r: string)
    ensures 7 <= |r|
    ensures Quot(d as int, Hour) > 0 ==> 10 <= |r|
  {
    var totalMinutes := Quot(d as int, Minute);
    var hours := Quot(d as int, Hour);
    var mins := Rem(totalMinutes, 60);
    var secs := d as int - totalMinutes * Minute;
    if hours > 0 then FormatInt(hours) + ":" + PadZero(FormatInt(mins), 2) + ":" + PadZero(FixedSeconds(secs), 5)
    else FormatInt(mins) + ":" + PadZero(FixedSeconds(secs), 5)
  }

  /** A template without any `%`. */
  predicate Literal(t: string) {
    forall i | 0 <= i < |t| :: t[i] != '%'
  }

  /** The rendering of a template, read from the front: a plain byte is copied, a lone
      trailing `%` stays, `%*E` is the clock, `%*` followed by anything else is `*`, a
      known specifier is its text, and an unknown one is copied with its `%`. */
  function Render(t: string, m: Metrics): (r: string)
    reads m
    ensures Literal(t) ==> r == t
    decreases |t|
  {
    if t == [] then []
    else if t[0] != '%' then [t[0]] + Render(t[1..], m)
    else if |t| == 1 then "%"
    else if t[1] == '*' then
      if 2 < |t| && t[2] == 'E' then ElapsedClock(m.elapsedTime) + Render(t[3..], m)
      else "*" + Render(t[2..], m)
    else
      match Expansion(t[1], m)
      case Some(s) => s + Render(t[2..], m)
      case None => ['%', t[1]] + Render(t[2..], m)
  }

  // ---------------------------------------------------------------------------
  // The interpreter

  /** format: the byte loop with its one bit of state, `inPercent`. */
  method Format(tmpl: string, m: Metrics) returns (s: string)
    ensures s == Render(tmpl, m)
  {
    var out := new Buffer();
    var inPercent := false;
    var i := 0;
    while i < |tmpl|
      invariant 0 <= i <= |tmpl|
      invariant inPercent ==> 1 <= i && tmpl[i - 1] == '%'
      invariant out.data + Render(tmpl[Unread(i, inPercent)..], m) == Render(tmpl, m)
    {
      var c := tmpl[i];
      if inPercent {
        ghost var before := out.data;
        var handled, next := HandleSpecifier(out, c, m, i, tmpl);
        if !handled {
          out.WriteByte('%');
          out.WriteByte(c);
        }
        SpecifierStep(tmpl, i, m, before, out.data, next);
        i := next;
        inPercent := false;
      } else {
        PlainStep(tmpl, i, m, out.data);
        if c == '%' {
          inPercent := true;
        } else {
          out.WriteByte(c);
        }
      }
      i := i + 1;
    }
    if inPercent {
      RenderTrailing(tmpl, m);
      Associative(out.data, "%", []);
      out.WriteByte('%');
    }
    s := out.data;
    assert tmpl[|tmpl|..] == [];
  }

  /** Where the unread part of the template starts: a pending `%` is unread. */
  function Unread(i: nat, inPercent: bool): int {
    if inPercent then i - 1 else i
  }

  lemma Associative(a: string, b: string, c: string)
    ensures (a + b) + c == a + (b + c)
  {
  }

  /** What handleSpecifier and the unhandled branch of format write for the byte at
      `i`, which follows a `%`. */
  function SpecifierText(tmpl: string, i: nat, m: Metrics): string
    requires i < |tmpl|
    reads m
  {
    var c := tmpl[i];
    if c == '*' then (if StarE(tmpl, i) then ElapsedClock(m.elapsedTime) else "*")
    else if IsSpecifier(c) then Expansion(c, m).value
    else ['%', c]
  }

  /** The index format's loop is left at after the specifier byte at `i`. */
  function SpecifierEnd(tmpl: string, i: nat): nat
    requires i < |tmpl|
  {
    if tmpl[i] == '*' && StarE(tmpl, i) then i + 1 else i
  }

  /** One step of Render at a `%` at `j` that is followed by a byte. */
  lemma RenderAtPercent(tmpl: string, j: nat, m: Metrics)
    requires j + 1 < |tmpl| && tmpl[j] == '%'
    ensures SpecifierEnd(tmpl, j + 1) < |tmpl|
    ensures Render(tmpl[j..], m) ==
      SpecifierText(tmpl, j + 1, m) + Render(tmpl[SpecifierEnd(tmpl, j + 1) + 1..], m)
  {
    var rest := tmpl[j..];
    assert rest[0] == '%' && rest[1] == tmpl[j + 1] && rest[2..] == tmpl[j + 2..];
    if 2 < |rest| {
      assert rest[2] == tmpl[j + 2] && rest[3..] == tmpl[j + 3..];
    }
  }

  /** The specifier branch of format keeps its loop invariant. */
  lemma SpecifierStep(tmpl: string, i: nat, m: Metrics, before: string, after: string, next: nat)
    requires 1 <= i < |tmpl| && tmpl[i - 1] == '%'
    requires after == before + SpecifierText(tmpl, i, m) && next == SpecifierEnd(tmpl, i)
    ensures next < |tmpl|
    ensures after + Render(tmpl[next + 1..], m) == before + Render(tmpl[i - 1..], m)
  {
    RenderAtPercent(tmpl, i - 1, m);
    Associative(before, SpecifierText(tmpl, i, m), Render(tmpl[next + 1..], m));
  }

  /** The normal-mode branch of format keeps its loop invariant. */
  lemma PlainStep(tmpl: string, i: nat, m: Metrics, written: string)
    requires i < |tmpl|
    ensures tmpl[i] != '%' ==> written + Render(tmpl[i..], m) == (written + [tmpl[i]]) + Render(tmpl[i + 1..], m)
  {
    assert tmpl[i..][0] == tmpl[i] && tmpl[i..][1..] == tmpl[i + 1..];
    Associative(written, [tmpl[i]], Render(tmpl[i + 1..], m));
  }

  /** A `%` that ends the template is rendered alone. */
  lemma RenderTrailing(tmpl: string, m: Metrics)
    requires 1 <= |tmpl| && tmpl[|tmpl| - 1] == '%'
    ensures Render(tmpl[|tmpl| - 1..], m) == "%"
  {
    assert tmpl[|tmpl| - 1..] == "%";
  }

  /** handleSpecifier: writes the text of the specifier byte `c` found at `idx` and
      reports whether it was one; only `*` can advance the index. */
  method HandleSpecifier(out: Buffer, c: char, m: Metrics, idx: nat, tmpl: string)
    returns (handled: bool, idx': nat)
    modifies out
    ensures handled <==> IsSpecifier(c)
    ensures c == '*' && StarE(tmpl, idx) ==>
      idx' == idx + 1 && out.data == old(out.data) + ElapsedClock(m.elapsedTime)
    ensures c == '*' && !StarE(tmpl, idx) ==> idx' == idx && out.data == old(out.data) + "*"
    ensures c != '*' ==>
      idx' == idx && out.data == old(out.data) + (if handled then Expansion(c, m).value else "")
    ensures idx < |tmpl| && tmpl[idx] == c ==> idx' == SpecifierEnd(tmpl, idx)
    ensures idx < |tmpl| && tmpl[idx] == c ==>
      out.data == old(out.data) + (if handled then SpecifierText(tmpl, idx, m) else "")
  {
    handled, idx' := true, idx;
    match c
    case '%' => out.WriteByte('%');
    case 'J' => out.WriteString(m.command);
    case 'U' => out.WriteString(FixedSeconds(m.userTime as int) + "s");
    case 'S' => out.WriteString(FixedSeconds(m.systemTime as int) + "s");
    case 'E' => out.WriteString(FixedSeconds(m.elapsedTime as int) + "s");
    case '*' => idx' := HandleStar(out, m, idx, tmpl);
    case 'P' => out.WriteString(FormatInt(m.cpuPercent) + "%");
    case _ => handled := HandleIntSpecifier(out, c, m);
  }

  /** handleIntSpecifier: a counter letter prints its counter in decimal. */
  method HandleIntSpecifier(out: Buffer, c: char, m: Metrics) returns (handled: bool)
    modifies out
    ensures handled <==> IsCounterLetter(c)
    ensures out.data == old(out.data) + (if handled then FormatInt(Counter(c, m).value as int) else "")
  {
    handled := true;
    match c
    case 'M' => out.WriteString(FormatInt(m.maxRss as int));
    case 'W' => out.WriteString(FormatInt(m.swaps as int));
    case 'X' => out.WriteString(FormatInt(m.sharedRss as int));
    case 'D' => out.WriteString(FormatInt(Add(m.unsharedData, m.unsharedStk) as int));
    case 'K' => out.WriteString(FormatInt(Add(Add(m.sharedRss, m.unsharedData), m.unsharedStk) as int));
    case 'F' => out.WriteString(FormatInt(m.pageFaults as int));
    case 'R' => out.WriteString(FormatInt(m.pageReclaims as int));
    case 'I' => out.WriteString(FormatInt(m.blockInput as int));
    case 'O' => out.WriteString(FormatInt(m.blockOutput as int));
    case 'r' => out.WriteString(FormatInt(m.msgsRecv as int));
    case 's' => out.WriteString(FormatInt(m.msgsSent as int));
    case 'k' => out.WriteString(FormatInt(m.signals as int));
    case 'w' => out.WriteString(FormatInt(m.vCtxSwitches as int));
    case 'c' => out.WriteString(FormatInt(m.iCtxSwitches as int));
    case _ => handled := false;
  }

  /** The lookahead of handleStar: the byte after index `idx` exists and is `E`. */
  predicate StarE(tmpl: string, idx: nat) {
    idx + 1 < |tmpl| && tmpl[idx + 1] == 'E'
  }

  /** handleStar: `*E` writes the clock and moves the index onto the `E`; a `*` followed
      by anything else (or by nothing) writes `*` and leaves the index. */
  method HandleStar(out: Buffer, m: Metrics, idx: nat, tmpl: string) returns (idx': nat)
    modifies out
    ensures StarE(tmpl, idx) ==> idx' == idx + 1 && out.data == old(out.data) + ElapsedClock(m.elapsedTime)
    ensures !StarE(tmpl, idx) ==> idx' == idx && out.data == old(out.data) + "*"
  {
    if idx + 1 < |tmpl| && tmpl[idx + 1] == 'E' {
      idx' := idx + 1;
      var d := m.elapsedTime as int;
      var hours := Quot(d, Hour);
      var mins := Rem(Quot(d, Minute), 60);
      var secs := d - Quot(d, Minute) * Minute;
      var text;
      if hours > 0 {
        text := FormatInt(hours) + ":" + PadZero(FormatInt(mins), 2) + ":" + PadZero(FixedSeconds(secs), 5);
      } else {
        text := FormatInt(mins) + ":" + PadZero(FixedSeconds(secs), 5);
      }
      assert text == ElapsedClock(m.elapsedTime);
      out.WriteString(text);
    } else {
      idx' := idx;
      out.WriteByte('*');
    }
  }
}
