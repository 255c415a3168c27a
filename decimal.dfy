/** Decimal text as Go's strconv.Itoa / strconv.FormatInt(_, 10) and the fmt verbs
    `%d`, `%02d`, `%.2f` and `%05.2f` produce it, each with a parser that reads the
    text back, so that every rendering is pinned down by a round trip. */
module Decimal {
  import opened Optional

  predicate IsDigit(c: char) {
    '0' <= c <= '9'
  }

  predicate AllDigits(s: string) {
    forall i | 0 <= i < |s| :: IsDigit(s[i])
  }

  function DigitChar(d: nat): (c: char)
    requires d < 10
    ensures IsDigit(c) && c as int - '0' as int == d
  {
    ('0' as int + d) as char
  }

  function DigitValue(c: char): (d: nat)
    requires IsDigit(c)
    ensures d < 10 && DigitChar(d) == c
  {
    c as int - '0' as int
  }

  /** The digits of `n` without leading zeros. */
  function Digits(n: nat): (s: string)
    ensures 1 <= |s| && AllDigits(s)
    ensures s[0] == '0' ==> n == 0 && s == "0"
    ensures n < 10 <==> |s| == 1
    decreases n
  {
    if n < 10 then [DigitChar(n)] else Digits(n / 10) + [DigitChar(n % 10)]
  }

  /** The number a string of digits denotes; leading zeros are allowed. */
  function ValueOf(s: string): nat
    requires AllDigits(s)
    decreases |s|
  {
    if s == [] then 0 else ValueOf(s[..|s| - 1]) * 10 + DigitValue(s[|s| - 1])
  }

  lemma {:induction false} DigitsRoundTrip(n: nat)
    ensures ValueOf(Digits(n)) == n
  {
    if n >= 10 {
      var s := Digits(n / 10) + [DigitChar(n % 10)];
      assert s[..|s| - 1] == Digits(n / 10);
      DigitsRoundTrip(n / 10);
    }
  }

  function Zeros(k: nat): (s: string)
    ensures |s| == k && AllDigits(s)
  {
    seq(k, _ => '0')
  }

  /** Leading zeros do not change the value of a digit string. */
  lemma {:induction false} LeadingZeros(k: nat, s: string)
    requires AllDigits(s)
    ensures AllDigits(Zeros(k) + s) && ValueOf(Zeros(k) + s) == ValueOf(s)
    decreases |s|
  {
    var z := Zeros(k) + s;
    assert AllDigits(z) by {
      forall i | 0 <= i < |z| ensures IsDigit(z[i]) {
        if i >= k { assert z[i] == s[i - k]; }
      }
    }
    if s == [] {
      LeadingZerosOnly(k);
      assert z == Zeros(k);
    } else {
      assert z[..|z| - 1] == Zeros(k) + s[..|s| - 1];
      LeadingZeros(k, s[..|s| - 1]);
    }
  }

  lemma {:induction false} LeadingZerosOnly(k: nat)
    ensures ValueOf(Zeros(k)) == 0
  {
    if k > 0 {
      assert Zeros(k)[..k - 1] == Zeros(k - 1);
      LeadingZerosOnly(k - 1);
    }
  }

  /** strconv.Itoa and strconv.FormatInt(n, 10): a minus sign for negative numbers. */
  function FormatInt(n: int): (s: string)
    ensures 1 <= |s|
    ensures n >= 0 <==> s[0] != '-'
  {
    if n < 0 then "-" + Digits(-n) else Digits(n)
  }

  /** The text of FormatInt is canonical: after the optional sign come digits with no
      leading zero, so together with FormatIntRoundTrip it is the only such text. */
  lemma FormatIntCanonical(n: int)
    ensures var s := FormatInt(n); var d := if n < 0 then s[1..] else s;
      1 <= |d| && AllDigits(d) && (d[0] == '0' ==> n == 0 && d == "0") && ValueOf(d) == Abs(n)
  {
    if n < 0 {
      assert FormatInt(n)[1..] == Digits(-n);
    }
    DigitsRoundTrip(Abs(n));
  }

  /** Reads an optionally signed decimal integer; leading zeros are accepted. */
  function ParseInt(s: string): Option<int> {
    if 2 <= |s| && s[0] == '-' && AllDigits(s[1..]) then Some(-(ValueOf(s[1..]) as int))
    else if 1 <= |s| && AllDigits(s) then Some(ValueOf(s))
    else None
  }

  lemma FormatIntRoundTrip(n: int)
    ensures ParseInt(FormatInt(n)) == Some(n)
  {
    if n < 0 {
      DigitsRoundTrip(-n);
      ParseNegative(Digits(-n), -n);
    } else {
      DigitsRoundTrip(n);
      ParseDigits(Digits(n), n);
    }
  }

  /** A minus sign in front of digits that spell v reads as -v. */
  lemma ParseNegative(d: string, v: nat)
    requires 1 <= |d| && AllDigits(d) && ValueOf(d) == v
    ensures ParseInt("-" + d) == Some(-(v as int))
  {
    assert ("-" + d)[1..] == d;
  }

  /** Digits that spell v read as v. */
  lemma ParseDigits(d: string, v: nat)
    requires 1 <= |d| && AllDigits(d) && ValueOf(d) == v
    ensures ParseInt(d) == Some(v)
  {
    assert IsDigit(d[0]);
  }

  /** Distinct numbers never render alike. */
  lemma FormatIntInjective(a: int, b: int)
    requires FormatInt(a) == FormatInt(b)
    ensures a == b
  {
    FormatIntRoundTrip(a);
    FormatIntRoundTrip(b);
  }

  /** The `0` flag of fmt with a width: zeros are inserted after any sign
      until the text is `width` characters long; longer text is left alone. */
  function PadZero(s: string, width: nat): (r: string)
    ensures |r| == if |s| >= width then |s| else width
    ensures |s| >= width ==> r == s
  {
    if |s| >= width then s
    else if 0 < |s| && s[0] == '-' then "-" + Zeros(width - |s|) + s[1..]
    else Zeros(width - |s|) + s
  }

  /** Padding text with an optional sign puts the zeros between the sign and the rest. */
  lemma PadSigned(neg: bool, body: string, width: nat)
    requires 0 < |body| && body[0] != '-'
    ensures var s := (if neg then "-" else "") + body;
      var k := if |s| >= width then 0 else width - |s|;
      PadZero(s, width) == (if neg then "-" else "") + (Zeros(k) + body)
  {
    var s := (if neg then "-" else "") + body;
    if neg {
      assert s[0] == '-' && s[1..] == body;
    } else {
      assert s == body;
    }
    if |s| >= width {
      assert Zeros(0) + body == body;
    }
  }

  /** Padding never changes the number the text denotes. */
  lemma PadZeroKeepsValue(n: int, width: nat)
    ensures ParseInt(PadZero(FormatInt(n), width)) == Some(n)
  {
    var d := Digits(Abs(n));
    var sign := if n < 0 then "-" else "";
    var s := FormatInt(n);
    assert s == sign + d;
    var k := if |s| >= width then 0 else width - |s|;
    PadSigned(n < 0, d, width);
    assert PadZero(s, width) == sign + (Zeros(k) + d);
    DigitsRoundTrip(Abs(n));
    LeadingZeros(k, d);
    if n < 0 {
      ParseNegative(Zeros(k) + d, -n);
    } else {
      ParseDigits(Zeros(k) + d, n);
    }
  }

  /** `%02d` of a number from 0 to 99 equals its two digits. */
  lemma PadTwoDigits(n: nat)
    requires n < 100
    ensures PadZero(FormatInt(n), 2) == TwoDigits(n)
  {
    if n >= 10 {
      assert Digits(n) == Digits(n / 10) + [DigitChar(n % 10)];
    }
  }

  function TwoDigits(n: nat): (s: string)
    requires n < 100
    ensures |s| == 2 && AllDigits(s) && ValueOf(s) == n
  {
    var s := [DigitChar(n / 10), DigitChar(n % 10)];
    assert s[..1] == [DigitChar(n / 10)] && s[..1][..0] == [];
    assert ValueOf(s[..1]) == n / 10;
    s
  }

  const NanosPerHundredth: nat := 10_000_000

  /** A non-negative count of nanoseconds rounded to the nearest hundredth of a second.
      At an exact half the result may round either way. */
  function RoundHundredths(ns: nat): (h: nat)
    ensures h * NanosPerHundredth <= ns + NanosPerHundredth / 2
    ensures ns <= h * NanosPerHundredth + NanosPerHundredth / 2
  {
    (ns + NanosPerHundredth / 2) / NanosPerHundredth
  }

  function Abs(x: int): nat {
    if x < 0 then -x else x
  }

  /** `%.2f` of a duration's Seconds(): the sign, the whole seconds, a point and two
      decimals, after rounding to hundredths. */
  function FixedSeconds(ns: int): (r: string)
    ensures 4 <= |r| && r[|r| - 3] == '.'
    ensures r[0] == '-' <==> ns < 0
  {
    (if ns < 0 then "-" else "") + FixedBody(RoundHundredths(Abs(ns)))
  }

  /** A count of hundredths written as "I.FF". */
  function FixedBody(h: nat): (s: string)
    ensures 4 <= |s| && IsDigit(s[0]) && s[|s| - 3] == '.'
  {
    Digits(h / 100) + "." + TwoDigits(h % 100)
  }

  /** Reads "I.FF" (optionally signed, leading zeros allowed) as a count of hundredths. */
  function ParseFixed(s: string): Option<int> {
    if 1 <= |s| && s[0] == '-' then
      match ParseUnsignedFixed(s[1..])
      case Some(h) => Some(-(h as int))
      case None => None
    else ParseUnsignedFixed(s)
  }

  function ParseUnsignedFixed(s: string): Option<nat> {
    if 4 <= |s| && s[|s| - 3] == '.' && AllDigits(s[..|s| - 3]) && AllDigits(s[|s| - 2..])
    then Some(ValueOf(s[..|s| - 3]) * 100 + ValueOf(s[|s| - 2..]))
    else None
  }

  /** Zero padding in front of "I.FF" keeps the count of hundredths. */
  lemma PaddedBodyRoundTrip(k: nat, h: nat)
    ensures ParseUnsignedFixed(Zeros(k) + FixedBody(h)) == Some(h)
  {
    var w := Digits(h / 100);
    var f := TwoDigits(h % 100);
    assert Zeros(k) + FixedBody(h) == (Zeros(k) + w) + "." + f;
    LeadingZeros(k, w);
    ParsePoint(Zeros(k) + w, f);
    DigitsRoundTrip(h / 100);
  }

  /** Digits, a point and two digits read as the hundredths they spell. */
  lemma ParsePoint(a: string, f: string)
    requires 1 <= |a| && AllDigits(a) && |f| == 2 && AllDigits(f)
    ensures ParseUnsignedFixed(a + "." + f) == Some(ValueOf(a) * 100 + ValueOf(f))
  {
    var s := a + "." + f;
    assert |s| == |a| + 3 && s[|a|] == '.';
    assert s[..|a|] == a;
    assert s[|a| + 1..] == f;
  }

  /** `%05.2f` and friends: zero padding of `%.2f` text goes between the sign and the body. */
  lemma PadFixedSeconds(ns: int, width: nat)
    ensures var s := FixedSeconds(ns);
      var k := if |s| >= width then 0 else width - |s|;
      PadZero(s, width) == (if ns < 0 then "-" else "") + (Zeros(k) + FixedBody(RoundHundredths(Abs(ns))))
  {
    PadSigned(ns < 0, FixedBody(RoundHundredths(Abs(ns))), width);
  }

  /** A zero-padded "I.FF" starts with a digit. */
  lemma PaddedBodyStartsWithDigit(k: nat, h: nat)
    ensures |Zeros(k) + FixedBody(h)| > 0 && IsDigit((Zeros(k) + FixedBody(h))[0])
  {
    if k == 0 {
      assert (Zeros(k) + FixedBody(h))[0] == FixedBody(h)[0];
    } else {
      assert (Zeros(k) + FixedBody(h))[0] == Zeros(k)[0];
    }
  }

  /** Padded `%.2f` text reads back as the signed duration rounded to hundredths. */
  lemma PaddedFixedSecondsRoundTrip(ns: int, width: nat)
    ensures var h := RoundHundredths(Abs(ns));
      ParseFixed(PadZero(FixedSeconds(ns), width)) == Some(if ns < 0 then -(h as int) else h)
  {
    var h := RoundHundredths(Abs(ns));
    var s := FixedSeconds(ns);
    var k := if |s| >= width then 0 else width - |s|;
    PadFixedSeconds(ns, width);
    PaddedBodyRoundTrip(k, h);
    PaddedBodyStartsWithDigit(k, h);
    ParseSigned(ns < 0, Zeros(k) + FixedBody(h), h);
  }

  /** A sign in front of an unsigned "I.FF" negates what it reads as. */
  lemma ParseSigned(neg: bool, body: string, h: nat)
    requires 0 < |body| && IsDigit(body[0]) && ParseUnsignedFixed(body) == Some(h)
    ensures ParseFixed((if neg then "-" else "") + body) == Some(if neg then -(h as int) else h)
  {
    if neg {
      assert ("-" + body)[1..] == body;
    } else {
      assert "" + body == body;
    }
  }

  /** `%.2f` text reads back as the signed duration rounded to hundredths. */
  lemma FixedSecondsRoundTrip(ns: int)
    ensures var h := RoundHundredths(Abs(ns));
      ParseFixed(FixedSeconds(ns)) == Some(if ns < 0 then -(h as int) else h)
  {
    PaddedFixedSecondsRoundTrip(ns, 0);
  }

  /** `%.2f` text is canonical: after the optional sign the whole seconds are digits
      with no leading zero, so "00.50" is never produced. */
  lemma FixedSecondsCanonical(ns: int)
    ensures var r := FixedSeconds(ns); var b := if ns < 0 then r[1..] else r;
      4 <= |b| && var w := b[..|b| - 3];
      1 <= |w| && AllDigits(w) && (w[0] == '0' ==> w == "0")
  {
    var h := RoundHundredths(Abs(ns));
    var b := FixedBody(h);
    assert b[..|b| - 3] == Digits(h / 100);
    if ns < 0 {
      assert FixedSeconds(ns)[1..] == b;
    }
  }
}
