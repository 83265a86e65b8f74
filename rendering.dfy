/** The countdown line `timer` prints on every pass: the whole seconds left,
    split into minutes and seconds, each written in decimal and zero-padded
    to at least two digits, as `\rMM:SS remaining`. */
module Rendering {
  import opened Units

  datatype Option<T> = None | Some(value: T)

  /** Text after the seconds field. */
  const Suffix: string := " remaining"

  /** Minimum width of each field, the `02` in `{:02}`. */
  const FieldWidth: nat := 2

  predicate IsDigit(c: char) {
    '0' <= c <= '9'
  }

  predicate AllDigits(s: string) {
    forall i :: 0 <= i < |s| ==> IsDigit(s[i])
  }

  function DigitChar(d: nat): (c: char)
    requires d < 10
    ensures IsDigit(c)
  {
    (d + '0' as int) as char
  }

  function DigitValue(c: char): (d: nat)
    requires IsDigit(c)
    ensures d < 10
  {
    c as int - '0' as int
  }

  /** Decimal notation of a `u64` as Rust's `Display` writes it: only digits,
      and no leading zero unless the number is zero. */
  function Decimal(n: nat): (s: string)
    ensures 1 <= |s| && AllDigits(s)
    ensures s[0] == '0' ==> n == 0
    ensures n < 10 <==> |s| == 1
    decreases n
  {
    if n < 10 then [DigitChar(n)] else Decimal(n / 10) + [DigitChar(n % 10)]
  }

  /** Value of a string of decimal digits, most significant first. */
  function ValueOf(s: string): nat
    requires AllDigits(s)
    decreases |s|
  {
    if s == [] then 0 else ValueOf(s[..|s| - 1]) * 10 + DigitValue(s[|s| - 1])
  }

  function Zeros(k: nat): (z: string)
    ensures |z| == k && AllDigits(z)
  {
    seq(k, _ => '0')
  }

  /** `{:02}`: the decimal text, left-padded with '0' up to the field width.
      A leading '0' is padding or the number zero, never more. */
  function Field(n: nat): (f: string)
    ensures |f| >= FieldWidth
    ensures f[0] == '0' ==> n < 10
  {
    var digits := Decimal(n);
    if |digits| < FieldWidth then Zeros(FieldWidth - |digits|) + digits else digits
  }

  /** `MM:SS` for `secs` whole seconds. */
  function Clock(secs: nat): string {
    Field(secs / SecondsPerMinute) + ":" + Field(secs % SecondsPerMinute)
  }

  /** The line printed for `secs` whole seconds remaining. */
  function Render(secs: nat): string {
    "\r" + Clock(secs) + Suffix
  }

  /** Reads a countdown line back into the seconds it shows; the partner of Render. */
  function ParseRemaining(line: string): Option<nat> {
    if |line| < 1 + |Suffix| || line[0] != '\r' || line[|line| - |Suffix|..] != Suffix then None
    else ParseClock(line[1..|line| - |Suffix|])
  }

  /** Reads `MM:SS`: the text before the last three characters, a colon, two more. */
  function ParseClock(clock: string): Option<nat> {
    if |clock| < 3 || clock[|clock| - 3] != ':' then None
    else FieldsValue(clock[..|clock| - 3], clock[|clock| - 2..])
  }

  /** At least two minute digits and two second digits below 60, as seconds. */
  function FieldsValue(minutes: string, seconds: string): Option<nat> {
    if |minutes| >= FieldWidth && AllDigits(minutes) && AllDigits(seconds) && ValueOf(seconds) < SecondsPerMinute
    then Some(ValueOf(minutes) * SecondsPerMinute + ValueOf(seconds))
    else None
  }

  lemma {:induction false} DecimalRoundTrip(n: nat)
    ensures ValueOf(Decimal(n)) == n
    decreases n
  {
    if n >= 10 {
      var s := Decimal(n);
      DecimalRoundTrip(n / 10);
      assert s[..|s| - 1] == Decimal(n / 10);
    }
  }

  /** Leading zeros do not change the value of a digit string. */
  lemma {:induction false} LeadingZeros(k: nat, s: string)
    requires AllDigits(s)
    ensures AllDigits(Zeros(k) + s)
    ensures ValueOf(Zeros(k) + s) == ValueOf(s)
    decreases |s|
  {
    var t := Zeros(k) + s;
    if s == [] {
      ZerosValue(k);
      assert t == Zeros(k);
    } else {
      LeadingZeros(k, s[..|s| - 1]);
      assert t[..|t| - 1] == Zeros(k) + s[..|s| - 1];
    }
  }

  lemma {:induction false} ZerosValue(k: nat)
    ensures ValueOf(Zeros(k)) == 0
  {
    if k > 0 {
      ZerosValue(k - 1);
      assert Zeros(k)[..k - 1] == Zeros(k - 1);
    }
  }

  /** A field reads back as the number it was made from, is exactly two
      digits below 100, and from 10 on is the plain decimal text. */
  lemma FieldDenotes(n: nat)
    ensures AllDigits(Field(n)) && ValueOf(Field(n)) == n
    ensures |Field(n)| >= FieldWidth
    ensures |Field(n)| == FieldWidth <==> n < 100
    ensures n >= 10 ==> Field(n) == Decimal(n)
  {
    var digits := Decimal(n);
    DecimalRoundTrip(n);
    if |digits| < FieldWidth {
      LeadingZeros(FieldWidth - |digits|, digits);
    } else if n < 100 {
      assert n / 10 < 10;
    } else {
      assert n / 10 >= 10;
      assert |Decimal(n / 10)| >= 2;
    }
  }

  /** The seconds field lies in 00..59, and minutes * 60 + seconds gives back
      the whole seconds remaining. */
  lemma RenderFields(secs: nat)
    ensures Render(secs) == "\r" + (Field(secs / SecondsPerMinute) + ":" + Field(secs % SecondsPerMinute)) + Suffix
    ensures |Field(secs % SecondsPerMinute)| == FieldWidth && ValueOf(Field(secs % SecondsPerMinute)) < SecondsPerMinute
    ensures |Field(secs / SecondsPerMinute)| >= FieldWidth
    ensures ValueOf(Field(secs / SecondsPerMinute)) * SecondsPerMinute + ValueOf(Field(secs % SecondsPerMinute)) == secs
  {
    FieldDenotes(secs / SecondsPerMinute);
    FieldDenotes(secs % SecondsPerMinute);
  }

  /** The clock text of a line reads back as the seconds it was made from. */
  lemma ParseClockRoundTrip(secs: nat)
    ensures ParseClock(Clock(secs)) == Some(secs)
  {
    var mm, ss := Field(secs / SecondsPerMinute), Field(secs % SecondsPerMinute);
    RenderFields(secs);
    var clock := Clock(secs);
    assert clock[..|clock| - 3] == mm;
    assert clock[|clock| - 2..] == ss;
  }

  /** Framing a clock text as a line and parsing it back only strips the frame. */
  lemma ParseFrame(clock: string)
    ensures ParseRemaining("\r" + clock + Suffix) == ParseClock(clock)
  {
    var line := "\r" + clock + Suffix;
    assert line[|line| - |Suffix|..] == Suffix;
    assert line[1..|line| - |Suffix|] == clock;
  }

  /** Every line reads back as the seconds it was rendered from. */
  lemma ParseRender(secs: nat)
    ensures ParseRemaining(Render(secs)) == Some(secs)
  {
    ParseFrame(Clock(secs));
    ParseClockRoundTrip(secs);
  }

  /** Two different second counts never give the same line. */
  lemma RenderInjective(a: nat, b: nat)
    ensures Render(a) == Render(b) ==> a == b
  {
    ParseRender(a);
    ParseRender(b);
  }

  /** The line is 16 characters wide exactly while less than 100 minutes remain.
      Lines are rewritten in place after a carriage return and nothing clears
      the rest of the terminal line, so a line shorter than the one before
      leaves that line's last characters on screen; this happens whenever the
      minute field loses a digit, first at 100:00 -> 99:59. */
  lemma LineWidth(secs: nat)
    ensures |Render(secs)| >= 6 + |Suffix|
    ensures |Render(secs)| == 6 + |Suffix| <==> secs < 6000
  {
    RenderFields(secs);
    FieldDenotes(secs / SecondsPerMinute);
  }

  /** Below 100 a field is the tens digit then the units digit. */
  lemma TwoDigitField(n: nat)
    requires n < 100
    ensures Field(n) == [DigitChar(n / 10), DigitChar(n % 10)]
  {
    if n >= 10 {
      assert Decimal(n) == Decimal(n / 10) + [DigitChar(n % 10)];
    }
  }

  /** 125 s remaining: two minutes and five seconds. */
  lemma RenderExample125()
    ensures Render(125) == "\r02:05 remaining"
  {
    TwoDigitField(2);
    TwoDigitField(5);
    assert Clock(125) == Field(2) + ":" + Field(5);
  }

  /** 3599 s remaining: the largest value with two minute digits below an hour. */
  lemma RenderExample3599()
    ensures Render(3599) == "\r59:59 remaining"
  {
    TwoDigitField(59);
    assert Clock(3599) == Field(59) + ":" + Field(59);
  }

  /** 6000 s remaining: the minute field grows to three digits. */
  lemma RenderExample6000()
    ensures Render(6000) == "\r100:00 remaining"
  {
    ClockHundredMinutes();
  }

  /** The clock text of 6000 s: a three-digit minute field and "00". */
  lemma ClockHundredMinutes()
    ensures Clock(6000) == "100:00"
  {
    FieldHundred();
    TwoDigitField(0);
  }

  /** The minute field of 100 minutes: three digits, no padding. */
  lemma FieldHundred()
    ensures Field(100) == "100"
  {
    assert DigitChar(0) == '0' && DigitChar(1) == '1';
    assert Decimal(10) == Decimal(1) + [DigitChar(0)] == "10";
    assert Decimal(100) == Decimal(10) + [DigitChar(0)] == "100";
  }
}
