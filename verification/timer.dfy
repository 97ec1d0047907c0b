/** The `Timer` component: an elapsed-seconds counter that starts at 0 and
    goes up by one on every interval callback, displayed as `MM:SS`. */
module Timer {
  import opened Options
  import opened Decimal

  /** The counter's initial value (`useState(0)`). */
  const Start: nat := 0

  /** One interval callback: `prevTime => prevTime + 1`. */
  function Tick(time: nat): nat {
    time + 1
  }

  /** The counter after `n` interval callbacks. */
  function AfterTicks(n: nat): nat {
    if n == 0 then Start else Tick(AfterTicks(n - 1))
  }

  /** `formatTime`: whole minutes and the remaining seconds, each written in
      decimal and left-padded with `'0'` to at least two characters, joined
      by a colon. */
  function FormatTime(seconds: nat): (r: string)
    ensures |r| >= 5 && r[|r| - 3] == ':'
    ensures |SecondsField(r)| == 2
  {
    DecimalLength(seconds % 60, 2);
    PadStart(ToDecimal(seconds / 60), 2, '0') + ":" + PadStart(ToDecimal(seconds % 60), 2, '0')
  }

  /** Everything before the colon of a display text. */
  function MinutesField(t: string): string
    requires |t| >= 3
  {
    t[..|t| - 3]
  }

  /** The two characters after the colon of a display text. */
  function SecondsField(t: string): string
    requires |t| >= 3
  {
    t[|t| - 2..]
  }

  /** A minutes field as `formatTime` writes it: at least two digits, and a
      leading zero only as padding of a one-digit number. */
  predicate IsMinutesField(f: string) {
    |f| >= 2 && AllDigits(f) && (|f| > 2 ==> f[0] != '0')
  }

  /** `padStart(2, '0')` applied to a `toString` result is a well-formed
      minutes field. */
  lemma PaddedIsMinutesField(n: nat)
    ensures IsMinutesField(PadStart(ToDecimal(n), 2, '0'))
  {
    var d := ToDecimal(n);
    var f := PadStart(d, 2, '0');
    if |f| > 2 {
      assert f == d;
    }
  }

  /** The texts `formatTime` can produce. */
  predicate IsDisplay(t: string) {
    && |t| >= 5
    && t[|t| - 3] == ':'
    && IsMinutesField(MinutesField(t))
    && AllDigits(SecondsField(t))
    && Value(SecondsField(t)) < 60
  }

  /** Reads a display text back into the number of seconds it shows. */
  function ParseTime(t: string): Option<nat> {
    if IsDisplay(t) then Some(60 * Value(MinutesField(t)) + Value(SecondsField(t))) else None
  }

  lemma FormatTimeParts(seconds: nat)
    ensures MinutesField(FormatTime(seconds)) == PadStart(ToDecimal(seconds / 60), 2, '0')
    ensures SecondsField(FormatTime(seconds)) == PadStart(ToDecimal(seconds % 60), 2, '0')
  {
    var m := PadStart(ToDecimal(seconds / 60), 2, '0');
    var s := PadStart(ToDecimal(seconds % 60), 2, '0');
    DecimalLength(seconds % 60, 2);
    assert |s| == 2;
    var r := FormatTime(seconds);
    assert r == m + ":" + s;
    assert r[..|r| - 3] == m;
    assert r[|r| - 2..] == s;
  }

  /** The seconds field is always exactly two decimal digits denoting
      `seconds % 60`, a number in 0..59. */
  lemma {:induction false} SecondsFieldOfFormat(seconds: nat)
    ensures |SecondsField(FormatTime(seconds))| == 2
    ensures AllDigits(SecondsField(FormatTime(seconds)))
    ensures Value(SecondsField(FormatTime(seconds))) == seconds % 60 < 60
  {
    FormatTimeParts(seconds);
    PadStartKeepsValue(ToDecimal(seconds % 60), 2);
    ValueOfToDecimal(seconds % 60);
  }

  /** The minutes field denotes `floor(seconds / 60)`. */
  lemma {:induction false} MinutesFieldOfFormat(seconds: nat)
    ensures AllDigits(MinutesField(FormatTime(seconds)))
    ensures Value(MinutesField(FormatTime(seconds))) == seconds / 60
  {
    FormatTimeParts(seconds);
    PadStartKeepsValue(ToDecimal(seconds / 60), 2);
    ValueOfToDecimal(seconds / 60);
  }

  /** Below 100 minutes the display is exactly `MM:SS`, five characters with
      the colon at index 2; from 6000 seconds on, the minutes field is never
      truncated, so it has more than two digits and the text is longer. */
  lemma {:induction false} DisplayWidth(seconds: nat)
    ensures |FormatTime(seconds)| == 5 <==> seconds < 6000
    ensures seconds < 6000 ==> FormatTime(seconds)[2] == ':'
    ensures seconds >= 6000 ==> |MinutesField(FormatTime(seconds))| > 2
  {
    FormatTimeParts(seconds);
    DecimalLength(seconds / 60, 2);
    assert Pow10(2) == 100;
  }

  /** Round trip: the minutes field times 60 plus the seconds field is the
      input. */
  lemma {:induction false} FieldsRoundTrip(seconds: nat)
    ensures AllDigits(MinutesField(FormatTime(seconds))) && AllDigits(SecondsField(FormatTime(seconds)))
    ensures 60 * Value(MinutesField(FormatTime(seconds))) + Value(SecondsField(FormatTime(seconds))) == seconds
  {
    SecondsFieldOfFormat(seconds);
    MinutesFieldOfFormat(seconds);
  }

  /** Every text `formatTime` prints is a well-formed display. */
  lemma {:induction false} FormatTimeIsDisplay(seconds: nat)
    ensures IsDisplay(FormatTime(seconds))
  {
    var t := FormatTime(seconds);
    assert IsMinutesField(MinutesField(t)) by {
      FormatTimeParts(seconds);
      PaddedIsMinutesField(seconds / 60);
    }
    SecondsFieldOfFormat(seconds);
  }

  /** Reading back any display gives the seconds it was printed from. */
  lemma {:induction false} ParseFormatTime(seconds: nat)
    ensures ParseTime(FormatTime(seconds)) == Some(seconds)
  {
    FormatTimeIsDisplay(seconds);
    FieldsRoundTrip(seconds);
  }

  /** Pads `f`'s value back to `f` when `f` is already padded the way
      `padStart(2, '0')` pads a `toString` result. */
  lemma {:induction false} PaddedFieldOfValue(f: string)
    requires IsMinutesField(f)
    ensures PadStart(ToDecimal(Value(f)), 2, '0') == f
  {
    if f[0] != '0' {
      ToDecimalOfValue(f);
    } else {
      var tail := f[1..];
      assert f == ['0'] + tail;
      ValueIgnoresLeadingZeros(['0'], tail);
      assert IsCanonical(tail);
      ToDecimalOfValue(tail);
    }
  }

  lemma DivModSixty(n: nat, minutes: nat, secs: nat)
    requires secs < 60 && n == 60 * minutes + secs
    ensures n / 60 == minutes && n % 60 == secs
  {
  }

  lemma SplitDisplay(t: string)
    requires |t| >= 3 && t[|t| - 3] == ':'
    ensures t == MinutesField(t) + ":" + SecondsField(t)
  {
  }

  /** `formatTime` joins the two padded fields with a colon. */
  lemma FormatOfFields(n: nat, minutes: string, secs: string)
    requires PadStart(ToDecimal(n / 60), 2, '0') == minutes
    requires PadStart(ToDecimal(n % 60), 2, '0') == secs
    ensures FormatTime(n) == minutes + ":" + secs
  {
  }

  /** The fields of a display text, joined back, are what `formatTime`
      prints for the seconds they denote. */
  lemma {:induction false} FormatOfFieldValues(minutes: string, secs: string, n: nat)
    requires IsMinutesField(minutes)
    requires |secs| == 2 && AllDigits(secs) && Value(secs) < 60
    requires n == 60 * Value(minutes) + Value(secs)
    ensures FormatTime(n) == minutes + ":" + secs
  {
    DivModSixty(n, Value(minutes), Value(secs));
    PaddedFieldOfValue(minutes);
    PaddedFieldOfValue(secs);
    FormatOfFields(n, minutes, secs);
  }

  /** The other direction of the round trip: every display text is what
      `formatTime` prints for the seconds it shows. */
  lemma {:induction false} FormatParseTime(t: string)
    requires IsDisplay(t)
    ensures ParseTime(t).Some?
    ensures FormatTime(ParseTime(t).value) == t
  {
    var minutes, secs := MinutesField(t), SecondsField(t);
    var n := 60 * Value(minutes) + Value(secs);
    assert ParseTime(t) == Some(n);
    assert t == minutes + ":" + secs by {
      SplitDisplay(t);
    }
    FormatOfFieldValues(minutes, secs, n);
  }

  /** Different second counts are always displayed differently; in
      particular every tick changes the display. */
  lemma {:induction false} FormatTimeInjective(a: nat, b: nat)
    ensures FormatTime(a) == FormatTime(b) ==> a == b
  {
    FieldsRoundTrip(a);
    FieldsRoundTrip(b);
  }

  /** The counter shows the number of interval callbacks so far. */
  lemma {:induction false} CounterCountsTicks(n: nat)
    ensures AfterTicks(n) == n
  {
    if n > 0 {
      CounterCountsTicks(n - 1);
    }
  }

}
