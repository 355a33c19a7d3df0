/**
 * Durations between the open and close timestamps of a row (calculateDuration and
 * evaluateDuration in docs/main.js).
 *
 * calculateDuration writes the elapsed time as "HH:MM:SS", or "D day HH:MM:SS" when at least
 * one whole day has passed; evaluateDuration reads that text back and labels it at or above
 * five minutes, or below. Timestamps are milliseconds; JavaScript's % keeps the sign of the
 * dividend and Math.floor rounds down, and both are written out here for every integer delta.
 */
module Duration {
  import opened Wrappers
  import opened Text

  const MsPerSecond: int := 1000
  const MsPerMinute: int := 1000 * 60
  const MsPerHour: int := 1000 * 60 * 60
  const MsPerDay: int := 1000 * 60 * 60 * 24

  /** The label of a duration of at least five minutes: "≥ 5 นาที". */
  const AtLeastFive: string := "\U{2265} 5 \U{0E19}\U{0E32}\U{0E17}\U{0E35}"

  /** The label of a duration below five minutes: "< 5 นาที". */
  const BelowFive: string := "< 5 \U{0E19}\U{0E32}\U{0E17}\U{0E35}"

  /** JavaScript's a % b for b > 0: the remainder takes the sign of a. */
  function JsRem(a: int, b: int): (r: int)
    requires b > 0
    ensures a >= 0 ==> r == a % b
    ensures a < 0 ==> -b < r <= 0 && r == a + b * ((-a) / b)
  {
    if a >= 0 then a % b else -((-a) % b)
  }

  lemma MulAtLeast(b: int, k: int)
    requires b > 0 && k >= 1
    ensures b * k >= b
  {
  }

  /** The quotient and remainder of a division by a positive number are the only ones in range. */
  lemma DivModUnique(a: int, b: int, q: int, r: int)
    requires b > 0 && a == b * q + r && 0 <= r < b
    ensures a / b == q && a % b == r
  {
    var q0, r0 := a / b, a % b;
    assert b * (q - q0) == r0 - r;
    if q > q0 {
      MulAtLeast(b, q - q0);
    } else if q < q0 {
      MulAtLeast(b, q0 - q);
    }
  }

  /** The four Math.floor quotients calculateDuration takes from a delta in milliseconds. */
  datatype Elapsed = Elapsed(days: int, hours: int, minutes: int, seconds: int)

  /** days, hours, minutes and seconds as calculateDuration computes them. */
  function Decompose(delta: int): (e: Elapsed)
  {
    Elapsed(delta / MsPerDay,
            JsRem(delta, MsPerDay) / MsPerHour,
            JsRem(delta, MsPerHour) / MsPerMinute,
            JsRem(delta, MsPerMinute) / MsPerSecond)
  }

  /** From a delta of zero or more, the parts are a whole number of days, hours below 24, minutes and seconds below 60, and together make up the whole seconds of the delta. */
  lemma DecomposeNonNegative(delta: int)
    requires delta >= 0
    ensures var e := Decompose(delta);
      e.days >= 0 && 0 <= e.hours < 24 && 0 <= e.minutes < 60 && 0 <= e.seconds < 60 &&
      e.days * 86400 + e.hours * 3600 + e.minutes * 60 + e.seconds == delta / MsPerSecond
  {
    var e := Decompose(delta);
    var ms, q := delta % 1000, delta / 1000;
    var s, t := q % 60, q / 60;
    var m, u := t % 60, t / 60;
    var h, d := u % 24, u / 24;
    assert q == 86400 * d + 3600 * h + 60 * m + s;
    var inMinute := 1000 * s + ms;
    var inHour := 60000 * m + inMinute;
    var inDay := 3600000 * h + inHour;
    DivModUnique(delta, MsPerDay, d, inDay);
    DivModUnique(inDay, MsPerHour, h, inHour);
    DivModUnique(delta, MsPerHour, 24 * d + h, inHour);
    DivModUnique(inHour, MsPerMinute, m, inMinute);
    DivModUnique(delta, MsPerMinute, 1440 * d + 60 * h + m, inMinute);
    DivModUnique(inMinute, MsPerSecond, s, ms);
  }

  /** From a negative delta, the days are negative and no part is positive. */
  lemma DecomposeNegative(delta: int)
    requires delta < 0
    ensures var e := Decompose(delta);
      e.days < 0 && -24 <= e.hours <= 0 && -60 <= e.minutes <= 0 && -60 <= e.seconds <= 0
  {
  }

  /** pad: toString() and then padStart(2, "0"). */
  function Pad(n: int): string
  {
    PadStart(IntText(n), 2)
  }

  /** A field of the clock: no colon, no space, and Number() reads it as n. */
  predicate ReadsAs(field: string, n: int)
  {
    NoneIn(field, {':'}) && NoneIn(field, {' '}) && ToNumber(field) == Some(n)
  }

  /** Number() reads a padded number back, and it holds no colon and no space. */
  lemma PadFacts(n: int)
    ensures ReadsAs(Pad(n), n)
  {
    ParsePadded(n);
    IntTextChars(n);
    PadStartNumeral(IntText(n), 2);
    NumeralNoSeparator(Pad(n));
  }

  lemma NumeralNoSeparator(s: string)
    requires Numeral(s)
    ensures NoneIn(s, {':'}) && NoneIn(s, {' '})
  {
  }

  /** Below 100, a padded number of zero or more is two digits. */
  lemma PadTwoDigits(n: int)
    requires 0 <= n < 100
    ensures |Pad(n)| == 2 && AllDigits(Pad(n))
  {
    var t := NatText(n);
    assert IntText(n) == t;
    var r := Pad(n);
    assert |r| == 2;
    forall i | 0 <= i < 2 ensures IsDigit(r[i]) {
      if i >= 2 - |t| {
        assert r[i] == r[2 - |t|..][i - (2 - |t|)];
      }
    }
  }

  /** The clock part HH:MM:SS. */
  function Clock(e: Elapsed): string
  {
    Pad(e.hours) + ":" + Pad(e.minutes) + ":" + Pad(e.seconds)
  }

  /** The text calculateDuration returns for the parts of a delta. */
  function Format(e: Elapsed): string
  {
    if e.days > 0 then IntText(e.days) + " day " + Clock(e) else Clock(e)
  }

  /** calculateDuration: the elapsed time from openTime to closeTime as text. */
  function CalculateDuration(openTime: int, closeTime: int): string
  {
    Format(Decompose(closeTime - openTime))
  }

  /** Three numbers read from the split clock text; a missing or unreadable one is NaN (None). */
  function Field(fields: seq<string>, k: nat): Option<int>
  {
    if k < |fields| then ToNumber(fields[k]) else None
  }

  /** totalMinutes >= 5 with totalMinutes = hours * 60 + minutes + seconds / 60, in exact arithmetic. */
  predicate AtLeastFiveMinutes(hours: int, minutes: int, seconds: int)
  {
    (hours as real) * 60.0 + minutes as real + (seconds as real) / 60.0 >= 5.0
  }

  /**
   * evaluateDuration: a text whose second space-separated word is "day" is at least five
   * minutes; otherwise its first word is split on ":" into hours, minutes and seconds, and the
   * total in minutes decides. A field that is missing or not a number makes the total NaN, and
   * NaN is not at least five.
   */
  function EvaluateDuration(duration: string): (verdict: string)
    ensures verdict == AtLeastFive || verdict == BelowFive
  {
    var parts := Split(duration, {' '});
    if |parts| > 1 && parts[1] == "day" then AtLeastFive
    else
      var fields := Split(parts[0], {':'});
      var h, m, s := Field(fields, 0), Field(fields, 1), Field(fields, 2);
      if h.Some? && m.Some? && s.Some? && AtLeastFiveMinutes(h.value, m.value, s.value) then AtLeastFive
      else BelowFive
  }

  /** The minute threshold is the same as 300 whole seconds. */
  lemma AtLeastFiveMinutesSeconds(hours: int, minutes: int, seconds: int)
    ensures AtLeastFiveMinutes(hours, minutes, seconds) <==> hours * 3600 + minutes * 60 + seconds >= 300
  {
    var total := (hours as real) * 60.0 + minutes as real + (seconds as real) / 60.0;
    assert total * 60.0 == (hours * 3600 + minutes * 60 + seconds) as real;
  }

  /** Three two-digit fields joined by colons are two digits, a colon, two digits, a colon, two digits. */
  lemma ClockTextShape(a: string, b: string, c: string)
    requires |a| == 2 && |b| == 2 && |c| == 2 && AllDigits(a) && AllDigits(b) && AllDigits(c)
    ensures var x := a + ":" + b + ":" + c;
      |x| == 8 && x[2] == ':' && x[5] == ':' && AllDigits(x[..2]) && AllDigits(x[3..5]) && AllDigits(x[6..])
  {
    var x := a + ":" + b + ":" + c;
    assert x[..2] == a && x[3..5] == b && x[6..] == c;
  }

  /** Three fields free of colons, joined by colons, split back on ":" into the three. */
  lemma ColonFields(a: string, b: string, c: string)
    requires NoneIn(a, {':'}) && NoneIn(b, {':'}) && NoneIn(c, {':'})
    ensures Split(a + ":" + b + ":" + c, {':'}) == [a, b, c]
  {
    assert a + ":" + b + ":" + c == a + [':'] + (b + [':'] + c);
    SplitThree(a, b, c, ':', {':'});
  }

  /** Three fields free of spaces, joined by colons, hold no space. */
  lemma ColonJoinedNoSpace(a: string, b: string, c: string)
    requires NoneIn(a, {' '}) && NoneIn(b, {' '}) && NoneIn(c, {' '})
    ensures NoneIn(a + ":" + b + ":" + c, {' '})
  {
    assert a + ":" + b + ":" + c == a + [':'] + b + [':'] + c;
    NoneInThree(a, b, c, ':', {' '});
  }

  /** The clock splits on ":" into its three padded numbers, and holds no space. */
  lemma SplitClock(e: Elapsed)
    ensures Split(Clock(e), {':'}) == [Pad(e.hours), Pad(e.minutes), Pad(e.seconds)]
    ensures NoneIn(Clock(e), {' '})
  {
    PadFacts(e.hours);
    PadFacts(e.minutes);
    PadFacts(e.seconds);
    ColonFields(Pad(e.hours), Pad(e.minutes), Pad(e.seconds));
    ColonJoinedNoSpace(Pad(e.hours), Pad(e.minutes), Pad(e.seconds));
  }

  /** "N day C" splits on " " into N, "day" and C when neither holds a space. */
  lemma SplitDayText(t: string, c: string)
    requires NoneIn(t, {' '}) && NoneIn(c, {' '})
    ensures Split(t + " day " + c, {' '}) == [t, "day", c]
  {
    assert t + " day " + c == t + [' '] + ("day" + [' '] + c);
    SplitThree(t, "day", c, ' ', {' '});
  }

  /** Any text "N day C" whose first word is N is at least five minutes, whatever N and C say. */
  lemma EvaluateDayText(t: string, c: string)
    requires NoneIn(t, {' '})
    ensures EvaluateDuration(t + " day " + c) == AtLeastFive
  {
    var rest := "day" + [' '] + c;
    assert t + " day " + c == t + [' '] + rest;
    SplitCons(t, ' ', rest, {' '});
    SplitCons("day", ' ', c, {' '});
  }

  /** A clock text "H:M:S" without spaces is judged on the total minutes of the numbers its fields read as. */
  lemma EvaluateClockText(a: string, b: string, c: string, h: int, m: int, s: int)
    requires ReadsAs(a, h) && ReadsAs(b, m) && ReadsAs(c, s)
    ensures EvaluateDuration(a + ":" + b + ":" + c) == if AtLeastFiveMinutes(h, m, s) then AtLeastFive else BelowFive
  {
    var x := a + ":" + b + ":" + c;
    ColonFields(a, b, c);
    ColonJoinedNoSpace(a, b, c);
    SplitNone(x, {' '});
    var fields := Split(x, {':'});
    assert Field(fields, 0) == Some(h) && Field(fields, 1) == Some(m) && Field(fields, 2) == Some(s);
  }

  /** A two-digit field reads as its number and holds no separator. */
  lemma ReadsAsTwoDigits(a: char, b: char)
    requires IsDigit(a) && IsDigit(b)
    ensures ReadsAs([a, b], DigitValue(a) * 10 + DigitValue(b))
  {
    var s := [a, b];
    assert AllDigits(s);
    assert s[..1] == [a] && [a][..0] == [];
    assert DecimalValue([a]) == DigitValue(a);
    assert DecimalValue(s) == DigitValue(a) * 10 + DigitValue(b);
    NumeralNoSeparator(s);
  }

  /** Exactly five minutes is labelled "≥ 5 นาที". */
  lemma FiveMinutesIsAtLeastFive()
    ensures EvaluateDuration("00:05:00") == AtLeastFive
  {
    ReadsAsTwoDigits('0', '0');
    ReadsAsTwoDigits('0', '5');
    assert "00:05:00" == "00" + ":" + "05" + ":" + "00";
    EvaluateClockText("00", "05", "00", 0, 5, 0);
  }

  /** One second short of five minutes is labelled "< 5 นาที". */
  lemma JustUnderFiveIsBelowFive()
    ensures EvaluateDuration("00:04:59") == BelowFive
  {
    ReadsAsTwoDigits('0', '0');
    ReadsAsTwoDigits('0', '4');
    ReadsAsTwoDigits('5', '9');
    assert "00:04:59" == "00" + ":" + "04" + ":" + "59";
    EvaluateClockText("00", "04", "59", 0, 4, 59);
    AtLeastFiveMinutesSeconds(0, 4, 59);
  }

  /** evaluateDuration reads back what calculateDuration wrote: a day or more, or the clock's own total of minutes. */
  lemma EvaluateFormat(e: Elapsed)
    ensures EvaluateDuration(Format(e)) ==
      if e.days > 0 || AtLeastFiveMinutes(e.hours, e.minutes, e.seconds) then AtLeastFive else BelowFive
  {
    if e.days > 0 {
      EvaluateFormatDay(e);
    } else {
      EvaluateFormatClock(e);
    }
  }

  lemma EvaluateFormatDay(e: Elapsed)
    requires e.days > 0
    ensures EvaluateDuration(Format(e)) == AtLeastFive
  {
    IntTextChars(e.days);
    NumeralNoSeparator(IntText(e.days));
    EvaluateDayText(IntText(e.days), Clock(e));
  }

  lemma EvaluateFormatClock(e: Elapsed)
    requires e.days <= 0
    ensures EvaluateDuration(Format(e)) ==
      if AtLeastFiveMinutes(e.hours, e.minutes, e.seconds) then AtLeastFive else BelowFive
  {
    PadFacts(e.hours);
    PadFacts(e.minutes);
    PadFacts(e.seconds);
    EvaluateClockText(Pad(e.hours), Pad(e.minutes), Pad(e.seconds), e.hours, e.minutes, e.seconds);
  }

  /** Below one day, calculateDuration writes exactly HH:MM:SS: two digits, a colon, two digits, a colon, two digits. */
  lemma ShortDuration(openTime: int, closeTime: int)
    requires 0 <= closeTime - openTime < MsPerDay
    ensures var d := CalculateDuration(openTime, closeTime);
      |d| == 8 && d[2] == ':' && d[5] == ':' && AllDigits(d[..2]) && AllDigits(d[3..5]) && AllDigits(d[6..])
  {
    var delta := closeTime - openTime;
    var e := Decompose(delta);
    DecomposeNonNegative(delta);
    DivModUnique(delta, MsPerDay, 0, delta);
    assert Format(e) == Clock(e);
    PadTwoDigits(e.hours);
    PadTwoDigits(e.minutes);
    PadTwoDigits(e.seconds);
    ClockTextShape(Pad(e.hours), Pad(e.minutes), Pad(e.seconds));
  }

  /** A text with a day count splits on " " into the count, "day" and the clock, and each reads back as its number. */
  lemma LongFormatReadsBack(e: Elapsed)
    requires e.days > 0
    ensures var parts := Split(Format(e), {' '});
      parts == [IntText(e.days), "day", Clock(e)] && ToNumber(parts[0]) == Some(e.days) &&
      Split(parts[2], {':'}) == [Pad(e.hours), Pad(e.minutes), Pad(e.seconds)]
  {
    IntTextChars(e.days);
    NumeralNoSeparator(IntText(e.days));
    SplitClock(e);
    SplitDayText(IntText(e.days), Clock(e));
  }

  /** Below one day, the three numbers of HH:MM:SS make up the whole seconds from open to close. */
  lemma ShortDurationReadsBack(openTime: int, closeTime: int)
    requires 0 <= closeTime - openTime < MsPerDay
    ensures var f := Split(CalculateDuration(openTime, closeTime), {':'});
      |f| == 3 && ToNumber(f[0]).Some? && ToNumber(f[1]).Some? && ToNumber(f[2]).Some? &&
      ToNumber(f[0]).value * 3600 + ToNumber(f[1]).value * 60 + ToNumber(f[2]).value ==
        (closeTime - openTime) / MsPerSecond
  {
    var delta := closeTime - openTime;
    var e := Decompose(delta);
    DecomposeNonNegative(delta);
    DivModUnique(delta, MsPerDay, 0, delta);
    assert CalculateDuration(openTime, closeTime) == Clock(e);
    SplitClock(e);
    PadFacts(e.hours);
    PadFacts(e.minutes);
    PadFacts(e.seconds);
  }

  /** The parts of a delta reach a day or five minutes exactly when the delta is at least 300000 ms. */
  lemma ThresholdOfDelta(delta: int)
    ensures var e := Decompose(delta);
      e.days > 0 || AtLeastFiveMinutes(e.hours, e.minutes, e.seconds) <==> delta >= 5 * MsPerMinute
  {
    var e := Decompose(delta);
    AtLeastFiveMinutesSeconds(e.hours, e.minutes, e.seconds);
    if delta >= 0 {
      DecomposeNonNegative(delta);
    } else {
      DecomposeNegative(delta);
    }
  }

  /**
   * The label of a row depends only on the delta: at least five minutes (300000 ms) from open
   * to close is "≥ 5 นาที", anything less, including a close before the open, is "< 5 นาที".
   */
  lemma ClassifyByDelta(openTime: int, closeTime: int)
    ensures EvaluateDuration(CalculateDuration(openTime, closeTime)) ==
      if closeTime - openTime >= 5 * MsPerMinute then AtLeastFive else BelowFive
  {
    EvaluateFormat(Decompose(closeTime - openTime));
    ThresholdOfDelta(closeTime - openTime);
  }
}
