/** utils/typing.py: the leaderboard's duration and gap formatters.
    A duration cell is a Python number, `None` or pandas `NaN`; the model
    takes it as `Option<int>`, with `None` standing for both `None` and
    `NaN`. */
module Typing {
  import opened Wrappers
  import opened Text
  import opened Clock

  /** `ms_to_str`: `HH:MM:SS.mmm` when the hours field of the divmod chain
      is non-zero, `MM:SS.mmm` otherwise; every field is zero-padded
      (`02d`/`03d`), and the hours field keeps the minus sign Python's floor
      division gives a negative duration. The empty string for a missing
      value. */
  function MsToStr(ms: Option<int>): (r: string)
    ensures r == "" <==> ms.None?
  {
    match ms
    case None => ""
    case Some(v) => ClockText(SplitMs(v))
  }

  /** The text of the clock fields the divmod chain produced: the lead
      field (`HH:MM`, or `MM` when there are no hours), then `:SS.mmm`. */
  function ClockText(c: Hms): (r: string)
    requires c.Valid()
    ensures r != ""
  {
    ClockLead(c) + ":" + PadNat(c.seconds, 2) + "." + PadNat(c.millis, 3)
  }

  function ClockLead(c: Hms): string
    requires c.Valid()
  {
    if c.hours != 0 then PadInt(c.hours, 2) + ":" + PadNat(c.minutes, 2) else PadNat(c.minutes, 2)
  }

  /** The lead field reads back as the hours and minutes it shows. */
  lemma ClockLeadRoundTrip(c: Hms)
    requires c.Valid()
    ensures ParseLead(ClockLead(c)) == Some(c.hours * HOUR_MS + c.minutes * MINUTE_MS)
  {
    var mm := PadNat(c.minutes, 2);
    NatToStringLength(c.minutes);
    if c.hours != 0 {
      ParseLeadHours(PadInt(c.hours, 2), c.hours, mm);
    } else {
      ParseLeadMinutes(mm);
    }
  }

  /** `gap_ms_to_str`: a positive gap is `+` followed by its duration text;
      a zero, negative or missing gap renders as nothing. */
  function GapMsToStr(ms: Option<int>): (r: string)
    ensures r != "" <==> ms.Some? && ms.value > 0
    ensures r != "" ==> r[0] == '+' && ParseClock(r[1..]) == ms
  {
    if ms.Some? && ms.value > 0 then
      var d := MsToStr(ms);
      MsToStrRoundTrip(ms.value);
      assert ("+" + d)[1..] == d;
      "+" + d
    else
      ""
  }

  lemma FieldsWidth(c: Hms)
    requires c.Valid()
    ensures |PadNat(c.minutes, 2)| == 2 && |PadNat(c.seconds, 2)| == 2
    ensures |PadNat(c.millis, 3)| == 3
  {
    NatToStringLength(c.minutes);
    NatToStringLength(c.seconds);
    NatToStringLength(c.millis);
  }

  /** Reading the text back gives the duration: `ms_to_str` loses nothing,
      for every integer duration, negative ones included. */
  lemma MsToStrRoundTrip(v: int)
    ensures ParseClock(MsToStr(Some(v))) == Some(v)
  {
    ClockTextRoundTrip(SplitMs(v));
  }

  /** The same for a cell that may be missing. */
  lemma MsToStrReadsBack(ms: Option<int>)
    ensures ms.Some? ==> ParseClock(MsToStr(ms)) == ms
  {
    if ms.Some? {
      MsToStrRoundTrip(ms.value);
    }
  }

  lemma ClockTextRoundTrip(c: Hms)
    requires c.Valid()
    ensures ParseClock(ClockText(c)) == Some(c.ToMs())
  {
    ClockLeadRoundTrip(c);
    ReadClockTail(ClockLead(c), c.hours * HOUR_MS + c.minutes * MINUTE_MS, c);
  }

  /** Under an hour the text is exactly `MM:SS.mmm`: nine characters with
      two-digit minutes and seconds. */
  lemma MsToStrUnderAnHour(v: int)
    requires 0 <= v < HOUR_MS
    ensures var r := MsToStr(Some(v));
      && |r| == 9 && r[2] == ':' && r[5] == '.'
      && AllDigits(r[..2]) && ParseNat(r[..2]) == v / MINUTE_MS
      && AllDigits(r[3..5]) && ParseNat(r[3..5]) == v / SECOND_MS % 60
      && AllDigits(r[6..]) && ParseNat(r[6..]) == v % SECOND_MS
  {
    var c := SplitMs(v);
    FieldsWidth(c);
    var r := MsToStr(Some(v));
    assert c.hours == 0;
    assert r[..2] == PadNat(c.minutes, 2);
    assert r[3..5] == PadNat(c.seconds, 2);
    assert r[6..] == PadNat(c.millis, 3);
  }

  /** From an hour on the text is `HH:MM:SS.mmm`: an hours field holding
      the whole hours, zero-padded to two digits, then the nine characters the
      remaining part of the hour would render as. */
  lemma MsToStrFromAnHour(v: int)
    requires v >= HOUR_MS
    ensures var r := MsToStr(Some(v));
      && |r| >= 12 && r[|r| - 10] == ':'
      && AllDigits(r[..|r| - 10])
      && var h := ParseNat(r[..|r| - 10]);
      && r[..|r| - 10] == PadNat(h, 2)
      && h * HOUR_MS <= v < h * HOUR_MS + HOUR_MS
      && r[|r| - 9..] == MsToStr(Some(v - h * HOUR_MS))
  {
    var c := SplitMs(v);
    HoursBounds(c);
    var r := MsToStr(Some(v));
    assert r == ClockText(c);
    ClockTextFromAnHour(c);
    assert ParseNat(r[..|r| - 10]) == c.hours;
    RestOfHour(c, v - c.hours * HOUR_MS);
  }

  /** The same, stated over the clock fields. */
  lemma ClockTextFromAnHour(c: Hms)
    requires c.Valid() && c.hours > 0
    ensures var r := ClockText(c);
      && |r| >= 12 && r[|r| - 10] == ':'
      && AllDigits(r[..|r| - 10]) && ParseNat(r[..|r| - 10]) == c.hours
      && r[..|r| - 10] == PadNat(c.hours, 2)
      && r[|r| - 9..] == ClockText(Hms(0, c.minutes, c.seconds, c.millis))
  {
    var hh := PadNat(c.hours, 2);
    var tail := PadNat(c.minutes, 2) + ":" + PadNat(c.seconds, 2) + "." + PadNat(c.millis, 3);
    FieldsWidth(c);
    Regroup(hh, PadNat(c.minutes, 2), PadNat(c.seconds, 2), PadNat(c.millis, 3));
    assert ClockText(c) == hh + ":" + tail;
    SplitAtHours(hh, tail);
  }

  /** The hours field holds the whole hours of a clock. */
  lemma HoursBounds(c: Hms)
    requires c.Valid()
    ensures c.hours * HOUR_MS <= c.ToMs() < c.hours * HOUR_MS + HOUR_MS
  {
  }

  lemma SplitAtHours(hh: string, tail: string)
    requires |hh| >= 2 && |tail| == 9
    ensures var r := hh + ":" + tail;
      && |r| >= 12 && r[|r| - 10] == ':' && r[..|r| - 10] == hh && r[|r| - 9..] == tail
  {
  }

  /** What is left of a clock after its whole hours renders as the clock's
      `MM:SS.mmm` tail. */
  lemma RestOfHour(c: Hms, v: int)
    requires c.Valid() && v == c.minutes * MINUTE_MS + c.seconds * SECOND_MS + c.millis
    ensures MsToStr(Some(v)) == ClockText(Hms(0, c.minutes, c.seconds, c.millis))
  {
    MsToStrOfClock(Hms(0, c.minutes, c.seconds, c.millis), v);
  }

  /** A valid clock's total renders as that clock's text. */
  lemma MsToStrOfClock(c: Hms, v: int)
    requires c.Valid() && v == c.ToMs()
    ensures MsToStr(Some(v)) == ClockText(c)
  {
    SplitMsOfToMs(c);
  }

  /** Where the two sides of `a:b` sit in the text. */
  lemma JoinAtColon(a: string, b: string)
    ensures var t := a + ":" + b;
      && t[..|a|] == a && t[|a|] == ':' && t[|a| + 1..] == b
  {
  }

  /** The text holds two colons exactly when the hours field is shown, which
      is for durations from an hour on and for negative durations. */
  lemma MsToStrColons(v: int)
    ensures multiset(MsToStr(Some(v)))[':'] == if v >= HOUR_MS || v < 0 then 2 else 1
  {
    var c := SplitMs(v);
    HoursShown(v);
    var mm := PadNat(c.minutes, 2);
    var ss := PadNat(c.seconds, 2);
    var mmm := PadNat(c.millis, 3);
    var tail := mm + ":" + ss + "." + mmm;
    TailColons(mm, ss, mmm);
    if c.hours != 0 {
      var hh := PadInt(c.hours, 2);
      HoursHaveNoColon(c.hours);
      ColonCount(hh, tail);
      Regroup(hh, mm, ss, mmm);
      assert MsToStr(Some(v)) == hh + ":" + tail;
    } else {
      assert MsToStr(Some(v)) == tail;
    }
  }
  lemma TailColons(mm: string, ss: string, mmm: string)
    requires AllDigits(mm) && AllDigits(ss) && AllDigits(mmm)
    ensures multiset(mm + ":" + ss + "." + mmm)[':'] == 1
  {
    DigitsExclude(mm, ':');
    DigitsExclude(ss, ':');
    DigitsExclude(mmm, ':');
    assert multiset(mm + ":" + ss + "." + mmm) == multiset(mm) + multiset{':'} + multiset(ss) + multiset{'.'} + multiset(mmm);
  }

  lemma HoursHaveNoColon(h: int)
    ensures ':' !in PadInt(h, 2)
  {
    if h < 0 {
      var d := PadNat(-h, 1);
      DigitsExclude(d, ':');
      assert PadInt(h, 2) == "-" + d;
    } else {
      DigitsExclude(PadInt(h, 2), ':');
    }
  }

  /** Joining with a colon adds one colon to those of the right side. */
  lemma ColonCount(a: string, b: string)
    requires ':' !in a && multiset(a)[':'] == 0
    ensures multiset(a + ":" + b)[':'] == multiset(b)[':'] + 1
  {
    assert multiset(a + ":" + b) == multiset(a) + multiset{':'} + multiset(b);
  }

  /** The hours field of the divmod chain is non-zero exactly from an hour on
      and below zero. */
  lemma HoursShown(v: int)
    ensures SplitMs(v).hours != 0 <==> v >= HOUR_MS || v < 0
  {
    var c := SplitMs(v);
    var rest := c.minutes * MINUTE_MS + c.seconds * SECOND_MS + c.millis;
    assert 0 <= rest < HOUR_MS;
    assert v == c.hours * HOUR_MS + rest;
  }

  /** Every non-empty text ends in `.` and the three digits of the
      milliseconds. */
  lemma MsToStrMillis(v: int)
    ensures var r := MsToStr(Some(v));
      && |r| >= 9 && r[|r| - 4] == '.'
      && AllDigits(r[|r| - 3..]) && ParseNat(r[|r| - 3..]) == v % SECOND_MS
  {
    var c := SplitMs(v);
    FieldsWidth(c);
    var r := MsToStr(Some(v));
    var mmm := PadNat(c.millis, 3);
    assert r[|r| - 3..] == mmm;
  }
}
