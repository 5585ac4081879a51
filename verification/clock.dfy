/** Durations in milliseconds split into hours, minutes, seconds and
    milliseconds, and a reader for the clock text both duration formatters
    of the dashboard produce (`M:SS.mmm`, `MM:SS.mmm`, `H:MM:SS.mmm`,
    `HH:MM:SS.mmm`). The reader is the reference against which the
    formatters' round trips are stated. */
module Clock {
  import opened Wrappers
  import opened Text

  const SECOND_MS: int := 1000
  const MINUTE_MS: int := 60000
  const HOUR_MS: int := 3600000

  /** A duration as clock fields. Only `hours` is unbounded (and may be
      negative, which is what Python's floor `divmod` gives for a negative
      duration). */
  datatype Hms = Hms(hours: int, minutes: int, seconds: int, millis: int) {

    predicate Valid() {
      0 <= minutes < 60 && 0 <= seconds < 60 && 0 <= millis < 1000
    }

    function ToMs(): int {
      hours * HOUR_MS + minutes * MINUTE_MS + seconds * SECOND_MS + millis
    }
  }

  /** The divmod chain of utils/typing.py: `s, ms = divmod(ms, 1000)`,
      `m, s = divmod(s, 60)`, `h, m = divmod(m, 60)`. Python's `divmod` by a
      positive divisor floors, which is what Dafny's `/` and `%` do. */
  function SplitMs(total: int): (c: Hms)
    ensures c.Valid()
    ensures c.ToMs() == total
  {
    var s := total / 1000;
    var ms := total % 1000;
    var m := s / 60;
    Hms(m / 60, m % 60, s % 60, ms)
  }

  /** The clock fields of a duration are unique: splitting the total of any
      valid clock gives that clock back. */
  lemma SplitMsOfToMs(c: Hms)
    requires c.Valid()
    ensures SplitMs(c.ToMs()) == c
  {
    var m := c.hours * 60 + c.minutes;
    var s := m * 60 + c.seconds;
    assert c.ToMs() == s * 1000 + c.millis;
    DivModUnique(c.ToMs(), s, c.millis, 1000);
    DivModUnique(s, m, c.seconds, 60);
    DivModUnique(m, c.hours, c.minutes, 60);
  }

  /** Floor division by a positive constant has exactly one quotient and
      remainder. */
  lemma DivModUnique(a: int, q: int, r: int, d: int)
    requires d == 60 || d == 1000
    requires 0 <= r < d && a == q * d + r
    ensures a / d == q && a % d == r
  {
  }

  /** Reads clock text back into milliseconds. The text ends in `:SS.mmm`;
      what precedes it is either a plain minutes field or an hours field
      (optionally negative), a colon and a two-digit minutes field. */
  function ParseClock(t: string): Option<int> {
    if |t| < 8 || t[|t| - 7] != ':' || t[|t| - 4] != '.' then None
    else
      var ss := t[|t| - 6..|t| - 4];
      var mmm := t[|t| - 3..];
      if !AllDigits(ss) || !AllDigits(mmm) then None
      else
        match ParseLead(t[..|t| - 7])
        case Some(lead) => Some(lead + ParseNat(ss) * SECOND_MS + ParseNat(mmm))
        case None => None
  }

  /** What precedes `:SS.mmm`: minutes alone, or hours, a colon and two-digit
      minutes; the result is in milliseconds. */
  function ParseLead(head: string): Option<int> {
    if AllDigits(head) then
      if |head| > 0 then Some(ParseNat(head) * MINUTE_MS) else None
    else if |head| >= 4 && head[|head| - 3] == ':' && AllDigits(head[|head| - 2..]) then
      match ParseInt(head[..|head| - 3])
      case Some(h) => Some(h * HOUR_MS + ParseNat(head[|head| - 2..]) * MINUTE_MS)
      case None => None
    else None
  }

  /** Reading `head:SS.mmm`, stated over the positions of its pieces. */
  lemma ParseClockAt(t: string, lead: int)
    requires |t| >= 8 && t[|t| - 7] == ':' && t[|t| - 4] == '.'
    requires AllDigits(t[|t| - 6..|t| - 4]) && AllDigits(t[|t| - 3..])
    requires ParseLead(t[..|t| - 7]) == Some(lead)
    ensures ParseClock(t)
         == Some(lead + ParseNat(t[|t| - 6..|t| - 4]) * SECOND_MS + ParseNat(t[|t| - 3..]))
  {
  }

  /** Reading `head:SS.mmm`: the lead field, then seconds and milliseconds. */
  lemma ParseClockOfParts(head: string, lead: int, ss: string, mmm: string)
    requires ParseLead(head) == Some(lead)
    requires |ss| == 2 && AllDigits(ss) && |mmm| == 3 && AllDigits(mmm)
    ensures ParseClock(head + ":" + ss + "." + mmm)
         == Some(lead + ParseNat(ss) * SECOND_MS + ParseNat(mmm))
  {
    var t := head + ":" + ss + "." + mmm;
    assert |head| > 0;
    assert t[..|t| - 7] == head;
    assert t[|t| - 6..|t| - 4] == ss;
    assert t[|t| - 3..] == mmm;
    ParseClockAt(t, lead);
  }

  /** A minutes-only lead field. */
  lemma ParseLeadMinutes(mm: string)
    requires |mm| >= 1 && AllDigits(mm)
    ensures ParseLead(mm) == Some(ParseNat(mm) * MINUTE_MS)
  {
  }

  lemma ParseLeadHoursAt(head: string, h: int)
    requires |head| >= 4 && head[|head| - 3] == ':' && AllDigits(head[|head| - 2..])
    requires ParseInt(head[..|head| - 3]) == Some(h)
    ensures ParseLead(head) == Some(h * HOUR_MS + ParseNat(head[|head| - 2..]) * MINUTE_MS)
  {
    assert !IsDigit(head[|head| - 3]);
  }

  /** An `hours:MM` lead field, where the hours field is anything `ParseInt`
      accepts. */
  lemma ParseLeadHours(hh: string, h: int, mm: string)
    requires ParseInt(hh) == Some(h)
    requires |mm| == 2 && AllDigits(mm)
    ensures ParseLead(hh + ":" + mm) == Some(h * HOUR_MS + ParseNat(mm) * MINUTE_MS)
  {
    var head := hh + ":" + mm;
    assert |hh| >= 1;
    assert head[..|head| - 3] == hh;
    assert head[|head| - 2..] == mm;
    ParseLeadHoursAt(head, h);
  }

  /** Reading `head:SS.mmm` where the seconds and milliseconds are those
      of a clock, zero-padded. */
  lemma ReadClockTail(head: string, lead: int, c: Hms)
    requires c.Valid() && ParseLead(head) == Some(lead)
    ensures ParseClock(head + ":" + PadNat(c.seconds, 2) + "." + PadNat(c.millis, 3))
         == Some(lead + c.seconds * SECOND_MS + c.millis)
  {
    NatToStringLength(c.seconds);
    NatToStringLength(c.millis);
    ParseClockOfParts(head, lead, PadNat(c.seconds, 2), PadNat(c.millis, 3));
  }

  /** Where the parentheses of `a:b:c.d` go does not matter. */
  lemma Regroup(a: string, b: string, c: string, d: string)
    ensures a + ":" + (b + ":" + c + "." + d) == (a + ":" + b) + ":" + c + "." + d
  {
  }

  /** Likewise for `a:c.d`. */
  lemma RegroupTail(a: string, c: string, d: string)
    ensures a + ":" + (c + "." + d) == a + ":" + c + "." + d
  {
  }
}
