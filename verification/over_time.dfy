/** The pure steps of `display_over_time_chart` (utils/altair_charts.py):
    every early return with an `st.info` message becomes an `Info` outcome,
    and a drawn chart becomes its records, with their tooltip text, and the
    default upper bound of the y axis. */
module OverTime {
  import opened Wrappers
  import opened Text
  import opened Clock
  import opened Typing
  import opened Seqs
  import opened SeriesLabels
  import opened ChartTable

  // ---------------------------------------------------------------------
  // `_format_ms`, the tooltip text of one duration

  /** The number a duration cell holds: `float(ms)` succeeds on a number
      and `NaN` is not finite; other cells render as nothing. */
  function NumberOf(v: Value): Option<int> {
    if v.Num? then Some(v.n) else None
  }

  /** `_format_ms`: negative durations count as zero; `H:MM:SS.mmm` when
      there are whole hours, `M:SS.mmm` otherwise, the leading field
      unpadded. */
  function FormatMs(ms: Option<int>): (r: string)
    ensures r == "" <==> ms.None?
  {
    match ms
    case None => ""
    case Some(v) =>
      var m := if v < 0 then 0 else v;
      var totalSeconds := m / 1000;
      FormatClock(totalSeconds / 3600, totalSeconds % 3600 / 60, totalSeconds % 60, m % 1000)
  }

  /** The two f-strings of `_format_ms`, on its fields. */
  function FormatClock(hours: nat, minutes: nat, seconds: nat, millis: nat): (r: string)
    ensures r != ""
  {
    var tail := PadNat(seconds, 2) + "." + PadNat(millis, 3);
    if hours > 0 then NatToString(hours) + ":" + PadNat(minutes, 2) + ":" + tail
    else NatToString(minutes) + ":" + tail
  }

  /** `_format_ms` renders the clock fields of the clamped duration. */
  lemma FormatMsFields(v: int)
    ensures var c := SplitMs(if v < 0 then 0 else v);
      && c.hours >= 0
      && FormatMs(Some(v)) == FormatClock(c.hours, c.minutes, c.seconds, c.millis)
  {
    var m := if v < 0 then 0 else v;
    var s := m / 1000;
    assert s / 60 / 60 == s / 3600;
    assert s / 60 % 60 == s % 3600 / 60;
  }

  /** Reading the clock text back gives the clock's duration. */
  lemma FormatClockRoundTrip(c: Hms)
    requires c.Valid() && c.hours >= 0
    ensures ParseClock(FormatClock(c.hours, c.minutes, c.seconds, c.millis)) == Some(c.ToMs())
  {
    if c.hours > 0 {
      HoursTooltipRoundTrip(c);
    } else {
      MinutesTooltipRoundTrip(c);
    }
  }

  lemma HoursTooltipRoundTrip(c: Hms)
    requires c.Valid() && c.hours > 0
    ensures ParseClock(NatToString(c.hours) + ":" + PadNat(c.minutes, 2) + ":" + (PadNat(c.seconds, 2) + "." + PadNat(c.millis, 3)))
         == Some(c.ToMs())
  {
    HoursLeadRoundTrip(c);
    ReadClockAfter(NatToString(c.hours) + ":" + PadNat(c.minutes, 2), c.hours * HOUR_MS + c.minutes * MINUTE_MS, c);
  }

  lemma MinutesTooltipRoundTrip(c: Hms)
    requires c.Valid() && c.hours == 0
    ensures ParseClock(NatToString(c.minutes) + ":" + (PadNat(c.seconds, 2) + "." + PadNat(c.millis, 3)))
         == Some(c.ToMs())
  {
    MinutesLeadRoundTrip(c.minutes);
    ReadClockAfter(NatToString(c.minutes), c.minutes * MINUTE_MS, c);
  }

  /** The unpadded minutes of the tooltip read back. */
  lemma MinutesLeadRoundTrip(m: nat)
    ensures ParseLead(NatToString(m)) == Some(m * MINUTE_MS)
  {
    ParseNatOfNatToString(m);
    ParseLeadMinutes(NatToString(m));
  }

  /** `head:` followed by the clock's padded seconds and milliseconds reads
      back as the lead plus those. */
  lemma ReadClockAfter(head: string, lead: int, c: Hms)
    requires c.Valid() && ParseLead(head) == Some(lead)
    ensures ParseClock(head + ":" + (PadNat(c.seconds, 2) + "." + PadNat(c.millis, 3)))
         == Some(lead + c.seconds * SECOND_MS + c.millis)
  {
    RegroupTail(head, PadNat(c.seconds, 2), PadNat(c.millis, 3));
    ReadClockTail(head, lead, c);
  }

  /** The unpadded hours and padded minutes of the tooltip read back. */
  lemma HoursLeadRoundTrip(c: Hms)
    requires c.Valid() && c.hours > 0
    ensures ParseLead(NatToString(c.hours) + ":" + PadNat(c.minutes, 2)) == Some(c.hours * HOUR_MS + c.minutes * MINUTE_MS)
  {
    var hh := NatToString(c.hours);
    var mm := PadNat(c.minutes, 2);
    NatToStringLength(c.minutes);
    assert ParseInt(hh) == Some(c.hours) by {
      assert hh == IntToString(c.hours);
    }
    ParseLeadHours(hh, c.hours, mm);
  }

  /** Reading the tooltip back gives the duration, clamped at zero. */
  lemma FormatMsRoundTrip(v: int)
    ensures ParseClock(FormatMs(Some(v))) == Some(if v < 0 then 0 else v)
  {
    FormatMsFields(v);
    FormatClockRoundTrip(SplitMs(if v < 0 then 0 else v));
  }

  lemma FormatClockColons(c: Hms)
    requires c.Valid() && c.hours >= 0
    ensures multiset(FormatClock(c.hours, c.minutes, c.seconds, c.millis))[':'] == if c.hours > 0 then 2 else 1
  {
    var ss := PadNat(c.seconds, 2);
    var mmm := PadNat(c.millis, 3);
    DigitsCount(ss, ':');
    DigitsCount(mmm, ':');
    CountJoin(ss, ".", mmm, ':');
    if c.hours > 0 {
      HoursColons(NatToString(c.hours), PadNat(c.minutes, 2), ss + "." + mmm);
    } else {
      MinutesColons(NatToString(c.minutes), ss + "." + mmm);
    }
  }

  lemma HoursColons(hh: string, mm: string, tail: string)
    requires AllDigits(hh) && AllDigits(mm) && multiset(tail)[':'] == 0
    ensures multiset(hh + ":" + mm + ":" + tail)[':'] == 2
  {
    DigitsCount(hh, ':');
    DigitsCount(mm, ':');
    CountJoin(hh, ":", mm, ':');
    CountJoin(hh + ":" + mm, ":", tail, ':');
  }

  lemma MinutesColons(mm: string, tail: string)
    requires AllDigits(mm) && multiset(tail)[':'] == 0
    ensures multiset(mm + ":" + tail)[':'] == 1
  {
    DigitsCount(mm, ':');
    CountJoin(mm, ":", tail, ':');
  }

  /** The hours field appears exactly from an hour on: the text then holds
      two colons, and one below an hour. */
  lemma FormatMsColons(v: int)
    ensures multiset(FormatMs(Some(v)))[':'] == if v >= HOUR_MS then 2 else 1
  {
    var m := if v < 0 then 0 else v;
    FormatMsFields(v);
    HoursShown(m);
    FormatClockColons(SplitMs(m));
  }

  /** The leading field of a clock: hours when there are any, else
      minutes. */
  function Lead(c: Hms): int {
    if c.hours > 0 then c.hours else c.minutes
  }

  lemma FormattersAgreeClock(c: Hms)
    requires c.Valid() && c.hours >= 0
    ensures ClockText(c) == (if Lead(c) < 10 then "0" else "") + FormatClock(c.hours, c.minutes, c.seconds, c.millis)
  {
    var ss := PadNat(c.seconds, 2);
    var mmm := PadNat(c.millis, 3);
    var mm := PadNat(c.minutes, 2);
    if c.hours > 0 {
      PadOneDigit(c.hours);
      var z: string := if c.hours < 10 then "0" else "";
      var hh := NatToString(c.hours);
      assert PadInt(c.hours, 2) == z + hh;
      JoinHours(z, hh, mm, ss, mmm);
    } else {
      PadOneDigit(c.minutes);
      var z: string := if c.minutes < 10 then "0" else "";
      JoinMinutes(z, NatToString(c.minutes), ss, mmm);
    }
  }

  /** Regrouping the concatenations of the two formatters' texts, with a
      `0` prefix `z`: with an hours field, then without one. */
  lemma JoinHours(z: string, hh: string, mm: string, ss: string, mmm: string)
    ensures (z + hh) + ":" + mm + ":" + ss + "." + mmm == z + (hh + ":" + mm + ":" + (ss + "." + mmm))
  {
  }

  /** The same regrouping for the texts without an hours field. */
  lemma JoinMinutes(z: string, m: string, ss: string, mmm: string)
    ensures (z + m) + ":" + ss + "." + mmm == z + (m + ":" + (ss + "." + mmm))
  {
  }

  /** The two duration formatters differ only in padding the leading field:
      for a non-negative duration, `ms_to_str` is `_format_ms` with a `0` in
      front when the leading field (hours if shown, else minutes) is a
      single digit. */
  lemma FormattersAgree(v: int)
    requires v >= 0
    ensures var lead := if v >= HOUR_MS then v / HOUR_MS else v / MINUTE_MS;
      MsToStr(Some(v)) == (if lead < 10 then "0" else "") + FormatMs(Some(v))
  {
    var c := SplitMs(v);
    FormatMsFields(v);
    HoursShown(v);
    FormattersAgreeClock(c);
    assert MsToStr(Some(v)) == ClockText(c);
    assert v / 1000 / 60 == v / MINUTE_MS;
    assert v / 1000 / 60 / 60 == v / HOUR_MS;
  }

  /** Two-digit padding adds one zero to a single digit and nothing else. */
  lemma PadOneDigit(n: nat)
    ensures PadNat(n, 2) == (if n < 10 then "0" else "") + NatToString(n)
  {
    NatToStringLength(n);
    if n < 10 {
      assert Zeros(1) == "0";
    } else {
      assert |NatToString(n)| >= 2 by {
        assert NatToString(n) == NatToString(n / 10) + [DigitChar(n % 10)];
      }
    }
  }

  lemma FormatMsZero()
    ensures FormatMs(Some(0)) == "0:00.000"
    ensures MsToStr(Some(0)) == "00:00.000"
  {
    ZeroFields();
    assert FormatMs(Some(0)) == FormatClock(0, 0, 0, 0) == "0:00.000";
    assert SplitMs(0) == Hms(0, 0, 0, 0);
    assert MsToStr(Some(0)) == ClockText(Hms(0, 0, 0, 0));
  }

  /** The padded zero fields both formatters print for zero. */
  lemma ZeroFields()
    ensures NatToString(0) == "0"
    ensures PadNat(0, 2) == "00" && PadNat(0, 3) == "000"
  {
    assert Zeros(1) == "0";
    assert Zeros(2) == "00";
  }

  // ---------------------------------------------------------------------
  // The default y-axis bound

  /** A record that `groupby(series).last()` can take the value of: in the
      series, with a number (`last()` skips `NaN`). */
  predicate Candidate(r: Record, series: string) {
    r.series == series && r.value.Num?
  }

  /** The position of the value `melted.sort_values(time).groupby(series)
      .last()` keeps for `series` among the first `n` records: the candidate
      with the latest timestamp, the later position winning a tie (a stable
      sort keeps tied records in their order). */
  function LatestIndex(recs: seq<Record>, series: string, n: nat): (r: Option<nat>)
    requires n <= |recs|
    ensures r.None? <==> forall j | 0 <= j < n :: !Candidate(recs[j], series)
    ensures r.Some? ==> r.value < n && Candidate(recs[r.value], series)
    ensures r.Some? ==> forall j | 0 <= j < n && Candidate(recs[j], series) ::
      recs[j].ts < recs[r.value].ts || (recs[j].ts == recs[r.value].ts && j <= r.value)
    decreases n
  {
    if n == 0 then None
    else
      var prev := LatestIndex(recs, series, n - 1);
      if Candidate(recs[n - 1], series) && (prev.None? || recs[prev.value].ts <= recs[n - 1].ts) then Some(n - 1)
      else prev
  }

  /** The latest value of a series; `None` when the series has no number
      (`NaN` in the source). */
  function LatestValue(recs: seq<Record>, series: string): Option<int> {
    match LatestIndex(recs, series, |recs|)
    case None => None
    case Some(i) => Some(recs[i].value.n)
  }

  /** Nothing later than the latest value: every numeric record of the
      series is older, or as old and earlier in order. */
  lemma LatestIsLatest(recs: seq<Record>, series: string, j: nat)
    requires j < |recs| && Candidate(recs[j], series)
    ensures LatestValue(recs, series).Some?
    ensures exists i | 0 <= i < |recs| ::
      && Candidate(recs[i], series)
      && LatestValue(recs, series) == Some(recs[i].value.n)
      && (recs[j].ts < recs[i].ts || (recs[j].ts == recs[i].ts && j <= i))
  {
  }

  predicate HasSeries(recs: seq<Record>, series: string) {
    exists i | 0 <= i < |recs| :: recs[i].series == series
  }

  /** `latest[value_col].min()` over the series named in `names`: the
      smallest latest value, skipping series without one. */
  function MinLatest(recs: seq<Record>, names: seq<string>): (r: Option<int>)
    ensures r.None? <==> forall k | 0 <= k < |names| :: LatestValue(recs, names[k]).None?
    ensures r.Some? ==> exists k | 0 <= k < |names| :: LatestValue(recs, names[k]) == r
    ensures r.Some? ==> forall k | 0 <= k < |names| && LatestValue(recs, names[k]).Some? ::
      r.value <= LatestValue(recs, names[k]).value
    decreases |names|
  {
    if names == [] then None
    else
      var here := LatestValue(recs, names[0]);
      var rest := MinLatest(recs, names[1..]);
      assert forall k | 1 <= k < |names| :: names[k] == names[1..][k - 1];
      if rest.None? then here
      else if here.None? || rest.value < here.value then rest
      else here
  }

  /** The series names of the records, one per record. */
  function SeriesNames(recs: seq<Record>): (names: seq<string>)
    ensures |names| == |recs|
    ensures forall i | 0 <= i < |recs| :: names[i] == recs[i].series
  {
    seq(|recs|, i requires 0 <= i < |recs| => recs[i].series)
  }

  /** `max(0.0, base * 3.0)`, where a missing base (`NaN`) loses the
      comparison and leaves `0.0`. */
  function Triple(base: Option<int>): (y: int)
    ensures y >= 0
    ensures base.Some? && base.value >= 0 ==> y == 3 * base.value
    ensures base.None? || base.value <= 0 ==> y == 0
  {
    match base
    case None => 0
    case Some(b) => if b * 3 > 0 then b * 3 else 0
  }

  /** The default upper bound of the y axis: three times the latest "Top 1"
      value when that series is drawn, else three times the smallest latest
      value of any series, never below zero. */
  function YMax(recs: seq<Record>): (y: int)
    ensures y >= 0
    ensures HasSeries(recs, "Top 1") ==> y == Triple(LatestValue(recs, "Top 1"))
    ensures !HasSeries(recs, "Top 1") ==> forall i | 0 <= i < |recs| ::
      y <= Triple(LatestValue(recs, recs[i].series)) || LatestValue(recs, recs[i].series).None?
    ensures !HasSeries(recs, "Top 1") && AnyLatest(recs) ==> exists i | 0 <= i < |recs| ::
      LatestValue(recs, recs[i].series).Some? && y == Triple(LatestValue(recs, recs[i].series))
    ensures !HasSeries(recs, "Top 1") && !AnyLatest(recs) ==> y == 0
  {
    if HasSeries(recs, "Top 1") then Triple(LatestValue(recs, "Top 1"))
    else
      var names := SeriesNames(recs);
      var base := MinLatest(recs, names);
      Triple(base)
  }

  /** Some series of the records has a latest value. */
  predicate AnyLatest(recs: seq<Record>) {
    exists i | 0 <= i < |recs| :: LatestValue(recs, recs[i].series).Some?
  }

  // ---------------------------------------------------------------------
  // The chart pipeline

  /** The early returns of `display_over_time_chart`, one per `st.info`. */
  datatype Info =
    | NoLeaderboardColumn
    | NoLeaderboardData
    | NoTimeColumn
    | NoValidTimestamps
    | NoRecentData
    | NoDurationColumns
    | NothingAfterHiding

  /** One plotted record, with its `value_hms` tooltip text. */
  datatype Point = Point(ts: int, ids: Row, series: string, value: Value, hms: string)

  datatype Outcome = Notice(info: Info) | Chart(points: seq<Point>, yMax: int)

  function Points(recs: seq<Record>): (ps: seq<Point>)
    ensures |ps| == |recs|
    ensures forall i | 0 <= i < |recs| ::
      && ps[i].ts == recs[i].ts && ps[i].ids == recs[i].ids
      && ps[i].series == recs[i].series && ps[i].value == recs[i].value
      && ps[i].hms == FormatMs(NumberOf(recs[i].value))
  {
    seq(|recs|, i requires 0 <= i < |recs| =>
      Point(recs[i].ts, recs[i].ids, recs[i].series, recs[i].value, FormatMs(NumberOf(recs[i].value))))
  }

  /** Every point's tooltip is `_format_ms` of its value. */
  predicate Tooltips(ps: seq<Point>) {
    forall i | 0 <= i < |ps| :: ps[i].hms == FormatMs(NumberOf(ps[i].value))
  }

  /** No point belongs to the "Top 100" series. */
  predicate NoTop100(ps: seq<Point>) {
    forall i | 0 <= i < |ps| :: ps[i].series != "Top 100"
  }

  /** Every record belongs to the "Top 100" series. */
  predicate AllTop100(recs: seq<Record>) {
    forall i | 0 <= i < |recs| :: recs[i].series == "Top 100"
  }

  /** `o` is the chart of exactly the records `shown`, with their default
      y bound. */
  predicate Draws(o: Outcome, shown: seq<Record>) {
    o.Chart? && o.points == Points(shown) && o.yMax == YMax(shown)
  }

  /** Hiding "Top 100" leaves nothing exactly when every record is in it. */
  lemma HidingEmpties(recs: seq<Record>)
    ensures HideTop100(recs, true) == [] <==> AllTop100(recs)
  {
    var shown := HideTop100(recs, true);
    if shown == [] {
      forall i | 0 <= i < |recs|
        ensures recs[i].series == "Top 100"
      {
        assert recs[i] in recs;
        assert recs[i] !in shown;
      }
    } else {
      assert shown[0] in shown;
    }
  }

  /** The last stage: hide "Top 100" when asked, give up if that leaves
      nothing, else plot the records with their default y bound. */
  function ChartOf(recs: seq<Record>, hideTop100: bool): (o: Outcome)
    requires recs != []
    ensures o.Notice? <==> hideTop100 && AllTop100(recs)
    ensures o.Notice? ==> o.info == NothingAfterHiding
    ensures o.Chart? ==> Draws(o, HideTop100(recs, hideTop100))
    ensures o.Chart? ==> o.points != [] && o.yMax >= 0
    ensures o.Chart? ==> Tooltips(o.points)
    ensures o.Chart? && hideTop100 ==> NoTop100(o.points)
  {
    var shown := HideTop100(recs, hideTop100);
    HidingEmpties(recs);
    if hideTop100 && shown == [] then Notice(NothingAfterHiding)
    else
      DrawingFacts(recs, hideTop100);
      Chart(Points(shown), YMax(shown))
  }

  /** The drawing of the records left after hiding: non-empty unless
      hiding removed everything, with a non-negative bound, every tooltip,
      and no "Top 100" point when hiding. */
  lemma DrawingFacts(recs: seq<Record>, hideTop100: bool)
    requires recs != [] && !(hideTop100 && HideTop100(recs, hideTop100) == [])
    ensures var shown := HideTop100(recs, hideTop100);
      var o := Chart(Points(shown), YMax(shown));
      && o.points != [] && o.yMax >= 0 && Tooltips(o.points)
      && (hideTop100 ==> NoTop100(o.points))
  {
    var shown := HideTop100(recs, hideTop100);
    var ps := Points(shown);
    assert forall i | 0 <= i < |ps| :: ps[i].series == shown[i].series && shown[i] in shown;
  }

  /** The stages after the 14-day window: melt the duration columns, then
      chart them. */
  function ChartOfWindow(cols: seq<string>, win: seq<TimedRow>, hideTop100: bool): (o: Outcome)
    requires win != []
    ensures o == Notice(NoDurationColumns) <==> forall c | c in cols :: !IsMeasure(c)
    ensures o == Notice(NothingAfterHiding) <==>
      MeltMeasureColumns(cols, win).Some? && hideTop100 && AllTop100(MeltMeasureColumns(cols, win).value)
    ensures o.Chart? ==>
      MeltMeasureColumns(cols, win).Some? && Draws(o, HideTop100(MeltMeasureColumns(cols, win).value, hideTop100))
    ensures o.Notice? ==> o.info == NoDurationColumns || (o.info == NothingAfterHiding && hideTop100)
    ensures o.Chart? ==> o.points != [] && o.yMax >= 0
    ensures o.Chart? ==> Tooltips(o.points)
    ensures o.Chart? && hideTop100 ==> NoTop100(o.points)
  {
    match MeltMeasureColumns(cols, win)
    case None => Notice(NoDurationColumns)
    case Some(recs) =>
      var k := if |MeasureColumns(cols)| > 1 then |MeasureColumns(cols)| else 1;
      PositiveProduct(|win|, k);
      ChartOf(recs, hideTop100)
  }

  lemma PositiveProduct(a: nat, b: nat)
    requires a > 0 && b > 0
    ensures a * b > 0
  {
  }

  /** Every point carries the timestamp of a row of `win`. */
  predicate TimesFrom(win: seq<TimedRow>, points: seq<Point>) {
    forall k | 0 <= k < |points| :: RowTime(win, points[k].ts)
  }

  /** Every plotted point carries the timestamp of a row of the window. */
  lemma ChartOfWindowTimes(cols: seq<string>, win: seq<TimedRow>, hideTop100: bool)
    requires win != []
    ensures ChartOfWindow(cols, win, hideTop100).Chart? ==>
      TimesFrom(win, ChartOfWindow(cols, win, hideTop100).points)
  {
    var o := ChartOfWindow(cols, win, hideTop100);
    if o.Chart? {
      MeltTimes(cols, win);
      var recs := MeltMeasureColumns(cols, win).value;
      assert o.points == Points(HideTop100(recs, hideTop100));
      ShownTimes(win, recs, hideTop100);
    }
  }

  /** Hiding and plotting keep every record's timestamp, so records stamped
      from the window give points stamped from it. */
  lemma ShownTimes(win: seq<TimedRow>, recs: seq<Record>, hideTop100: bool)
    requires forall k | 0 <= k < |recs| :: RowTime(win, recs[k].ts)
    ensures TimesFrom(win, Points(HideTop100(recs, hideTop100)))
  {
    var shown := HideTop100(recs, hideTop100);
    var ps := Points(shown);
    forall k | 0 <= k < |ps|
      ensures RowTime(win, ps[k].ts)
    {
      assert shown[k] in recs by {
        assert shown[k] in shown;
      }
      var m :| 0 <= m < |recs| && recs[m] == shown[k];
      assert ps[k].ts == recs[m].ts;
    }
  }

  /** `display_over_time_chart`, lines 125-198, with `st.info` returns as
      `Notice` outcomes. */
  function OverTimeChart(t: Table, name: string, hideTop100: bool, parse: Parser): (o: Outcome)
    ensures o == Notice(NoLeaderboardColumn) <==> "leaderboard_name" !in t.columns
    ensures o == Notice(NoLeaderboardData) <==> ("leaderboard_name" in t.columns
      && forall i | 0 <= i < |t.rows| :: Cell(t.rows[i], "leaderboard_name") != Str(name))
    ensures "leaderboard_name" in t.columns && SelectLeaderboard(t, name).rows != [] ==>
      SelectionOutcome(o, SelectLeaderboard(t, name), hideTop100, parse)
    ensures o != Notice(NoValidTimestamps) && o != Notice(NoRecentData)
    ensures o == Notice(NoDurationColumns) ==> forall c | c in t.columns :: !IsMeasure(c)
    ensures o == Notice(NothingAfterHiding) ==> hideTop100
    ensures o.Chart? ==> o.points != [] && o.yMax >= 0
    ensures o.Chart? ==> Tooltips(o.points)
    ensures o.Chart? && hideTop100 ==> NoTop100(o.points)
  {
    if "leaderboard_name" !in t.columns then Notice(NoLeaderboardColumn)
    else
      var sdf := SelectLeaderboard(t, name);
      NoLeaderboardRows(t, name);
      if sdf.rows == [] then Notice(NoLeaderboardData)
      else ChartOfSelection(sdf, hideTop100, parse)
  }

  /** The records a selection's chart is drawn from: the melt of the
      fourteen-day window of the rows whose time cell parses; `None` when
      there is no time column or no duration column. */
  function SelectionRecords(sdf: Table, parse: Parser): (r: Option<seq<Record>>)
    ensures r.Some? ==> FindTimeColumn(sdf, parse).Some?
    ensures FindTimeColumn(sdf, parse).Some? ==> (r.None? <==> forall c | c in sdf.columns :: !IsMeasure(c))
  {
    match FindTimeColumn(sdf, parse)
    case None => None
    case Some(col) =>
      var trs := ParseTimes(sdf.rows, col, parse);
      if trs == [] then
        assert false; None
      else MeltMeasureColumns(sdf.columns, Window(trs))
  }

  /** What the chart shows for a selection, stage by stage: "no time
      column" exactly when no candidate qualifies, "no duration columns"
      exactly when a time column exists but no column ends in `_ms`,
      "nothing after filtering Top 100" exactly when hiding removes every
      record, and otherwise the drawing of the records left. */
  predicate SelectionOutcome(o: Outcome, sdf: Table, hideTop100: bool, parse: Parser) {
    && (o == Notice(NoTimeColumn) <==> FindTimeColumn(sdf, parse).None?)
    && (o == Notice(NoDurationColumns) <==>
          FindTimeColumn(sdf, parse).Some? && forall c | c in sdf.columns :: !IsMeasure(c))
    && (o == Notice(NothingAfterHiding) <==>
          SelectionRecords(sdf, parse).Some? && hideTop100 && AllTop100(SelectionRecords(sdf, parse).value))
    && (o.Chart? <==>
          SelectionRecords(sdf, parse).Some? && !(hideTop100 && AllTop100(SelectionRecords(sdf, parse).value)))
    && (o.Chart? ==> Draws(o, HideTop100(SelectionRecords(sdf, parse).value, hideTop100)))
  }

  /** The stages after selecting the leaderboard's rows: find and parse the
      time column, keep the last fourteen days, melt and chart. */
  function ChartOfSelection(sdf: Table, hideTop100: bool, parse: Parser): (o: Outcome)
    requires sdf.rows != []
    ensures SelectionOutcome(o, sdf, hideTop100, parse)
    ensures o.Notice? ==> o.info == NoTimeColumn || o.info == NoDurationColumns || o.info == NothingAfterHiding
    ensures o == Notice(NoDurationColumns) ==> forall c | c in sdf.columns :: !IsMeasure(c)
    ensures o == Notice(NothingAfterHiding) ==> hideTop100
    ensures o.Chart? ==> o.points != [] && o.yMax >= 0
    ensures o.Chart? ==> Tooltips(o.points)
    ensures o.Chart? && hideTop100 ==> NoTop100(o.points)
  {
    match FindTimeColumn(sdf, parse)
    case None => Notice(NoTimeColumn)
    case Some(col) =>
      var trs := ParseTimes(sdf.rows, col, parse);
      if trs == [] then
        assert false; Notice(NoValidTimestamps)
      else
        var win := Window(trs);
        WindowKeepsNewest(trs);
        if win == [] then
          assert false; Notice(NoRecentData)
        else
          WindowOutcome(sdf, hideTop100, parse, col);
          ChartOfWindow(sdf.columns, win, hideTop100)
  }

  /** Once a time column is found, the chart of the window shows what the
      selection's records call for. */
  lemma WindowOutcome(sdf: Table, hideTop100: bool, parse: Parser, col: string)
    requires FindTimeColumn(sdf, parse) == Some(col)
    requires ParseTimes(sdf.rows, col, parse) != []
    ensures SelectionOutcome(ChartOfWindow(sdf.columns, Window(ParseTimes(sdf.rows, col, parse)), hideTop100), sdf, hideTop100, parse)
  {
    var win := Window(ParseTimes(sdf.rows, col, parse));
    WindowKeepsNewest(ParseTimes(sdf.rows, col, parse));
    var o := ChartOfWindow(sdf.columns, win, hideTop100);
    var recs := SelectionRecords(sdf, parse);
    assert recs == MeltMeasureColumns(sdf.columns, win);
    assert o != Notice(NoTimeColumn);
  }

  /** The selection is empty exactly when no row names the leaderboard. */
  lemma NoLeaderboardRows(t: Table, name: string)
    ensures SelectLeaderboard(t, name).rows == [] <==>
      forall i | 0 <= i < |t.rows| :: Cell(t.rows[i], "leaderboard_name") != Str(name)
  {
    var r := SelectLeaderboard(t, name).rows;
    if r == [] {
      forall i | 0 <= i < |t.rows|
        ensures Cell(t.rows[i], "leaderboard_name") != Str(name)
      {
        assert t.rows[i] in t.rows;
      }
    } else {
      assert r[0] in r;
    }
  }

  /** Any two of the points are at most `WINDOW_MS` apart. */
  predicate WithinWindow(points: seq<Point>) {
    forall a, b | 0 <= a < |points| && 0 <= b < |points| :: points[a].ts - points[b].ts <= WINDOW_MS
  }

  /** The chart spans at most fourteen days: any two plotted points are at
      most `WINDOW_MS` apart. */
  lemma ChartWithinWindow(t: Table, name: string, hideTop100: bool, parse: Parser)
    ensures var o := OverTimeChart(t, name, hideTop100, parse);
      o.Chart? ==> WithinWindow(o.points)
  {
    var o := OverTimeChart(t, name, hideTop100, parse);
    if o.Chart? {
      var sdf := SelectLeaderboard(t, name);
      assert o == ChartOfSelection(sdf, hideTop100, parse);
      SelectionWithinWindow(sdf, hideTop100, parse);
    }
  }

  lemma SelectionWithinWindow(sdf: Table, hideTop100: bool, parse: Parser)
    requires sdf.rows != []
    ensures var o := ChartOfSelection(sdf, hideTop100, parse);
      o.Chart? ==> WithinWindow(o.points)
  {
    var o := ChartOfSelection(sdf, hideTop100, parse);
    if o.Chart? {
      var trs := SelectionWindow(sdf, hideTop100, parse);
      ChartOfWindowTimes(sdf.columns, Window(trs), hideTop100);
      PointsSpan(trs, o.points);
    }
  }

  /** A chart of the selection is the chart of the window of its parsed
      rows. */
  lemma SelectionWindow(sdf: Table, hideTop100: bool, parse: Parser) returns (trs: seq<TimedRow>)
    requires sdf.rows != []
    ensures FindTimeColumn(sdf, parse).Some? ==> trs == ParseTimes(sdf.rows, FindTimeColumn(sdf, parse).value, parse)
    ensures ChartOfSelection(sdf, hideTop100, parse).Chart? ==>
      trs != [] && ChartOfSelection(sdf, hideTop100, parse) == ChartOfWindow(sdf.columns, Window(trs), hideTop100)
  {
    match FindTimeColumn(sdf, parse)
    case None => trs := [];
    case Some(col) =>
      trs := ParseTimes(sdf.rows, col, parse);
      if trs != [] {
        WindowKeepsNewest(trs);
      }
  }

  lemma PointsSpan(trs: seq<TimedRow>, points: seq<Point>)
    requires trs != []
    requires TimesFrom(Window(trs), points)
    ensures WithinWindow(points)
  {
    WindowSpan(trs);
    forall a, b | 0 <= a < |points| && 0 <= b < |points|
      ensures points[a].ts - points[b].ts <= WINDOW_MS
    {
      assert RowTime(Window(trs), points[a].ts) && RowTime(Window(trs), points[b].ts);
    }
  }
}
