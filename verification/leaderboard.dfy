/** main.py: the leaderboard page's podium, percentile metrics and ranking
    table, as the values the page renders. */
module Leaderboard {
  import opened Wrappers
  import opened Text
  import opened Clock
  import opened Typing
  import opened Seqs

  // ---------------------------------------------------------------------
  // Percentiles (`display_percentiles`)

  /** `k.startswith("p") and k.endswith("_ms")`. */
  predicate IsPercentileField(k: string) {
    StartsWith(k, "p") && EndsWith(k, "_ms")
  }

  /** The percentile fields of a record, in key order. */
  function PercentileFields(keys: seq<string>): (fields: seq<string>)
    ensures forall k :: k in fields <==> k in keys && IsPercentileField(k)
    ensures forall k :: multiset(fields)[k] == if IsPercentileField(k) then multiset(keys)[k] else 0
    ensures Subsequence(fields, keys)
  {
    FilterMembers(keys, IsPercentileField);
    FilterCount(keys, IsPercentileField);
    FilterSubsequence(keys, IsPercentileField);
    Filter(keys, IsPercentileField)
  }

  /** `s.lstrip(c)`: `s` without its leading run of `c`. */
  function LStripChar(s: string, c: char): (r: string)
    ensures |r| <= |s| && r == s[|s| - |r|..]
    ensures forall i | 0 <= i < |s| - |r| :: s[i] == c
    ensures r == [] || r[0] != c
    decreases |s|
  {
    if s != [] && s[0] == c then LStripChar(s[1..], c) else s
  }

  /** `s.rstrip(cs)`: `s` without its trailing run of characters of `cs`
      (`rstrip("_ms")` strips any of `_`, `m` and `s`, not the suffix). */
  function RStripChars(s: string, cs: set<char>): (r: string)
    ensures |r| <= |s| && r == s[..|r|]
    ensures forall i | |r| <= i < |s| :: s[i] in cs
    ensures r == [] || r[|r| - 1] !in cs
    decreases |s|
  {
    if s != [] && s[|s| - 1] in cs then RStripChars(s[..|s| - 1], cs) else s
  }

  /** The metric title of a percentile field, `f"Top {perc}%"` with
      `perc = int(field.lstrip("p").rstrip("_ms"))`; `None` where `int`
      raises. */
  function PercentileTitle(field: string): Option<string> {
    var digits := RStripChars(LStripChar(field, 'p'), {'_', 'm', 's'});
    match ParseInt(digits)
    case None => None
    case Some(n) => Some("Top " + IntToString(n) + "%")
  }

  /** Stripping stops at the first character that is not stripped. */
  lemma LStripPast(c: char, s: string)
    requires s != [] && s[0] != c
    ensures LStripChar([c] + s, c) == s
  {
    assert ([c] + s)[1..] == s;
  }

  lemma {:induction false} RStripPast(a: string, b: string, cs: set<char>)
    requires a != [] && a[|a| - 1] !in cs
    requires forall i | 0 <= i < |b| :: b[i] in cs
    ensures RStripChars(a + b, cs) == a
    decreases |b|
  {
    if b == [] {
      assert a + b == a;
    } else {
      var b' := b[..|b| - 1];
      assert (a + b)[..|a + b| - 1] == a + b';
      RStripPast(a, b', cs);
    }
  }

  /** The title of `p<digits><tail>` where the tail is made of `_`, `m`
      and `s` only: not just `_ms` goes, so "p5m_ms" is titled "Top 5%"
      too. */
  lemma {:induction false} TitleOfDigits(d: string, tail: string)
    requires |d| > 0 && AllDigits(d)
    requires forall i | 0 <= i < |tail| :: tail[i] in {'_', 'm', 's'}
    ensures PercentileTitle("p" + d + tail) == Some("Top " + IntToString(ParseNat(d)) + "%")
  {
    var f := "p" + d + tail;
    var rest := d + tail;
    assert f == ['p'] + rest;
    assert rest[0] == d[0];
    LStripPast('p', rest);
    RStripPast(d, tail, {'_', 'm', 's'});
    ParseIntOfDigits(d);
  }

  lemma ParseIntOfDigits(d: string)
    requires |d| > 0 && AllDigits(d)
    ensures ParseInt(d) == Some(ParseNat(d))
  {
    assert IsDigit(d[0]);
  }

  /** `p<digits>_ms` is titled "Top <digits>%". */
  lemma PercentileTitleOfField(n: nat)
    ensures IsPercentileField("p" + NatToString(n) + "_ms")
    ensures PercentileTitle("p" + NatToString(n) + "_ms") == Some("Top " + NatToString(n) + "%")
  {
    var d := NatToString(n);
    var f := "p" + d + "_ms";
    assert f[..1] == "p";
    assert f[|f| - 3..] == "_ms";
    TitleOfDigits(d, "_ms");
    ParseNatOfNatToString(n);
  }

  /** Line 100-101: a time with two colons (an hours field) loses its last
      four characters; any other time is kept. */
  function TrimTime(time: string): string {
    if multiset(time)[':'] == 2 then
      if |time| >= 4 then time[..|time| - 4] else []
    else time
  }

  /** The text a percentile metric shows for a duration. */
  function PercentileTime(ms: Option<int>): string {
    TrimTime(MsToStr(ms))
  }

  /** From an hour on only the milliseconds go: the shown text followed by
      `.` and the three millisecond digits is the full duration text. */
  lemma PercentileTimeFromAnHour(v: int)
    requires v >= HOUR_MS
    ensures PercentileTime(Some(v)) + "." + PadNat(v % SECOND_MS, 3) == MsToStr(Some(v))
    ensures multiset(PercentileTime(Some(v)))[':'] == 2
  {
    var c := SplitMs(v);
    FieldsWidth(c);
    MsToStrColons(v);
    HoursShown(v);
    var hh, mm, ss, mmm := PadInt(c.hours, 2), PadNat(c.minutes, 2), PadNat(c.seconds, 2), PadNat(c.millis, 3);
    assert MsToStr(Some(v)) == (hh + ":" + mm + ":" + ss) + "." + mmm;
    TrimDropsMillis(hh + ":" + mm + ":" + ss, mmm);
  }

  /** Trimming a text with two colons drops its `.mmm` ending. */
  lemma TrimDropsMillis(head: string, mmm: string)
    requires |mmm| == 3 && AllDigits(mmm)
    requires multiset(head + "." + mmm)[':'] == 2
    ensures TrimTime(head + "." + mmm) == head
    ensures multiset(head)[':'] == 2
  {
    var t := head + "." + mmm;
    assert t == head + ("." + mmm);
    assert t[..|t| - 4] == head;
    DigitsExclude(mmm, ':');
    assert multiset("." + mmm) == multiset(".") + multiset(mmm);
    assert multiset(t) == multiset(head) + multiset("." + mmm);
  }

  /** Under an hour the metric shows the whole duration text. */
  lemma PercentileTimeUnderAnHour(v: int)
    requires 0 <= v < HOUR_MS
    ensures PercentileTime(Some(v)) == MsToStr(Some(v))
  {
    MsToStrColons(v);
  }

  datatype Metric = Metric(title: string, value: string)

  /** `st.metric(f"Top {perc}%", time)` for the field `f`; `None` where
      `int` raises on the title. */
  function MetricOf(f: string, times: map<string, Option<int>>): Option<Metric>
    requires f in times
  {
    match PercentileTitle(f)
    case None => None
    case Some(title) => Some(Metric(title, PercentileTime(times[f])))
  }

  /** The percentile metrics of `fields`, in order; `None` when a title
      cannot be read. */
  function PercentileMetrics(fields: seq<string>, times: map<string, Option<int>>): (r: Option<seq<Metric>>)
    requires forall i | 0 <= i < |fields| :: fields[i] in times
    ensures r.None? <==> exists i | 0 <= i < |fields| :: PercentileTitle(fields[i]).None?
    ensures r.Some? ==> |r.value| == |fields|
    ensures r.Some? ==> forall i | 0 <= i < |fields| ::
      && Some(r.value[i].title) == PercentileTitle(fields[i])
      && r.value[i].value == PercentileTime(times[fields[i]])
  {
    MapAll(fields, f requires f in times => MetricOf(f, times))
  }

  /** `display_percentiles`: one metric per percentile field, then the
      entry count; `None` when `int` raises on a field. */
  function DisplayPercentiles(keys: seq<string>, times: map<string, Option<int>>, entryCount: int): (r: Option<seq<Metric>>)
    requires forall k | k in keys :: k in times
    ensures r.None? <==> exists k | k in keys :: IsPercentileField(k) && PercentileTitle(k).None?
    ensures r.Some? ==> |r.value| == |PercentileFields(keys)| + 1
    ensures r.Some? ==> r.value[|r.value| - 1] == Metric("Entries", IntToString(entryCount))
    ensures r.Some? ==> forall i | 0 <= i < |r.value| - 1 ::
      var f := PercentileFields(keys)[i];
      && IsPercentileField(f) && f in keys
      && Some(r.value[i].title) == PercentileTitle(f)
      && r.value[i].value == PercentileTime(times[f])
  {
    var fields := PercentileFields(keys);
    FieldsInKeys(keys);
    UnreadableField(keys);
    match PercentileMetrics(fields, times)
    case None => None
    case Some(ms) => Some(ms + [Metric("Entries", IntToString(entryCount))])
  }

  lemma FieldsInKeys(keys: seq<string>)
    ensures forall i | 0 <= i < |PercentileFields(keys)| ::
      IsPercentileField(PercentileFields(keys)[i]) && PercentileFields(keys)[i] in keys
  {
    var fields := PercentileFields(keys);
    assert forall i | 0 <= i < |fields| :: fields[i] in fields;
  }

  /** Some percentile field of the keys has an unreadable title exactly
      when one of the selected fields has. */
  lemma UnreadableField(keys: seq<string>)
    ensures (exists k | k in keys :: IsPercentileField(k) && PercentileTitle(k).None?)
        <==> exists i | 0 <= i < |PercentileFields(keys)| :: PercentileTitle(PercentileFields(keys)[i]).None?
  {
    var fields := PercentileFields(keys);
    if k :| k in keys && IsPercentileField(k) && PercentileTitle(k).None? {
      var i :| 0 <= i < |fields| && fields[i] == k;
    }
    if i :| 0 <= i < |fields| && PercentileTitle(fields[i]).None? {
      assert fields[i] in fields;
    }
  }

  // ---------------------------------------------------------------------
  // The ranking rows

  /** A row of the latest snapshot, with its durations in ms. */
  datatype Entry = Entry(
    leaderboard: string,
    rank: int,
    player: string,
    durationMs: Option<int>,
    gapPrevMs: Option<int>,
    gapLeaderMs: Option<int>)

  function Ranked(name: string, topN: int): Entry -> bool {
    (e: Entry) => e.leaderboard == name && e.rank <= topN
  }

  /** Lines 80-82 and 111-113: the rows of leaderboard `name` ranked
      `topN` or better, in snapshot order. */
  function ShownEntries(entries: seq<Entry>, name: string, topN: int): (r: seq<Entry>)
    ensures forall e :: e in r <==> e in entries && e.leaderboard == name && e.rank <= topN
    ensures forall e :: multiset(r)[e] == (if Ranked(name, topN)(e) then multiset(entries)[e] else 0)
    ensures Subsequence(r, entries)
  {
    FilterSubsequence(entries, Ranked(name, topN));
    FilterMembers(entries, Ranked(name, topN));
    FilterCount(entries, Ranked(name, topN));
    Filter(entries, Ranked(name, topN))
  }

  datatype Height = Auto | Pixels(n: int)

  /** One row of the ranking table: Rank, Player, Time, Gap, Gap To
      Leader. */
  datatype Line = Line(rank: int, player: string, time: string, gap: string, gapToLeader: string)

  datatype RankingTable = RankingTable(lines: seq<Line>, height: Height)

  /** A duration cell: empty exactly for a missing duration, otherwise a
      text that reads back as the duration. */
  predicate ShowsTime(text: string, ms: Option<int>) {
    && (text == "" <==> ms.None?)
    && (ms.Some? ==> ParseClock(text) == ms)
  }

  /** A gap cell: empty unless the gap is positive, otherwise `+` followed
      by a text that reads back as the gap. */
  predicate ShowsGap(text: string, ms: Option<int>) {
    && (text != "" <==> ms.Some? && ms.value > 0)
    && (text != "" ==> text[0] == '+' && ParseClock(text[1..]) == ms)
  }

  /** One rendered row: rank and player as they are, the duration and the
      two gaps as their cells show them. */
  predicate Renders(l: Line, e: Entry) {
    && l.rank == e.rank && l.player == e.player
    && ShowsTime(l.time, e.durationMs)
    && ShowsGap(l.gap, e.gapPrevMs)
    && ShowsGap(l.gapToLeader, e.gapLeaderMs)
  }

  /** Lines 116-120: one row with its duration and gaps rendered. */
  function LineOf(e: Entry): (l: Line)
    ensures Renders(l, e)
  {
    MsToStrReadsBack(e.durationMs);
    Line(e.rank, e.player, MsToStr(e.durationMs), GapMsToStr(e.gapPrevMs), GapMsToStr(e.gapLeaderMs))
  }

  /** `display_leaderboard`: the shown rows with their durations rendered,
      at the requested height exactly from 50 rows on. */
  function DisplayLeaderboard(entries: seq<Entry>, name: string, topN: int, height: Height): (t: RankingTable)
    ensures |t.lines| == |ShownEntries(entries, name, topN)|
    ensures forall i | 0 <= i < |t.lines| ::
      var e := ShownEntries(entries, name, topN)[i];
      e in entries && e.leaderboard == name && e.rank <= topN && Renders(t.lines[i], e)
    ensures |t.lines| >= 50 ==> t.height == height
    ensures |t.lines| < 50 ==> t.height == Auto
  {
    var shown := ShownEntries(entries, name, topN);
    assert forall i | 0 <= i < |shown| :: shown[i] in shown;
    var lines := seq(|shown|, i requires 0 <= i < |shown| => LineOf(shown[i]));
    RankingTable(lines, if |shown| >= 50 then height else Auto)
  }

  // ---------------------------------------------------------------------
  // The podium (`display_top3`)

  predicate SortedByRank(s: seq<Entry>) {
    forall i, j | 0 <= i < j < |s| :: s[i].rank <= s[j].rank
  }

  function InsertByRank(e: Entry, s: seq<Entry>): (r: seq<Entry>)
    requires SortedByRank(s)
    ensures SortedByRank(r)
    ensures multiset(r) == multiset(s) + multiset{e}
    ensures |r| == |s| + 1
    ensures r[0] == e || (s != [] && r[0] == s[0])
    decreases |s|
  {
    if s == [] || e.rank <= s[0].rank then
      SortedCons(e, s);
      [e] + s
    else
      var rest := InsertByRank(e, s[1..]);
      assert s == [s[0]] + s[1..];
      SortedCons(s[0], rest);
      [s[0]] + rest
  }

  /** A row no worse ranked than the head of a sorted sequence can go in
      front of it. */
  lemma SortedCons(x: Entry, s: seq<Entry>)
    requires SortedByRank(s) && (s == [] || x.rank <= s[0].rank)
    ensures SortedByRank([x] + s)
  {
    var t := [x] + s;
    forall i, j | 0 <= i < j < |t|
      ensures t[i].rank <= t[j].rank
    {
      if i > 0 {
        assert t[i] == s[i - 1] && t[j] == s[j - 1];
      } else {
        assert t[j] == s[j - 1];
      }
    }
  }

  /** `sort_values("rank")`: the same rows, by rank. Rows of equal rank may
      come in any order in the source; this model keeps them in order. */
  function SortByRank(s: seq<Entry>): (r: seq<Entry>)
    ensures SortedByRank(r)
    ensures multiset(r) == multiset(s)
    ensures |r| == |s|
    decreases |s|
  {
    if s == [] then []
    else
      assert s == [s[0]] + s[1..];
      InsertByRank(s[0], SortByRank(s[1..]))
  }

  const MEDALS: seq<string> := ["\U{1F947}", "\U{1F948}", "\U{1F949}"]

  /** The rows on the podium: the rows of `name` ranked 3 or better, by
      rank, at most three of them (`zip` stops at the three boxes). */
  function PodiumEntries(entries: seq<Entry>, name: string): (r: seq<Entry>)
    ensures |r| == if |ShownEntries(entries, name, 3)| < 3 then |ShownEntries(entries, name, 3)| else 3
    ensures SortedByRank(r)
    ensures forall e | e in r :: e in entries && e.leaderboard == name && e.rank <= 3
    ensures multiset(r) <= multiset(ShownEntries(entries, name, 3))
    ensures forall e, x | e in r && x in multiset(ShownEntries(entries, name, 3)) - multiset(r) :: e.rank <= x.rank
  {
    var shown := ShownEntries(entries, name, 3);
    var sorted := SortByRank(shown);
    var n := if |sorted| < 3 then |sorted| else 3;
    SortedPrefix(shown, sorted, n);
    sorted[..n]
  }

  /** A prefix of a sorted arrangement of `shown` is sorted and takes its
      rows from `shown`. */
  lemma SortedPrefix(shown: seq<Entry>, sorted: seq<Entry>, n: nat)
    requires SortedByRank(sorted) && multiset(sorted) == multiset(shown) && n <= |sorted|
    ensures SortedByRank(sorted[..n])
    ensures multiset(sorted[..n]) <= multiset(shown)
    ensures forall e | e in sorted[..n] :: e in shown
    ensures forall e, x | e in sorted[..n] && x in multiset(shown) - multiset(sorted[..n]) :: e.rank <= x.rank
  {
    var top := sorted[..n];
    assert sorted == top + sorted[n..];
    assert multiset(sorted) == multiset(top) + multiset(sorted[n..]);
    PrefixBeatsRest(sorted, n);
    forall e | e in top
      ensures e in shown
    {
      assert e in multiset(shown);
    }
  }

  /** In a sorted sequence no row of a prefix ranks worse than a row left
      after it. */
  lemma PrefixBeatsRest(sorted: seq<Entry>, n: nat)
    requires SortedByRank(sorted) && n <= |sorted|
    ensures forall e, x | e in sorted[..n] && x in sorted[n..] :: e.rank <= x.rank
  {
    forall e, x | e in sorted[..n] && x in sorted[n..]
      ensures e.rank <= x.rank
    {
      var i :| 0 <= i < n && sorted[..n][i] == e;
      var j :| 0 <= j < |sorted| - n && sorted[n..][j] == x;
      assert sorted[i] == e && sorted[n + j] == x;
    }
  }

  datatype Podium = Podium(medal: string, player: string, time: string)

  /** `display_top3`: gold, silver and bronze boxes with the player and the
      duration text. */
  function DisplayTop3(entries: seq<Entry>, name: string): (r: seq<Podium>)
    ensures |r| <= 3
    ensures |r| == |PodiumEntries(entries, name)|
    ensures forall i | 0 <= i < |r| ::
      var e := PodiumEntries(entries, name)[i];
      r[i].medal == MEDALS[i] && r[i].player == e.player && ShowsTime(r[i].time, e.durationMs)
  {
    var top := PodiumEntries(entries, name);
    seq(|top|, i requires 0 <= i < |top| => PodiumOf(MEDALS[i], top[i]))
  }

  /** One podium box: the medal, the player and a duration text that
      reads back. */
  function PodiumOf(medal: string, e: Entry): (p: Podium)
    ensures p.medal == medal && p.player == e.player
    ensures ShowsTime(p.time, e.durationMs)
  {
    MsToStrReadsBack(e.durationMs);
    Podium(medal, e.player, MsToStr(e.durationMs))
  }
}
