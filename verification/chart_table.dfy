/** The table steps of the over-time chart (utils/altair_charts.py): picking
    the time column, keeping the rows of one leaderboard, parsing and
    windowing the timestamps, and melting the duration columns into
    (row, series, value) records.

    A pandas frame is an ordered column list and a sequence of rows, each
    row a map from column name to cell. Timestamps are milliseconds; what
    `pd.to_datetime(..., errors="coerce")` makes of a cell is a parameter
    `parse`, `None` standing for `NaT`. */
module ChartTable {
  import opened Wrappers
  import opened Text
  import opened Seqs
  import opened SeriesLabels

  /** A cell: missing (`NaN`/`None`), a number, a text, or a parsed
      timestamp in milliseconds. */
  datatype Value = Missing | Num(n: int) | Str(s: string) | Stamp(ms: int)

  type Row = map<string, Value>

  datatype Table = Table(columns: seq<string>, rows: seq<Row>)

  /** What `pd.to_datetime` makes of one cell. */
  type Parser = Value -> Option<int>

  /** The cell of `row` in column `col`; a row without the column reads as
      missing. */
  function Cell(row: Row, col: string): Value {
    if col in row then row[col] else Missing
  }

  // ---------------------------------------------------------------------
  // `_find_time_column`

  const TIME_CANDIDATES: seq<string> :=
    ["minute_ts", "fetched_at", "timestamp", "time", "datetime", "date"]

  /** `ser.notna().any()` after parsing column `col`. */
  function AnyParses(rows: seq<Row>, col: string, parse: Parser): (b: bool)
    ensures b <==> exists i | 0 <= i < |rows| :: parse(Cell(rows[i], col)).Some?
    decreases |rows|
  {
    if rows == [] then false
    else if parse(Cell(rows[0], col)).Some? then true
    else
      var b := AnyParses(rows[1..], col, parse);
      assert forall i | 1 <= i < |rows| :: rows[i] == rows[1..][i - 1];
      b
  }

  /** A candidate the function accepts: a column of the frame with at least
      one parseable cell. */
  predicate Qualifies(t: Table, parse: Parser, col: string) {
    col in t.columns && AnyParses(t.rows, col, parse)
  }

  function FirstQualifyingIndex(t: Table, parse: Parser, cands: seq<string>): (k: nat)
    ensures k <= |cands|
    ensures forall j | 0 <= j < k :: !Qualifies(t, parse, cands[j])
    ensures k < |cands| ==> Qualifies(t, parse, cands[k])
    decreases |cands|
  {
    if cands == [] || Qualifies(t, parse, cands[0]) then 0
    else 1 + FirstQualifyingIndex(t, parse, cands[1..])
  }

  /** `_find_time_column`: the first candidate, in preference order, that
      qualifies; `None` exactly when none does. */
  function FindTimeColumn(t: Table, parse: Parser): (r: Option<string>)
    ensures r.None? <==> forall j | 0 <= j < |TIME_CANDIDATES| :: !Qualifies(t, parse, TIME_CANDIDATES[j])
    ensures r.Some? ==> exists k | 0 <= k < |TIME_CANDIDATES| ::
      && TIME_CANDIDATES[k] == r.value
      && Qualifies(t, parse, r.value)
      && forall j | 0 <= j < k :: !Qualifies(t, parse, TIME_CANDIDATES[j])
  {
    var k := FirstQualifyingIndex(t, parse, TIME_CANDIDATES);
    if k < |TIME_CANDIDATES| then Some(TIME_CANDIDATES[k]) else None
  }

  /** None of the candidates ends in `_ms`, so the time column is never one
      of the melted duration columns. */
  lemma TimeColumnNotMeasure(col: string)
    requires col in TIME_CANDIDATES
    ensures !EndsWith(col, "_ms")
  {
  }

  // ---------------------------------------------------------------------
  // Leaderboard filter

  function OfLeaderboard(name: string): Row -> bool {
    (row: Row) => Cell(row, "leaderboard_name") == Str(name)
  }

  /** `df[df["leaderboard_name"] == leaderboard_name]`. */
  function SelectLeaderboard(t: Table, name: string): (r: Table)
    ensures r.columns == t.columns
    ensures forall i | 0 <= i < |r.rows| :: Cell(r.rows[i], "leaderboard_name") == Str(name)
    ensures forall row :: row in r.rows <==> row in t.rows && Cell(row, "leaderboard_name") == Str(name)
    ensures forall row :: multiset(r.rows)[row] == (if Cell(row, "leaderboard_name") == Str(name) then multiset(t.rows)[row] else 0)
    ensures Subsequence(r.rows, t.rows)
  {
    FilterSubsequence(t.rows, OfLeaderboard(name));
    FilterMembers(t.rows, OfLeaderboard(name));
    FilterCount(t.rows, OfLeaderboard(name));
    Table(t.columns, Filter(t.rows, OfLeaderboard(name)))
  }

  // ---------------------------------------------------------------------
  // Parsing and the two-week window

  /** A row whose time cell parsed, with the parsed timestamp written back
      into that cell. */
  datatype TimedRow = TimedRow(ts: int, row: Row)

  /** A row whose cell in `col` parses as a timestamp. */
  function TimeParses(col: string, parse: Parser): Row -> bool {
    (row: Row) => parse(Cell(row, col)).Some?
  }

  /** `tr` is `row` with its time cell parsed as `tr.ts` and the parsed
      timestamp written back into that cell. */
  predicate ParsedRow(tr: TimedRow, row: Row, col: string, parse: Parser) {
    parse(Cell(row, col)) == Some(tr.ts) && tr.row == row[col := Stamp(tr.ts)]
  }

  /** `tr` is the parsed form of some row of `rows`. */
  predicate ParsedFromSome(tr: TimedRow, rows: seq<Row>, col: string, parse: Parser) {
    exists i | 0 <= i < |rows| :: ParsedRow(tr, rows[i], col, parse)
  }

  /** `r` holds, one for one and in order, the parsed rows of `kept`. */
  predicate ParsedFrom(r: seq<TimedRow>, kept: seq<Row>, col: string, parse: Parser) {
    |r| == |kept| && forall k | 0 <= k < |r| :: ParsedRow(r[k], kept[k], col, parse)
  }

  /** `sdf[col] = pd.to_datetime(sdf[col])` followed by
      `sdf.dropna(subset=[col])`: rows whose time cell does not parse are
      dropped, the others are kept, in order, and carry the parsed
      timestamp. */
  function ParseTimes(rows: seq<Row>, col: string, parse: Parser): (r: seq<TimedRow>)
    ensures |r| <= |rows|
    ensures forall k | 0 <= k < |r| :: col in r[k].row && r[k].row[col] == Stamp(r[k].ts)
    ensures ParsedFrom(r, Filter(rows, TimeParses(col, parse)), col, parse)
    ensures forall k | 0 <= k < |r| :: ParsedFromSome(r[k], rows, col, parse)
    ensures r == [] <==> !AnyParses(rows, col, parse)
    decreases |rows|
  {
    if rows == [] then []
    else
      var rest := ParseTimes(rows[1..], col, parse);
      var r := match parse(Cell(rows[0], col))
        case None => rest
        case Some(ts) => [TimedRow(ts, rows[0][col := Stamp(ts)])] + rest;
      ParseStep(rows, col, parse, rest, r);
      FilterMembers(rows, TimeParses(col, parse));
      ParsedFromRows(r, Filter(rows, TimeParses(col, parse)), rows, col, parse);
      r
  }

  /** One step of `ParseTimes`: the contract holds of the result built from
      the first row and the parse of the others. */
  lemma ParseStep(rows: seq<Row>, col: string, parse: Parser, rest: seq<TimedRow>, r: seq<TimedRow>)
    requires rows != []
    requires ParsedFrom(rest, Filter(rows[1..], TimeParses(col, parse)), col, parse)
    requires rest == [] <==> !AnyParses(rows[1..], col, parse)
    requires r == match parse(Cell(rows[0], col))
      case None => rest
      case Some(ts) => [TimedRow(ts, rows[0][col := Stamp(ts)])] + rest
    ensures ParsedFrom(r, Filter(rows, TimeParses(col, parse)), col, parse)
    ensures r == [] <==> !AnyParses(rows, col, parse)
  {
    var p := TimeParses(col, parse);
    var kept := Filter(rows[1..], p);
    match parse(Cell(rows[0], col))
    case None =>
      assert Filter(rows, p) == kept;
    case Some(ts) =>
      assert Filter(rows, p) == [rows[0]] + kept;
      ParsedFromCons(TimedRow(ts, rows[0][col := Stamp(ts)]), rows[0], rest, kept, col, parse);
  }

  /** Parsing one more row in front parses it in front. */
  lemma ParsedFromCons(tr: TimedRow, row: Row, rest: seq<TimedRow>, kept: seq<Row>, col: string, parse: Parser)
    requires ParsedRow(tr, row, col, parse) && ParsedFrom(rest, kept, col, parse)
    ensures ParsedFrom([tr] + rest, [row] + kept, col, parse)
  {
    var r := [tr] + rest;
    var k := [row] + kept;
    forall j | 0 <= j < |r|
      ensures ParsedRow(r[j], k[j], col, parse)
    {
      if j > 0 {
        assert r[j] == rest[j - 1] && k[j] == kept[j - 1];
      }
    }
  }

  /** Every parsed row comes from an input row whose time cell parses. */
  lemma ParsedFromRows(r: seq<TimedRow>, kept: seq<Row>, rows: seq<Row>, col: string, parse: Parser)
    requires ParsedFrom(r, kept, col, parse)
    requires |kept| <= |rows| && forall x | x in kept :: x in rows
    ensures |r| <= |rows|
    ensures forall k | 0 <= k < |r| :: col in r[k].row && r[k].row[col] == Stamp(r[k].ts)
    ensures forall k | 0 <= k < |r| :: ParsedFromSome(r[k], rows, col, parse)
  {
    forall k | 0 <= k < |r|
      ensures col in r[k].row && r[k].row[col] == Stamp(r[k].ts)
    {
      assert ParsedRow(r[k], kept[k], col, parse);
    }
    forall k | 0 <= k < |r|
      ensures ParsedFromSome(r[k], rows, col, parse)
    {
      assert kept[k] in kept;
      var i :| 0 <= i < |rows| && rows[i] == kept[k];
      assert ParsedRow(r[k], kept[k], col, parse);
      assert ParsedRow(r[k], rows[i], col, parse);
    }
  }

  /** Fourteen days, `pd.Timedelta(days=14)`, in milliseconds. */
  const WINDOW_MS: int := 1209600000

  /** `sdf[time_col].max()`. */
  function MaxTs(trs: seq<TimedRow>): (m: int)
    requires trs != []
    ensures forall i | 0 <= i < |trs| :: trs[i].ts <= m
    ensures exists i | 0 <= i < |trs| :: trs[i].ts == m
    decreases |trs|
  {
    if |trs| == 1 then trs[0].ts
    else
      var m := MaxTs(trs[1..]);
      assert forall i | 1 <= i < |trs| :: trs[i] == trs[1..][i - 1];
      if trs[0].ts >= m then trs[0].ts else m
  }

  function Recent(cutoff: int): TimedRow -> bool {
    (tr: TimedRow) => tr.ts >= cutoff
  }

  /** `sdf[sdf[time_col] >= max_ts - 14 days]`. */
  function Window(trs: seq<TimedRow>): (r: seq<TimedRow>)
    requires trs != []
    ensures forall i | 0 <= i < |r| :: MaxTs(trs) - WINDOW_MS <= r[i].ts <= MaxTs(trs)
    ensures forall tr :: tr in r <==> tr in trs && tr.ts >= MaxTs(trs) - WINDOW_MS
    ensures forall tr :: multiset(r)[tr] == if tr.ts >= MaxTs(trs) - WINDOW_MS then multiset(trs)[tr] else 0
    ensures Subsequence(r, trs)
  {
    FilterSubsequence(trs, Recent(MaxTs(trs) - WINDOW_MS));
    var r := Filter(trs, Recent(MaxTs(trs) - WINDOW_MS));
    FilterMembers(trs, Recent(MaxTs(trs) - WINDOW_MS));
    FilterCount(trs, Recent(MaxTs(trs) - WINDOW_MS));
    forall i | 0 <= i < |r|
      ensures r[i].ts <= MaxTs(trs)
    {
      assert r[i] in trs;
    }
    r
  }

  /** The newest row is never outside its own window, so windowing a
      non-empty frame leaves it non-empty. */
  lemma WindowKeepsNewest(trs: seq<TimedRow>)
    requires trs != []
    ensures Window(trs) != []
    ensures exists i | 0 <= i < |Window(trs)| :: Window(trs)[i].ts == MaxTs(trs)
  {
    var i :| 0 <= i < |trs| && trs[i].ts == MaxTs(trs);
    assert trs[i] in Window(trs);
  }

  /** Any two rows of a window are at most fourteen days apart. */
  lemma WindowSpan(trs: seq<TimedRow>)
    requires trs != []
    ensures forall i, j | 0 <= i < |Window(trs)| && 0 <= j < |Window(trs)| ::
      Window(trs)[i].ts - Window(trs)[j].ts <= WINDOW_MS
  {
  }

  // ---------------------------------------------------------------------
  // `_melt_measure_columns`

  /** One long-format record: the timestamp of its row, the identifier
      cells, the series label and the duration cell. */
  datatype Record = Record(ts: int, ids: Row, series: string, value: Value)

  predicate IsMeasure(col: string) {
    EndsWith(col, "_ms")
  }

  /** `[c for c in df.columns if c.endswith("_ms")]`. */
  function MeasureColumns(cols: seq<string>): (ms: seq<string>)
    ensures forall c :: c in ms <==> c in cols && IsMeasure(c)
    ensures forall c :: multiset(ms)[c] == if IsMeasure(c) then multiset(cols)[c] else 0
    ensures Subsequence(ms, cols)
  {
    FilterMembers(cols, IsMeasure);
    FilterCount(cols, IsMeasure);
    FilterSubsequence(cols, IsMeasure);
    Filter(cols, IsMeasure)
  }

  /** `str.replace("_ms$", "", regex=True)`: drops one trailing `_ms`. */
  function DropMsSuffix(col: string): (r: string)
    ensures IsMeasure(col) ==> r + "_ms" == col
    ensures !IsMeasure(col) ==> r == col
  {
    if IsMeasure(col) then col[..|col| - 3] else col
  }

  /** The label a duration column is drawn under. */
  function ColumnLabel(col: string): string {
    StandardizeSeriesLabel(DropMsSuffix(col))
  }

  /** The labelling the melt applies to a column name. */
  type Labeller = string -> string

  /** The record `df.melt` makes of row `i` and duration column `col`: the
      identifier columns are every column but the duration ones, and the
      series is the column's label (`ColumnLabel` in the chart). */
  function MeltCell(trs: seq<TimedRow>, ms: seq<string>, labelOf: Labeller, col: string, i: nat): (r: Record)
    requires i < |trs|
    ensures r.ts == trs[i].ts && r.value == Cell(trs[i].row, col) && r.series == labelOf(col)
    ensures forall c :: c in r.ids <==> c in trs[i].row && c !in ms
    ensures forall c | c in r.ids :: r.ids[c] == trs[i].row[c]
  {
    Record(trs[i].ts, trs[i].row - (set c | c in ms), labelOf(col), Cell(trs[i].row, col))
  }

  /** `df.melt(value_vars=cols)`: the records of the first column for every
      row, then those of the next column, and so on. */
  function Melt(trs: seq<TimedRow>, ms: seq<string>, labelOf: Labeller, cols: seq<string>): (r: seq<Record>)
    ensures |r| == |cols| * |trs|
    decreases |cols|
  {
    if cols == [] then []
    else MeltColumn(trs, ms, labelOf, cols[0]) + Melt(trs, ms, labelOf, cols[1..])
  }

  /** The records of one column, row by row. */
  function MeltColumn(trs: seq<TimedRow>, ms: seq<string>, labelOf: Labeller, col: string): (r: seq<Record>)
    ensures |r| == |trs|
    ensures forall i | 0 <= i < |trs| :: r[i] == MeltCell(trs, ms, labelOf, col, i)
  {
    seq(|trs|, i requires 0 <= i < |trs| => MeltCell(trs, ms, labelOf, col, i))
  }

  /** Record `j * |trs| + i` of the melt is row `i` under column `j`: one
      record per (row, duration column) pair, and no other. */
  lemma {:induction false} MeltIndex(trs: seq<TimedRow>, ms: seq<string>, labelOf: Labeller, cols: seq<string>, j: nat, i: nat)
    requires j < |cols| && i < |trs|
    ensures j * |trs| + i < |Melt(trs, ms, labelOf, cols)|
    ensures Melt(trs, ms, labelOf, cols)[j * |trs| + i] == MeltCell(trs, ms, labelOf, cols[j], i)
    decreases j
  {
    var n := |trs|;
    var idx := j * n + i;
    var head := MeltColumn(trs, ms, labelOf, cols[0]);
    var tail := Melt(trs, ms, labelOf, cols[1..]);
    assert Melt(trs, ms, labelOf, cols) == head + tail;
    MulLess(j, |cols|, n, i);
    if j == 0 {
      assert idx == i;
      assert (head + tail)[i] == head[i];
    } else {
      var k := (j - 1) * n + i;
      MulPred(j, n);
      assert idx == n + k;
      MeltIndex(trs, ms, labelOf, cols[1..], j - 1, i);
      assert tail[k] == MeltCell(trs, ms, labelOf, cols[j], i) by {
        assert cols[1..][j - 1] == cols[j];
      }
      assert (head + tail)[n + k] == tail[k];
    }
  }

  lemma {:induction false} MulLess(j: nat, c: nat, n: nat, i: nat)
    requires j < c && i < n
    ensures j * n + i < c * n
    decreases c
  {
    MulPred(c, n);
    if j < c - 1 {
      MulLess(j, c - 1, n, i);
    }
  }

  lemma MulPred(j: nat, n: nat)
    requires j > 0
    ensures j * n == (j - 1) * n + n
  {
  }

  /** Every record of a melt comes from one row and one column. */
  lemma {:induction false} MeltSource(trs: seq<TimedRow>, ms: seq<string>, labelOf: Labeller, cols: seq<string>, k: nat)
    requires k < |Melt(trs, ms, labelOf, cols)|
    ensures exists j, i | 0 <= j < |cols| && 0 <= i < |trs| ::
      Melt(trs, ms, labelOf, cols)[k] == MeltCell(trs, ms, labelOf, cols[j], i)
    decreases |cols|
  {
    var n := |trs|;
    var head := MeltColumn(trs, ms, labelOf, cols[0]);
    var tail := Melt(trs, ms, labelOf, cols[1..]);
    assert Melt(trs, ms, labelOf, cols) == head + tail;
    if k < n {
      assert Melt(trs, ms, labelOf, cols)[k] == MeltCell(trs, ms, labelOf, cols[0], k);
    } else {
      MeltSource(trs, ms, labelOf, cols[1..], k - n);
      var j, i :| 0 <= j < |cols[1..]| && 0 <= i < |trs| && tail[k - n] == MeltCell(trs, ms, labelOf, cols[1..][j], i);
      assert cols[1..][j] == cols[j + 1];
      assert Melt(trs, ms, labelOf, cols)[k] == MeltCell(trs, ms, labelOf, cols[j + 1], i);
    }
  }

  /** The single-series record of row `i`: the whole row, the series
      "duration" standardised, and the value column's cell. */
  function SingleRecord(trs: seq<TimedRow>, valueCol: string, i: nat): (r: Record)
    requires i < |trs|
    ensures r.ts == trs[i].ts && r.ids == trs[i].row && r.value == Cell(trs[i].row, valueCol)
  {
    Record(trs[i].ts, trs[i].row, StandardizeSeriesLabel("duration"), Cell(trs[i].row, valueCol))
  }

  /** `_melt_measure_columns`. With two or more duration columns, their
      melt; with one, the rows themselves under a single series; with none,
      nothing (the source's `(None, None, None)`). */
  function MeltMeasureColumns(cols: seq<string>, trs: seq<TimedRow>): (r: Option<seq<Record>>)
    ensures r.None? <==> forall c | c in cols :: !IsMeasure(c)
    ensures r.Some? && |MeasureColumns(cols)| > 1 ==>
      r.value == Melt(trs, MeasureColumns(cols), ColumnLabel, MeasureColumns(cols))
    ensures r.Some? ==> |r.value| == |trs| * (if |MeasureColumns(cols)| > 1 then |MeasureColumns(cols)| else 1)
  {
    var ms := MeasureColumns(cols);
    if |ms| > 1 then Some(Melt(trs, ms, ColumnLabel, ms))
    else
      var valueCol := if "duration_ms" in cols then Some("duration_ms") else if ms != [] then Some(ms[0]) else None;
      match valueCol
      case None => None
      case Some(vc) =>
        assert IsMeasure(vc) && vc in cols;
        Some(seq(|trs|, i requires 0 <= i < |trs| => SingleRecord(trs, vc, i)))
  }

  /** With exactly one duration column, every row gives one record, labelled
      "Duration", holding that column's cell. */
  lemma SingleMeasure(cols: seq<string>, trs: seq<TimedRow>)
    requires |MeasureColumns(cols)| == 1
    ensures var r := MeltMeasureColumns(cols, trs);
      && r.Some? && |r.value| == |trs|
      && forall i | 0 <= i < |trs| ::
           r.value[i] == Record(trs[i].ts, trs[i].row, "Duration", Cell(trs[i].row, MeasureColumns(cols)[0]))
  {
    var ms := MeasureColumns(cols);
    assert ms[0] in ms;
    var vc := ms[0];
    assert vc in ms;
    if "duration_ms" in cols {
      assert "duration_ms" in ms;
      assert ms == [vc];
    }
    var single := seq(|trs|, i requires 0 <= i < |trs| => SingleRecord(trs, vc, i));
    assert MeltMeasureColumns(cols, trs) == Some(single);
    DurationLabel();
  }

  /** Some row of `trs` has timestamp `ts`. */
  predicate RowTime(trs: seq<TimedRow>, ts: int) {
    exists i | 0 <= i < |trs| :: trs[i].ts == ts
  }

  /** Melting invents no timestamps: every record carries the timestamp
      of one of the rows. */
  lemma MeltTimes(cols: seq<string>, trs: seq<TimedRow>)
    ensures MeltMeasureColumns(cols, trs).Some? ==>
      forall k | 0 <= k < |MeltMeasureColumns(cols, trs).value| ::
        RowTime(trs, MeltMeasureColumns(cols, trs).value[k].ts)
  {
    var r := MeltMeasureColumns(cols, trs);
    var ms := MeasureColumns(cols);
    if r.Some? {
      forall k | 0 <= k < |r.value|
        ensures RowTime(trs, r.value[k].ts)
      {
        if |ms| > 1 {
          MeltSource(trs, ms, ColumnLabel, ms, k);
          var j, i :| 0 <= j < |ms| && 0 <= i < |trs| && Melt(trs, ms, ColumnLabel, ms)[k] == MeltCell(trs, ms, ColumnLabel, ms[j], i);
          assert r.value[k].ts == trs[i].ts;
        } else {
          var vc := if "duration_ms" in cols then "duration_ms" else ms[0];
          assert r.value == seq(|trs|, i requires 0 <= i < |trs| => SingleRecord(trs, vc, i));
          assert r.value[k].ts == trs[k].ts;
        }
      }
    }
  }

  // ---------------------------------------------------------------------
  // Hiding "Top 100"

  function NotTop100(r: Record): bool {
    r.series != "Top 100"
  }

  /** `melted[melted["series"] != "Top 100"]` when hiding, the records
      unchanged otherwise. */
  function HideTop100(recs: seq<Record>, dropTop100: bool): (r: seq<Record>)
    ensures !dropTop100 ==> r == recs
    ensures dropTop100 ==> forall x :: x in r <==> x in recs && x.series != "Top 100"
    ensures dropTop100 ==> forall x :: multiset(r)[x] == if x.series == "Top 100" then 0 else multiset(recs)[x]
    ensures Subsequence(r, recs)
  {
    if dropTop100 then
      FilterSubsequence(recs, NotTop100);
      FilterMembers(recs, NotTop100);
      FilterCount(recs, NotTop100);
      Filter(recs, NotTop100)
    else
      SubsequenceOfSelf(recs);
      recs
  }
}
