/** utils/prettify.py: column-name prettification and the bucketed
    "... ago" text of a time difference. */
module Prettify {
  import opened Wrappers
  import opened Text

  // ---------------------------------------------------------------------
  // Title case

  /** The case `str.title()` gives one character: a letter after a letter is
      lower-cased, any other letter is upper-cased, everything else is kept. */
  function TitleChar(c: char, afterLetter: bool): (r: char)
    ensures IsLetter(r) <==> IsLetter(c)
  {
    if !IsLetter(c) then c else if afterLetter then ToLower(c) else ToUpper(c)
  }

  /** Python's `str.title()` on ASCII, walking the text left to right;
      `afterLetter` says whether the character before `s` was a letter. */
  function TitleFrom(s: string, afterLetter: bool): (r: string)
    ensures |r| == |s|
    ensures |s| > 0 ==> r[0] == TitleChar(s[0], afterLetter)
    ensures forall i {:trigger r[i]} | 0 < i < |s| :: r[i] == TitleChar(s[i], IsLetter(s[i - 1]))
    decreases |s|
  {
    if s == [] then [] else [TitleChar(s[0], afterLetter)] + TitleFrom(s[1..], IsLetter(s[0]))
  }

  function Title(s: string): (r: string)
    ensures |r| == |s|
    ensures forall i {:trigger r[i]} | 0 <= i < |s| ::
      r[i] == TitleChar(s[i], i > 0 && IsLetter(s[i - 1]))
  {
    TitleFrom(s, false)
  }

  /** The shape `Title` leaves behind: a letter is upper-case exactly when it
      starts a run of letters. */
  predicate IsTitled(s: string) {
    forall i | 0 <= i < |s| && IsLetter(s[i]) ::
      IsUpper(s[i]) <==> (i == 0 || !IsLetter(s[i - 1]))
  }

  lemma TitleIsTitled(s: string)
    ensures IsTitled(Title(s))
  {
    var r := Title(s);
    forall i | 0 <= i < |s| && IsLetter(r[i])
      ensures IsUpper(r[i]) <==> (i == 0 || !IsLetter(r[i - 1]))
    {
      if i > 0 {
        assert r[i - 1] == TitleChar(s[i - 1], i - 1 > 0 && IsLetter(s[i - 2]));
      }
    }
  }

  /** Title-casing a titled text changes nothing. */
  lemma TitleIdempotent(s: string)
    ensures Title(Title(s)) == Title(s)
  {
    var r := Title(s);
    var rr := Title(r);
    forall i | 0 <= i < |s|
      ensures rr[i] == r[i]
    {
      if i > 0 {
        assert r[i - 1] == TitleChar(s[i - 1], i - 1 > 0 && IsLetter(s[i - 2]));
      }
    }
  }

  // ---------------------------------------------------------------------
  // Column names

  /** `prettify_colnames`: snake case to Title Case, `col.replace("_", " ").title()`. */
  function PrettifyColnames(col: string): (r: string)
    ensures |r| == |col|
    ensures '_' !in r
    ensures forall i {:trigger r[i]} | 0 <= i < |col| ::
      r[i] == (if col[i] == '_' then ' ' else TitleChar(col[i], i > 0 && IsLetter(col[i - 1])))
  {
    var spaced := ReplaceChar(col, '_', ' ');
    var r := Title(spaced);
    forall i | 0 <= i < |col|
      ensures r[i] != '_'
    {
      if i > 0 {
        assert IsLetter(spaced[i - 1]) == IsLetter(col[i - 1]);
      }
    }
    r
  }

  /** Prettifying a prettified name changes nothing. */
  lemma PrettifyIdempotent(col: string)
    ensures PrettifyColnames(PrettifyColnames(col)) == PrettifyColnames(col)
  {
    var r := PrettifyColnames(col);
    assert ReplaceChar(r, '_', ' ') == r;
    TitleIdempotent(ReplaceChar(col, '_', ' '));
  }

  lemma PrettifySteamName()
    ensures PrettifyColnames("steam_name") == "Steam Name"
  {
    var r := PrettifyColnames("steam_name");
    assert r[0] == 'S';
    assert r[1] == 't';
    assert r[2] == 'e';
    assert r[3] == 'a';
    assert r[4] == 'm';
    assert r[5] == ' ';
    assert r[6] == 'N';
    assert r[7] == 'a';
    assert r[8] == 'm';
    assert r[9] == 'e';
  }

  // ---------------------------------------------------------------------
  // Time differences

  datatype Unit = Seconds | Minutes | Hours | Days

  /** A time difference as the count and unit `format_delta` shows. */
  datatype Delta = Delta(count: int, unit: Unit)

  function UnitText(u: Unit): string {
    match u
    case Seconds => " seconds ago"
    case Minutes => " minutes ago"
    case Hours => " hour(s) ago"
    case Days => " day(s) ago"
  }

  /** The unit and count `format_delta` picks for a whole number of seconds:
      seconds below a minute (negative differences included), then whole
      minutes, whole hours and whole days. */
  function DeltaOf(seconds: int): (d: Delta)
    ensures d.unit == Seconds <==> seconds < 60
    ensures d.unit == Minutes <==> 60 <= seconds < 3600
    ensures d.unit == Hours <==> 3600 <= seconds < 86400
    ensures d.unit == Seconds ==> d.count == seconds
    ensures d.unit == Minutes ==> 1 <= d.count <= 59 && d.count * 60 <= seconds < d.count * 60 + 60
    ensures d.unit == Hours ==> 1 <= d.count <= 23 && d.count * 3600 <= seconds < d.count * 3600 + 3600
    ensures d.unit == Days ==> 1 <= d.count && d.count * 86400 <= seconds < d.count * 86400 + 86400
  {
    if seconds < 60 then Delta(seconds, Seconds)
    else if seconds < 3600 then Delta(seconds / 60, Minutes)
    else if seconds < 86400 then Delta(seconds / 3600, Hours)
    else Delta(seconds / 86400, Days)
  }

  /** `format_delta`, on the whole seconds `int(td.total_seconds())` gives. */
  function FormatDelta(seconds: int): (r: string)
    ensures ParseDelta(r) == Some(DeltaOf(seconds))
  {
    var d := DeltaOf(seconds);
    var n := IntToString(d.count);
    ParseDeltaOfParts(n, d.count, d.unit);
    n + UnitText(d.unit)
  }

  /** Reads "... ago" text back into its count and unit. */
  function ParseDelta(t: string): Option<Delta> {
    var k := SpaceIndex(t);
    match ParseInt(t[..k])
    case None => None
    case Some(n) =>
      if t[k..] == UnitText(Seconds) then Some(Delta(n, Seconds))
      else if t[k..] == UnitText(Minutes) then Some(Delta(n, Minutes))
      else if t[k..] == UnitText(Hours) then Some(Delta(n, Hours))
      else if t[k..] == UnitText(Days) then Some(Delta(n, Days))
      else None
  }

  /** The index of the first space of `t`, or `|t|` if there is none. */
  function SpaceIndex(t: string): (k: nat)
    ensures k <= |t|
    ensures forall i | 0 <= i < k :: t[i] != ' '
    ensures k < |t| ==> t[k] == ' '
    decreases |t|
  {
    if t == [] || t[0] == ' ' then 0 else 1 + SpaceIndex(t[1..])
  }

  lemma ParseDeltaOfParts(n: string, count: int, u: Unit)
    requires ParseInt(n) == Some(count)
    ensures ParseDelta(n + UnitText(u)) == Some(Delta(count, u))
  {
    var t := n + UnitText(u);
    assert ' ' !in n by {
      forall i | 0 <= i < |n|
        ensures n[i] != ' '
      {
        if n[0] == '-' && i > 0 {
          assert n[i] == n[1..][i - 1];
        }
      }
    }
    assert t[|n|] == ' ';
    assert SpaceIndex(t) == |n|;
    assert t[..|n|] == n;
    assert t[|n|..] == UnitText(u);
  }
}
