/** The series labels of the over-time chart (utils/altair_charts.py):
    a raw duration-column name is mapped to a "Top N" label by a cascade of
    substring and suffix tests, tier 1 first, and each label gets a colour
    and a dash pattern. */
module SeriesLabels {
  import opened Wrappers
  import opened Text
  import opened Prettify
  import Constants

  /** `str(raw).strip().replace("-", " ").replace(".", " ")`: stripping comes
      first, so a trailing `-` or `.` leaves a trailing space behind. */
  function Normalize(raw: string): (s: string)
    ensures |s| <= |raw|
    ensures Blanked(Strip(raw), s)
    ensures '-' !in s && '.' !in s
  {
    var t := Strip(raw);
    BlankBoth(t);
    ReplaceChar(ReplaceChar(t, '-', ' '), '.', ' ')
  }

  /** `s` is `t` with every `-` and `.` turned into a space. */
  predicate Blanked(t: string, s: string) {
    && |s| == |t|
    && forall i | 0 <= i < |t| :: s[i] == if t[i] == '-' || t[i] == '.' then ' ' else t[i]
  }

  /** The two replacements together blank `-` and `.` and leave neither. */
  lemma BlankBoth(t: string)
    ensures Blanked(t, ReplaceChar(ReplaceChar(t, '-', ' '), '.', ' '))
    ensures var s := ReplaceChar(ReplaceChar(t, '-', ' '), '.', ' '); '-' !in s && '.' !in s
  {
    var s := ReplaceChar(ReplaceChar(t, '-', ' '), '.', ' ');
    assert Blanked(t, s);
  }

  /** The tests of one tier `n` on the lower-cased name: one of the tokens
      `topN`, `top N`, `rankN`, `rank N`, `rN`, `N ` occurs in it, or it
      ends in ` N` or in `N`. */
  predicate MatchesTier(low: string, n: string) {
    || Contains(low, "top" + n) || Contains(low, "top " + n)
    || Contains(low, "rank" + n) || Contains(low, "rank " + n)
    || Contains(low, "r" + n) || Contains(low, n + " ")
    || EndsWith(low, " " + n) || EndsWith(low, n)
  }

  /** The tier cascade of `_standardize_series_label`, branch for branch,
      on the lower-cased normalised name: tier 1 first, then 2, 3, 10 and 100. */
  function TierOf(low: string): (r: Option<string>)
    ensures r.Some? ==> r.value in TIERS && MatchesTier(low, r.value)
  {
    if MatchesTier(low, "1") then Some("1")
    else if MatchesTier(low, "2") then Some("2")
    else if MatchesTier(low, "3") then Some("3")
    else if MatchesTier(low, "10") then Some("10")
    else if MatchesTier(low, "100") then Some("100")
    else None
  }

  /** `_standardize_series_label`: "Top N" for the tier the cascade picks,
      otherwise the prettified normalised name. */
  function StandardizeSeriesLabel(raw: string): (r: string)
    ensures r in TIER_LABELS <==> TierOf(Lower(Normalize(raw))).Some?
    ensures TierOf(Lower(Normalize(raw))).Some? ==> r == "Top " + TierOf(Lower(Normalize(raw))).value
    ensures TierOf(Lower(Normalize(raw))).None? ==> r == PrettifyColnames(Normalize(raw))
  {
    var s := Normalize(raw);
    match TierOf(Lower(s))
    case Some(n) => TierLabels(); "Top " + n
    case None => FallbackIsNoTier(s); PrettifyColnames(s)
  }

  /** The tiers in the order the heuristic tries them. */
  const TIERS: seq<string> := ["1", "2", "3", "10", "100"]

  const TIER_LABELS: set<string> := {"Top 1", "Top 2", "Top 3", "Top 10", "Top 100"}

  /** The tier labels are "Top " followed by a tier, and nothing else. */
  lemma TierLabels()
    ensures forall n | n in TIERS :: "Top " + n in TIER_LABELS
    ensures forall r | r in TIER_LABELS :: exists j | 0 <= j < |TIERS| :: r == "Top " + TIERS[j]
  {
    assert "Top " + "1" == "Top 1";
    assert "Top " + "2" == "Top 2";
    assert "Top " + "3" == "Top 3";
    assert "Top " + "10" == "Top 10";
    assert "Top " + "100" == "Top 100";
    forall r | r in TIER_LABELS
      ensures exists j | 0 <= j < |TIERS| :: r == "Top " + TIERS[j]
    {
      if r == "Top 1" { assert r == "Top " + TIERS[0]; }
      else if r == "Top 2" { assert r == "Top " + TIERS[1]; }
      else if r == "Top 3" { assert r == "Top " + TIERS[2]; }
      else if r == "Top 10" { assert r == "Top " + TIERS[3]; }
      else { assert r == "Top " + TIERS[4]; }
    }
  }

  /** The same heuristic written as an ordered rule table: the position of
      the first tier of `tiers` whose tests match, `|tiers|` if none does. */
  function FirstTierIndex(low: string, tiers: seq<string>): (k: nat)
    ensures k <= |tiers|
    ensures forall j | 0 <= j < k :: !MatchesTier(low, tiers[j])
    ensures k < |tiers| ==> MatchesTier(low, tiers[k])
    decreases |tiers|
  {
    if tiers == [] || MatchesTier(low, tiers[0]) then 0
    else 1 + FirstTierIndex(low, tiers[1..])
  }

  /** The first matching tier of the table, if any. */
  function FirstTier(low: string, tiers: seq<string>): (r: Option<string>)
    ensures r.None? <==> forall j | 0 <= j < |tiers| :: !MatchesTier(low, tiers[j])
    ensures r.Some? ==> r.value in tiers && MatchesTier(low, r.value)
  {
    var k := FirstTierIndex(low, tiers);
    if k < |tiers| then Some(tiers[k]) else None
  }

  /** The cascade is the rule table read in the source's order: it picks the
      first matching tier, and no tier exactly when none matches. */
  lemma TierOfIsFirstTier(low: string)
    ensures TierOf(low) == FirstTier(low, TIERS)
  {
    var k := FirstTierIndex(low, TIERS);
    if k < |TIERS| {
      assert k == 0 || !MatchesTier(low, TIERS[0]);
    }
  }

  /** A prettified name reading "Top N" comes from a name ending in N. */
  lemma PrettyTopEndsInTier(s: string, n: string)
    requires AllDigits(n) && PrettifyColnames(s) == "Top " + n
    ensures EndsWith(Lower(s), n)
  {
    var low := Lower(s);
    var r := PrettifyColnames(s);
    forall i | |s| - |n| <= i < |s|
      ensures low[i] == n[i - (|s| - |n|)]
    {
      assert r[i] == n[i - (|s| - |n|)];
      assert IsDigit(r[i]);
    }
    assert low[|low| - |n|..] == n;
  }

  lemma TierLabelEndsInTier(s: string) returns (j: nat)
    requires PrettifyColnames(s) in TIER_LABELS
    ensures j < |TIERS| && EndsWith(Lower(s), TIERS[j])
  {
    TierLabels();
    j :| 0 <= j < |TIERS| && PrettifyColnames(s) == "Top " + TIERS[j];
    PrettyTopEndsInTier(s, TIERS[j]);
  }

  lemma EndingMatches(low: string, n: string)
    requires EndsWith(low, n)
    ensures MatchesTier(low, n)
  {
  }

  /** A prettified name never reads as a tier label when no tier matched:
      "Top N" ends in N, and a name ending in N matches tier N. */
  lemma FallbackIsNoTier(s: string)
    requires TierOf(Lower(s)).None?
    ensures PrettifyColnames(s) !in TIER_LABELS
  {
    if PrettifyColnames(s) in TIER_LABELS {
      var j := TierLabelEndsInTier(s);
      EndingMatches(Lower(s), TIERS[j]);
      TierOfIsFirstTier(Lower(s));
      assert false;
    }
  }

  /** Tier 1 is tested first, and its token `top1` is a prefix of `top10`
      and `top100`: any name whose lower-cased form contains `top1` is tier 1. */
  lemma Top1Shadows(low: string)
    requires Contains(low, "top1")
    ensures TierOf(low) == Some("1")
  {
    assert "top" + "1" == "top1";
  }

  /** Likewise any name whose lower-cased form ends in `1`. */
  lemma EndingInOneIsTop1(low: string)
    requires EndsWith(low, "1")
    ensures TierOf(low) == Some("1")
  {
  }

  /** A name without surrounding whitespace, `-`, `.` or upper-case
      letters is its own lower-cased normal form. */
  lemma NormalizeClean(raw: string)
    requires raw != [] && !IsSpace(raw[0]) && !IsSpace(raw[|raw| - 1])
    requires '-' !in raw && '.' !in raw
    requires forall i | 0 <= i < |raw| :: !IsUpper(raw[i])
    ensures Normalize(raw) == raw && Lower(raw) == raw
  {
    NormalizeUnpadded(raw);
    LowerUnchanged(raw);
  }

  /** A name with no surrounding whitespace, `-` or `.` is its own normal
      form. */
  lemma NormalizeUnpadded(raw: string)
    requires raw != [] && !IsSpace(raw[0]) && !IsSpace(raw[|raw| - 1])
    requires '-' !in raw && '.' !in raw
    ensures Normalize(raw) == raw
  {
    StripUnpadded(raw);
    BlankedUnchanged(raw, Normalize(raw));
  }

  /** Blanking a text without `-` or `.` changes nothing. */
  lemma BlankedUnchanged(t: string, s: string)
    requires Blanked(t, s) && '-' !in t && '.' !in t
    ensures s == t
  {
    forall i | 0 <= i < |t|
      ensures s[i] == t[i]
    {
      assert t[i] != '-' && t[i] != '.';
    }
  }

  /** Lower-casing a text without upper-case letters changes nothing. */
  lemma LowerUnchanged(t: string)
    requires forall i | 0 <= i < |t| :: !IsUpper(t[i])
    ensures Lower(t) == t
  {
  }

  /** The column "top100" is drawn as "Top 1": its `top1` token wins before
      tier 100 is ever tried. */
  lemma Top100ColumnIsTop1()
    ensures StandardizeSeriesLabel("top100") == "Top 1"
  {
    Top100IsClean();
    NormalizeClean("top100");
    NormalTop1Label("top100");
  }

  /** A name that is its own lower-cased normal form and holds `top1` is
      labelled "Top 1". */
  lemma NormalTop1Label(raw: string)
    requires Lower(Normalize(raw)) == raw
    requires Contains(raw, "top1")
    ensures StandardizeSeriesLabel(raw) == "Top 1"
  {
    TopOneText();
    assert TierOf(Lower(Normalize(raw))) == Some("1") by { Top1Shadows(raw); }
  }

  /** The label of tier 1, spelled out. */
  lemma TopOneText()
    ensures "Top " + "1" == "Top 1"
  {
  }

  lemma Top100IsClean()
    ensures var raw := "top100";
      && raw != [] && !IsSpace(raw[0]) && !IsSpace(raw[|raw| - 1])
      && '-' !in raw && '.' !in raw
      && (forall i | 0 <= i < |raw| :: !IsUpper(raw[i]))
      && Contains(raw, "top1")
  {
    var raw := "top100";
    assert raw[0..4] == "top1";
    ContainsAt(raw, "top1", 0);
  }

  predicate DigitFree(s: string) {
    forall i | 0 <= i < |s| :: !IsDigit(s[i])
  }

  /** A text without digits contains no text that has one. */
  lemma DigitFreeContains(s: string, t: string, p: nat)
    requires DigitFree(s) && p < |t| && IsDigit(t[p])
    ensures !Contains(s, t) && !EndsWith(s, t)
  {
    if Contains(s, t) {
      var k := ContainsWitness(s, t);
      assert false;
    }
    if EndsWith(s, t) {
      assert false;
    }
  }

  /** A tier token always holds a digit, so a digit-free name matches no
      tier. */
  lemma DigitFreeMatchesNoTier(low: string, n: string)
    requires DigitFree(low) && n != [] && IsDigit(n[0])
    ensures !MatchesTier(low, n)
  {
    DigitFreeContains(low, "top" + n, 3);
    DigitFreeContains(low, "top " + n, 4);
    DigitFreeContains(low, "rank" + n, 4);
    DigitFreeContains(low, "rank " + n, 5);
    DigitFreeContains(low, "r" + n, 1);
    DigitFreeContains(low, n + " ", 0);
    DigitFreeContains(low, " " + n, 1);
    DigitFreeContains(low, n, 0);
  }

  lemma DigitFreeNoTier(low: string)
    requires DigitFree(low)
    ensures TierOf(low).None?
  {
    DigitFreeMatchesNoTier(low, "1");
    DigitFreeMatchesNoTier(low, "2");
    DigitFreeMatchesNoTier(low, "3");
    DigitFreeMatchesNoTier(low, "10");
    DigitFreeMatchesNoTier(low, "100");
  }

  lemma PrettifyDuration()
    ensures PrettifyColnames("duration") == "Duration"
  {
    var r := PrettifyColnames("duration");
    assert |r| == 8;
    assert r[0] == 'D';
    assert r[1] == 'u';
    assert r[2] == 'r';
    assert r[3] == 'a';
    assert r[4] == 't';
    assert r[5] == 'i';
    assert r[6] == 'o';
    assert r[7] == 'n';
  }

  /** The single-series label: "duration" holds no digit, so it falls
      through to the prettified "Duration". */
  lemma DurationLabel()
    ensures StandardizeSeriesLabel("duration") == "Duration"
  {
    DurationIsClean();
    CleanLabel("duration");
    PrettifyDuration();
  }

  /** A clean, digit-free, lower-case name is its own normal form and
      matches no tier, so it is only prettified. */
  lemma CleanLabel(raw: string)
    requires raw != [] && !IsSpace(raw[0]) && !IsSpace(raw[|raw| - 1])
    requires '-' !in raw && '.' !in raw
    requires forall i | 0 <= i < |raw| :: !IsUpper(raw[i])
    requires DigitFree(raw)
    ensures StandardizeSeriesLabel(raw) == PrettifyColnames(raw)
  {
    NormalizeClean(raw);
    DigitFreeNoTier(raw);
  }

  lemma DurationIsClean()
    ensures var raw := "duration";
      && raw != [] && !IsSpace(raw[0]) && !IsSpace(raw[|raw| - 1])
      && '-' !in raw && '.' !in raw
      && (forall i | 0 <= i < |raw| :: !IsUpper(raw[i]))
      && DigitFree(raw)
  {
  }

  // ---------------------------------------------------------------------
  // Colour and dash per label

  const SERIES_COLORS: map<string, string> := map[
    "Top 1" := "#FFD700",
    "Top 2" := "#C0C0C0",
    "Top 3" := "#CD7F32",
    "Top 10" := "#636363",
    "Top 100" := "#636363"
  ]

  /** `_series_color`: the tier colour, `DEFAULT_COLOR` for any other label. */
  function SeriesColor(series: string): (r: string)
    ensures series in TIER_LABELS ==> r == SERIES_COLORS[series]
    ensures series !in TIER_LABELS ==> r == Constants.DEFAULT_COLOR
  {
    if series in SERIES_COLORS then SERIES_COLORS[series] else Constants.DEFAULT_COLOR
  }

  /** `_series_dash`: dotted `[4, 4]` for "Top 100" alone, solid `[1, 0]`
      otherwise. */
  function SeriesDash(series: string): (r: seq<int>)
    ensures r == [4, 4] <==> series == "Top 100"
    ensures r != [4, 4] ==> r == [1, 0]
  {
    if series == "Top 100" then [4, 4] else [1, 0]
  }

  /** The tiers share colours only between "Top 10" and "Top 100", and no
      tier label gets the default colour. */
  lemma SeriesColorFacts(series: string)
    ensures SeriesColor("Top 10") == SeriesColor("Top 100") == "#636363"
    ensures SeriesColor(series) == Constants.DEFAULT_COLOR <==> series !in TIER_LABELS
    ensures forall a, b | a in TIER_LABELS && b in TIER_LABELS && a != b ::
      SeriesColor(a) == SeriesColor(b) ==> {a, b} == {"Top 10", "Top 100"}
  {
  }
}
