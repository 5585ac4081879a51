/** utils/constants.py: the navigation tabs, and the colour and emoji of a
    leaderboard, both looked up by the first word of its name. */
module Constants {
  import opened Text

  const TABS: seq<string> := [
    "Overview",
    "Hay", "Hay Single",
    "Wood", "Wood Single",
    "Carrots", "Carrots Single",
    "Pumpkins", "Pumpkins Single",
    "Cactus", "Cactus Single",
    "Maze", "Maze Single",
    "Sunflowers", "Sunflowers Single",
    "Dinosaur",
    "Fastest Reset"
  ]

  const COLORS: map<string, string> := map[
    "Hay" := "#DAA520",
    "Wood" := "#8B4513",
    "Carrots" := "#FFB347",
    "Pumpkins" := "#FFA500",
    "Cactus" := "#2E8B57",
    "Maze" := "#006400",
    "Sunflowers" := "#FFD700",
    "Dinosaur" := "#808080",
    "Fastest" := "#DC143C"
  ]

  const EMOJIS: map<string, string> := map[
    "Hay" := ":ear_of_rice:",
    "Wood" := ":evergreen_tree:",
    "Carrots" := ":carrot:",
    "Pumpkins" := ":jack_o_lantern:",
    "Cactus" := ":cactus:",
    "Maze" := ":jigsaw:",
    "Sunflowers" := ":sunflower:",
    "Dinosaur" := ":bone:",
    "Fastest" := ":fast_forward:"
  ]

  const DEFAULT_COLOR := "#1f77b4"

  const DEFAULT_EMOJI := ":man_farmer:"

  // ---------------------------------------------------------------------
  // The first word of a name, `name.split()[0]`

  predicate AllSpace(s: string) {
    forall i | 0 <= i < |s| :: IsSpace(s[i])
  }

  /** A name `split()` yields at least one word for; on any other name
      `split()[0]` raises IndexError. */
  predicate HasWord(name: string) {
    !AllSpace(name)
  }

  /** `w` is the first whitespace-separated word of `name`, starting at
      index `k`: only whitespace before it, and whitespace or the end of the
      name right after it. */
  predicate IsFirstWordAt(name: string, w: string, k: nat) {
    && w != [] && NoSpace(w)
    && k + |w| <= |name|
    && AllSpace(name[..k])
    && name[k..k + |w|] == w
    && (k + |w| == |name| || IsSpace(name[k + |w|]))
  }

  /** The longest prefix of `s` without whitespace. */
  function TakeWord(s: string): (w: string)
    ensures w <= s && NoSpace(w)
    ensures |w| == |s| || IsSpace(s[|w|])
    decreases |s|
  {
    if s == [] || IsSpace(s[0]) then [] else [s[0]] + TakeWord(s[1..])
  }

  lemma AllSpacePrefix(s: string, k: nat)
    requires k <= |s|
    requires forall i | 0 <= i < k :: IsSpace(s[i])
    ensures AllSpace(s[..k])
  {
    assert forall i | 0 <= i < k :: s[..k][i] == s[i];
  }

  lemma AllSpaceElements(s: string, k: nat)
    requires k <= |s| && AllSpace(s[..k])
    ensures forall i | 0 <= i < k :: IsSpace(s[i])
  {
    assert forall i | 0 <= i < k :: s[..k][i] == s[i];
  }

  lemma WordElements(name: string, w: string, k: nat)
    requires k + |w| <= |name| && name[k..k + |w|] == w && NoSpace(w)
    ensures forall i | k <= i < k + |w| :: !IsSpace(name[i]) && name[i] == w[i - k]
  {
    assert forall i | k <= i < k + |w| :: name[i] == name[k..k + |w|][i - k];
  }

  lemma TakeWordAt(name: string, k: nat, w: string)
    requires k < |name| && w == TakeWord(name[k..])
    ensures k + |w| <= |name| && name[k..k + |w|] == w
    ensures k + |w| == |name| || IsSpace(name[k + |w|])
  {
    var rest := name[k..];
    assert rest[..|w|] == w;
    assert name[k..k + |w|] == rest[..|w|];
    if k + |w| < |name| {
      assert name[k + |w|] == rest[|w|];
    }
  }

  function FirstWord(name: string): (w: string)
    requires HasWord(name)
    ensures IsFirstWordAt(name, w, |name| - |StripLeft(name)|)
  {
    var k := |name| - |StripLeft(name)|;
    WordStart(name);
    TakeWordIsFirst(name, k);
    TakeWord(name[k..])
  }

  /** A name with a word has a non-space character right after its
      leading whitespace. */
  lemma WordStart(name: string)
    requires HasWord(name)
    ensures var k := |name| - |StripLeft(name)|; k < |name| && !IsSpace(name[k])
  {
    var rest := StripLeft(name);
    if rest != [] {
      assert name[|name| - |rest|] == rest[0];
    }
  }

  /** The word starting at the first non-space character is the first
      word. */
  lemma TakeWordIsFirst(name: string, k: nat)
    requires k < |name| && !IsSpace(name[k])
    requires forall i | 0 <= i < k :: IsSpace(name[i])
    ensures IsFirstWordAt(name, TakeWord(name[k..]), k)
  {
    AllSpacePrefix(name, k);
    var w := TakeWord(name[k..]);
    assert name[k..][0] == name[k];
    TakeWordAt(name, k, w);
  }

  /** The first word is determined by the name alone: wherever the
      characterisation is met, it picks the same word at the same place. */
  lemma FirstWordUnique(name: string, w1: string, k1: nat, w2: string, k2: nat)
    requires IsFirstWordAt(name, w1, k1) && IsFirstWordAt(name, w2, k2)
    ensures k1 == k2 && w1 == w2
  {
    AllSpaceElements(name, k1);
    AllSpaceElements(name, k2);
    WordElements(name, w1, k1);
    WordElements(name, w2, k2);
    assert !IsSpace(name[k1]) && !IsSpace(name[k2]);
    assert k1 == k2;
  }

  /** Every first word the characterisation admits is `FirstWord`. */
  lemma FirstWordOnly(name: string)
    requires HasWord(name)
    ensures forall w, k | IsFirstWordAt(name, w, k) :: w == FirstWord(name)
  {
    var f := FirstWord(name);
    var k0 := |name| - |StripLeft(name)|;
    assert IsFirstWordAt(name, f, k0);
    forall w, k | IsFirstWordAt(name, w, k)
      ensures w == f
    {
      FirstWordUnique(name, w, k, f, k0);
    }
  }

  /** A word followed by nothing or by whitespace and anything is the first
      word of the text. */
  lemma WordThenIsFirst(w: string, rest: string)
    requires w != [] && NoSpace(w)
    requires rest == [] || IsSpace(rest[0])
    ensures HasWord(w + rest) && IsFirstWordAt(w + rest, w, 0)
  {
    var name := w + rest;
    assert !IsSpace(name[0]);
    assert name[..0] == [];
    assert name[0..|w|] == w;
  }

  lemma FirstWordOfWordThen(w: string, rest: string)
    requires w != [] && NoSpace(w)
    requires rest == [] || IsSpace(rest[0])
    ensures HasWord(w + rest)
    ensures FirstWord(w + rest) == w
  {
    WordThenIsFirst(w, rest);
    FirstWordOnly(w + rest);
  }

  // ---------------------------------------------------------------------
  // Lookups

  /** `get_leaderboard_color`: the colour of the first word, or
      `DEFAULT_COLOR`. */
  function GetLeaderboardColor(name: string): (r: string)
    requires HasWord(name)
    ensures forall w, k | IsFirstWordAt(name, w, k) ::
      r == if w in COLORS then COLORS[w] else DEFAULT_COLOR
  {
    FirstWordOnly(name);
    var w := FirstWord(name);
    if w in COLORS then COLORS[w] else DEFAULT_COLOR
  }

  /** `get_emoji`: the emoji of the first word, or ":man_farmer:". */
  function GetEmoji(name: string): (r: string)
    requires HasWord(name)
    ensures forall w, k | IsFirstWordAt(name, w, k) ::
      r == if w in EMOJIS then EMOJIS[w] else DEFAULT_EMOJI
  {
    FirstWordOnly(name);
    var w := FirstWord(name);
    if w in EMOJIS then EMOJIS[w] else DEFAULT_EMOJI
  }

  /** Only the first word counts: appending whitespace and more words does
      not change the colour or the emoji ("Hay Single" looks like "Hay"). */
  lemma LookupsIgnoreLaterWords(w: string, rest: string)
    requires w != [] && NoSpace(w)
    requires rest == [] || IsSpace(rest[0])
    ensures HasWord(w) && HasWord(w + rest)
    ensures GetLeaderboardColor(w + rest) == GetLeaderboardColor(w)
    ensures GetEmoji(w + rest) == GetEmoji(w)
  {
    WordThenIsFirst(w, rest);
    WordThenIsFirst(w, []);
    assert w + [] == w;
  }

  lemma HaySingleLikeHay()
    ensures HasWord("Hay") && HasWord("Hay Single")
    ensures GetLeaderboardColor("Hay Single") == GetLeaderboardColor("Hay") == "#DAA520"
    ensures GetEmoji("Hay Single") == GetEmoji("Hay") == ":ear_of_rice:"
  {
    HaySingleSameLookups();
    HayLookups();
  }

  lemma HaySingleSameLookups()
    ensures HasWord("Hay") && HasWord("Hay Single")
    ensures GetLeaderboardColor("Hay Single") == GetLeaderboardColor("Hay")
    ensures GetEmoji("Hay Single") == GetEmoji("Hay")
  {
    var w, rest := "Hay", " Single";
    assert NoSpace(w);
    assert w + rest == "Hay Single";
    LookupsIgnoreLaterWords(w, rest);
  }

  lemma HayLookups()
    ensures HasWord("Hay")
    ensures GetLeaderboardColor("Hay") == "#DAA520" && GetEmoji("Hay") == ":ear_of_rice:"
  {
    var w := "Hay";
    assert NoSpace(w);
    KnownWordLookups(w);
  }

  /** A single known word gets its own colour and emoji. */
  lemma KnownWordLookups(w: string)
    requires w != [] && NoSpace(w) && w in COLORS && w in EMOJIS
    ensures HasWord(w)
    ensures GetLeaderboardColor(w) == COLORS[w] && GetEmoji(w) == EMOJIS[w]
  {
    WordThenIsFirst(w, []);
    assert w + [] == w;
  }

  /** Unknown first words fall back to the defaults. */
  lemma UnknownWordDefaults(name: string)
    requires HasWord(name) && FirstWord(name) !in COLORS && FirstWord(name) !in EMOJIS
    ensures GetLeaderboardColor(name) == DEFAULT_COLOR
    ensures GetEmoji(name) == DEFAULT_EMOJI
  {
  }

  // ---------------------------------------------------------------------
  // The tab list

  /** Every tab is a leaderboard name whose first word has its own colour
      and emoji, except the first, "Overview". */
  lemma TabsWellFormed()
    ensures TABS[0] == "Overview"
    ensures forall i | 1 <= i < |TABS| ::
      HasWord(TABS[i]) && FirstWord(TABS[i]) in COLORS && FirstWord(TABS[i]) in EMOJIS
  {
    forall i | 1 <= i < |TABS|
      ensures HasWord(TABS[i]) && FirstWord(TABS[i]) in COLORS && FirstWord(TABS[i]) in EMOJIS
    {
      var t := TABS[i];
      var w := TabWord(i);
      TabWordFits(i);
      var rest := t[|w|..];
      assert t == w + rest;
      FirstWordOfWordThen(w, rest);
    }
  }

  /** The first word of tab `i`, written out. */
  function TabWord(i: nat): (w: string)
    requires 1 <= i < |TABS|
    ensures w in COLORS && w in EMOJIS
  {
    if i <= 2 then "Hay"
    else if i <= 4 then "Wood"
    else if i <= 6 then "Carrots"
    else if i <= 8 then "Pumpkins"
    else if i <= 10 then "Cactus"
    else if i <= 12 then "Maze"
    else if i <= 14 then "Sunflowers"
    else if i == 15 then "Dinosaur"
    else "Fastest"
  }

  /** `w` opens `t` as a whole word. */
  predicate OpensWith(t: string, w: string) {
    w != [] && NoSpace(w) && w <= t && (|w| == |t| || t[|w|] == ' ')
  }

  /** Every tab after "Overview" opens with its lookup word. The tabs are
      checked in four groups so that each proof unfolds only a few of them. */
  lemma TabWordFits(i: nat)
    requires 1 <= i < |TABS|
    ensures OpensWith(TABS[i], TabWord(i))
  {
    if i <= 4 {
      TabWordFitsA(i);
    } else if i <= 8 {
      TabWordFitsB(i);
    } else if i <= 12 {
      TabWordFitsC(i);
    } else {
      TabWordFitsD(i);
    }
  }

  /** The part of `TabWordFits` for tabs 1 to 4. */
  lemma TabWordFitsA(i: nat)
    requires 1 <= i <= 4
    ensures OpensWith(TABS[i], TabWord(i))
  {
  }

  /** The part of `TabWordFits` for tabs 5 to 8. */
  lemma TabWordFitsB(i: nat)
    requires 5 <= i <= 8
    ensures OpensWith(TABS[i], TabWord(i))
  {
  }

  /** The part of `TabWordFits` for tabs 9 to 12. */
  lemma TabWordFitsC(i: nat)
    requires 9 <= i <= 12
    ensures OpensWith(TABS[i], TabWord(i))
  {
  }

  /** The part of `TabWordFits` for the tabs from 13 on. */
  lemma TabWordFitsD(i: nat)
    requires 13 <= i < |TABS|
    ensures OpensWith(TABS[i], TabWord(i))
  {
  }

  /** No tab appears twice. */
  lemma TabsDistinct()
    ensures forall i, j | 0 <= i < j < |TABS| :: TABS[i] != TABS[j]
  {
  }
}
