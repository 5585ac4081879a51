/** main.py: which leaderboard the page shows. The selection lives in the
    session and is mirrored in the `leaderboard` query parameter of the URL;
    each script run first reconciles the two, then a sidebar button may
    select another tab. */
module Navigation {
  import opened Wrappers
  import opened Constants

  /** `_get_query_leaderboard`: the first `leaderboard` value of the URL, or
      "Overview" when the URL has none. */
  function QueryLeaderboard(values: seq<string>): (r: string)
    ensures values == [] ==> r == "Overview"
    ensures values != [] ==> r == values[0] && r in values
  {
    if values != [] then values[0] else "Overview"
  }

  /** `_set_query_leaderboard`: the URL's query parameters become exactly
      one `leaderboard` value. */
  function SetQueryLeaderboard(value: string): (values: seq<string>)
    ensures |values| == 1
  {
    [value]
  }

  /** Reading back what was written gives the written value. */
  lemma QueryRoundTrip(value: string)
    ensures QueryLeaderboard(SetQueryLeaderboard(value)) == value
  {
  }

  /** What the page keeps between runs: the session's selection, absent in a
      new session, and the query values of the URL. */
  datatype Page = Page(selected: Option<string>, query: seq<string>)

  predicate Valid(p: Page) {
    p.selected.None? || p.selected.value in TABS
  }

  /** The selection after lines 180-188: a new session takes the query value
      when it names a tab and "Overview" otherwise; an existing session
      follows the query only when it names a tab. */
  function SyncSelection(selected: Option<string>, qp: string): (r: string)
    ensures selected.None? ==> r in TABS
    ensures selected.None? && qp in TABS ==> r == qp
    ensures selected.None? && qp !in TABS ==> r == "Overview"
    ensures selected.Some? && qp in TABS ==> r == qp
    ensures selected.Some? && r != selected.value ==> qp in TABS && r == qp
  {
    match selected
    case None => if qp in TABS then qp else TABS[0]
    case Some(s) => if qp in TABS && qp != s then qp else s
  }

  /** An invalid query value never moves an existing selection. */
  lemma InvalidQueryKeepsSelection(s: string, qp: string)
    requires qp !in TABS
    ensures SyncSelection(Some(s), qp) == s
  {
  }

  /** Lines 179-192: reconcile the selection with the URL, then rewrite the
      URL when its value differs from the selection. */
  function Sync(p: Page): (q: Page)
    requires Valid(p)
    ensures q.selected == Some(SyncSelection(p.selected, QueryLeaderboard(p.query)))
    ensures q.selected.value in TABS
    ensures QueryLeaderboard(q.query) == q.selected.value
    ensures QueryLeaderboard(p.query) == q.selected.value ==> q.query == p.query
    ensures QueryLeaderboard(p.query) != q.selected.value ==> q.query == SetQueryLeaderboard(q.selected.value)
  {
    var sel := SyncSelection(p.selected, QueryLeaderboard(p.query));
    if QueryLeaderboard(p.query) != sel then Page(Some(sel), SetQueryLeaderboard(sel))
    else Page(Some(sel), p.query)
  }

  /** A page already in step is left as it is. */
  lemma SyncIdempotent(p: Page)
    requires Valid(p)
    ensures Sync(Sync(p)) == Sync(p)
  {
  }

  /** Lines 206-207: a sidebar button selects its tab and writes it to the
      URL. */
  function Click(p: Page, name: string): (q: Page)
    requires name in TABS
    ensures q.selected == Some(name) && QueryLeaderboard(q.query) == name
  {
    Page(Some(name), SetQueryLeaderboard(name))
  }

  /** What happens between two runs: the user edits the URL, or a run
      happens in which the button of tab `i` is clicked, or none is. */
  datatype Event = EditUrl(values: seq<string>) | Run(clicked: Option<nat>)

  /** One event: an edited URL is taken as it is; a run syncs, then a click
      on a tab's button selects that tab. */
  function Step(p: Page, e: Event): (q: Page)
    requires Valid(p)
    ensures Valid(q)
    ensures e.Run? ==> q.selected.Some? && QueryLeaderboard(q.query) == q.selected.value
    ensures e.EditUrl? ==> q.selected == p.selected && q.query == e.values
    ensures e.Run? && e.clicked.Some? && e.clicked.value < |TABS| ==>
      q.selected == Some(TABS[e.clicked.value])
    ensures e.Run? && !(e.clicked.Some? && e.clicked.value < |TABS|) ==> q == Sync(p)
  {
    match e
    case EditUrl(values) => Page(p.selected, values)
    case Run(clicked) =>
      var s := Sync(p);
      if clicked.Some? && clicked.value < |TABS| then Click(s, TABS[clicked.value]) else s
  }

  function Steps(p: Page, es: seq<Event>): Page
    requires Valid(p)
    decreases |es|
  {
    if es == [] then p else Steps(Step(p, es[0]), es[1..])
  }

  /** Starting from a new session, whatever the user does, the selection is
      always a tab, and after a run the URL names it. */
  lemma {:induction false} SelectionAlwaysATab(p: Page, es: seq<Event>)
    requires Valid(p)
    ensures Valid(Steps(p, es))
    ensures es != [] && es[|es| - 1].Run? ==>
      var q := Steps(p, es);
      q.selected.Some? && QueryLeaderboard(q.query) == q.selected.value
    decreases |es|
  {
    if es != [] {
      var p' := Step(p, es[0]);
      SelectionAlwaysATab(p', es[1..]);
      if |es| > 1 {
        assert es[1..][|es[1..]| - 1] == es[|es| - 1];
      }
    }
  }

  /** The first run of a new session lands on the URL's tab when it names
      one and on "Overview" otherwise, and leaves the URL naming it. */
  lemma FirstRun(values: seq<string>)
    ensures var q := Step(Page(None, values), Run(None));
      && q.selected == Some(if QueryLeaderboard(values) in TABS then QueryLeaderboard(values) else "Overview")
      && QueryLeaderboard(q.query) == q.selected.value
  {
  }
}
