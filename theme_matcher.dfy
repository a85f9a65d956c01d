/** `QuestionThemeMatcher.MatchAsync`: link every question that has no theme to the first theme
    whose page lists a title with the same normalised text, counting the titles found and not
    found in the question table. */
module ThemeMatcher {
  import opened Wrappers
  import opened Search
  import opened Text
  import opened Dom
  import opened Normalizer
  import opened PageDecoding
  import opened QuestionIndex

  /** A row of the `Themes` table: its id and its nullable `SourceUrl`. */
  datatype Theme = Theme(id: int, title: string, sourceUrl: Option<string>)

  /** What the matcher depends on besides the database: the character tables,
      `WebUtility.HtmlDecode`, the encodings, the page download (`GetByteArrayAsync`, None when
      it throws) and HtmlAgilityPack's `SelectNodes("//div[contains(@class,'b-title_type_h4')]")`
      on the parsed page (None when nothing matches). */
  datatype MatchEnv = MatchEnv(
    u: CharClasses,
    htmlDecode: string -> string,
    codecs: Codecs,
    fetch: string -> Option<seq<byte>>,
    selectTitles: string -> Option<seq<Node>>)

  /** The key a text is indexed and looked up under. */
  function NormalizeKey(env: MatchEnv): string -> string {
    (s: string) => Normalize(env.u, env.htmlDecode, s)
  }

  // ---- ParseQuestionTitles ----

  /** `WebUtility.HtmlDecode(n.InnerText).Trim()` of each selected node. */
  function DecodedTitles(u: CharClasses, htmlDecode: string -> string, ns: seq<Node>): (r: seq<string>)
    ensures |r| == |ns|
    ensures forall i :: 0 <= i < |ns| ==> r[i] == Trim(u, htmlDecode(InnerText(ns[i])))
  {
    seq(|ns|, i requires 0 <= i < |ns| => Trim(u, htmlDecode(InnerText(ns[i]))))
  }

  function NonEmpty(): string -> bool {
    (s: string) => s != ""
  }

  /** `ParseQuestionTitles`: the decoded, trimmed, non-empty texts of the title nodes in
      document order; no nodes gives no titles, and each node gives at most one. */
  function ParseQuestionTitles(u: CharClasses, htmlDecode: string -> string, nodes: Option<seq<Node>>): (r: seq<string>)
    ensures nodes.None? ==> r == []
    ensures nodes.Some? ==> |r| <= |nodes.value|
  {
    match nodes
    case None => []
    case Some(ns) => Filter(DecodedTitles(u, htmlDecode, ns), NonEmpty())
  }

  /** A parsed title is non-empty and trimmed, and a text is a title exactly when it is the
      non-empty decoded, trimmed text of one of the nodes. */
  lemma ParseQuestionTitlesMembers(u: CharClasses, htmlDecode: string -> string, nodes: Option<seq<Node>>)
    ensures var r := ParseQuestionTitles(u, htmlDecode, nodes);
            && (nodes.None? ==> r == [])
            && (forall t :: t in r ==> t != "" && IsTrimmed(u, t))
            && (forall t :: t in r <==>
                  (nodes.Some? && t != "" &&
                   exists i :: 0 <= i < |nodes.value| && t == Trim(u, htmlDecode(InnerText(nodes.value[i])))))
  {
    if nodes.Some? {
      var ds := DecodedTitles(u, htmlDecode, nodes.value);
      FilterMembers(ds, NonEmpty());
      forall t | t in ds
        ensures IsTrimmed(u, t)
      {
        var i :| 0 <= i < |ds| && ds[i] == t;
        TrimIsTrimmed(u, htmlDecode(InnerText(nodes.value[i])));
      }
    }
  }

  // ---- loading a theme page ----

  /** The text `LoadHtmlAsync(url)` returns, None when it throws. */
  function FetchedHtml(env: MatchEnv, url: string): Option<string> {
    match env.fetch(url)
    case None => None
    case Some(bytes) => PageHtml(env.u, env.codecs, bytes)
  }

  /** `LoadHtmlAsync`: download the page and decode it. */
  method LoadHtmlAsync(env: MatchEnv, url: string) returns (html: Option<string>)
    ensures html == FetchedHtml(env, url)
  {
    var bytes := env.fetch(url);
    if bytes.None? {
      return None;
    }
    html := LoadHtml(env.u, env.codecs, bytes.value);
  }

  /** The titles a theme's page yields, or None when loading it throws. */
  function PageTitles(env: MatchEnv, url: string): Option<seq<string>> {
    match FetchedHtml(env, url)
    case None => None
    case Some(html) => Some(ParseQuestionTitles(env.u, env.htmlDecode, env.selectTitles(html)))
  }

  /** `PageTitles` as the loader the theme loop calls. */
  function PageTitlesOf(env: MatchEnv): string -> Option<seq<string>> {
    (url: string) => PageTitles(env, url)
  }

  /** Loading and parsing one theme page. */
  method LoadTitles(env: MatchEnv, url: string) returns (titles: Option<seq<string>>)
    ensures titles == PageTitles(env, url)
  {
    var html := LoadHtmlAsync(env, url);
    if html.None? {
      return None;
    }
    titles := Some(ParseQuestionTitles(env.u, env.htmlDecode, env.selectTitles(html.value)));
  }

  // ---- the lookups and their effect ----

  /** One title to look up: the theme it came from and its key. */
  datatype Query = Query(themeId: int, key: string)

  /** One lookup per title, in title order. */
  function QueriesFor(themeId: int, keyOf: string -> string, titles: seq<string>): (r: seq<Query>)
    ensures |r| == |titles|
    ensures forall i :: 0 <= i < |r| ==> r[i] == Query(themeId, keyOf(titles[i]))
  {
    seq(|titles|, i requires 0 <= i < |titles| => Query(themeId, keyOf(titles[i])))
  }

  /** The titles looked up for a theme, given the page loader `load`: none when its page fails
      to load. */
  function TitlesOf(load: string -> Option<seq<string>>, theme: Theme): seq<string> {
    load(theme.sourceUrl.GetOr("")).GetOr([])
  }

  /** The lookups one theme contributes. */
  function ThemeQueries(load: string -> Option<seq<string>>, keyOf: string -> string): Theme -> seq<Query> {
    (theme: Theme) => QueriesFor(theme.id, keyOf, TitlesOf(load, theme))
  }

  /** The lookups of all themes, theme after theme. */
  function Queries(load: string -> Option<seq<string>>, keyOf: string -> string, themes: seq<Theme>): seq<Query> {
    Flatten(themes, ThemeQueries(load, keyOf))
  }

  /** The store and the two counters. */
  datatype Tally = Tally(rows: map<int, Row>, linked: nat, notFound: nat)

  /** One lookup: a miss counts as not found; a hit links, giving the theme to the rows under the
      key that still have none. */
  function Step(t: Tally, index: map<string, set<int>>, q: Query): Tally {
    if q.key in index then Tally(Assigned(t.rows, index[q.key], q.themeId), t.linked + 1, t.notFound)
    else Tally(t.rows, t.linked, t.notFound + 1)
  }

  /** The lookups in order, against an index that is never refreshed. */
  function Run(rows: map<int, Row>, index: map<string, set<int>>, qs: seq<Query>): Tally {
    if qs == [] then Tally(rows, 0, 0)
    else Step(Run(rows, index, qs[..|qs| - 1]), index, qs[|qs| - 1])
  }

  predicate HasSourceUrl(t: Theme) {
    t.sourceUrl.Some? && t.sourceUrl.value != ""
  }

  function HasSourceUrlTest(): Theme -> bool {
    (t: Theme) => HasSourceUrl(t)
  }

  /** `MatchAsync` over the `themeTable` and the `store`. Only themes with a source URL are
      visited; the index is built once from the questions without a theme; each title of each
      page that loads is looked up in it. */
  method MatchAsync(store: QuestionStore, env: MatchEnv, themeTable: seq<Theme>) returns (linked: nat, notFound: nat)
    modifies store
    ensures Tally(store.rows, linked, notFound) ==
            Run(old(store.rows), KeyIndex(old(store.rows), NormalizeKey(env)),
                Queries(PageTitlesOf(env), NormalizeKey(env), Filter(themeTable, HasSourceUrlTest())))
  {
    var themes := Filter(themeTable, HasSourceUrlTest());
    var questionMap := LoadQuestionMap(store, NormalizeKey(env));
    linked, notFound := LinkThemes(store, env, questionMap, KeyIndex(store.rows, NormalizeKey(env)), themes);
  }

  /** The unthemed questions and the index over them, which agrees with `KeyIndex`. */
  method LoadQuestionMap(store: QuestionStore, keyOf: string -> string) returns (questionMap: map<string, seq<int>>)
    ensures questionMap.Keys == KeyIndex(store.rows, keyOf).Keys
    ensures forall key :: key in questionMap ==> (set id | id in questionMap[key]) == KeyIndex(store.rows, keyOf)[key]
  {
    var questions := store.Unthemed();
    questionMap := BuildIndex(questions, keyOf);
    IndexAgrees(store.rows, questions, keyOf);
  }

  /** The loop over the themes: load each page; skip a theme whose page fails to load; look up
      each title of the others. */
  method LinkThemes(store: QuestionStore, env: MatchEnv, questionMap: map<string, seq<int>>,
                    ghost index: map<string, set<int>>, themes: seq<Theme>)
    returns (linked: nat, notFound: nat)
    requires questionMap.Keys == index.Keys
    requires forall key :: key in questionMap ==> (set id | id in questionMap[key]) == index[key]
    modifies store
    ensures Tally(store.rows, linked, notFound) == Run(old(store.rows), index, Queries(PageTitlesOf(env), NormalizeKey(env), themes))
  {
    ghost var rows0 := store.rows;
    ghost var load, keyOf := PageTitlesOf(env), NormalizeKey(env);
    linked, notFound := 0, 0;
    for t := 0 to |themes|
      invariant Tally(store.rows, linked, notFound) == Run(rows0, index, Queries(load, keyOf, themes[..t]))
    {
      var theme := themes[t];
      QueriesSnoc(load, keyOf, themes, t);
      var titles := LoadTitles(env, theme.sourceUrl.GetOr(""));
      assert titles == load(theme.sourceUrl.GetOr(""));
      if titles.None? {
        assert Queries(load, keyOf, themes[..t]) + ThemeQueries(load, keyOf)(theme) == Queries(load, keyOf, themes[..t]);
        continue;
      }
      linked, notFound := LinkTitles(store, NormalizeKey(env), questionMap, index, rows0, Queries(load, keyOf, themes[..t]),
                                     theme.id, titles.value, linked, notFound);
    }
    assert themes[..|themes|] == themes;
  }

  /** The inner loop of `MatchAsync` (with `keyOf` the normaliser): look up each title of one
      theme's page under its key, counting a miss
      as not found and, on a hit, giving the theme to the listed questions that still have none. */
  method LinkTitles(store: QuestionStore, keyOf: string -> string, questionMap: map<string, seq<int>>,
                    ghost index: map<string, set<int>>, ghost rows0: map<int, Row>, ghost done: seq<Query>,
                    themeId: int, titles: seq<string>, linked0: nat, notFound0: nat)
    returns (linked: nat, notFound: nat)
    requires questionMap.Keys == index.Keys
    requires forall key :: key in questionMap ==> (set id | id in questionMap[key]) == index[key]
    requires Tally(store.rows, linked0, notFound0) == Run(rows0, index, done)
    modifies store
    ensures Tally(store.rows, linked, notFound) == Run(rows0, index, done + QueriesFor(themeId, keyOf, titles))
  {
    ghost var tq := QueriesFor(themeId, keyOf, titles);
    linked, notFound := linked0, notFound0;
    assert done + tq[..0] == done;
    for j := 0 to |titles|
      invariant Tally(store.rows, linked, notFound) == Run(rows0, index, done + tq[..j])
    {
      assert done + tq[..j + 1] == (done + tq[..j]) + [tq[j]];
      linked, notFound := LinkTitle(store, questionMap, index, rows0, done + tq[..j],
                                    themeId, keyOf(titles[j]), linked, notFound);
    }
    assert tq[..|titles|] == tq;
  }

  /** One title of the inner loop, given its key. */
  method LinkTitle(store: QuestionStore, questionMap: map<string, seq<int>>,
                   ghost index: map<string, set<int>>, ghost rows0: map<int, Row>, ghost done: seq<Query>,
                   themeId: int, key: string, linked0: nat, notFound0: nat)
    returns (linked: nat, notFound: nat)
    requires questionMap.Keys == index.Keys
    requires forall key :: key in questionMap ==> (set id | id in questionMap[key]) == index[key]
    requires Tally(store.rows, linked0, notFound0) == Run(rows0, index, done)
    modifies store
    ensures Tally(store.rows, linked, notFound) == Run(rows0, index, done + [Query(themeId, key)])
  {
    assert (done + [Query(themeId, key)])[..|done|] == done;
    linked, notFound := linked0, notFound0;
    if key !in questionMap {
      notFound := notFound + 1;
      return;
    }
    var questionIds := questionMap[key];
    store.AssignTheme((set id | id in questionIds), themeId);
    linked := linked + 1;
  }

  /** The lookups of one more theme come after those of the themes before it. */
  lemma QueriesSnoc(load: string -> Option<seq<string>>, keyOf: string -> string, themes: seq<Theme>, t: nat)
    requires t < |themes|
    ensures Queries(load, keyOf, themes[..t + 1]) == Queries(load, keyOf, themes[..t]) + ThemeQueries(load, keyOf)(themes[t])
  {
    FlattenSnoc(themes, ThemeQueries(load, keyOf), t);
  }

  // ---- properties of a run ----

  /** The key of a lookup is known. */
  function Known(index: map<string, set<int>>): Query -> bool {
    (q: Query) => q.key in index
  }

  /** Every lookup counts once: `linked` is the number of titles whose key is in the index,
      however many rows each of them changes, and `notFound` the number of the others. */
  lemma {:induction false} RunCounts(rows: map<int, Row>, index: map<string, set<int>>, qs: seq<Query>)
    ensures Run(rows, index, qs).linked == |Filter(qs, Known(index))|
    ensures Run(rows, index, qs).linked + Run(rows, index, qs).notFound == |qs|
  {
    if qs != [] {
      RunCounts(rows, index, qs[..|qs| - 1]);
    }
  }

  /** The lookup of `q` would give a theme to row `id`. */
  function Claims(index: map<string, set<int>>, id: int): Query -> bool {
    (q: Query) => q.key in index && id in index[q.key]
  }

  /** The theme a row ends up with: a row that had one keeps it; a row that had none gets the
      theme of the first lookup whose key lists it, or stays without one. No row is added or
      removed and no text changes. */
  lemma {:induction false} RunThemeOf(rows: map<int, Row>, index: map<string, set<int>>, qs: seq<Query>, id: int)
    requires id in rows
    ensures var r := Run(rows, index, qs).rows;
            && id in r
            && r[id].text == rows[id].text
            && r[id].themeId == if rows[id].themeId.Some? then rows[id].themeId
                                else match FirstIndex(qs, Claims(index, id))
                                     case Some(k) => Some(qs[k].themeId)
                                     case None => None
  {
    if qs != [] {
      var n := |qs| - 1;
      RunThemeOf(rows, index, qs[..n], id);
      FirstIndexSnoc(qs, Claims(index, id), n);
      assert qs[..n + 1] == qs;
      var before := FirstIndex(qs[..n], Claims(index, id));
      if before.Some? {
        assert qs[..n][before.value] == qs[before.value];
      }
    }
  }

  /** No row is added or removed. */
  lemma {:induction false} RunKeys(rows: map<int, Row>, index: map<string, set<int>>, qs: seq<Query>)
    ensures Run(rows, index, qs).rows.Keys == rows.Keys
  {
    if qs != [] {
      RunKeys(rows, index, qs[..|qs| - 1]);
    }
  }

  /** A question that already has a theme is never given another. */
  lemma ThemedRowsKeepTheirTheme(rows: map<int, Row>, index: map<string, set<int>>, qs: seq<Query>, id: int)
    requires id in rows && rows[id].themeId.Some?
    ensures id in Run(rows, index, qs).rows && Run(rows, index, qs).rows[id] == rows[id]
  {
    RunThemeOf(rows, index, qs, id);
  }

  /** A theme whose page fails to load contributes no lookup, and so nothing to either counter;
      the themes after it are looked up as if it were not there. */
  lemma FailedFetchContributesNothing(load: string -> Option<seq<string>>, keyOf: string -> string,
                                      before: seq<Theme>, theme: Theme, after: seq<Theme>)
    requires load(theme.sourceUrl.GetOr("")).None?
    ensures Queries(load, keyOf, before + [theme] + after) == Queries(load, keyOf, before + after)
  {
    var f := ThemeQueries(load, keyOf);
    FlattenAppend(before + [theme], after, f);
    FlattenAppend(before, [theme], f);
    FlattenAppend(before, after, f);
    assert Flatten([theme], f) == Flatten([], f) + f(theme);
  }

  /** The number of titles on the pages that load. */
  function TitleCount(load: string -> Option<seq<string>>, themes: seq<Theme>): nat {
    if themes == [] then 0
    else TitleCount(load, themes[..|themes| - 1]) + |TitlesOf(load, themes[|themes| - 1])|
  }

  /** There is one lookup per title of every page that loads, so `linked + notFound` is the
      number of titles parsed from those pages. */
  lemma {:induction false} QueriesCount(load: string -> Option<seq<string>>, keyOf: string -> string, themes: seq<Theme>)
    ensures |Queries(load, keyOf, themes)| == TitleCount(load, themes)
  {
    if themes != [] {
      QueriesCount(load, keyOf, themes[..|themes| - 1]);
      FlattenSnoc(themes, ThemeQueries(load, keyOf), |themes| - 1);
      assert themes[..|themes|] == themes;
    }
  }

  /** A run in which no key is known changes nothing. */
  lemma {:induction false} RunWithoutHits(rows: map<int, Row>, index: map<string, set<int>>, qs: seq<Query>)
    requires forall i :: 0 <= i < |qs| ==> qs[i].key !in index
    ensures Run(rows, index, qs) == Tally(rows, 0, |qs|)
  {
    if qs != [] {
      RunWithoutHits(rows, index, qs[..|qs| - 1]);
    }
  }

  /** Matching twice against the same pages links nothing the second time: every question left
      without a theme has a key that none of the titles has. */
  lemma SecondRunLinksNothing(rows: map<int, Row>, keyOf: string -> string, qs: seq<Query>)
    ensures var first := Run(rows, KeyIndex(rows, keyOf), qs);
            var second := Run(first.rows, KeyIndex(first.rows, keyOf), qs);
            second == Tally(first.rows, 0, |qs|)
  {
    var index := KeyIndex(rows, keyOf);
    var first := Run(rows, index, qs).rows;
    forall i | 0 <= i < |qs|
      ensures qs[i].key !in KeyIndex(first, keyOf)
    {
      forall id | id in first && first[id].themeId.None?
        ensures keyOf(first[id].text) != qs[i].key
      {
        UnlinkedRowMatchesNoTitle(rows, keyOf, qs, id, i);
      }
    }
    RunWithoutHits(first, KeyIndex(first, keyOf), qs);
  }

  /** A row still without a theme after a run has a key no lookup of the run had. */
  lemma UnlinkedRowMatchesNoTitle(rows: map<int, Row>, keyOf: string -> string, qs: seq<Query>, id: int, i: nat)
    requires i < |qs|
    requires var first := Run(rows, KeyIndex(rows, keyOf), qs).rows;
             id in first && first[id].themeId.None?
    ensures keyOf(Run(rows, KeyIndex(rows, keyOf), qs).rows[id].text) != qs[i].key
  {
    var index := KeyIndex(rows, keyOf);
    RunKeys(rows, index, qs);
    RunThemeOf(rows, index, qs, id);
    assert rows[id].themeId.None?;
    assert id in Claimants(rows, keyOf, keyOf(rows[id].text));
    assert !Claims(index, id)(qs[i]);
  }
}
