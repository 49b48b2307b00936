/** The search side of the bulk downloader: the request `handleSearch`
    makes from the search box and the filter controls, the default
    "popular mods" listing, when each of them runs, and what happens to the
    result list when a request fails.
 */
module SearchSession {
  import opened Wrappers
  import opened Text
  import opened OrderedMap
  import opened Modrinth
  import opened Query

  /** The controls a search reads: the search box, the selected game
      version, the selected category ("" for all) and the sort order. */
  datatype Criteria = Criteria(query: string, gameVersion: string, category: string, sortBy: SortIndex)

  /** Every search and the default listing ask for 20 results. */
  const PageSize := 20

  /** The `SearchParams` of `handleSearch`. */
  function SearchRequest(c: Criteria): SearchParams
  {
    SearchParams(
      query := Some(c.query),
      facets := None,
      categories := if c.category != "" then Some([c.category]) else None,
      versions := Some([c.gameVersion]),
      projectType := Some(Mod),
      limit := Some(PageSize),
      offset := None,
      index := Some(c.sortBy))
  }

  /** The `SearchParams` of the default listing: the most downloaded mods
      for the selected game version. */
  function DefaultListing(gameVersion: string): SearchParams
  {
    SearchParams(
      query := None,
      facets := None,
      categories := None,
      versions := Some([gameVersion]),
      projectType := Some(Mod),
      limit := Some(PageSize),
      offset := None,
      index := Some(Downloads))
  }

  /** What a search asks the registry for: mods for the selected game
      version, of the selected category when there is one, 20 at a time,
      in the chosen order, with the text of the search box as typed. */
  lemma SearchAsks(c: Criteria)
    ensures var params := CompileSearch(SearchRequest(c)).params;
            Lookup(params, "facets").Some? &&
            Lookup(params, "facets").value.JsonFacets? &&
            DecodeFacets(Lookup(params, "facets").value.groups)
              == Filters(if c.category != "" then [c.category] else [], [c.gameVersion], Some(Mod)) &&
            Lookup(params, "limit") == Some(Plain("20")) &&
            Lookup(params, "offset") == None &&
            Lookup(params, "index") == Some(Plain(c.sortBy.WireName())) &&
            Lookup(params, "query") == if c.query != "" then Some(Plain(c.query)) else None
  {
    var p := SearchRequest(c);
    SearchFacetsParam(p);
    MergedOneValue(p.categories, CategoryPrefix);
    MergedOneValue(p.versions, VersionPrefix);
    SearchNumberParams(p);
    SearchTextParams(p);
    PageSizeText();
  }

  /** The default listing asks for the 20 most downloaded mods of the
      selected game version, with no text and no category. */
  lemma DefaultListingAsks(gameVersion: string)
    ensures var params := CompileSearch(DefaultListing(gameVersion)).params;
            Lookup(params, "facets").Some? &&
            Lookup(params, "facets").value.JsonFacets? &&
            DecodeFacets(Lookup(params, "facets").value.groups) == Filters([], [gameVersion], Some(Mod)) &&
            Lookup(params, "limit") == Some(Plain("20")) &&
            Lookup(params, "index") == Some(Plain("downloads")) &&
            Lookup(params, "query") == None
  {
    var p := DefaultListing(gameVersion);
    SearchFacetsParam(p);
    MergedOneValue(p.versions, VersionPrefix);
    SearchNumberParams(p);
    SearchTextParams(p);
    PageSizeText();
  }

  /** The app passes one game version and at most one category, so the
      way `searchMods` joins several values into one facet never shows: its
      searches and its default listing are the intended requests. */
  lemma AppRequestsAsIntended(c: Criteria, gameVersion: string)
    ensures CompileSearch(SearchRequest(c)) == CompileSearchIntended(SearchRequest(c))
    ensures CompileSearch(DefaultListing(gameVersion)) == CompileSearchIntended(DefaultListing(gameVersion))
  {
    SearchAgreesOnOneValue(SearchRequest(c));
    SearchAgreesOnOneValue(DefaultListing(gameVersion));
  }

  lemma PageSizeText()
    ensures DecimalOf(PageSize) == "20"
  {
    assert Digits(2) == "2";
    assert Digits(20) == Digits(2) + [DigitChar(0)];
  }

  /** The default listing runs once the game-version list has loaded and is
      not empty (and again whenever the selected game version changes). */
  predicate DefaultListingRuns(gameVersions: seq<string>)
  {
    |gameVersions| > 0
  }

  /** The listing the effect makes when the game-version list or the
      selected game version changes: none while the list is empty, and
      otherwise the most downloaded mods of the selected game version,
      with no text, whatever the list holds. */
  function DefaultListingEffect(gameVersions: seq<string>, selected: string): (r: Option<SearchParams>)
    ensures r.Some? <==> DefaultListingRuns(gameVersions)
    ensures r.Some? ==> r.value.versions == Some([selected]) && r.value.query.None? && r.value.index == Some(Downloads)
  {
    if DefaultListingRuns(gameVersions) then Some(DefaultListing(selected)) else None
  }

  /** After the debounce, a search runs only when `query.trim()` is truthy. */
  predicate AutoSearchRuns(query: string)
  {
    Trim(query) != ""
  }

  /** A search runs exactly when the box holds some character that is not
      white space: a box of blanks never reaches the registry. */
  lemma AutoSearchRunsIff(query: string)
    ensures AutoSearchRuns(query) <==> exists i :: 0 <= i < |query| && !IsJsSpace(query[i])
  {
    TrimEmptyIff(query);
  }

  /** The result list after `handleSearch`: the hits, or nothing when the
      request failed. */
  function AfterSearch(mods: seq<Project>, answer: Fetch<seq<Project>>): seq<Project>
  {
    match answer
    case Fetched(hits) => hits
    case FetchFailed(_) => []
  }

  /** The result list after the default listing: the hits, or the list as
      it was when the request failed. */
  function AfterDefaultListing(mods: seq<Project>, answer: Fetch<seq<Project>>): seq<Project>
  {
    match answer
    case Fetched(hits) => hits
    case FetchFailed(_) => mods
  }

  /** How the two refreshes relate: a search never depends on the list it
      replaces; the default listing depends on it only through a failure,
      which keeps it; both show the same list after a success; and after
      a failure the search's list is empty while the default listing's is
      the old one. */
  lemma RefreshesCompared(m1: seq<Project>, m2: seq<Project>, answer: Fetch<seq<Project>>)
    ensures AfterSearch(m1, answer) == AfterSearch(m2, answer)
    ensures AfterDefaultListing(m1, answer) == AfterDefaultListing(m2, answer) <==> answer.Fetched? || m1 == m2
    ensures answer.Fetched? ==> AfterSearch(m1, answer) == AfterDefaultListing(m1, answer) == answer.value
    ensures answer.FetchFailed? ==> AfterSearch(m1, answer) == [] && AfterDefaultListing(m1, answer) == m1
  {
  }
}
