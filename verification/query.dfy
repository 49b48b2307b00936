/** The request compilers of the registry client: `searchMods` turns
    SearchParams into `/search` query parameters, with the filters as a
    conjunction of facet groups, and `getModVersions` turns optional filters
    into `/project/{id}/version` parameters. An optional input is sent only
    when JavaScript finds it truthy (or, for `featured`, defined); otherwise
    the parameter is left out, never sent empty.

    Query parameters are kept in the order `URLSearchParams.set` gives them
    (an insertion-ordered map). Their values stay structured: JSON and URL
    encoding are not modelled.
 */
module Query {
  import opened Wrappers
  import opened Text
  import opened OrderedMap
  import opened Modrinth

  const BaseUrl := "https://api.modrinth.com/v2"

  /** A query parameter value: text, or a list that is sent as JSON. */
  datatype ParamValue =
    | Plain(text: string)
    | JsonStrings(items: seq<string>)
    | JsonFacets(groups: seq<seq<string>>)

  datatype Request = Request(url: string, params: Pairs<ParamValue>)

  /** JavaScript truthiness of an optional string and an optional number. */
  predicate TruthyText(o: Option<string>)
  {
    o.Some? && o.value != ""
  }

  predicate TruthyNumber(o: Option<int>)
  {
    o.Some? && o.value != 0
  }

  /** `list && list.length > 0` */
  predicate NonEmptyList(o: Option<seq<string>>)
  {
    o.Some? && |o.value| > 0
  }

  /** The values of an optional list, none when it is absent. */
  function Listed(o: Option<seq<string>>): seq<string>
  {
    if o.Some? then o.value else []
  }

  /** One `if (cond) url.searchParams.set(name, value)` of a request builder. */
  datatype Setting = Setting(when: bool, name: string, value: ParamValue)

  /** The settings' names are pairwise different, as in both builders. */
  predicate DistinctNames(settings: seq<Setting>)
  {
    forall i, j :: 0 <= i < j < |settings| ==> settings[i].name != settings[j].name
  }

  function Names(settings: seq<Setting>): seq<string>
  {
    seq(|settings|, i requires 0 <= i < |settings| => settings[i].name)
  }

  /** The parameters after running the settings in order on a URL without any. */
  function SetAll(settings: seq<Setting>): (r: Pairs<ParamValue>)
    ensures UniqueKeys(r)
    ensures forall k :: k in Keys(r) ==> k in Names(settings)
  {
    if |settings| == 0 then []
    else
      var n := |settings| - 1;
      var last := settings[n];
      var before := SetAll(settings[..n]);
      assert Names(settings) == Names(settings[..n]) + [last.name];
      if last.when then
        PutUnique(before, last.name, last.value);
        PutKeysWithin(before, last.name, last.value);
        Put(before, last.name, last.value)
      else before
  }

  /** With distinct names, a parameter holds its setting's value exactly when
      that setting's condition held, and is absent otherwise. */
  lemma {:induction false} SetAllLookup(settings: seq<Setting>, j: nat)
    requires DistinctNames(settings)
    requires j < |settings|
    ensures Lookup(SetAll(settings), settings[j].name)
            == if settings[j].when then Some(settings[j].value) else None
  {
    var n := |settings| - 1;
    var front := settings[..n];
    assert DistinctNames(front) by {
      forall a, b | 0 <= a < b < |front| ensures front[a].name != front[b].name {
        assert front[a] == settings[a] && front[b] == settings[b];
      }
    }
    if j < n {
      assert front[j] == settings[j];
      SetAllLookup(front, j);
    } else {
      SetAllAbsent(front, settings[j].name);
    }
  }

  /** A name no setting uses is never sent. */
  lemma SetAllAbsent(settings: seq<Setting>, k: string)
    requires forall i :: 0 <= i < |settings| ==> settings[i].name != k
    ensures Lookup(SetAll(settings), k) == None
  {
  }

  // ---------------------------------------------------------------------------
  // Facets

  const CategoryPrefix := "categories:"
  const VersionPrefix := "versions:"
  const ProjectTypePrefix := "project_type:"

  /** One facet group as intended: one facet per value, any of which may
      match. */
  function FacetGroup(prefix: string, values: seq<string>): seq<string>
  {
    seq(|values|, i requires 0 <= i < |values| => prefix + values[i])
  }

  /** The intended groups, in the fixed order of `searchMods`: categories,
      versions, project type; a group only for an input that is present and
      not empty. */
  function FacetGroups(p: SearchParams): (r: seq<seq<string>>)
    ensures |r| <= 3
    ensures forall i :: 0 <= i < |r| ==> |r[i]| > 0
    ensures |r| == 0 <==> !NonEmptyList(p.categories) && !NonEmptyList(p.versions) && p.projectType.None?
  {
    (if NonEmptyList(p.categories) then [FacetGroup(CategoryPrefix, p.categories.value)] else [])
    + (if NonEmptyList(p.versions) then [FacetGroup(VersionPrefix, p.versions.value)] else [])
    + (if p.projectType.Some? then [[ProjectTypePrefix + p.projectType.value.WireName()]] else [])
  }

  /** The facet group as the code builds it:
      `` [`categories:${values.join('","categories:')}`] ``. The join puts the
      characters `","` inside ONE string, and `JSON.stringify` then escapes
      those quotes, so the registry receives a single facet however many
      values there are. */
  function FacetGroupAsWritten(prefix: string, values: seq<string>): (g: seq<string>)
    ensures |g| == 1
  {
    [prefix + Join(values, "\",\"" + prefix)]
  }

  /** The groups as `searchMods` builds them (modrinthApi.ts:14-26): the
      same order and conditions as `FacetGroups`, with each list joined into
      one facet. */
  function FacetGroupsAsWritten(p: SearchParams): (r: seq<seq<string>>)
    ensures forall i :: 0 <= i < |r| ==> |r[i]| == 1
  {
    (if NonEmptyList(p.categories) then [FacetGroupAsWritten(CategoryPrefix, p.categories.value)] else [])
    + (if NonEmptyList(p.versions) then [FacetGroupAsWritten(VersionPrefix, p.versions.value)] else [])
    + (if p.projectType.Some? then [[ProjectTypePrefix + p.projectType.value.WireName()]] else [])
  }

  /** The one value the joined group stands for, when the list is not empty. */
  function Merged(o: Option<seq<string>>, prefix: string): Option<seq<string>>
  {
    if NonEmptyList(o) then Some([Join(o.value, "\",\"" + prefix)]) else None
  }

  /** The search inputs as the code's groups carry them: each list cut down
      to its joined value. */
  function AsWrittenParams(p: SearchParams): SearchParams
  {
    p.(categories := Merged(p.categories, CategoryPrefix), versions := Merged(p.versions, VersionPrefix))
  }

  /** The code's groups are the intended groups of the joined values. */
  lemma AsWrittenGroups(p: SearchParams)
    ensures FacetGroupsAsWritten(p) == FacetGroups(AsWrittenParams(p))
  {
    if NonEmptyList(p.categories) {
      assert FacetGroupAsWritten(CategoryPrefix, p.categories.value)
          == FacetGroup(CategoryPrefix, AsWrittenParams(p).categories.value);
    }
    if NonEmptyList(p.versions) {
      assert FacetGroupAsWritten(VersionPrefix, p.versions.value)
          == FacetGroup(VersionPrefix, AsWrittenParams(p).versions.value);
    }
  }

  /** A list of at most one value is not changed by the join. */
  lemma MergedOneValue(o: Option<seq<string>>, prefix: string)
    requires |Listed(o)| <= 1
    ensures Listed(Merged(o, prefix)) == Listed(o)
  {
    if NonEmptyList(o) {
      assert o.value == [o.value[0]];
      assert Join(o.value, "\",\"" + prefix) == o.value[0];
    }
  }

  /** A list of two or more values reaches the registry as one value. */
  lemma MergedManyValues(o: Option<seq<string>>, prefix: string)
    requires |Listed(o)| >= 2
    ensures |Listed(Merged(o, prefix))| == 1 < |Listed(o)|
  {
  }

  /** With at most one category and one version, the code's groups are the
      intended ones. */
  lemma GroupsAgreeOnOneValue(p: SearchParams)
    requires |Listed(p.categories)| <= 1 && |Listed(p.versions)| <= 1
    ensures FacetGroupsAsWritten(p) == FacetGroups(p)
  {
    AsWrittenGroups(p);
    MergedOneValue(p.categories, CategoryPrefix);
    MergedOneValue(p.versions, VersionPrefix);
    if NonEmptyList(p.categories) {
      assert AsWrittenParams(p).categories == p.categories;
    }
    if NonEmptyList(p.versions) {
      assert AsWrittenParams(p).versions == p.versions;
    }
  }

  /** What the registry reads back from the facets: the category and version
      values, and the project type. */
  datatype Filters = Filters(categories: seq<string>, versions: seq<string>, projectType: Option<ProjectType>)

  predicate StartsWith(s: string, prefix: string)
  {
    |prefix| <= |s| && s[..|prefix|] == prefix
  }

  function ProjectTypeNamed(name: string): Option<ProjectType>
  {
    if name == "mod" then Some(Mod)
    else if name == "modpack" then Some(Modpack)
    else if name == "resourcepack" then Some(ResourcePack)
    else if name == "shader" then Some(Shader)
    else None
  }

  lemma ProjectTypeNamedInverse(t: ProjectType)
    ensures ProjectTypeNamed(t.WireName()) == Some(t)
  {
  }

  /** Read one facet `key:value` into the filters gathered so far. */
  function ReadFacet(f: string, acc: Filters): Filters
  {
    if StartsWith(f, CategoryPrefix) then acc.(categories := acc.categories + [f[|CategoryPrefix|..]])
    else if StartsWith(f, VersionPrefix) then acc.(versions := acc.versions + [f[|VersionPrefix|..]])
    else if StartsWith(f, ProjectTypePrefix) && ProjectTypeNamed(f[|ProjectTypePrefix|..]).Some? then
      acc.(projectType := ProjectTypeNamed(f[|ProjectTypePrefix|..]))
    else acc
  }

  function ReadFacets(fs: seq<string>, acc: Filters): Filters
  {
    if |fs| == 0 then acc else ReadFacets(fs[1..], ReadFacet(fs[0], acc))
  }

  function Flatten(groups: seq<seq<string>>): seq<string>
  {
    if |groups| == 0 then [] else groups[0] + Flatten(groups[1..])
  }

  function DecodeFacets(groups: seq<seq<string>>): Filters
  {
    ReadFacets(Flatten(groups), Filters([], [], None))
  }

  lemma {:induction false} ReadFacetsAppend(a: seq<string>, b: seq<string>, acc: Filters)
    ensures ReadFacets(a + b, acc) == ReadFacets(b, ReadFacets(a, acc))
  {
    if |a| > 0 {
      assert (a + b)[0] == a[0];
      assert (a + b)[1..] == a[1..] + b;
      ReadFacetsAppend(a[1..], b, ReadFacet(a[0], acc));
      assert ReadFacets(a + b, acc) == ReadFacets(a[1..] + b, ReadFacet(a[0], acc));
    } else {
      assert a + b == b;
    }
  }

  lemma {:induction false} FlattenAppend(g: seq<seq<string>>, h: seq<seq<string>>)
    ensures Flatten(g + h) == Flatten(g) + Flatten(h)
  {
    if |g| > 0 {
      assert (g + h)[0] == g[0];
      assert (g + h)[1..] == g[1..] + h;
      FlattenAppend(g[1..], h);
    } else {
      assert g + h == h;
    }
  }

  lemma FlattenOne(g: seq<string>)
    ensures Flatten([g]) == g
  {
    assert [g][1..] == [];
  }

  lemma {:induction false} ReadCategoryGroup(values: seq<string>, acc: Filters)
    ensures ReadFacets(FacetGroup(CategoryPrefix, values), acc)
            == acc.(categories := acc.categories + values)
  {
    if |values| > 0 {
      var g := FacetGroup(CategoryPrefix, values);
      assert g[0][..|CategoryPrefix|] == CategoryPrefix;
      assert g[0][|CategoryPrefix|..] == values[0];
      assert g[1..] == FacetGroup(CategoryPrefix, values[1..]);
      ReadCategoryGroup(values[1..], ReadFacet(g[0], acc));
      assert acc.categories + [values[0]] + values[1..] == acc.categories + values;
    }
  }

  lemma {:induction false} ReadVersionGroup(values: seq<string>, acc: Filters)
    ensures ReadFacets(FacetGroup(VersionPrefix, values), acc)
            == acc.(versions := acc.versions + values)
  {
    if |values| > 0 {
      var g := FacetGroup(VersionPrefix, values);
      assert g[0][..|VersionPrefix|] == VersionPrefix;
      assert !StartsWith(g[0], CategoryPrefix) by {
        assert g[0][0] == 'v';
      }
      assert g[0][|VersionPrefix|..] == values[0];
      assert g[1..] == FacetGroup(VersionPrefix, values[1..]);
      ReadVersionGroup(values[1..], ReadFacet(g[0], acc));
      assert acc.versions + [values[0]] + values[1..] == acc.versions + values;
    }
  }

  lemma ReadProjectTypeFacet(t: ProjectType, acc: Filters)
    ensures ReadFacets([ProjectTypePrefix + t.WireName()], acc) == acc.(projectType := Some(t))
  {
    var f := ProjectTypePrefix + t.WireName();
    var single: seq<string> := [f];
    assert single[1..] == [];
    assert !StartsWith(f, CategoryPrefix) && !StartsWith(f, VersionPrefix) by {
      assert f[0] == 'p';
    }
    assert f[..|ProjectTypePrefix|] == ProjectTypePrefix;
    assert f[|ProjectTypePrefix|..] == t.WireName();
    ProjectTypeNamedInverse(t);
  }

  /** The field a facet filters on, by its prefix: 0 for categories, 1 for
      game versions, 2 for the project type, -1 for none of them. */
  function Dimension(f: string): int
  {
    if StartsWith(f, CategoryPrefix) then 0
    else if StartsWith(f, VersionPrefix) then 1
    else if StartsWith(f, ProjectTypePrefix) then 2
    else -1
  }

  /** The registry reads the outer list as "all of" and each group as "any
      of": every group is non-empty and filters on one known field, and the
      fields of the groups are distinct and in the order categories,
      versions, project type. So no two groups restrict the same field, and
      flattening the groups loses nothing. */
  predicate OneFieldPerGroup(groups: seq<seq<string>>)
  {
    (forall i :: 0 <= i < |groups| ==> |groups[i]| > 0 && Dimension(groups[i][0]) >= 0) &&
    (forall i, j :: 0 <= i < |groups| && 0 <= j < |groups[i]| ==> Dimension(groups[i][j]) == Dimension(groups[i][0])) &&
    (forall i, j :: 0 <= i < j < |groups| && |groups[i]| > 0 && |groups[j]| > 0 ==>
       Dimension(groups[i][0]) < Dimension(groups[j][0]))
  }

  lemma PrefixDimensions(x: string)
    ensures Dimension(CategoryPrefix + x) == 0
    ensures Dimension(VersionPrefix + x) == 1
    ensures Dimension(ProjectTypePrefix + x) == 2
  {
    assert (CategoryPrefix + x)[..|CategoryPrefix|] == CategoryPrefix;
    assert (VersionPrefix + x)[..|VersionPrefix|] == VersionPrefix;
    assert (VersionPrefix + x)[0] == 'v';
    assert (ProjectTypePrefix + x)[..|ProjectTypePrefix|] == ProjectTypePrefix;
    assert (ProjectTypePrefix + x)[0] == 'p';
  }

  /** A group of values under one prefix filters on that prefix's field. */
  lemma GroupDimension(prefix: string, values: seq<string>, d: int)
    requires forall x :: Dimension(prefix + x) == d
    ensures forall j :: 0 <= j < |values| ==> Dimension(FacetGroup(prefix, values)[j]) == d
  {
  }

  /** The intended groups filter on one field each, in the fixed order. */
  lemma IntendedOneFieldPerGroup(p: SearchParams)
    ensures OneFieldPerGroup(FacetGroups(p))
  {
    forall x ensures Dimension(CategoryPrefix + x) == 0 && Dimension(VersionPrefix + x) == 1 && Dimension(ProjectTypePrefix + x) == 2 {
      PrefixDimensions(x);
    }
    var gc := if NonEmptyList(p.categories) then [FacetGroup(CategoryPrefix, p.categories.value)] else [];
    var gv := if NonEmptyList(p.versions) then [FacetGroup(VersionPrefix, p.versions.value)] else [];
    var gt := if p.projectType.Some? then [[ProjectTypePrefix + p.projectType.value.WireName()]] else [];
    GroupDimension(CategoryPrefix, Listed(p.categories), 0);
    GroupDimension(VersionPrefix, Listed(p.versions), 1);
    GroupDimension(ProjectTypePrefix, if p.projectType.Some? then [p.projectType.value.WireName()] else [], 2);
    ThreeGroups(gc, gv, gt);
  }

  /** Up to one group for each of the three fields, in order, filter on one
      field each. */
  lemma ThreeGroups(gc: seq<seq<string>>, gv: seq<seq<string>>, gt: seq<seq<string>>)
    requires |gc| <= 1 && |gv| <= 1 && |gt| <= 1
    requires forall i, j :: 0 <= i < |gc| && 0 <= j < |gc[i]| ==> Dimension(gc[i][j]) == 0
    requires forall i, j :: 0 <= i < |gv| && 0 <= j < |gv[i]| ==> Dimension(gv[i][j]) == 1
    requires forall i, j :: 0 <= i < |gt| && 0 <= j < |gt[i]| ==> Dimension(gt[i][j]) == 2
    requires forall i :: 0 <= i < |gc| ==> |gc[i]| > 0
    requires forall i :: 0 <= i < |gv| ==> |gv[i]| > 0
    requires forall i :: 0 <= i < |gt| ==> |gt[i]| > 0
    ensures OneFieldPerGroup(gc + gv + gt)
  {
    var r := gc + gv + gt;
    forall i | 0 <= i < |r|
      ensures |r[i]| > 0
      ensures forall j :: 0 <= j < |r[i]| ==> Dimension(r[i][j]) == RankAt(|gc|, |gv|, i)
    {
      if i < |gc| { assert r[i] == gc[i]; }
      else if i < |gc| + |gv| { assert r[i] == gv[i - |gc|]; }
      else { assert r[i] == gt[i - |gc| - |gv|]; }
    }
  }

  /** The field of the i-th group when the first `c` groups are categories
      and the next `v` versions. */
  function RankAt(c: nat, v: nat, i: nat): int
  {
    if i < c then 0 else if i < c + v then 1 else 2
  }

  /** The code's groups are shaped the same way: one facet each, one field
      each, in the fixed order. */
  lemma AsWrittenOneFieldPerGroup(p: SearchParams)
    ensures OneFieldPerGroup(FacetGroupsAsWritten(p))
  {
    AsWrittenGroups(p);
    IntendedOneFieldPerGroup(AsWrittenParams(p));
  }

  /** The facet groups carry exactly the filters asked for: decoding them
      gives back the categories, the versions and the project type, with an
      absent list reading as no values. */
  lemma FacetsRoundTrip(p: SearchParams)
    ensures DecodeFacets(FacetGroups(p)) == Filters(Listed(p.categories), Listed(p.versions), p.projectType)
  {
    var gc := if NonEmptyList(p.categories) then [FacetGroup(CategoryPrefix, p.categories.value)] else [];
    var gv := if NonEmptyList(p.versions) then [FacetGroup(VersionPrefix, p.versions.value)] else [];
    var gt := if p.projectType.Some? then [[ProjectTypePrefix + p.projectType.value.WireName()]] else [];
    assert FacetGroups(p) == gc + gv + gt;
    FlattenAppend(gc + gv, gt);
    FlattenAppend(gc, gv);
    var e := Filters([], [], None);
    ReadFacetsAppend(Flatten(gc) + Flatten(gv), Flatten(gt), e);
    ReadFacetsAppend(Flatten(gc), Flatten(gv), e);
    var e1 := e.(categories := Listed(p.categories));
    if NonEmptyList(p.categories) {
      FlattenOne(FacetGroup(CategoryPrefix, p.categories.value));
      ReadCategoryGroup(p.categories.value, e);
    } else {
      assert Flatten(gc) == [];
    }
    assert ReadFacets(Flatten(gc), e) == e1;
    var e2 := e1.(versions := Listed(p.versions));
    if NonEmptyList(p.versions) {
      FlattenOne(FacetGroup(VersionPrefix, p.versions.value));
      ReadVersionGroup(p.versions.value, e1);
    } else {
      assert Flatten(gv) == [];
    }
    assert ReadFacets(Flatten(gv), e1) == e2;
    if p.projectType.Some? {
      FlattenOne([ProjectTypePrefix + p.projectType.value.WireName()]);
      ReadProjectTypeFacet(p.projectType.value, e2);
    } else {
      assert Flatten(gt) == [];
    }
  }

  /** A single value gives the same group either way: the app's own callers,
      which always pass one version and at most one category, are not hit. */
  lemma AsWrittenAgreesOnOneValue(prefix: string, value: string)
    ensures FacetGroupAsWritten(prefix, [value]) == FacetGroup(prefix, [value])
  {
  }

  /** Two categories as written: the registry reads a single category whose
      name contains the separator, not the two categories. */
  lemma AsWrittenMergesValues()
    ensures DecodeFacets([FacetGroupAsWritten(CategoryPrefix, ["a", "b"])]).categories
            == ["a\",\"categories:b"]
    ensures DecodeFacets([FacetGroup(CategoryPrefix, ["a", "b"])]).categories == ["a", "b"]
  {
    var merged := "a\",\"categories:b";
    var f := CategoryPrefix + merged;
    var sep := "\",\"" + CategoryPrefix;
    assert Join(["a", "b"], sep) == merged by {
      assert ["a", "b"][1..] == ["b"];
      assert Join(["b"], sep) == "b";
      assert Join(["a", "b"], sep) == "a" + sep + "b";
      assert sep == "\",\"categories:";
      assert "a" + sep == "a\",\"categories:";
      assert "a" + sep + "b" == merged;
    }
    assert FacetGroupAsWritten(CategoryPrefix, ["a", "b"]) == [f];
    FlattenOne([f]);
    assert f[..|CategoryPrefix|] == CategoryPrefix;
    assert f[|CategoryPrefix|..] == merged;
    var single: seq<string> := [f];
    assert single[1..] == [];
    var e := Filters([], [], None);
    assert StartsWith(f, CategoryPrefix);
    assert ReadFacet(f, e) == e.(categories := [merged]);
    assert ReadFacets(single, e) == ReadFacets([], ReadFacet(f, e));
    FlattenOne(FacetGroup(CategoryPrefix, ["a", "b"]));
    ReadCategoryGroup(["a", "b"], Filters([], [], None));
  }

  // ---------------------------------------------------------------------------
  // searchMods

  /** The five `set` calls of `searchMods`, in the order they are made, with
      the facet groups given. */
  function SearchSettings(p: SearchParams, groups: seq<seq<string>>): seq<Setting>
  {
    [ Setting(TruthyText(p.query), "query", Plain(p.query.GetOr(""))),
      Setting(TruthyNumber(p.limit), "limit", Plain(DecimalOf(p.limit.GetOr(0)))),
      Setting(TruthyNumber(p.offset), "offset", Plain(DecimalOf(p.offset.GetOr(0)))),
      Setting(p.index.Some?, "index", Plain(if p.index.Some? then p.index.value.WireName() else "")),
      Setting(|groups| > 0, "facets", JsonFacets(groups)) ]
  }

  lemma SearchNamesDistinct(p: SearchParams, groups: seq<seq<string>>)
    ensures DistinctNames(SearchSettings(p, groups))
  {
  }

  lemma SearchNames(p: SearchParams, groups: seq<seq<string>>)
    ensures Names(SearchSettings(p, groups)) == ["query", "limit", "offset", "index", "facets"]
  {
  }

  /** Each of the five settings of `searchMods` decides its own parameter. */
  lemma SearchParamAt(p: SearchParams, groups: seq<seq<string>>, j: nat)
    requires j < 5
    ensures Lookup(SetAll(SearchSettings(p, groups)), SearchSettings(p, groups)[j].name)
            == if SearchSettings(p, groups)[j].when then Some(SearchSettings(p, groups)[j].value) else None
  {
    SearchNamesDistinct(p, groups);
    SetAllLookup(SearchSettings(p, groups), j);
  }

  /** The request of `searchMods(params)`, with the facet groups built as the
      code builds them: no parameter is sent twice, and only the five the
      registry's search reads are ever sent. */
  function CompileSearch(p: SearchParams): (r: Request)
    ensures r.url == BaseUrl + "/search"
    ensures UniqueKeys(r.params)
    ensures forall k :: k in Keys(r.params) ==> k in ["query", "limit", "offset", "index", "facets"]
  {
    SearchNames(p, FacetGroupsAsWritten(p));
    Request(BaseUrl + "/search", SetAll(SearchSettings(p, FacetGroupsAsWritten(p))))
  }

  /** The request `searchMods` evidently means to make: the same, with one
      facet per value. */
  function CompileSearchIntended(p: SearchParams): (r: Request)
    ensures r.url == BaseUrl + "/search"
    ensures UniqueKeys(r.params)
    ensures forall k :: k in Keys(r.params) ==> k in ["query", "limit", "offset", "index", "facets"]
  {
    SearchNames(p, FacetGroups(p));
    Request(BaseUrl + "/search", SetAll(SearchSettings(p, FacetGroups(p))))
  }

  /** The free-text query and the sort key are sent as given, and only when
      JavaScript finds them truthy. */
  lemma SearchTextParams(p: SearchParams)
    ensures Lookup(CompileSearch(p).params, "query")
            == if TruthyText(p.query) then Some(Plain(p.query.value)) else None
    ensures Lookup(CompileSearch(p).params, "index")
            == if p.index.Some? then Some(Plain(p.index.value.WireName())) else None
  {
    SearchParamAt(p, FacetGroupsAsWritten(p), 0);
    SearchParamAt(p, FacetGroupsAsWritten(p), 3);
  }

  /** `limit` and `offset` are sent as decimal text exactly when they are
      present and not 0: an offset of 0 is left out, not sent. */
  lemma SearchNumberParams(p: SearchParams)
    ensures Lookup(CompileSearch(p).params, "limit")
            == if TruthyNumber(p.limit) then Some(Plain(DecimalOf(p.limit.value))) else None
    ensures Lookup(CompileSearch(p).params, "offset")
            == if TruthyNumber(p.offset) then Some(Plain(DecimalOf(p.offset.value))) else None
  {
    SearchParamAt(p, FacetGroupsAsWritten(p), 1);
    SearchParamAt(p, FacetGroupsAsWritten(p), 2);
  }

  /** The `facets` parameter of the code is sent exactly when there is some
      filter. It filters on one field per group, and the registry reads
      back from it the project type and, for categories and versions, the
      joined value of each list: the list itself when it has at most one
      value, a single merged value when it has more. */
  lemma SearchFacetsParam(p: SearchParams)
    ensures Lookup(CompileSearch(p).params, "facets").Some? <==>
              NonEmptyList(p.categories) || NonEmptyList(p.versions) || p.projectType.Some?
    ensures Lookup(CompileSearch(p).params, "facets").Some? ==>
              Lookup(CompileSearch(p).params, "facets").value.JsonFacets? &&
              OneFieldPerGroup(Lookup(CompileSearch(p).params, "facets").value.groups) &&
              DecodeFacets(Lookup(CompileSearch(p).params, "facets").value.groups)
                == Filters(Listed(Merged(p.categories, CategoryPrefix)), Listed(Merged(p.versions, VersionPrefix)), p.projectType)
  {
    SearchParamAt(p, FacetGroupsAsWritten(p), 4);
    AsWrittenGroups(p);
    AsWrittenOneFieldPerGroup(p);
    FacetsRoundTrip(AsWrittenParams(p));
  }

  /** The intended `facets` parameter is sent exactly when there is some
      filter, filters on one field per group, and reads back as exactly the
      filters asked for. */
  lemma IntendedFacetsParam(p: SearchParams)
    ensures Lookup(CompileSearchIntended(p).params, "facets").Some? <==>
              NonEmptyList(p.categories) || NonEmptyList(p.versions) || p.projectType.Some?
    ensures Lookup(CompileSearchIntended(p).params, "facets").Some? ==>
              Lookup(CompileSearchIntended(p).params, "facets").value.JsonFacets? &&
              OneFieldPerGroup(Lookup(CompileSearchIntended(p).params, "facets").value.groups) &&
              DecodeFacets(Lookup(CompileSearchIntended(p).params, "facets").value.groups)
                == Filters(Listed(p.categories), Listed(p.versions), p.projectType)
  {
    SearchParamAt(p, FacetGroups(p), 4);
    IntendedOneFieldPerGroup(p);
    FacetsRoundTrip(p);
  }

  /** With at most one category and one version, which is all the app ever
      passes, the code's request is the intended one. */
  lemma SearchAgreesOnOneValue(p: SearchParams)
    requires |Listed(p.categories)| <= 1 && |Listed(p.versions)| <= 1
    ensures CompileSearch(p) == CompileSearchIntended(p)
  {
    GroupsAgreeOnOneValue(p);
  }

  /** The numbers travel as decimal text that reads back as the same number. */
  lemma LimitReadsBack(p: SearchParams)
    requires TruthyNumber(p.limit)
    ensures exists t :: Lookup(CompileSearch(p).params, "limit") == Some(Plain(t)) && ParseInt(t) == Some(p.limit.value)
  {
    SearchNumberParams(p);
    ParseDecimal(p.limit.value);
  }

  // ---------------------------------------------------------------------------
  // getModVersions

  /** The optional second argument of `getModVersions`. */
  datatype VersionFilters = VersionFilters(
    gameVersions: Option<seq<string>>,
    loaders: Option<seq<string>>,
    featured: Option<bool>)

  function BoolText(b: bool): string
  {
    if b then "true" else "false"
  }

  /** The request of `getModVersions(projectId, filters)`. */
  function CompileVersions(projectId: string, filters: Option<VersionFilters>): (r: Request)
    ensures r.url == BaseUrl + "/project/" + projectId + "/version"
    ensures UniqueKeys(r.params)
    ensures forall k :: k in Keys(r.params) ==> k in ["game_versions", "loaders", "featured"]
    ensures Lookup(r.params, "game_versions") ==
              if filters.Some? && NonEmptyList(filters.value.gameVersions)
              then Some(JsonStrings(filters.value.gameVersions.value)) else None
    ensures Lookup(r.params, "loaders") ==
              if filters.Some? && NonEmptyList(filters.value.loaders)
              then Some(JsonStrings(filters.value.loaders.value)) else None
    ensures Lookup(r.params, "featured").Some? <==> filters.Some? && filters.value.featured.Some?
    ensures filters.Some? && filters.value.featured == Some(false) ==>
              Lookup(r.params, "featured") == Some(Plain("false"))
    ensures filters.Some? && filters.value.featured == Some(true) ==>
              Lookup(r.params, "featured") == Some(Plain("true"))
  {
    var f := filters.GetOr(VersionFilters(None, None, None));
    VersionParamAt(f, 0);
    VersionParamAt(f, 1);
    VersionParamAt(f, 2);
    VersionNames(f);
    Request(BaseUrl + "/project/" + projectId + "/version", SetAll(VersionSettings(f)))
  }

  /** The three `set` calls of `getModVersions`, in the order they are made. */
  function VersionSettings(f: VersionFilters): seq<Setting>
  {
    [ Setting(NonEmptyList(f.gameVersions), "game_versions", JsonStrings(Listed(f.gameVersions))),
      Setting(NonEmptyList(f.loaders), "loaders", JsonStrings(Listed(f.loaders))),
      Setting(f.featured.Some?, "featured", Plain(BoolText(f.featured.GetOr(false)))) ]
  }

  lemma VersionNames(f: VersionFilters)
    ensures Names(VersionSettings(f)) == ["game_versions", "loaders", "featured"]
  {
  }

  /** Each of the three settings of `getModVersions` decides its own parameter. */
  lemma VersionParamAt(f: VersionFilters, j: nat)
    requires j < 3
    ensures Lookup(SetAll(VersionSettings(f)), VersionSettings(f)[j].name)
            == if VersionSettings(f)[j].when then Some(VersionSettings(f)[j].value) else None
  {
    assert DistinctNames(VersionSettings(f));
    SetAllLookup(VersionSettings(f), j);
  }
}
