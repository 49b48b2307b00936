/** The download selection of the bulk downloader: a JavaScript `Map` from
    `project_id` to the project and the chosen version, and the version
    dialog that sits between clicking a project and choosing a version.

    Clicking a selected project removes it. Clicking an unselected project
    never selects it: it asks the registry for the project's versions for
    the chosen game version, and opens the dialog when there are any.
    Choosing a version in the dialog selects the project with that version
    and closes the dialog.
 */
module Selection {
  import opened Wrappers
  import opened OrderedMap
  import opened Modrinth
  import opened Query

  /** `{mod, version?}`: a value of the selection map. */
  datatype Entry = Entry(project: Project, version: Option<ModVersion>)

  type Selection = Pairs<Entry>

  /** `showVersionModal`: the project being chosen for and its versions. */
  datatype VersionChoice = VersionChoice(project: Project, versions: seq<ModVersion>)

  /** The part of the downloader's state these handlers change. */
  datatype Browser = Browser(selected: Selection, dialog: Option<VersionChoice>)

  /** The result of a click: the new state, and the versions request made
      on the way, if one was made. */
  datatype Click = Click(after: Browser, request: Option<Request>)

  /** What the selection keeps at all times: one pair per project, keyed by
      that project's id, each with a chosen version. */
  predicate Valid(s: Selection)
  {
    UniqueKeys(s) && forall e :: e in s ==> e.0 == e.1.project.projectId && e.1.version.Some?
  }

  /** The request `handleModSelect` sends: versions of the project for the
      selected game version, with no loader or `featured` filter. */
  function VersionsRequest(project: Project, gameVersion: string): Request
  {
    CompileVersions(project.projectId, Some(VersionFilters(Some([gameVersion]), None, None)))
  }

  /** `handleModSelect(project)`, with the registry's answer to the versions
      request given as `fetched` (it is only looked at when the request is made). */
  function ModSelect(b: Browser, project: Project, gameVersion: string, fetched: Fetch<seq<ModVersion>>): (r: Click)
    ensures project.projectId in Keys(b.selected) ==>
              project.projectId !in Keys(r.after.selected) && r.request.None? && r.after.dialog == b.dialog
    ensures project.projectId !in Keys(b.selected) ==>
              r.after.selected == b.selected && r.request == Some(VersionsRequest(project, gameVersion))
    ensures forall k :: k != project.projectId ==> Lookup(r.after.selected, k) == Lookup(b.selected, k)
    ensures forall k :: k in Keys(r.after.selected) ==> k in Keys(b.selected)
    ensures r.after.dialog != b.dialog ==>
              project.projectId !in Keys(b.selected) && fetched.Fetched? && |fetched.value| > 0 &&
              r.after.dialog == Some(VersionChoice(project, fetched.value))
    ensures project.projectId !in Keys(b.selected) && fetched.Fetched? && |fetched.value| > 0 ==>
              r.after.dialog == Some(VersionChoice(project, fetched.value))
    ensures Valid(b.selected) ==> Valid(r.after.selected)
  {
    var id := project.projectId;
    if id in Keys(b.selected) then
      RemovePairs(b.selected, id);
      RemoveSubset(b.selected, id);
      RemoveUnique(b.selected, id);
      Click(b.(selected := Remove(b.selected, id)), None)
    else
      var request := VersionsRequest(project, gameVersion);
      match fetched
      case Fetched(versions) =>
        if |versions| > 0 then Click(b.(dialog := Some(VersionChoice(project, versions))), Some(request))
        else Click(b, Some(request))
      case FetchFailed(_) => Click(b, Some(request))
  }

  /** `handleVersionSelect(project, version)` */
  function VersionSelect(b: Browser, project: Project, version: ModVersion): (r: Browser)
    ensures Lookup(r.selected, project.projectId) == Some(Entry(project, Some(version)))
    ensures forall k :: k != project.projectId ==> Lookup(r.selected, k) == Lookup(b.selected, k)
    ensures project.projectId in Keys(b.selected) ==> Keys(r.selected) == Keys(b.selected)
    ensures project.projectId !in Keys(b.selected) ==>
              r.selected == b.selected + [(project.projectId, Entry(project, Some(version)))]
    ensures r.dialog.None?
    ensures Valid(b.selected) ==> Valid(r.selected)
  {
    var e := Entry(project, Some(version));
    PutPairs(b.selected, project.projectId, e);
    PutUnique(b.selected, project.projectId, e);
    if project.projectId in Keys(b.selected) then
      PutPresent(b.selected, project.projectId, e);
      Browser(Put(b.selected, project.projectId, e), None)
    else
      PutAbsent(b.selected, project.projectId, e);
      Browser(Put(b.selected, project.projectId, e), None)
  }

  /** The versions request asks for the one selected game version and
      nothing else. */
  lemma VersionsRequestFilters(project: Project, gameVersion: string)
    ensures Lookup(VersionsRequest(project, gameVersion).params, "game_versions") == Some(JsonStrings([gameVersion]))
    ensures Lookup(VersionsRequest(project, gameVersion).params, "loaders") == None
    ensures Lookup(VersionsRequest(project, gameVersion).params, "featured") == None
  {
  }

  /** Clicking a selected project cuts exactly its entry out and keeps every
      other entry in its place. */
  lemma {:induction false} ToggleOffRemovesExactly(b: Browser, i: nat, gameVersion: string, fetched: Fetch<seq<ModVersion>>)
    requires Valid(b.selected)
    requires i < |b.selected|
    ensures ModSelect(b, b.selected[i].1.project, gameVersion, fetched).after.selected
            == b.selected[..i] + b.selected[i + 1..]
  {
    var e := b.selected[i];
    assert e in b.selected;
    assert Keys(b.selected)[i] == e.0;
    RemoveAt(b.selected, i);
  }

  /** Choosing a version for a project that was not selected and then
      clicking it again gives back the selection from before. */
  lemma ChooseThenToggle(b: Browser, project: Project, version: ModVersion, gameVersion: string, fetched: Fetch<seq<ModVersion>>)
    requires project.projectId !in Keys(b.selected)
    ensures ModSelect(VersionSelect(b, project, version), project, gameVersion, fetched).after.selected == b.selected
  {
    RemovePutFresh(b.selected, project.projectId, Entry(project, Some(version)));
  }

  /** Clicking the same project twice: an unselected project stays
      unselected and nothing else changes, but a selected one does not come
      back, since a click never adds to the selection. */
  lemma ToggleTwice(b: Browser, project: Project, gameVersion: string, f1: Fetch<seq<ModVersion>>, f2: Fetch<seq<ModVersion>>)
    ensures var once := ModSelect(b, project, gameVersion, f1).after;
            var twice := ModSelect(once, project, gameVersion, f2).after;
            (project.projectId !in Keys(b.selected) ==> twice.selected == b.selected) &&
            (project.projectId in Keys(b.selected) ==> project.projectId !in Keys(twice.selected))
  {
  }

  /** The user actions on the selection. `Dismiss` is closing the dialog
      without choosing. */
  datatype Action =
    | Toggle(project: Project, gameVersion: string, fetched: Fetch<seq<ModVersion>>)
    | Choose(project: Project, version: ModVersion)
    | Dismiss

  function Step(b: Browser, a: Action): Browser
  {
    match a
    case Toggle(p, gv, f) => ModSelect(b, p, gv, f).after
    case Choose(p, v) => VersionSelect(b, p, v)
    case Dismiss => b.(dialog := None)
  }

  function Run(b: Browser, actions: seq<Action>): Browser
    decreases |actions|
  {
    if |actions| == 0 then b else Run(Step(b, actions[0]), actions[1..])
  }

  /** Starting from a valid selection (the initial empty one is), any
      sequence of clicks, choices and dismissals leaves a selection with
      unique ids, each entry under its own project's id and each with a
      version: the download loop's "no version" branch is never taken in
      this app. */
  lemma {:induction false} RunKeepsValid(b: Browser, actions: seq<Action>)
    requires Valid(b.selected)
    ensures Valid(Run(b, actions).selected)
    decreases |actions|
  {
    if |actions| > 0 {
      RunKeepsValid(Step(b, actions[0]), actions[1..]);
    }
  }
}
