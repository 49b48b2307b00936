/** The registry's data shapes, as far as the core reads them, and the one
    rule about them that two components share: which file of a version is
    the one to download.
 */
module Modrinth {
  import opened Wrappers

  /** `project_type` and `SearchParams.projectType` */
  datatype ProjectType = Mod | Modpack | ResourcePack | Shader {
    function WireName(): string
    {
      match this
      case Mod => "mod"
      case Modpack => "modpack"
      case ResourcePack => "resourcepack"
      case Shader => "shader"
    }
  }

  /** `SearchParams.index`: the registry's sort keys. */
  datatype SortIndex = Relevance | Downloads | Follows | Newest | Updated {
    function WireName(): string
    {
      match this
      case Relevance => "relevance"
      case Downloads => "downloads"
      case Follows => "follows"
      case Newest => "newest"
      case Updated => "updated"
    }
  }

  /** `ModrinthVersion.version_type` */
  datatype VersionType = Release | Beta | Alpha

  /** `ModrinthFile.file_type` */
  datatype FileType = RequiredResourcePack | OptionalResourcePack

  datatype Hashes = Hashes(sha512: string, sha1: string)

  /** `ModrinthFile` */
  datatype ModFile = ModFile(
    hashes: Hashes,
    url: string,
    filename: string,
    primary: bool,
    size: nat,
    fileType: Option<FileType>)

  /** `ModrinthVersion`, without the fields the core never reads
      (changelog, dependencies, status, author). */
  datatype ModVersion = ModVersion(
    id: string,
    projectId: string,
    name: string,
    versionNumber: string,
    gameVersions: seq<string>,
    versionType: VersionType,
    loaders: seq<string>,
    featured: bool,
    datePublished: string,
    downloads: nat,
    files: seq<ModFile>)

  /** `ModrinthMod`, reduced to what the selection and downloads use. */
  datatype Project = Project(projectId: string, slug: string, title: string, projectType: ProjectType)

  /** `SearchParams`. The `facets` field exists in the type but `searchMods`
      never reads it. Numbers are integers; a JavaScript number that is not
      an integer is not modelled. */
  datatype SearchParams = SearchParams(
    query: Option<string>,
    facets: Option<seq<seq<string>>>,
    categories: Option<seq<string>>,
    versions: Option<seq<string>>,
    projectType: Option<ProjectType>,
    limit: Option<int>,
    offset: Option<int>,
    index: Option<SortIndex>)

  /** One entry of the `/tag/game_version` response. Its `version_type` is
      free text there ("release", "snapshot", ...), so it stays a string. */
  datatype GameVersionTag = GameVersionTag(version: string, versionType: string)

  /** `files.findIndex(f => f.primary)`: the first position flagged primary. */
  function FirstPrimary(files: seq<ModFile>): (r: Option<nat>)
    ensures r.None? <==> forall j :: 0 <= j < |files| ==> !files[j].primary
    ensures r.Some? ==> r.value < |files| && files[r.value].primary
    ensures r.Some? ==> forall j :: 0 <= j < r.value ==> !files[j].primary
  {
    if |files| == 0 then None
    else if files[0].primary then Some(0)
    else match FirstPrimary(files[1..])
      case Some(i) => Some(i + 1)
      case None => None
  }

  /** Position of the file to download: the first file flagged primary, and
      when no file is, the first file; no position for an empty list. */
  function PrimaryIndex(files: seq<ModFile>): (r: Option<nat>)
    ensures r.None? <==> |files| == 0
    ensures r.Some? ==> r.value < |files|
    ensures r.Some? ==> forall j :: 0 <= j < r.value ==> !files[j].primary
    ensures r.Some? && !files[r.value].primary ==>
              r.value == 0 && forall j :: 0 <= j < |files| ==> !files[j].primary
  {
    match FirstPrimary(files)
    case Some(i) => Some(i)
    case None => if |files| == 0 then None else Some(0)
  }

  /** `version.files.find(f => f.primary) || version.files[0]`, the rule the
      download loop and the version list both apply. */
  function PrimaryFile(files: seq<ModFile>): (r: Option<ModFile>)
    ensures r.None? <==> |files| == 0
    ensures r.Some? ==> r.value in files
    ensures (exists i :: 0 <= i < |files| && files[i].primary) ==> r.Some? && r.value.primary
    ensures (forall i :: 0 <= i < |files| ==> !files[i].primary) && |files| > 0 ==> r == Some(files[0])
    ensures r.Some? && r.value.primary ==>
              exists i :: 0 <= i < |files| && files[i] == r.value && forall j :: 0 <= j < i ==> !files[j].primary
  {
    match PrimaryIndex(files)
    case Some(i) => Some(files[i])
    case None => None
  }
}
