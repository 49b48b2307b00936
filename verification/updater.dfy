/** The mod updater: which dropped or picked files are taken, the analysis
    result recorded for each, which of them are offered for update, the
    file name an update is saved under, and the counts on the summary
    cards.

    The analysis in the code is a stand-in that draws a random number per
    file; the draw is an input here (`Drew(hasUpdate)` is the outcome of
    `Math.random() > 0.3`), and so is an exception inside one file's
    analysis (`Threw`).
 */
module Updater {
  import opened Wrappers
  import opened Text

  /** A picked or dropped `File`, by its name. */
  datatype InputFile = InputFile(name: string)

  /** One `DataTransferItem`: its kind and what `getAsFile()` returns. */
  datatype DropItem = DropItem(kind: string, file: Option<InputFile>)

  const JarSuffix := ".jar"

  predicate IsJar(f: InputFile)
  {
    EndsWith(f.name, JarSuffix)
  }

  /** `files.filter(file => file.name.endsWith('.jar'))` */
  function JarFiles(files: seq<InputFile>): (r: seq<InputFile>)
    ensures |r| <= |files|
    ensures forall i :: 0 <= i < |r| ==> IsJar(r[i])
    ensures forall f :: f in r <==> f in files && IsJar(f)
  {
    if |files| == 0 then []
    else (if IsJar(files[0]) then [files[0]] else []) + JarFiles(files[1..])
  }

  /** The drop handler: the items of kind "file" whose file is there and is
      a jar, in the order dropped. */
  function DroppedJars(items: seq<DropItem>): (r: seq<InputFile>)
    ensures |r| <= |items|
    ensures forall i :: 0 <= i < |r| ==> IsJar(r[i])
    ensures forall f :: f in r <==> exists i :: 0 <= i < |items| && items[i].kind == "file" && items[i].file == Some(f) && IsJar(f)
  {
    if |items| == 0 then []
    else
      var rest := DroppedJars(items[1..]);
      assert forall i :: 1 <= i < |items| ==> items[i] == items[1..][i - 1];
      DroppedFile(items[0]) + rest
  }

  /** What one item adds: its file, when it is of kind "file", has a file,
      and that file is a jar. */
  function DroppedFile(it: DropItem): seq<InputFile>
  {
    if it.kind == "file" && it.file.Some? && IsJar(it.file.value) then [it.file.value] else []
  }

  lemma DroppedJarsCons(items: seq<DropItem>)
    requires |items| > 0
    ensures DroppedJars(items) == DroppedFile(items[0]) + DroppedJars(items[1..])
  {
  }

  /** Both handlers start an analysis only when some jar is left. */
  predicate AnalysisStarts(jars: seq<InputFile>)
  {
    |jars| > 0
  }

  /** `handleFileInput`: the files an analysis is started on, if one is. */
  function FileInput(files: seq<InputFile>): (r: Option<seq<InputFile>>)
    ensures r.Some? <==> exists i :: 0 <= i < |files| && IsJar(files[i])
    ensures r.Some? ==> r.value == JarFiles(files)
  {
    var jars := JarFiles(files);
    assert forall i :: 0 <= i < |files| && IsJar(files[i]) ==> files[i] in jars;
    assert |jars| > 0 ==> jars[0] in jars;
    if AnalysisStarts(jars) then Some(jars)
    else None
  }

  /** `handleDrop`: the files an analysis is started on, if one is. */
  function Drop(items: seq<DropItem>): (r: Option<seq<InputFile>>)
    ensures r.Some? <==> exists i :: 0 <= i < |items| && items[i].kind == "file" &&
                                     items[i].file.Some? && IsJar(items[i].file.value)
    ensures r.Some? ==> r.value == DroppedJars(items)
  {
    var jars := DroppedJars(items);
    assert forall i :: 0 <= i < |items| && items[i].kind == "file" && items[i].file.Some? && IsJar(items[i].file.value)
             ==> items[i].file.value in jars;
    assert |jars| > 0 ==> jars[0] in jars;
    if AnalysisStarts(jars) then Some(jars)
    else None
  }

  /** The file filter keeps the order of the files and every repetition:
      it works file by file, and a file is kept exactly when it is a jar. */
  lemma {:induction false} JarFilesInOrder(a: seq<InputFile>, b: seq<InputFile>, f: InputFile)
    ensures JarFiles(a + b) == JarFiles(a) + JarFiles(b)
    ensures JarFiles([f]) == if IsJar(f) then [f] else []
  {
    if |a| > 0 {
      assert (a + b)[0] == a[0];
      assert (a + b)[1..] == a[1..] + b;
      JarFilesInOrder(a[1..], b, f);
    } else {
      assert a + b == b;
    }
    assert [f][1..] == [];
  }

  /** The drop handler keeps the order of the items and every repetition:
      it works item by item, and an item gives its file exactly when it is
      of kind "file", has a file, and that file is a jar. */
  lemma {:induction false} DroppedJarsInOrder(a: seq<DropItem>, b: seq<DropItem>, it: DropItem)
    ensures DroppedJars(a + b) == DroppedJars(a) + DroppedJars(b)
    ensures DroppedJars([it]) == DroppedFile(it)
  {
    if |a| > 0 {
      assert (a + b)[0] == a[0];
      assert (a + b)[1..] == a[1..] + b;
      DroppedJarsCons(a + b);
      DroppedJarsCons(a);
      DroppedJarsInOrder(a[1..], b, it);
    } else {
      assert a + b == b;
    }
    assert [it][1..] == [];
    DroppedJarsCons([it]);
  }

  // ---------------------------------------------------------------------------
  // analyzeFiles

  /** `AnalyzedMod` */
  datatype AnalyzedMod = AnalyzedMod(
    filename: string,
    projectId: Option<string>,
    currentVersion: Option<string>,
    latestVersion: Option<string>,
    updateAvailable: bool,
    downloadUrl: Option<string>,
    compatibleVersions: Option<seq<string>>)

  /** How one file's analysis went. */
  datatype Draw = Drew(hasUpdate: bool) | Threw

  const OldVersion := "1.0.0"
  const NewVersion := "1.2.0"

  /** The record for one file. */
  function Analyze(file: InputFile, draw: Draw, gameVersion: string): AnalyzedMod
  {
    match draw
    case Drew(hasUpdate) =>
      AnalyzedMod(
        file.name, None,
        Some(if hasUpdate then OldVersion else NewVersion),
        Some(NewVersion),
        hasUpdate, None,
        Some([gameVersion, "1.19.4", "1.18.2"]))
    case Threw => AnalyzedMod(file.name, None, None, None, false, None, None)
  }

  /** What each record promises: it is about its own file; an update is
      flagged exactly when the versions it reports differ; a failed
      analysis flags nothing and reports no versions; the first compatible
      version listed is the game version the analysis was given. */
  lemma AnalyzeConsistent(file: InputFile, draw: Draw, gameVersion: string)
    ensures var m := Analyze(file, draw, gameVersion);
            m.filename == file.name &&
            (m.currentVersion.Some? ==>
               m.latestVersion.Some? && (m.updateAvailable <==> m.currentVersion != m.latestVersion)) &&
            (draw.Threw? ==> !m.updateAvailable && m.currentVersion.None? && m.compatibleVersions.None?) &&
            (m.compatibleVersions.Some? ==>
               |m.compatibleVersions.value| > 0 && m.compatibleVersions.value[0] == gameVersion)
  {
    assert OldVersion != NewVersion by {
      assert OldVersion[2] != NewVersion[2];
    }
  }

  /** `analyzeFiles(files)`, with `draws(i)` the outcome for the i-th file. */
  method AnalyzeFiles(files: seq<InputFile>, draws: nat -> Draw, gameVersion: string) returns (results: seq<AnalyzedMod>)
    ensures results == Analyses(files, draws, gameVersion)
    ensures |results| == |files|
    ensures forall i :: 0 <= i < |files| ==> results[i] == Analyze(files[i], draws(i), gameVersion)
    ensures forall i :: 0 <= i < |files| ==> results[i].filename == files[i].name
  {
    results := [];
    var i := 0;
    while i < |files|
      invariant 0 <= i <= |files|
      invariant |results| == i
      invariant forall j :: 0 <= j < i ==> results[j] == Analyze(files[j], draws(j), gameVersion)
    {
      results := results + [Analyze(files[i], draws(i), gameVersion)];
      i := i + 1;
    }
  }

  /** The records `analyzeFiles` makes, one per file, in order. */
  function Analyses(files: seq<InputFile>, draws: nat -> Draw, gameVersion: string): seq<AnalyzedMod>
  {
    seq(|files|, i requires 0 <= i < |files| => Analyze(files[i], draws(i), gameVersion))
  }

  /** What an analysis of `jars` for `gameVersion` promises: one record per
      jar, in order, under its name, each listing `gameVersion` first among
      its compatible versions when it lists any. */
  predicate AnalysedFor(records: seq<AnalyzedMod>, jars: seq<InputFile>, gameVersion: string)
  {
    |records| == |jars| &&
    forall i :: 0 <= i < |records| ==>
      records[i].filename == jars[i].name &&
      (records[i].compatibleVersions.Some? ==>
         |records[i].compatibleVersions.value| > 0 && records[i].compatibleVersions.value[0] == gameVersion)
  }

  lemma AnalysesFor(jars: seq<InputFile>, draws: nat -> Draw, gameVersion: string)
    ensures AnalysedFor(Analyses(jars, draws, gameVersion), jars, gameVersion)
  {
    forall i | 0 <= i < |jars| {
      AnalyzeConsistent(jars[i], draws(i), gameVersion);
    }
  }

  /** The game version selected before the user picks one. */
  const InitialGameVersion := "1.20.1"

  /** The analysis a pick of files starts. `handleFileInput` is made anew on
      every render, so it analyses for the game version selected now. */
  function PickAnalysis(files: seq<InputFile>, draws: nat -> Draw, selected: string): (r: Option<seq<AnalyzedMod>>)
    ensures r.Some? <==> FileInput(files).Some?
    ensures r.Some? ==> AnalysedFor(r.value, JarFiles(files), selected)
  {
    match FileInput(files)
    case Some(jars) =>
      AnalysesFor(jars, draws, selected);
      Some(Analyses(jars, draws, selected))
    case None => None
  }

  /** The analysis a drop starts, as written. `handleDrop` is memoised with
      no dependencies, so it keeps the `analyzeFiles` of the first render,
      and with it the initial game version, whatever is selected now. */
  function DropAnalysisAsWritten(items: seq<DropItem>, draws: nat -> Draw, selected: string): (r: Option<seq<AnalyzedMod>>)
    ensures r.Some? <==> Drop(items).Some?
    ensures r.Some? ==> AnalysedFor(r.value, DroppedJars(items), InitialGameVersion)
  {
    match Drop(items)
    case Some(jars) =>
      AnalysesFor(jars, draws, InitialGameVersion);
      Some(Analyses(jars, draws, InitialGameVersion))
    case None => None
  }

  /** The analysis a drop evidently should start: the dropped jars, for the
      game version selected now, as a pick of files does. */
  function DropAnalysis(items: seq<DropItem>, draws: nat -> Draw, selected: string): (r: Option<seq<AnalyzedMod>>)
    ensures r.Some? <==> Drop(items).Some?
    ensures r.Some? ==> AnalysedFor(r.value, DroppedJars(items), selected)
  {
    match Drop(items)
    case Some(jars) =>
      AnalysesFor(jars, draws, selected);
      Some(Analyses(jars, draws, selected))
    case None => None
  }

  /** As written, once another game version is selected, no record of a
      drop lists it first: every analysed record lists the initial version
      instead, under the header that names the selected one. */
  lemma DropIgnoresSelection(items: seq<DropItem>, draws: nat -> Draw, selected: string)
    requires selected != InitialGameVersion
    requires Drop(items).Some?
    ensures var records := DropAnalysisAsWritten(items, draws, selected).value;
            forall i :: 0 <= i < |records| ==>
              (records[i].compatibleVersions.Some? <==> draws(i).Drew?) &&
              (records[i].compatibleVersions.Some? ==> records[i].compatibleVersions.value[0] != selected)
  {
  }

  /** One jar dropped with "1.20.4" selected and analysed without a throw:
      the code records "1.20.1" as its first compatible version, the
      corrected drop "1.20.4". */
  lemma DropCounterexample(draws: nat -> Draw)
    requires draws(0).Drew?
    ensures var items := [DropItem("file", Some(InputFile("a.jar")))];
            DropAnalysisAsWritten(items, draws, "1.20.4").Some? &&
            DropAnalysisAsWritten(items, draws, "1.20.4").value[0].compatibleVersions == Some(["1.20.1", "1.19.4", "1.18.2"]) &&
            DropAnalysis(items, draws, "1.20.4").Some? &&
            DropAnalysis(items, draws, "1.20.4").value[0].compatibleVersions == Some(["1.20.4", "1.19.4", "1.18.2"])
  {
    var jar := InputFile("a.jar");
    var items := [DropItem("file", Some(jar))];
    assert IsJar(jar) by {
      assert "a.jar"[|"a.jar"| - |JarSuffix|..] == JarSuffix;
    }
    DroppedJarsCons(items);
    assert items[1..] == [];
    assert DroppedJars(items) == [jar];
    assert Drop(items) == Some([jar]);
    assert Analyses([jar], draws, InitialGameVersion)[0] == Analyze(jar, draws(0), InitialGameVersion);
    assert Analyses([jar], draws, "1.20.4")[0] == Analyze(jar, draws(0), "1.20.4");
  }

  /** While the initial game version is still selected, the code's drop and
      the corrected one are the same; and the corrected drop analyses what a
      pick of the same jars would. */
  lemma DropAnalysisAgrees(items: seq<DropItem>, files: seq<InputFile>, draws: nat -> Draw, selected: string)
    requires DroppedJars(items) == JarFiles(files)
    ensures DropAnalysisAsWritten(items, draws, InitialGameVersion) == DropAnalysis(items, draws, InitialGameVersion)
    ensures DropAnalysis(items, draws, selected) == PickAnalysis(files, draws, selected)
  {
  }

  // ---------------------------------------------------------------------------
  // handleBulkUpdate and the summary

  /** `analyzedMods.filter(mod => mod.updateAvailable)` */
  function Updatable(mods: seq<AnalyzedMod>): (r: seq<AnalyzedMod>)
    ensures |r| <= |mods|
    ensures forall i :: 0 <= i < |r| ==> r[i].updateAvailable
    ensures forall m :: m in r <==> m in mods && m.updateAvailable
  {
    if |mods| == 0 then []
    else (if mods[0].updateAvailable then [mods[0]] else []) + Updatable(mods[1..])
  }

  /** The update filter keeps the analysed order and every repetition: it
      works record by record, and a record is kept exactly when it is
      flagged. */
  lemma {:induction false} UpdatableInOrder(a: seq<AnalyzedMod>, b: seq<AnalyzedMod>, m: AnalyzedMod)
    ensures Updatable(a + b) == Updatable(a) + Updatable(b)
    ensures Updatable([m]) == if m.updateAvailable then [m] else []
  {
    if |a| > 0 {
      assert (a + b)[0] == a[0];
      assert (a + b)[1..] == a[1..] + b;
      UpdatableInOrder(a[1..], b, m);
    } else {
      assert a + b == b;
    }
    assert [m][1..] == [];
  }

  /** The mods not flagged for update. */
  function UpToDate(mods: seq<AnalyzedMod>): seq<AnalyzedMod>
  {
    if |mods| == 0 then []
    else (if mods[0].updateAvailable then [] else [mods[0]]) + UpToDate(mods[1..])
  }

  /** The "up to date" card shows `total - updatable`, which is exactly the
      number of mods not flagged, so it is never negative. */
  lemma {:induction false} UpToDateCount(mods: seq<AnalyzedMod>)
    ensures |mods| - |Updatable(mods)| == |UpToDate(mods)| >= 0
  {
    if |mods| > 0 {
      UpToDateCount(mods[1..]);
    }
  }

  /** `${latestVersion}` in a template: an absent version prints as "undefined". */
  function TemplateText(o: Option<string>): string
  {
    match o
    case Some(s) => s
    case None => "undefined"
  }

  /** `filename.replace(/\.jar$/, `-${latest}.jar`)`: the regular expression
      matches only a final ".jar", and the replacement string is read for
      `$` patterns, with the matched ".jar", the stem before it and the
      empty text after it. */
  function RenamedFile(filename: string, latest: Option<string>): string
  {
    if EndsWith(filename, JarSuffix) then
      var stem := filename[..|filename| - |JarSuffix|];
      stem + Substitute("-" + TemplateText(latest) + JarSuffix, JarSuffix, stem, "")
    else filename
  }

  /** Only a trailing ".jar" is rewritten: the stem stays, `-` and the
      expanded version text go before the extension, and the result is
      again a jar; a version without `$` is inserted literally. A name
      without that ending is left as it is. */
  lemma RenameKeepsStem(filename: string, latest: Option<string>)
    ensures var r := RenamedFile(filename, latest);
            var stem := |filename| - |JarSuffix|;
            (EndsWith(filename, JarSuffix) ==>
               var inserted := Substitute(TemplateText(latest), JarSuffix, filename[..stem], "");
               r == filename[..stem] + "-" + inserted + JarSuffix &&
               EndsWith(r, JarSuffix) && r[..stem] == filename[..stem] &&
               ('$' !in TemplateText(latest) ==> inserted == TemplateText(latest))) &&
            (!EndsWith(filename, JarSuffix) ==> r == filename)
  {
    if EndsWith(filename, JarSuffix) {
      var stem := filename[..|filename| - |JarSuffix|];
      var t := TemplateText(latest);
      ReplacementParts(t, stem);
      RenameShape(stem, Substitute(t, JarSuffix, stem, ""));
      if '$' !in t {
        SubstituteLiteral(t, JarSuffix, stem, "");
      }
    }
  }

  /** The name put together from the stem, `-`, the inserted text and
      ".jar" keeps the stem and ends in ".jar". */
  lemma RenameShape(stem: string, inserted: string)
    ensures var r := stem + ("-" + inserted + JarSuffix);
            r == stem + "-" + inserted + JarSuffix && EndsWith(r, JarSuffix) && r[..|stem|] == stem
  {
    ThreeParts(stem, "-" + inserted, JarSuffix);
  }

  /** The replacement `-${latest}.jar` expands to `-`, the expanded version
      text and `.jar`. */
  lemma ReplacementParts(t: string, stem: string)
    ensures Substitute("-" + t + JarSuffix, JarSuffix, stem, "")
            == "-" + Substitute(t, JarSuffix, stem, "") + JarSuffix
  {
    assert ("-" + t + JarSuffix)[1..] == t + JarSuffix;
    SubstituteAppend(t, JarSuffix, JarSuffix, stem, "");
    SubstituteLiteral(JarSuffix, JarSuffix, stem, "");
  }

  /** The three parts of `a + b + c` are where they were put. */
  lemma ThreeParts<T>(a: seq<T>, b: seq<T>, c: seq<T>)
    ensures var r := a + b + c;
            r[..|a|] == a && r[|a|..|r| - |c|] == b && r[|r| - |c|..] == c
  {
  }

  /** A version text holding `$&` brings the matched ".jar" back into the
      name: `x.jar` with latest version `$&` is saved as `x-.jar.jar`. */
  lemma DollarPatternExpands()
    ensures RenamedFile("x.jar", Some("$&")) == "x-.jar.jar"
  {
    var name := "x.jar";
    assert EndsWith(name, JarSuffix);
    assert name[..|name| - |JarSuffix|] == "x";
    ReplacementParts("$&", "x");
    var t := "$&";
    assert t[2..] == "";
    assert Substitute(t, JarSuffix, "x", "") == JarSuffix;
  }

  /** The records the analysis makes carry version "1.2.0" whenever they are
      flagged, so every update is saved as the stem, "-1.2.0" and ".jar". */
  lemma AnalyzedRename(file: InputFile, draw: Draw, gameVersion: string)
    requires IsJar(file)
    ensures var m := Analyze(file, draw, gameVersion);
            m.updateAvailable ==>
              RenamedFile(m.filename, m.latestVersion)
              == file.name[..|file.name| - |JarSuffix|] + "-" + NewVersion + JarSuffix
  {
    var m := Analyze(file, draw, gameVersion);
    RenameKeepsStem(file.name, m.latestVersion);
    if m.updateAvailable {
      assert '$' !in NewVersion;
    }
  }

  /** What became of one offered update. */
  datatype UpdateOutcome = Downloaded(href: string, saveAs: string) | UpdateFailed

  function UpdateOf(m: AnalyzedMod, fails: bool): UpdateOutcome
  {
    if fails then UpdateFailed else Downloaded("#download-" + m.filename, RenamedFile(m.filename, m.latestVersion))
  }

  /** `handleBulkUpdate()`, with `fails(i)` whether creating or clicking
      the link of the i-th attempt throws. Every flagged mod is tried, in
      order, whatever happened to the ones before it: the attempts are
      independent, even for two records with the same file name. */
  method BulkUpdate(mods: seq<AnalyzedMod>, fails: nat -> bool) returns (outcomes: seq<UpdateOutcome>)
    ensures |outcomes| == |Updatable(mods)|
    ensures forall i :: 0 <= i < |outcomes| ==> outcomes[i] == UpdateOf(Updatable(mods)[i], fails(i))
    ensures forall i :: 0 <= i < |outcomes| ==> (outcomes[i].Downloaded? <==> !fails(i))
  {
    var todo := Updatable(mods);
    outcomes := [];
    var i := 0;
    while i < |todo|
      invariant 0 <= i <= |todo|
      invariant |outcomes| == i
      invariant forall j :: 0 <= j < i ==> outcomes[j] == UpdateOf(todo[j], fails(j))
      invariant forall j :: 0 <= j < i ==> (outcomes[j].Downloaded? <==> !fails(j))
    {
      var o := UpdateOf(todo[i], fails(i));
      assert o.Downloaded? <==> !fails(i);
      outcomes := outcomes + [o];
      i := i + 1;
    }
  }

}
