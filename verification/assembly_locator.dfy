/**
 * VisualStudioAssemblyLocator: picks the compiled assembly of a project,
 * either at the configured output-path override or, among the output paths
 * the project declares, the existing file that was modified most recently.
 */
module AssemblyLocator {
  import opened Wrappers
  import opened Strings
  import opened Environment
  import opened Projects

  /** The file extension of an output type; the match is exact and case-sensitive. */
  function Extension(outputType: string): (r: Option<string>)
    ensures r == Some("dll") <==> outputType == "Library"
    ensures r == Some("exe") <==> outputType == "Exe" || outputType == "WinExe"
    ensures r.None? <==> outputType !in {"Library", "Exe", "WinExe"}
  {
    if outputType == "Library" then Some("dll")
    else if outputType == "Exe" then Some("exe")
    else if outputType == "WinExe" then Some("exe")
    else None
  }

  /**
   * The deprecated build-configuration/platform filter: when both settings are
   * present the property group's condition must contain each of them; otherwise
   * every condition passes.
   */
  function MatchesBuildConfigurationAndPlatform(settings: Settings, condition: string): (b: bool)
    ensures BuildConfigurationKey !in settings || BuildPlatformKey !in settings ==> b
    ensures BuildConfigurationKey in settings && BuildPlatformKey in settings ==>
      (b <==> && (exists i: nat :: OccursAt(condition, settings[BuildConfigurationKey], i))
              && (exists j: nat :: OccursAt(condition, settings[BuildPlatformKey], j)))
  {
    match (GetString(settings, BuildConfigurationKey), GetString(settings, BuildPlatformKey))
    case (Some(configuration), Some(platform)) =>
      Contains(condition, configuration) && Contains(condition, platform)
    case _ => true
  }

  /** `assemblyName.extension`, when both the output type and the assembly name allow one. */
  function AssemblyFileName(p: VisualStudioProject): (r: Option<string>)
    ensures r.Some? <==> p.outputType.Some? && p.assemblyName.Some? && Extension(p.outputType.value).Some?
    ensures r.Some? ==> r.value == p.assemblyName.value + "." + Extension(p.outputType.value).value
  {
    match (p.outputType, p.assemblyName)
    case (Some(outputType), Some(assemblyName)) =>
      (match Extension(outputType)
       case Some(extension) => Some(assemblyName + "." + extension)
       case None => None)
    case _ => None
  }

  /** The file the override setting designates: existence is not consulted. */
  function OverridePath(outputPath: string, fileName: string): string {
    Child(Replace(outputPath, '\\', '/'), fileName)
  }

  /** Where the assembly would be for the output path at `index`, beside the project file. */
  function CandidatePath(projectFile: string, outputPath: string, fileName: string): string {
    Resolve(Parent(projectFile), Replace(outputPath, '\\', '/') + "/" + fileName)
  }

  /** A path that ends in `/` followed by `fileName`. */
  lemma EndsWithFileName(r: string, prefixLength: nat, fileName: string)
    requires prefixLength < |r| && r[prefixLength] == '/' && r[prefixLength + 1..] == fileName
    ensures EndsWith(r, "/" + fileName)
  {
    assert r[prefixLength..] == "/" + fileName;
  }

  /**
   * The override file is the configured directory, its backslashes turned
   * into slashes, then '/' and the assembly's file name.
   */
  lemma OverridePathShape(outputPath: string, fileName: string)
    ensures var r := OverridePath(outputPath, fileName);
      && |r| == |outputPath| + 1 + |fileName|
      && (forall i :: 0 <= i < |outputPath| ==>
            r[i] == (if outputPath[i] == '\\' then '/' else outputPath[i]))
      && r[|outputPath|] == '/' && r[|outputPath| + 1..] == fileName
      && EndsWith(r, "/" + fileName)
  {
    EndsWithFileName(OverridePath(outputPath, fileName), |outputPath|, fileName);
  }

  /**
   * A candidate is the project file's directory (nothing when the project
   * file has none), then the output path with slashes for backslashes, then
   * '/' and the assembly's file name.
   */
  lemma CandidatePathShape(projectFile: string, outputPath: string, fileName: string)
    ensures var r := CandidatePath(projectFile, outputPath, fileName);
      var dir := if Parent(projectFile).Some? then Parent(projectFile).value + "/" else "";
      && |r| == |dir| + |outputPath| + 1 + |fileName|
      && r[..|dir|] == dir
      && (forall i :: 0 <= i < |outputPath| ==>
            r[|dir| + i] == (if outputPath[i] == '\\' then '/' else outputPath[i]))
      && r[|dir| + |outputPath|] == '/'
      && r[|dir| + |outputPath| + 1..] == fileName
      && EndsWith(r, "/" + fileName)
  {
    var r := CandidatePath(projectFile, outputPath, fileName);
    var dir := if Parent(projectFile).Some? then Parent(projectFile).value + "/" else "";
    assert r == dir + Replace(outputPath, '\\', '/') + "/" + fileName;
    EndsWithFileName(r, |dir| + |outputPath|, fileName);
  }

  /** The output path at `index` passes the filter and its assembly exists. */
  predicate Qualifies(settings: Settings, fs: FileSystem, projectFile: string, p: VisualStudioProject,
                      fileName: string, index: nat)
    requires p.ConditionsCoverOutputPaths()
  {
    && index < |p.outputPaths|
    && MatchesBuildConfigurationAndPlatform(settings, p.conditions[index])
    && fs.IsFile(CandidatePath(projectFile, p.outputPaths[index], fileName))
  }

  /** An existing assembly file found through the output path at `index`. */
  datatype Candidate = Candidate(index: nat, path: string, lastModified: int)

  /** `c` is the existing assembly of the qualifying output path at `c.index`, with its modification time. */
  predicate IsCandidate(settings: Settings, fs: FileSystem, projectFile: string, p: VisualStudioProject,
                        fileName: string, c: Candidate)
    requires p.ConditionsCoverOutputPaths()
  {
    && Qualifies(settings, fs, projectFile, p, fileName, c.index)
    && c.path == CandidatePath(projectFile, p.outputPaths[c.index], fileName)
    && c.lastModified == fs.lastModified[c.path]
  }

  /**
   * The candidates of the output paths from `from` on, in declaration order:
   * one per qualifying index, carrying that index and the file's modification time.
   */
  function CandidatesFrom(settings: Settings, fs: FileSystem, projectFile: string, p: VisualStudioProject,
                          fileName: string, from: nat): (cs: seq<Candidate>)
    requires p.ConditionsCoverOutputPaths()
    requires from <= |p.outputPaths|
    ensures forall k :: 0 <= k < |cs| ==> from <= cs[k].index && IsCandidate(settings, fs, projectFile, p, fileName, cs[k])
    ensures forall k, l :: 0 <= k < l < |cs| ==> cs[k].index < cs[l].index
    decreases |p.outputPaths| - from
  {
    if from == |p.outputPaths| then []
    else
      var rest := CandidatesFrom(settings, fs, projectFile, p, fileName, from + 1);
      if Qualifies(settings, fs, projectFile, p, fileName, from) then
        var path := CandidatePath(projectFile, p.outputPaths[from], fileName);
        var cs := [Candidate(from, path, fs.lastModified[path])] + rest;
        assert forall k :: 0 < k < |cs| ==> cs[k] == rest[k - 1];
        cs
      else
        rest
  }

  /** Every qualifying output path from `from` on yields a candidate. */
  lemma {:induction false} CandidatesComplete(settings: Settings, fs: FileSystem, projectFile: string, p: VisualStudioProject,
                                              fileName: string, from: nat, i: nat)
    requires p.ConditionsCoverOutputPaths()
    requires from <= i && Qualifies(settings, fs, projectFile, p, fileName, i)
    ensures exists k ::
      && 0 <= k < |CandidatesFrom(settings, fs, projectFile, p, fileName, from)|
      && CandidatesFrom(settings, fs, projectFile, p, fileName, from)[k].index == i
    decreases |p.outputPaths| - from
  {
    if i == from {
      CandidatesFromHead(settings, fs, projectFile, p, fileName, from);
    } else {
      CandidatesComplete(settings, fs, projectFile, p, fileName, from + 1, i);
      CandidatesFromKeepsRest(settings, fs, projectFile, p, fileName, from, i);
    }
  }

  /** A qualifying output path heads the candidates from its own index. */
  lemma CandidatesFromHead(settings: Settings, fs: FileSystem, projectFile: string, p: VisualStudioProject,
                           fileName: string, from: nat)
    requires p.ConditionsCoverOutputPaths()
    requires Qualifies(settings, fs, projectFile, p, fileName, from)
    ensures var cs := CandidatesFrom(settings, fs, projectFile, p, fileName, from);
      cs != [] && cs[0].index == from
  {
  }

  /** A candidate after `from` stays a candidate from `from` on. */
  lemma CandidatesFromKeepsRest(settings: Settings, fs: FileSystem, projectFile: string, p: VisualStudioProject,
                                fileName: string, from: nat, i: nat)
    requires p.ConditionsCoverOutputPaths()
    requires from < |p.outputPaths|
    requires var rest := CandidatesFrom(settings, fs, projectFile, p, fileName, from + 1);
      exists k :: 0 <= k < |rest| && rest[k].index == i
    ensures var cs := CandidatesFrom(settings, fs, projectFile, p, fileName, from);
      exists k :: 0 <= k < |cs| && cs[k].index == i
  {
    var rest := CandidatesFrom(settings, fs, projectFile, p, fileName, from + 1);
    var k :| 0 <= k < |rest| && rest[k].index == i;
    CandidatesFromShift(settings, fs, projectFile, p, fileName, from, k);
  }

  /** The candidates after `from` follow, in order, whatever `from` itself contributes. */
  lemma CandidatesFromShift(settings: Settings, fs: FileSystem, projectFile: string, p: VisualStudioProject,
                            fileName: string, from: nat, k: nat)
    requires p.ConditionsCoverOutputPaths()
    requires from < |p.outputPaths|
    requires k < |CandidatesFrom(settings, fs, projectFile, p, fileName, from + 1)|
    ensures var cs, rest := CandidatesFrom(settings, fs, projectFile, p, fileName, from),
                            CandidatesFrom(settings, fs, projectFile, p, fileName, from + 1);
      var shift := if Qualifies(settings, fs, projectFile, p, fileName, from) then 1 else 0;
      k + shift < |cs| && cs[k + shift] == rest[k]
  {
  }

  /**
   * FileLastModifiedComparator: the more recently modified file sorts first,
   * and files modified at the same time compare equal.
   */
  function Compare(a: Candidate, b: Candidate): (r: int)
    ensures r == 0 <==> a.lastModified == b.lastModified
    ensures r == -1 <==> a.lastModified > b.lastModified
    ensures r == 1 <==> a.lastModified < b.lastModified
  {
    if a.lastModified == b.lastModified then 0
    else if a.lastModified > b.lastModified then -1
    else 1
  }

  /** Newest first. */
  predicate Sorted(cs: seq<Candidate>) {
    forall k, l :: 0 <= k < l < |cs| ==> cs[k].lastModified >= cs[l].lastModified
  }

  /** Places `c` after every element that does not sort strictly after it, so equal elements keep their order. */
  function Insert(sorted: seq<Candidate>, c: Candidate): seq<Candidate> {
    if sorted == [] then [c]
    else if Compare(c, sorted[0]) < 0 then [c] + sorted
    else [sorted[0]] + Insert(sorted[1..], c)
  }

  lemma {:induction false} InsertPermutes(sorted: seq<Candidate>, c: Candidate)
    ensures multiset(Insert(sorted, c)) == multiset(sorted) + multiset{c}
    decreases |sorted|
  {
    if sorted != [] && Compare(c, sorted[0]) >= 0 {
      InsertPermutes(sorted[1..], c);
      assert sorted == [sorted[0]] + sorted[1..];
    }
  }

  lemma {:induction false} InsertSorted(sorted: seq<Candidate>, c: Candidate)
    requires Sorted(sorted)
    ensures Sorted(Insert(sorted, c))
    decreases |sorted|
  {
    if sorted != [] && Compare(c, sorted[0]) >= 0 {
      var tail := sorted[1..];
      var rest := Insert(tail, c);
      InsertSorted(tail, c);
      InsertPermutes(tail, c);
      var r := [sorted[0]] + rest;
      forall l | 0 < l < |r| ensures sorted[0].lastModified >= r[l].lastModified {
        assert r[l] in multiset(rest);
        if r[l] != c {
          assert r[l] in multiset(tail);
          var m :| 0 <= m < |tail| && tail[m] == r[l];
          assert sorted[m + 1] == r[l];
        }
      }
    }
  }

  /** Collections.sort with the comparator: a stable insertion sort, returning its input reordered newest first. */
  function Sort(cs: seq<Candidate>): (r: seq<Candidate>)
    ensures Sorted(r)
    ensures multiset(r) == multiset(cs)
    decreases |cs|
  {
    if cs == [] then []
    else
      var init, last := cs[..|cs| - 1], cs[|cs| - 1];
      var sortedInit := Sort(init);
      SortStep(cs, sortedInit);
      Insert(sortedInit, last)
  }

  /** Inserting the last candidate into the sorted others sorts all of them. */
  lemma SortStep(cs: seq<Candidate>, sortedInit: seq<Candidate>)
    requires cs != []
    requires Sorted(sortedInit) && multiset(sortedInit) == multiset(cs[..|cs| - 1])
    ensures Sorted(Insert(sortedInit, cs[|cs| - 1]))
    ensures multiset(Insert(sortedInit, cs[|cs| - 1])) == multiset(cs)
  {
    InsertSorted(sortedInit, cs[|cs| - 1]);
    InsertPermutes(sortedInit, cs[|cs| - 1]);
    assert cs == cs[..|cs| - 1] + [cs[|cs| - 1]];
  }

  /**
   * Stable arg-max: the first position holding the latest modification time.
   */
  function FirstNewest(cs: seq<Candidate>): (k: nat)
    requires cs != []
    ensures k < |cs|
    ensures forall j :: 0 <= j < |cs| ==> cs[j].lastModified <= cs[k].lastModified
    ensures forall j :: 0 <= j < k ==> cs[j].lastModified < cs[k].lastModified
    decreases |cs|
  {
    if |cs| == 1 then 0
    else
      var k := FirstNewest(cs[..|cs| - 1]);
      if cs[|cs| - 1].lastModified > cs[k].lastModified then |cs| - 1 else k
  }

  /** After the stable sort, the first element is the earliest of the newest candidates. */
  lemma {:induction false} SortHeadIsFirstNewest(cs: seq<Candidate>)
    requires cs != []
    ensures Sort(cs) != [] && Sort(cs)[0] == cs[FirstNewest(cs)]
    decreases |cs|
  {
    var init, last := cs[..|cs| - 1], cs[|cs| - 1];
    if init != [] {
      SortHeadIsFirstNewest(init);
      assert cs[FirstNewest(init)] == init[FirstNewest(init)];
    }
  }

  /**
   * The discovery mode: the newest qualifying candidate, earliest index first
   * among equally new ones, or null when no output path qualifies.
   */
  function Discover(settings: Settings, fs: FileSystem, projectFile: string, p: VisualStudioProject,
                    fileName: string): (r: Option<string>)
    requires p.ConditionsCoverOutputPaths()
    ensures r.None? <==> forall i: nat :: !Qualifies(settings, fs, projectFile, p, fileName, i)
    ensures r.Some? ==> exists k: nat ::
      && IsNewestQualifying(settings, fs, projectFile, p, fileName, k)
      && r.value == CandidatePath(projectFile, p.outputPaths[k], fileName)
  {
    var candidates := CandidatesFrom(settings, fs, projectFile, p, fileName, 0);
    if candidates == [] then
      assert forall i: nat :: !Qualifies(settings, fs, projectFile, p, fileName, i) by {
        forall i: nat | Qualifies(settings, fs, projectFile, p, fileName, i) ensures false {
          CandidatesComplete(settings, fs, projectFile, p, fileName, 0, i);
        }
      }
      None
    else
      SortHeadIsFirstNewest(candidates);
      FirstNewestIsNewestQualifying(settings, fs, projectFile, p, fileName, candidates);
      assert IsCandidate(settings, fs, projectFile, p, fileName, candidates[0]);
      Some(Sort(candidates)[0].path)
  }

  /**
   * The locator reaches the search through the project's output paths: the
   * project names an assembly, declares output paths, and no override is set.
   * Only this search reads the property-group conditions.
   */
  predicate Discovers(settings: Settings, p: VisualStudioProject) {
    p.outputPaths != [] && AssemblyFileName(p).Some? && OutputPathKey !in settings
  }

  /**
   * locateAssembly(projectFile, project): null when the output type, the
   * assembly name or the output paths are missing or the output type has no
   * extension; the override file when the output-path setting is present;
   * otherwise the most recently modified qualifying candidate, earliest index
   * first on equal times. A found file is always named `assemblyName.extension`.
   */
  function LocateAssembly(settings: Settings, fs: FileSystem, projectFile: string, p: VisualStudioProject): (r: Option<string>)
    requires Discovers(settings, p) ==> p.ConditionsCoverOutputPaths()
    ensures p.outputType.None? || p.assemblyName.None? || p.outputPaths == [] ==> r.None?
    ensures p.outputType.Some? && Extension(p.outputType.value).None? ==> r.None?
    ensures r.Some? ==>
      && AssemblyFileName(p).Some?
      && EndsWith(r.value, "/" + AssemblyFileName(p).value)
    ensures p.outputPaths != [] && AssemblyFileName(p).Some? && OutputPathKey in settings ==>
      r == Some(OverridePath(settings[OutputPathKey], AssemblyFileName(p).value))
    ensures Discovers(settings, p) ==>
      (r.None? <==> forall i: nat :: !Qualifies(settings, fs, projectFile, p, AssemblyFileName(p).value, i))
    ensures r.Some? && Discovers(settings, p) ==> exists k: nat ::
      && IsNewestQualifying(settings, fs, projectFile, p, AssemblyFileName(p).value, k)
      && r.value == CandidatePath(projectFile, p.outputPaths[k], AssemblyFileName(p).value)
  {
    if p.outputType.None? || p.assemblyName.None? || p.outputPaths == [] then None
    else match Extension(p.outputType.value)
      case None => None
      case Some(extension) =>
        var fileName := p.assemblyName.value + "." + extension;
        assert fileName == AssemblyFileName(p).value;
        match GetString(settings, OutputPathKey)
        case Some(outputPath) =>
          OverridePathShape(outputPath, fileName);
          Some(OverridePath(outputPath, fileName))
        case None =>
          var r := Discover(settings, fs, projectFile, p, fileName);
          assert r.Some? ==> EndsWith(r.value, "/" + fileName) by {
            if r.Some? {
              var k: nat :| IsNewestQualifying(settings, fs, projectFile, p, fileName, k)
                && r.value == CandidatePath(projectFile, p.outputPaths[k], fileName);
              CandidatePathShape(projectFile, p.outputPaths[k], fileName);
            }
          }
          r
  }

  /**
   * A "Database" project named "foo" with one output path and no recorded
   * conditions: the output type has no extension, so nothing is found and the
   * conditions are never read.
   */
  lemma UnsupportedExtensionExample(settings: Settings, fs: FileSystem, projectFile: string, p: VisualStudioProject)
    requires p == VisualStudioProject([], Some("Database"), Some("foo"), ["bin/Debug"], [])
    ensures LocateAssembly(settings, fs, projectFile, p).None?
  {
    assert Extension("Database").None?;
  }

  lemma FirstNewestIsNewestQualifying(settings: Settings, fs: FileSystem, projectFile: string, p: VisualStudioProject,
                                      fileName: string, cs: seq<Candidate>)
    requires p.ConditionsCoverOutputPaths()
    requires cs == CandidatesFrom(settings, fs, projectFile, p, fileName, 0) && cs != []
    ensures IsNewestQualifying(settings, fs, projectFile, p, fileName, cs[FirstNewest(cs)].index)
    ensures cs[FirstNewest(cs)].path == CandidatePath(projectFile, p.outputPaths[cs[FirstNewest(cs)].index], fileName)
  {
    var k := FirstNewest(cs);
    var winner := cs[k];
    assert IsCandidate(settings, fs, projectFile, p, fileName, winner);
    forall i: nat | Qualifies(settings, fs, projectFile, p, fileName, i)
      ensures fs.lastModified[CandidatePath(projectFile, p.outputPaths[i], fileName)] <= winner.lastModified
      ensures i < winner.index ==> fs.lastModified[CandidatePath(projectFile, p.outputPaths[i], fileName)] < winner.lastModified
    {
      QualifyingIsNoNewer(settings, fs, projectFile, p, fileName, cs, i);
    }
  }

  /** A qualifying output path's assembly is no newer than the first newest candidate, and older when declared before it. */
  lemma QualifyingIsNoNewer(settings: Settings, fs: FileSystem, projectFile: string, p: VisualStudioProject,
                            fileName: string, cs: seq<Candidate>, i: nat)
    requires p.ConditionsCoverOutputPaths()
    requires cs == CandidatesFrom(settings, fs, projectFile, p, fileName, 0) && cs != []
    requires Qualifies(settings, fs, projectFile, p, fileName, i)
    ensures var winner := cs[FirstNewest(cs)];
      && fs.lastModified[CandidatePath(projectFile, p.outputPaths[i], fileName)] <= winner.lastModified
      && (i < winner.index ==> fs.lastModified[CandidatePath(projectFile, p.outputPaths[i], fileName)] < winner.lastModified)
  {
    CandidatesComplete(settings, fs, projectFile, p, fileName, 0, i);
    var l :| 0 <= l < |cs| && cs[l].index == i;
    assert IsCandidate(settings, fs, projectFile, p, fileName, cs[l]);
    FirstNewestBounds(cs, l);
  }

  /**
   * Over candidates in increasing index order, the first newest is at least as
   * new as any candidate and strictly newer than those of smaller index.
   */
  lemma FirstNewestBounds(cs: seq<Candidate>, l: int)
    requires forall k, l :: 0 <= k < l < |cs| ==> cs[k].index < cs[l].index
    requires 0 <= l < |cs|
    ensures cs[l].lastModified <= cs[FirstNewest(cs)].lastModified
    ensures cs[l].index < cs[FirstNewest(cs)].index ==> cs[l].lastModified < cs[FirstNewest(cs)].lastModified
  {
    var k := FirstNewest(cs);
    assert cs[l].index < cs[k].index ==> l < k;
  }

  /**
   * The output path at `k` qualifies, no qualifying path is newer, and every
   * qualifying path declared before it is strictly older.
   */
  ghost predicate IsNewestQualifying(settings: Settings, fs: FileSystem, projectFile: string, p: VisualStudioProject,
                                     fileName: string, k: nat)
    requires p.ConditionsCoverOutputPaths()
  {
    && Qualifies(settings, fs, projectFile, p, fileName, k)
    && var newest := fs.lastModified[CandidatePath(projectFile, p.outputPaths[k], fileName)];
    forall i: nat :: Qualifies(settings, fs, projectFile, p, fileName, i) ==>
      && fs.lastModified[CandidatePath(projectFile, p.outputPaths[i], fileName)] <= newest
      && (i < k ==> fs.lastModified[CandidatePath(projectFile, p.outputPaths[i], fileName)] < newest)
  }

  /** The modification time of the assembly found through the output path at `index`. */
  function TimeAt(fs: FileSystem, projectFile: string, p: VisualStudioProject, fileName: string, index: nat): int
    requires index < |p.outputPaths|
    requires fs.IsFile(CandidatePath(projectFile, p.outputPaths[index], fileName))
  {
    fs.lastModified[CandidatePath(projectFile, p.outputPaths[index], fileName)]
  }

  /**
   * A qualifying output path whose assembly is strictly newer than that of
   * every other qualifying path is the one found.
   */
  lemma UniqueNewestWins(settings: Settings, fs: FileSystem, projectFile: string, p: VisualStudioProject, k: nat)
    requires Discovers(settings, p) && p.ConditionsCoverOutputPaths()
    requires Qualifies(settings, fs, projectFile, p, AssemblyFileName(p).value, k)
    requires forall i: nat :: i != k && Qualifies(settings, fs, projectFile, p, AssemblyFileName(p).value, i) ==>
      TimeAt(fs, projectFile, p, AssemblyFileName(p).value, i) < TimeAt(fs, projectFile, p, AssemblyFileName(p).value, k)
    ensures LocateAssembly(settings, fs, projectFile, p) == Some(CandidatePath(projectFile, p.outputPaths[k], AssemblyFileName(p).value))
  {
    var fileName := AssemblyFileName(p).value;
    var r := LocateAssembly(settings, fs, projectFile, p);
    var w: nat :| IsNewestQualifying(settings, fs, projectFile, p, fileName, w)
      && r.value == CandidatePath(projectFile, p.outputPaths[w], fileName);
  }

  /**
   * `q` lists the output paths of `p`, each with its condition, in the order
   * `order` gives: position j of `q` holds position order[j] of `p`, and every
   * position of `p` appears.
   */
  predicate Reorders(p: VisualStudioProject, q: VisualStudioProject, order: seq<nat>)
    requires p.ConditionsCoverOutputPaths() && q.ConditionsCoverOutputPaths()
  {
    && q.outputType == p.outputType && q.assemblyName == p.assemblyName
    && |q.outputPaths| == |p.outputPaths| == |order|
    && (forall j :: 0 <= j < |order| ==>
          && order[j] < |p.outputPaths|
          && q.outputPaths[j] == p.outputPaths[order[j]]
          && q.conditions[j] == p.conditions[order[j]])
    && (forall i: nat :: i < |p.outputPaths| ==> i in order)
  }

  /**
   * When distinct qualifying assemblies never share a modification time, the
   * assembly found does not depend on the order in which the project lists
   * its output paths.
   */
  lemma {:induction false} LocateAssemblyIgnoresOrder(settings: Settings, fs: FileSystem, projectFile: string,
                                                      p: VisualStudioProject, q: VisualStudioProject, order: seq<nat>)
    requires Discovers(settings, p) && p.ConditionsCoverOutputPaths() && q.ConditionsCoverOutputPaths()
    requires Reorders(p, q, order)
    requires forall i: nat, j: nat ::
      && Qualifies(settings, fs, projectFile, p, AssemblyFileName(p).value, i)
      && Qualifies(settings, fs, projectFile, p, AssemblyFileName(p).value, j)
      && CandidatePath(projectFile, p.outputPaths[i], AssemblyFileName(p).value)
         != CandidatePath(projectFile, p.outputPaths[j], AssemblyFileName(p).value)
      ==> TimeAt(fs, projectFile, p, AssemblyFileName(p).value, i) != TimeAt(fs, projectFile, p, AssemblyFileName(p).value, j)
    ensures LocateAssembly(settings, fs, projectFile, q) == LocateAssembly(settings, fs, projectFile, p)
  {
    if LocateAssembly(settings, fs, projectFile, p).None? {
      ReorderedFindsNothing(settings, fs, projectFile, p, q, order);
    } else {
      ReorderedFindsTheSame(settings, fs, projectFile, p, q, order);
    }
  }

  /** Position j of a reordering qualifies exactly when the position it came from does, and names the same file. */
  lemma ReorderedQualifies(settings: Settings, fs: FileSystem, projectFile: string, p: VisualStudioProject,
                           q: VisualStudioProject, order: seq<nat>, fileName: string, j: nat)
    requires p.ConditionsCoverOutputPaths() && q.ConditionsCoverOutputPaths()
    requires Reorders(p, q, order) && j < |order|
    ensures Qualifies(settings, fs, projectFile, q, fileName, j) <==> Qualifies(settings, fs, projectFile, p, fileName, order[j])
    ensures CandidatePath(projectFile, q.outputPaths[j], fileName) == CandidatePath(projectFile, p.outputPaths[order[j]], fileName)
  {
  }

  /** A reordering of a project that yields no assembly yields none either. */
  lemma ReorderedFindsNothing(settings: Settings, fs: FileSystem, projectFile: string,
                              p: VisualStudioProject, q: VisualStudioProject, order: seq<nat>)
    requires Discovers(settings, p) && p.ConditionsCoverOutputPaths() && q.ConditionsCoverOutputPaths()
    requires Reorders(p, q, order)
    requires LocateAssembly(settings, fs, projectFile, p).None?
    ensures LocateAssembly(settings, fs, projectFile, q).None?
  {
    var fileName := AssemblyFileName(p).value;
    assert AssemblyFileName(q) == AssemblyFileName(p);
    assert Discovers(settings, q);
    forall j: nat | Qualifies(settings, fs, projectFile, q, fileName, j) ensures false {
      ReorderedQualifies(settings, fs, projectFile, p, q, order, fileName, j);
    }
  }

  /** A reordering of a project that yields an assembly yields the same one, when times tell assemblies apart. */
  lemma ReorderedFindsTheSame(settings: Settings, fs: FileSystem, projectFile: string,
                              p: VisualStudioProject, q: VisualStudioProject, order: seq<nat>)
    requires Discovers(settings, p) && p.ConditionsCoverOutputPaths() && q.ConditionsCoverOutputPaths()
    requires Reorders(p, q, order)
    requires forall i: nat, j: nat ::
      && Qualifies(settings, fs, projectFile, p, AssemblyFileName(p).value, i)
      && Qualifies(settings, fs, projectFile, p, AssemblyFileName(p).value, j)
      && CandidatePath(projectFile, p.outputPaths[i], AssemblyFileName(p).value)
         != CandidatePath(projectFile, p.outputPaths[j], AssemblyFileName(p).value)
      ==> TimeAt(fs, projectFile, p, AssemblyFileName(p).value, i) != TimeAt(fs, projectFile, p, AssemblyFileName(p).value, j)
    requires LocateAssembly(settings, fs, projectFile, p).Some?
    ensures LocateAssembly(settings, fs, projectFile, q) == LocateAssembly(settings, fs, projectFile, p)
  {
    var fileName := AssemblyFileName(p).value;
    assert AssemblyFileName(q) == AssemblyFileName(p);
    assert Discovers(settings, q);
    var rp, rq := LocateAssembly(settings, fs, projectFile, p), LocateAssembly(settings, fs, projectFile, q);
    var k: nat :| IsNewestQualifying(settings, fs, projectFile, p, fileName, k)
      && rp.value == CandidatePath(projectFile, p.outputPaths[k], fileName);
    assert rq.Some? by {
      assert k in order;
      var jk :| 0 <= jk < |order| && order[jk] == k;
      ReorderedQualifies(settings, fs, projectFile, p, q, order, fileName, jk);
    }
    var kq: nat :| IsNewestQualifying(settings, fs, projectFile, q, fileName, kq)
      && rq.value == CandidatePath(projectFile, q.outputPaths[kq], fileName);
    ReorderedNewest(settings, fs, projectFile, p, q, order, fileName, k, kq);
  }

  /** The newest qualifying paths of a project and of its reordering name the same file. */
  lemma ReorderedNewest(settings: Settings, fs: FileSystem, projectFile: string, p: VisualStudioProject,
                        q: VisualStudioProject, order: seq<nat>, fileName: string, k: nat, kq: nat)
    requires p.ConditionsCoverOutputPaths() && q.ConditionsCoverOutputPaths()
    requires Reorders(p, q, order)
    requires forall i: nat, j: nat ::
      && Qualifies(settings, fs, projectFile, p, fileName, i)
      && Qualifies(settings, fs, projectFile, p, fileName, j)
      && CandidatePath(projectFile, p.outputPaths[i], fileName) != CandidatePath(projectFile, p.outputPaths[j], fileName)
      ==> TimeAt(fs, projectFile, p, fileName, i) != TimeAt(fs, projectFile, p, fileName, j)
    requires IsNewestQualifying(settings, fs, projectFile, p, fileName, k)
    requires IsNewestQualifying(settings, fs, projectFile, q, fileName, kq)
    ensures CandidatePath(projectFile, q.outputPaths[kq], fileName) == CandidatePath(projectFile, p.outputPaths[k], fileName)
  {
    assert k in order;
    var jk :| 0 <= jk < |order| && order[jk] == k;
    ReorderedQualifies(settings, fs, projectFile, p, q, order, fileName, jk);
    ReorderedQualifies(settings, fs, projectFile, p, q, order, fileName, kq);
    var m := order[kq];
    assert TimeAt(fs, projectFile, p, fileName, m) <= TimeAt(fs, projectFile, p, fileName, k) by {
      NewestIsNoOlder(settings, fs, projectFile, p, fileName, k, m);
    }
    assert TimeAt(fs, projectFile, q, fileName, jk) <= TimeAt(fs, projectFile, q, fileName, kq) by {
      NewestIsNoOlder(settings, fs, projectFile, q, fileName, kq, jk);
    }
  }

  /** A qualifying path is no newer than the newest qualifying one. */
  lemma NewestIsNoOlder(settings: Settings, fs: FileSystem, projectFile: string, p: VisualStudioProject,
                        fileName: string, k: nat, i: nat)
    requires p.ConditionsCoverOutputPaths()
    requires IsNewestQualifying(settings, fs, projectFile, p, fileName, k)
    requires Qualifies(settings, fs, projectFile, p, fileName, i)
    ensures TimeAt(fs, projectFile, p, fileName, i) <= TimeAt(fs, projectFile, p, fileName, k)
  {
  }

  /**
   * With two qualifying output paths modified at different times, the newer
   * assembly is chosen, and listing the two paths the other way round does
   * not change the choice.
   */
  lemma NewerAssemblyWinsInEitherOrder(settings: Settings, fs: FileSystem, projectFile: string, p: VisualStudioProject)
    requires OutputPathKey !in settings
    requires |p.outputPaths| == 2 && |p.conditions| == 2 && AssemblyFileName(p).Some?
    requires Qualifies(settings, fs, projectFile, p, AssemblyFileName(p).value, 0)
    requires Qualifies(settings, fs, projectFile, p, AssemblyFileName(p).value, 1)
    requires TimeAt(fs, projectFile, p, AssemblyFileName(p).value, 0) != TimeAt(fs, projectFile, p, AssemblyFileName(p).value, 1)
    ensures var newer := if TimeAt(fs, projectFile, p, AssemblyFileName(p).value, 0)
                              > TimeAt(fs, projectFile, p, AssemblyFileName(p).value, 1) then 0 else 1;
      LocateAssembly(settings, fs, projectFile, p) == Some(CandidatePath(projectFile, p.outputPaths[newer], AssemblyFileName(p).value))
    ensures var swapped := p.(outputPaths := [p.outputPaths[1], p.outputPaths[0]], conditions := [p.conditions[1], p.conditions[0]]);
      LocateAssembly(settings, fs, projectFile, swapped) == LocateAssembly(settings, fs, projectFile, p)
  {
    NewerAssemblyWins(settings, fs, projectFile, p);
    SwappedPairAgrees(settings, fs, projectFile, p);
  }

  /** Of two qualifying output paths with different times, the newer assembly is found. */
  lemma NewerAssemblyWins(settings: Settings, fs: FileSystem, projectFile: string, p: VisualStudioProject)
    requires OutputPathKey !in settings
    requires |p.outputPaths| == 2 && |p.conditions| == 2 && AssemblyFileName(p).Some?
    requires Qualifies(settings, fs, projectFile, p, AssemblyFileName(p).value, 0)
    requires Qualifies(settings, fs, projectFile, p, AssemblyFileName(p).value, 1)
    requires TimeAt(fs, projectFile, p, AssemblyFileName(p).value, 0) != TimeAt(fs, projectFile, p, AssemblyFileName(p).value, 1)
    ensures var newer := if TimeAt(fs, projectFile, p, AssemblyFileName(p).value, 0)
                              > TimeAt(fs, projectFile, p, AssemblyFileName(p).value, 1) then 0 else 1;
      LocateAssembly(settings, fs, projectFile, p) == Some(CandidatePath(projectFile, p.outputPaths[newer], AssemblyFileName(p).value))
  {
    var fileName := AssemblyFileName(p).value;
    var newer := if TimeAt(fs, projectFile, p, fileName, 0) > TimeAt(fs, projectFile, p, fileName, 1) then 0 else 1;
    forall i: nat | i != newer && Qualifies(settings, fs, projectFile, p, fileName, i)
      ensures TimeAt(fs, projectFile, p, fileName, i) < TimeAt(fs, projectFile, p, fileName, newer)
    {
      assert i == 1 - newer;
    }
    UniqueNewestWins(settings, fs, projectFile, p, newer);
  }

  /** Exchanging two qualifying output paths with different times finds the same assembly. */
  lemma SwappedPairAgrees(settings: Settings, fs: FileSystem, projectFile: string, p: VisualStudioProject)
    requires OutputPathKey !in settings
    requires |p.outputPaths| == 2 && |p.conditions| == 2 && AssemblyFileName(p).Some?
    requires Qualifies(settings, fs, projectFile, p, AssemblyFileName(p).value, 0)
    requires Qualifies(settings, fs, projectFile, p, AssemblyFileName(p).value, 1)
    requires TimeAt(fs, projectFile, p, AssemblyFileName(p).value, 0) != TimeAt(fs, projectFile, p, AssemblyFileName(p).value, 1)
    ensures var swapped := p.(outputPaths := [p.outputPaths[1], p.outputPaths[0]], conditions := [p.conditions[1], p.conditions[0]]);
      LocateAssembly(settings, fs, projectFile, swapped) == LocateAssembly(settings, fs, projectFile, p)
  {
    var fileName := AssemblyFileName(p).value;
    var swapped := p.(outputPaths := [p.outputPaths[1], p.outputPaths[0]], conditions := [p.conditions[1], p.conditions[0]]);
    SwapReorders(p);
    forall i: nat, j: nat | && Qualifies(settings, fs, projectFile, p, fileName, i)
                            && Qualifies(settings, fs, projectFile, p, fileName, j)
                            && CandidatePath(projectFile, p.outputPaths[i], fileName)
                               != CandidatePath(projectFile, p.outputPaths[j], fileName)
      ensures TimeAt(fs, projectFile, p, fileName, i) != TimeAt(fs, projectFile, p, fileName, j)
    {
      assert i < 2 && j < 2 && i != j;
    }
    LocateAssemblyIgnoresOrder(settings, fs, projectFile, p, swapped, [1, 0]);
  }

  /** Exchanging two output paths, conditions included, is a reordering. */
  lemma SwapReorders(p: VisualStudioProject)
    requires |p.outputPaths| == 2 && |p.conditions| == 2
    ensures var swapped := p.(outputPaths := [p.outputPaths[1], p.outputPaths[0]], conditions := [p.conditions[1], p.conditions[0]]);
      Reorders(p, swapped, [1, 0])
  {
    var order: seq<nat> := [1, 0];
    assert order[1] == 0 && order[0] == 1;
  }

  /**
   * Two qualifying output paths whose assemblies carry the same modification
   * time: the stable sort keeps the first listed one.
   */
  lemma EqualTimesKeepFirstListed(settings: Settings, fs: FileSystem, projectFile: string, p: VisualStudioProject)
    requires OutputPathKey !in settings
    requires |p.outputPaths| == 2 && |p.conditions| == 2 && AssemblyFileName(p).Some?
    requires Qualifies(settings, fs, projectFile, p, AssemblyFileName(p).value, 0)
    requires Qualifies(settings, fs, projectFile, p, AssemblyFileName(p).value, 1)
    requires TimeAt(fs, projectFile, p, AssemblyFileName(p).value, 0) == TimeAt(fs, projectFile, p, AssemblyFileName(p).value, 1)
    ensures LocateAssembly(settings, fs, projectFile, p) == Some(CandidatePath(projectFile, p.outputPaths[0], AssemblyFileName(p).value))
  {
    var fileName := AssemblyFileName(p).value;
    var r := LocateAssembly(settings, fs, projectFile, p);
    var k: nat :| IsNewestQualifying(settings, fs, projectFile, p, fileName, k)
      && r.value == CandidatePath(projectFile, p.outputPaths[k], fileName);
    assert k == 0;
  }
}
