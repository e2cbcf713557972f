/**
 * VisualStudioProjectBuilder: turns the projects of a Visual Studio solution
 * into modules of the analysed root project. Each accepted solution entry
 * becomes one module with a key and a work directory derived from the
 * project's escaped name, the project's files as sources or tests, the
 * settings scoped to the project, and the paths later analysers look up.
 */
module ProjectBuilder {
  import opened Wrappers
  import opened Strings
  import opened Environment
  import opened Projects
  import AssemblyLocator

  /* ---------------------------------------------------------------------- */
  /* Project names                                                           */
  /* ---------------------------------------------------------------------- */

  /** replaceAll("\\p{M}", ""): every combining mark removed, everything else kept in order. */
  function StripMarks(u: Unicode, s: string): (r: string)
    ensures forall i :: 0 <= i < |r| ==> !u.isMark(r[i])
    ensures |r| <= |s|
  {
    if s == [] then [] else (if u.isMark(s[0]) then [] else [s[0]]) + StripMarks(u, s[1..])
  }

  /**
   * escapeProjectName: decompose, drop the combining marks, turn spaces into
   * underscores. The result never holds a space, and holds no mark as long as
   * '_' is not one.
   */
  function EscapeProjectName(u: Unicode, name: string): (r: string)
    ensures ' ' !in r
    ensures !u.isMark('_') ==> forall i :: 0 <= i < |r| ==> !u.isMark(r[i])
    ensures |r| <= |u.decompose(name)|
  {
    Replace(StripMarks(u, u.decompose(name)), ' ', '_')
  }

  /** What a single character of the decomposed name turns into. */
  function EscapeChar(u: Unicode, c: char): string {
    if u.isMark(c) then "" else if c == ' ' then "_" else [c]
  }

  /** The images of the characters of `d`, one by one. */
  function CharImages(u: Unicode, d: string): seq<string> {
    seq(|d|, i requires 0 <= i < |d| => EscapeChar(u, d[i]))
  }

  lemma {:induction false} ReplaceAppend(a: string, b: string, x: char, y: char)
    ensures Replace(a + b, x, y) == Replace(a, x, y) + Replace(b, x, y)
  {
    var l, r := Replace(a + b, x, y), Replace(a, x, y) + Replace(b, x, y);
    assert |l| == |r|;
    forall i | 0 <= i < |l| ensures l[i] == r[i] {
      if i < |a| {
        assert (a + b)[i] == a[i];
      } else {
        assert (a + b)[i] == b[i - |a|];
      }
    }
  }

  /**
   * Escaping works character by character: the escaped name is the
   * concatenation of the images of the decomposed name's characters, so every
   * character that is neither a mark nor a space survives, in order.
   */
  lemma {:induction false} EscapeIsPerCharacter(u: Unicode, name: string)
    ensures EscapeProjectName(u, name) == Concat(CharImages(u, u.decompose(name)))
  {
    EscapeDecomposedPerCharacter(u, u.decompose(name));
  }

  lemma {:induction false} EscapeDecomposedPerCharacter(u: Unicode, d: string)
    ensures Replace(StripMarks(u, d), ' ', '_') == Concat(CharImages(u, d))
    decreases |d|
  {
    if d != [] {
      var head := if u.isMark(d[0]) then [] else [d[0]];
      assert StripMarks(u, d) == head + StripMarks(u, d[1..]);
      EscapeDecomposedPerCharacter(u, d[1..]);
      ReplaceAppend(head, StripMarks(u, d[1..]), ' ', '_');
      assert Replace(head, ' ', '_') == EscapeChar(u, d[0]);
      var images := CharImages(u, d);
      assert images[0] == EscapeChar(u, d[0]);
      assert images[1..] == CharImages(u, d[1..]);
      assert Concat(images) == images[0] + Concat(images[1..]);
    }
  }

  /**
   * Examples of the escaping rule, for any Unicode
   * tables that decompose the accented letters into a base letter and a mark.
   */
  lemma EscapeUmlautExample(u: Unicode)
    requires u.decompose("\U{00FC}ber") == "u\U{0308}ber"
    requires u.isMark('\U{0308}')
    requires !u.isMark('u') && !u.isMark('b') && !u.isMark('e') && !u.isMark('r')
    ensures EscapeProjectName(u, "\U{00FC}ber") == "uber"
  {
    UmlautLiterals();
    StripMarksOfMarkFree(u, "ber");
    StripMarksDropsMark(u, "u", '\U{0308}', "ber");
    ReplaceAbsent("uber", ' ', '_');
  }

  /** How the literals of the umlaut example are built from their parts. */
  lemma UmlautLiterals()
    ensures "u\U{0308}ber" == "u" + ['\U{0308}'] + "ber" && "uber" == "u" + "ber"
    ensures ' ' !in "uber"
    ensures forall i :: 0 <= i < |"ber"| ==> "ber"[i] in "ber"
  {
  }

  lemma EscapeAcuteExample(u: Unicode)
    requires u.decompose("h\U{00E9}h\U{00E9}") == "he\U{0301}he\U{0301}"
    requires u.isMark('\U{0301}')
    requires !u.isMark('h') && !u.isMark('e')
    ensures EscapeProjectName(u, "h\U{00E9}h\U{00E9}") == "hehe"
  {
    AcuteLiterals();
    var syllable := "he" + ['\U{0301}'] + [];
    assert StripMarks(u, syllable) == "he" + [] by {
      StripMarksDropsMark(u, "he", '\U{0301}', []);
    }
    StripMarksDropsMark(u, "he", '\U{0301}', syllable);
    ReplaceAbsent("hehe", ' ', '_');
  }

  /** How the literals of the acute-accent example are built from their parts. */
  lemma AcuteLiterals()
    ensures "he\U{0301}he\U{0301}" == "he" + ['\U{0301}'] + ("he" + ['\U{0301}'] + [])
    ensures "hehe" == "he" + ("he" + [])
    ensures ' ' !in "hehe"
    ensures forall c :: c in "he" ==> c == 'h' || c == 'e'
  {
  }

  /** A mark between mark-free text is dropped and nothing else is. */
  lemma StripMarksDropsMark(u: Unicode, a: string, m: char, b: string)
    requires forall c :: c in a ==> !u.isMark(c)
    requires u.isMark(m)
    ensures StripMarks(u, a + [m] + b) == a + StripMarks(u, b)
  {
    assert forall i :: 0 <= i < |a| ==> !u.isMark(a[i]) by {
      forall i | 0 <= i < |a| ensures !u.isMark(a[i]) {
        assert a[i] in a;
      }
    }
    assert StripMarks(u, a + [m]) == a by {
      StripMarksOfMarkFree(u, a);
      StripMarksAppend(u, a, [m]);
      assert StripMarks(u, [m]) == [];
    }
    StripMarksAppend(u, a + [m], b);
  }

  lemma EscapeSpaceExample(u: Unicode)
    requires u.decompose("foo bar") == "foo bar"
    requires !u.isMark('f') && !u.isMark('o') && !u.isMark(' ') && !u.isMark('b') && !u.isMark('a') && !u.isMark('r')
    ensures EscapeProjectName(u, "foo bar") == "foo_bar"
  {
    FooBarLiterals();
    assert forall i :: 0 <= i < |"foo bar"| ==> !u.isMark("foo bar"[i]);
    EscapeOfMarkFree(u, "foo bar");
    ReplaceSingleSpace("foo", "bar");
  }

  /** How the literals of the space example are built from their parts. */
  lemma FooBarLiterals()
    ensures "foo bar" == "foo" + " " + "bar" && "foo_bar" == "foo" + "_" + "bar"
    ensures ' ' !in "foo" && ' ' !in "bar"
  {
  }

  /** A name that decomposition leaves alone and that holds no mark only has its spaces replaced. */
  lemma EscapeOfMarkFree(u: Unicode, name: string)
    requires u.decompose(name) == name
    requires forall i :: 0 <= i < |name| ==> !u.isMark(name[i])
    ensures EscapeProjectName(u, name) == Replace(name, ' ', '_')
  {
    StripMarksOfMarkFree(u, name);
  }

  /** Replacing spaces in a string with exactly one space between space-free parts. */
  lemma ReplaceSingleSpace(a: string, b: string)
    requires ' ' !in a && ' ' !in b
    ensures Replace(a + " " + b, ' ', '_') == a + "_" + b
  {
    ReplaceAppend(a + " ", b, ' ', '_');
    ReplaceAppend(a, " ", ' ', '_');
    ReplaceAbsent(a, ' ', '_');
    ReplaceAbsent(b, ' ', '_');
    assert Replace(" ", ' ', '_') == "_";
  }

  lemma {:induction false} StripMarksAppend(u: Unicode, a: string, b: string)
    ensures StripMarks(u, a + b) == StripMarks(u, a) + StripMarks(u, b)
    decreases |a|
  {
    if a == [] {
      assert a + b == b;
    } else {
      assert (a + b)[0] == a[0] && (a + b)[1..] == a[1..] + b;
      StripMarksAppend(u, a[1..], b);
      var head := if u.isMark(a[0]) then [] else [a[0]];
      AppendAssociates(head, StripMarks(u, a[1..]), StripMarks(u, b));
    }
  }

  lemma StripMarksOfMarkFree(u: Unicode, s: string)
    requires forall i :: 0 <= i < |s| ==> !u.isMark(s[i])
    ensures StripMarks(u, s) == s
    decreases |s|
  {
    if s != [] {
      StripMarksOfMarkFree(u, s[1..]);
    }
  }

  lemma ReplaceAbsent(s: string, x: char, y: char)
    requires x !in s
    ensures Replace(s, x, y) == s
  {
  }

  /**
   * The skip list is consulted with the name escaped twice. Escaping an
   * escaped name changes nothing, provided decomposition leaves that escaped
   * name alone and '_' is not a mark, so the double escape is harmless.
   */
  lemma {:induction false} EscapeTwice(u: Unicode, name: string)
    requires !u.isMark('_')
    requires u.decompose(EscapeProjectName(u, name)) == EscapeProjectName(u, name)
    ensures EscapeProjectName(u, EscapeProjectName(u, name)) == EscapeProjectName(u, name)
  {
    var e := EscapeProjectName(u, name);
    StripMarksOfMarkFree(u, e);
    ReplaceAbsent(e, ' ', '_');
  }

  /* ---------------------------------------------------------------------- */
  /* Keys and directories                                                    */
  /* ---------------------------------------------------------------------- */

  /**
   * projectKey: under the deprecated "unsafe" key strategy, the root key up to
   * its first ':'; otherwise, and when there is no ':', the root key itself.
   */
  function ProjectKey(settings: Settings, rootKey: string): (r: string)
    ensures GetString(settings, ProjectKeyStrategyKey) != Some("unsafe") || ':' !in rootKey ==> r == rootKey
    ensures GetString(settings, ProjectKeyStrategyKey) == Some("unsafe") && ':' in rootKey ==>
      && ':' !in r && |r| < |rootKey| && rootKey[|r|] == ':' && rootKey[..|r|] == r
  {
    if GetString(settings, ProjectKeyStrategyKey) == Some("unsafe") then
      match IndexOf(rootKey, ':')
      case None => rootKey
      case Some(i) => rootKey[..i]
    else
      rootKey
  }

  /** The key of the module for `projectName`. */
  function ModuleKey(settings: Settings, u: Unicode, rootKey: string, projectName: string): (r: string)
    ensures var prefix := ProjectKey(settings, rootKey);
      var name := EscapeProjectName(u, projectName);
      && |r| == |prefix| + 1 + |name|
      && r[..|prefix|] == prefix && r[|prefix|] == ':' && r[|prefix| + 1..] == name
    ensures GetString(settings, ProjectKeyStrategyKey) != Some("unsafe") ==> r[..|rootKey|] == rootKey
    ensures GetString(settings, ProjectKeyStrategyKey) == Some("unsafe") ==>
      IndexOf(r, ':') == Some(|ProjectKey(settings, rootKey)|)
  {
    var prefix := ProjectKey(settings, rootKey);
    var r := prefix + ":" + EscapeProjectName(u, projectName);
    assert r[..|prefix|] == prefix;
    assert GetString(settings, ProjectKeyStrategyKey) == Some("unsafe") ==> ':' !in prefix && r[|prefix|] == ':';
    assert GetString(settings, ProjectKeyStrategyKey) == Some("unsafe") ==> IndexOf(r, ':') == Some(|prefix|) by {
      if GetString(settings, ProjectKeyStrategyKey) == Some("unsafe") {
        IndexOfIsFirst(r, ':', |prefix|);
      }
    }
    r
  }

  /** Two projects of one solution share a module key exactly when their escaped names agree. */
  lemma ModuleKeysCollideIffEscapedNamesEqual(settings: Settings, u: Unicode, rootKey: string, a: string, b: string)
    ensures ModuleKey(settings, u, rootKey, a) == ModuleKey(settings, u, rootKey, b)
        <==> EscapeProjectName(u, a) == EscapeProjectName(u, b)
  {
    var prefix := ProjectKey(settings, rootKey);
    var ka, kb := ModuleKey(settings, u, rootKey, a), ModuleKey(settings, u, rootKey, b);
    if ka == kb {
      assert ka[|prefix| + 1..] == kb[|prefix| + 1..];
    }
  }

  /**
   * The name of a module's work directory inside the root's: the root key
   * with its ':' turned into '_', then '_', then the escaped project name.
   */
  function WorkDirName(rootKey: string, escapedName: string): (r: string)
    ensures |r| == |rootKey| + 1 + |escapedName|
    ensures ':' !in r[..|rootKey|] && r[|rootKey|] == '_' && r[|rootKey| + 1..] == escapedName
    ensures forall i :: 0 <= i < |rootKey| ==> r[i] == (if rootKey[i] == ':' then '_' else rootKey[i])
  {
    var r := Replace(rootKey, ':', '_') + "_" + escapedName;
    assert r[|rootKey| + 1..] == escapedName;
    r
  }

  /**
   * Within one root, the key and the work directory of a module are fixed by
   * its escaped name, and different escaped names never share either.
   */
  lemma DistinctEscapedNamesDoNotCollide(settings: Settings, rootKey: string, e1: string, e2: string)
    requires e1 != e2
    ensures ProjectKey(settings, rootKey) + ":" + e1 != ProjectKey(settings, rootKey) + ":" + e2
    ensures WorkDirName(rootKey, e1) != WorkDirName(rootKey, e2)
  {
    var prefix := ProjectKey(settings, rootKey) + ":";
    assert (prefix + e1)[|prefix|..] == e1;
    assert (prefix + e2)[|prefix|..] == e2;
  }

  /**
   * Escaping is not injective: a space and an underscore escape alike, so two
   * projects named "a b" and "a_b" are given the same module key.
   */
  lemma SpaceAndUnderscoreShareAKey(settings: Settings, u: Unicode, rootKey: string)
    requires u.decompose("a b") == "a b" && u.decompose("a_b") == "a_b"
    requires forall c :: c in "ab _" ==> !u.isMark(c)
    ensures ModuleKey(settings, u, rootKey, "a b") == ModuleKey(settings, u, rootKey, "a_b")
  {
    StripMarksOfMarkFree(u, "a b");
    StripMarksOfMarkFree(u, "a_b");
    assert Replace("a b", ' ', '_') == "a_b" == Replace("a_b", ' ', '_');
  }

  /** The module key the bootstrapper's own tests expect for "MyLibrary" under the root "solution:key". */
  lemma ModuleKeyExample(settings: Settings, u: Unicode, rootKey: string, name: string)
    requires rootKey == "solution" + ":" + "key" && name == "MyLibrary"
    requires ProjectKeyStrategyKey !in settings
    requires u.decompose(name) == name
    requires forall c :: c in name ==> !u.isMark(c)
    ensures ModuleKey(settings, u, rootKey, name) == "solution:key:MyLibrary"
  {
    MyLibraryLiterals();
    EscapeOfPlainName(u, name);
    ModuleKeyOfPlainName(settings, u, rootKey, name);
  }

  /** How the literals of the module-key example are built from their parts. */
  lemma MyLibraryLiterals()
    ensures "solution:key:MyLibrary" == ("solution" + ":" + "key") + ":" + "MyLibrary"
    ensures ' ' !in "MyLibrary"
  {
  }

  /** A name that decomposes to itself and holds neither a mark nor a space escapes to itself. */
  lemma EscapeOfPlainName(u: Unicode, name: string)
    requires u.decompose(name) == name
    requires forall c :: c in name ==> !u.isMark(c)
    requires ' ' !in name
    ensures EscapeProjectName(u, name) == name
  {
    assert forall i :: 0 <= i < |name| ==> !u.isMark(name[i]) by {
      forall i | 0 <= i < |name| ensures !u.isMark(name[i]) {
        assert name[i] in name;
      }
    }
    StripMarksOfMarkFree(u, name);
    ReplaceAbsent(name, ' ', '_');
  }

  /** Without a key strategy, a name that escaping leaves alone is appended to the root key. */
  lemma ModuleKeyOfPlainName(settings: Settings, u: Unicode, rootKey: string, name: string)
    requires ProjectKeyStrategyKey !in settings
    requires EscapeProjectName(u, name) == name
    ensures ModuleKey(settings, u, rootKey, name) == rootKey + ":" + name
  {
    assert ProjectKey(settings, rootKey) == rootKey;
  }

  /** The work directory name the same tests expect. */
  lemma WorkDirNameExample(rootKey: string, escapedName: string)
    requires rootKey == "solution" + ":" + "key" && escapedName == "MyLibrary"
    ensures WorkDirName(rootKey, escapedName) == "solution_key_MyLibrary"
  {
    assert Replace(rootKey, ':', '_') == "solution_key";
  }

  /* ---------------------------------------------------------------------- */
  /* Solution entries                                                        */
  /* ---------------------------------------------------------------------- */

  /** isSupportedProjectType: the lower-cased path ends in ".csproj" or ".vbproj". */
  predicate IsSupportedProjectType(entry: SolutionEntry) {
    EndsWith(Lower(entry.path), ".csproj") || EndsWith(Lower(entry.path), ".vbproj")
  }

  /** A project type is supported exactly when the path's last seven characters, lower-cased, are one of the two extensions. */
  lemma {:induction false} SupportedProjectTypes(entry: SolutionEntry)
    ensures IsSupportedProjectType(entry) <==>
      |entry.path| >= 7 && Lower(entry.path[|entry.path| - 7..]) in {".csproj", ".vbproj"}
  {
    if |entry.path| >= 7 {
      LowerSuffix(entry.path, |entry.path| - 7);
    }
  }

  /** The names a skip-list value holds: its ','-separated pieces, empty pieces dropped. */
  function SkipListNames(value: string): (r: set<string>)
    ensures forall name :: name in r ==> name != [] && ',' !in name
  {
    set name | name in Split(value, ',')
  }

  /** A comma splits the list: the names of both sides together, and nothing else. */
  lemma SkipListNamesAppend(a: string, b: string)
    ensures SkipListNames(a + "," + b) == SkipListNames(a) + SkipListNames(b)
  {
    SplitAppend(a, b, ',');
    PiecesOfAppend(Split(a, ','), Split(b, ','));
  }

  /** The pieces of two lists joined are the pieces of each. */
  lemma PiecesOfAppend(x: seq<string>, y: seq<string>)
    ensures (set name | name in x + y) == (set name | name in x) + (set name | name in y)
  {
  }

  /** A value without a comma is a single name, or no name at all when it is empty. */
  lemma SkipListNamesSingle(value: string)
    requires ',' !in value
    ensures SkipListNames(value) == if value == [] then {} else {value}
  {
    SplitWithoutSeparator(value, ',');
  }

  /** A trailing comma adds no name: "A,B," skips exactly "A" and "B". */
  lemma TrailingCommaExample(value: string)
    requires value == "A" + "," + ("B" + "," + "")
    ensures SkipListNames(value) == {"A", "B"}
  {
    SkipListNamesAppend("A", "B" + "," + "");
    SkipListNamesAppend("B", "");
    SkipListNamesSingle("A");
    SkipListNamesSingle("B");
    SkipListNamesSingle("");
  }

  /** skippedProjects: the names listed in the setting; none when it is unset. */
  function SkippedProjects(settings: Settings): (r: set<string>)
    ensures SkippedProjectsKey !in settings ==> r == {}
    ensures SkippedProjectsKey in settings ==> r == SkipListNames(settings[SkippedProjectsKey])
  {
    match GetString(settings, SkippedProjectsKey)
    case None => {}
    case Some(value) => SkipListNames(value)
  }

  /** Writing names joined by ',' into the setting skips exactly those names. */
  lemma SkippedProjectsListed(settings: Settings, names: seq<string>)
    requires forall k :: 0 <= k < |names| ==> names[k] != [] && ',' !in names[k]
    requires GetString(settings, SkippedProjectsKey) == Some(JoinWith(names, ','))
    ensures SkippedProjects(settings) == set k | 0 <= k < |names| :: names[k]
  {
    SplitJoinWith(names, ',');
  }

  /** Why a solution entry does or does not become a module. */
  datatype Decision = Unsupported | SkipListed | ProjectFileMissing | Accepted(projectFile: string)

  /**
   * The checks of the build loop, in order: supported project type, not on
   * the skip list (which is consulted with the name escaped twice), and a
   * project file that exists beside the solution.
   */
  function Decide(env: Env, solutionDir: string, skipped: set<string>, entry: SolutionEntry): (d: Decision)
    ensures d.Accepted? <==>
      && IsSupportedProjectType(entry)
      && EscapeProjectName(env.text, EscapeProjectName(env.text, entry.name)) !in skipped
      && env.fs.IsFile(RelativePathFile(Some(solutionDir), entry.path))
    ensures d.Accepted? ==> d.projectFile == RelativePathFile(Some(solutionDir), entry.path)
  {
    if !IsSupportedProjectType(entry) then Unsupported
    else if EscapeProjectName(env.text, EscapeProjectName(env.text, entry.name)) in skipped then SkipListed
    else
      var projectFile := RelativePathFile(Some(solutionDir), entry.path);
      if !env.fs.IsFile(projectFile) then ProjectFileMissing else Accepted(projectFile)
  }

  /** The entries that reach buildModule, in solution order. */
  function AcceptedEntries(env: Env, solutionDir: string, skipped: set<string>, entries: seq<SolutionEntry>): (r: seq<SolutionEntry>)
    ensures |r| <= |entries|
    ensures forall e :: e in r ==> e in entries && Decide(env, solutionDir, skipped, e).Accepted?
    ensures forall e :: e in entries && Decide(env, solutionDir, skipped, e).Accepted? ==> e in r
  {
    if entries == [] then []
    else
      (if Decide(env, solutionDir, skipped, entries[0]).Accepted? then [entries[0]] else [])
      + AcceptedEntries(env, solutionDir, skipped, entries[1..])
  }

  /** A single entry is kept exactly when it is accepted. */
  lemma AcceptedEntriesSingle(env: Env, solutionDir: string, skipped: set<string>, e: SolutionEntry)
    ensures AcceptedEntries(env, solutionDir, skipped, [e])
         == if Decide(env, solutionDir, skipped, e).Accepted? then [e] else []
  {
    assert [e][1..] == [];
  }

  /** Filtering keeps the solution's order: the accepted entries of a + b are those of a, then those of b. */
  lemma {:induction false} AcceptedEntriesAppend(env: Env, solutionDir: string, skipped: set<string>,
                                                 a: seq<SolutionEntry>, b: seq<SolutionEntry>)
    ensures AcceptedEntries(env, solutionDir, skipped, a + b)
         == AcceptedEntries(env, solutionDir, skipped, a) + AcceptedEntries(env, solutionDir, skipped, b)
    decreases |a|
  {
    if a == [] {
      assert a + b == b;
    } else {
      assert (a + b)[0] == a[0];
      assert (a + b)[1..] == a[1..] + b;
      AcceptedEntriesAppend(env, solutionDir, skipped, a[1..], b);
      var head := if Decide(env, solutionDir, skipped, a[0]).Accepted? then [a[0]] else [];
      AppendAssociates(head, AcceptedEntries(env, solutionDir, skipped, a[1..]),
                       AcceptedEntries(env, solutionDir, skipped, b));
    }
  }

  /* ---------------------------------------------------------------------- */
  /* Modules                                                                 */
  /* ---------------------------------------------------------------------- */

  /** The fatal errors of a build. */
  datatype BuildError =
    | SeveralSolutionFiles(directory: string)
    | ModulesPropertySet
    | UnreadableSolution(path: string, reason: string)
    | UnreadableProject(path: string, reason: string)
    | InvalidTestProjectPattern(pattern: string)
    | NoProjectsFound

  /** Everything a build consults: settings, files, the Unicode and regex tables, and the two parsers. */
  datatype Env = Env(
    settings: Settings,
    fs: FileSystem,
    text: Unicode,
    regex: Regex,
    parseSolution: string -> Result<seq<SolutionEntry>, string>,
    parseProject: string -> Result<ParsedProject, string>)

  /** The analysed root project. */
  datatype Root = Root(key: string, baseDir: string, workDir: string)

  /** A module created for one project of the solution. */
  datatype Module = Module(
    key: string,
    name: string,
    baseDir: string,
    workDir: string,
    sources: seq<string>,
    tests: seq<string>,
    properties: map<string, string>)

  const FxCopCsAssemblyKey := "sonar.cs.fxcop.assembly"
  const FxCopVbNetAssemblyKey := "sonar.vbnet.fxcop.assembly"
  const ReSharperSolutionFileKey := "sonar.resharper.solutionFile"
  const ReSharperProjectNameKey := "sonar.resharper.projectName"
  const StyleCopProjectFilePathKey := "sonar.stylecop.projectFilePath"

  /** The module properties the builder derives itself, overriding forwarded ones. */
  const DerivedKeys: set<string> := {FxCopCsAssemblyKey, FxCopVbNetAssemblyKey, ReSharperSolutionFileKey,
                                      ReSharperProjectNameKey, StyleCopProjectFilePathKey}

  /**
   * isTestProject: false when no pattern is set; otherwise whether the pattern
   * matches the whole project name, and an error when it does not compile.
   */
  function IsTestProject(settings: Settings, regex: Regex, projectName: string): (r: Result<bool, BuildError>)
    ensures r == Ok(true) <==>
      TestProjectPatternKey in settings && regex.compiles(settings[TestProjectPatternKey])
      && regex.matches(projectName, settings[TestProjectPatternKey])
    ensures r.Err? <==> TestProjectPatternKey in settings && !regex.compiles(settings[TestProjectPatternKey])
  {
    match GetString(settings, TestProjectPatternKey)
    case None => Ok(false)
    case Some(pattern) =>
      if !regex.compiles(pattern) then Err(InvalidTestProjectPattern(pattern))
      else Ok(regex.matches(projectName, pattern))
  }

  /** isInSourceDir: the canonical path, with '/' separators, lies strictly below the canonical folder. */
  function IsInSourceDir(fs: FileSystem, file: string, folder: string): (b: bool)
    ensures var f, d := fs.canonical(file), fs.canonical(folder);
      b <==> && |d| < |f|
             && (forall i :: 0 <= i < |d| ==> Slash(f[i]) == Slash(d[i]))
             && Slash(f[|d|]) == '/'
  {
    var f, d := Replace(fs.canonical(file), '\\', '/'), Replace(fs.canonical(folder), '\\', '/') + "/";
    assert StartsWith(f, d) ==> forall i :: 0 <= i < |d| ==> f[i] == d[i];
    StartsWith(f, d)
  }

  /** The separator-insensitive view of a character: '\\' reads as '/'. */
  function Slash(c: char): char {
    if c == '\\' then '/' else c
  }

  /** A file named directly under the folder is inside it, whatever the name. */
  lemma ChildIsInSourceDir(fs: FileSystem, folder: string, name: string)
    requires fs.canonical(Child(folder, name)) == Child(fs.canonical(folder), name)
    ensures IsInSourceDir(fs, Child(folder, name), folder)
  {
    var f, d := fs.canonical(Child(folder, name)), fs.canonical(folder);
    assert f[|d|] == '/';
    assert forall i :: 0 <= i < |d| ==> f[i] == d[i];
  }

  /** A folder does not lie inside itself. */
  lemma FolderIsNotInsideItself(fs: FileSystem, folder: string)
    ensures !IsInSourceDir(fs, folder, folder)
  {
  }

  /** A listed file is kept when it exists and lies inside the project directory. */
  predicate IsAdmitted(fs: FileSystem, projectDir: string, filePath: string) {
    var file := RelativePathFile(Some(projectDir), filePath);
    fs.IsFile(file) && IsInSourceDir(fs, file, projectDir)
  }

  /** The files of the project that the module receives, in listing order. */
  function AdmittedFiles(fs: FileSystem, projectDir: string, files: seq<string>): (r: seq<string>)
    ensures |r| <= |files|
    ensures forall f :: f in r ==>
      (exists i :: 0 <= i < |files| && IsAdmitted(fs, projectDir, files[i]) && f == RelativePathFile(Some(projectDir), files[i]))
    ensures forall i :: 0 <= i < |files| && IsAdmitted(fs, projectDir, files[i]) ==>
      RelativePathFile(Some(projectDir), files[i]) in r
  {
    if files == [] then []
    else
      var rest := AdmittedFiles(fs, projectDir, files[1..]);
      AdmittedFilesCons(fs, projectDir, files, rest);
      (if IsAdmitted(fs, projectDir, files[0]) then [RelativePathFile(Some(projectDir), files[0])] else []) + rest
  }

  /** The inductive step of AdmittedFiles: the contract for `files[1..]` extends to `files`. */
  lemma AdmittedFilesCons(fs: FileSystem, projectDir: string, files: seq<string>, rest: seq<string>)
    requires files != []
    requires forall f :: f in rest ==>
      (exists i :: 0 <= i < |files[1..]| && IsAdmitted(fs, projectDir, files[1..][i]) && f == RelativePathFile(Some(projectDir), files[1..][i]))
    requires forall i :: 0 <= i < |files[1..]| && IsAdmitted(fs, projectDir, files[1..][i]) ==>
      RelativePathFile(Some(projectDir), files[1..][i]) in rest
    ensures var r := (if IsAdmitted(fs, projectDir, files[0]) then [RelativePathFile(Some(projectDir), files[0])] else []) + rest;
      && (forall f :: f in r ==>
            (exists i :: 0 <= i < |files| && IsAdmitted(fs, projectDir, files[i]) && f == RelativePathFile(Some(projectDir), files[i])))
      && (forall i :: 0 <= i < |files| && IsAdmitted(fs, projectDir, files[i]) ==>
            RelativePathFile(Some(projectDir), files[i]) in r)
  {
    var r := (if IsAdmitted(fs, projectDir, files[0]) then [RelativePathFile(Some(projectDir), files[0])] else []) + rest;
    forall f | f in r
      ensures exists i :: 0 <= i < |files| && IsAdmitted(fs, projectDir, files[i]) && f == RelativePathFile(Some(projectDir), files[i])
    {
      if f !in rest {
        assert IsAdmitted(fs, projectDir, files[0]) && f == RelativePathFile(Some(projectDir), files[0]);
      } else {
        var i :| 0 <= i < |files[1..]| && IsAdmitted(fs, projectDir, files[1..][i]) && f == RelativePathFile(Some(projectDir), files[1..][i]);
        assert files[i + 1] == files[1..][i];
      }
    }
    forall i | 0 <= i < |files| && IsAdmitted(fs, projectDir, files[i])
      ensures RelativePathFile(Some(projectDir), files[i]) in r
    {
      if i > 0 {
        assert files[i] == files[1..][i - 1];
      }
    }
  }

  /**
   * forwardModuleProperties: the module gets property `k` with value `v` for
   * exactly the settings `escapedName.k` = `v`.
   */
  function ForwardModuleProperties(settings: Settings, escapedName: string): (m: map<string, string>)
    ensures forall k :: k in m <==> escapedName + "." + k in settings
    ensures forall k :: k in m ==> m[k] == settings[escapedName + "." + k]
  {
    var prefix := escapedName + ".";
    var suffixes := set key | key in settings && StartsWith(key, prefix) :: key[|prefix|..];
    assert forall k :: k in suffixes <==> prefix + k in settings by {
      forall k ensures k in suffixes <==> prefix + k in settings {
        if prefix + k in settings {
          assert (prefix + k)[|prefix|..] == k;
        }
        if k in suffixes {
          var key :| key in settings && StartsWith(key, prefix) && k == key[|prefix|..];
          assert key == prefix + k;
        }
      }
    }
    map k | k in suffixes :: settings[prefix + k]
  }

  /**
   * The properties the builder sets itself: the two FxCop assembly paths when
   * an assembly is found, the ReSharper solution file and project name, and
   * the StyleCop project file, all paths made absolute.
   */
  function DerivedProperties(env: Env, projectName: string, projectFile: string, project: ParsedProject,
                             solutionFile: string): (d: map<string, string>)
    ensures d.Keys <= DerivedKeys
    ensures ReSharperSolutionFileKey in d && ReSharperProjectNameKey in d && StyleCopProjectFilePathKey in d
    ensures d[ReSharperSolutionFileKey] == env.fs.absolute(solutionFile)
    ensures d[ReSharperProjectNameKey] == projectName
    ensures d[StyleCopProjectFilePathKey] == env.fs.absolute(projectFile)
    ensures FxCopCsAssemblyKey in d <==> AssemblyLocator.LocateAssembly(env.settings, env.fs, projectFile, project).Some?
    ensures FxCopVbNetAssemblyKey in d <==> AssemblyLocator.LocateAssembly(env.settings, env.fs, projectFile, project).Some?
    ensures FxCopCsAssemblyKey in d ==>
      && d[FxCopCsAssemblyKey] == env.fs.absolute(AssemblyLocator.LocateAssembly(env.settings, env.fs, projectFile, project).value)
      && d[FxCopVbNetAssemblyKey] == d[FxCopCsAssemblyKey]
  {
    var common := map[ReSharperSolutionFileKey := env.fs.absolute(solutionFile),
                      ReSharperProjectNameKey := projectName,
                      StyleCopProjectFilePathKey := env.fs.absolute(projectFile)];
    match AssemblyLocator.LocateAssembly(env.settings, env.fs, projectFile, project)
    case Some(assembly) =>
      common[FxCopCsAssemblyKey := env.fs.absolute(assembly)][FxCopVbNetAssemblyKey := env.fs.absolute(assembly)]
    case None => common
  }

  /**
   * The module's properties: the forwarded settings, overridden by the
   * derived ones. A key the builder does not derive is present exactly when
   * the scoped setting is, with its value.
   */
  function ModuleProperties(env: Env, projectName: string, projectFile: string, project: ParsedProject,
                            solutionFile: string): (m: map<string, string>)
    ensures var prefix := EscapeProjectName(env.text, projectName) + ".";
      var derived := DerivedProperties(env, projectName, projectFile, project, solutionFile);
      forall k :: k !in derived ==>
        && (k in m <==> prefix + k in env.settings)
        && (k in m ==> m[k] == env.settings[prefix + k])
    ensures var derived := DerivedProperties(env, projectName, projectFile, project, solutionFile);
      forall k :: k in derived ==> k in m && m[k] == derived[k]
  {
    ForwardModuleProperties(env.settings, EscapeProjectName(env.text, projectName))
      + DerivedProperties(env, projectName, projectFile, project, solutionFile)
  }

  /**
   * buildModule: the module of one accepted project. Its files all go to the
   * tests when the project is a test project and all to the sources otherwise;
   * the only failure is a test-project pattern that does not compile.
   */
  function BuildModule(env: Env, root: Root, solutionFile: string, projectName: string, projectFile: string,
                       project: ParsedProject): (r: Result<Module, BuildError>)
    requires '/' in projectFile
    ensures r.Err? <==> IsTestProject(env.settings, env.regex, projectName).Err?
    ensures r.Ok? ==>
      && r.value.name == projectName
      && r.value.key == ModuleKey(env.settings, env.text, root.key, projectName)
      && r.value.baseDir == Parent(projectFile).value
      && r.value.workDir == Child(root.workDir, WorkDirName(root.key, EscapeProjectName(env.text, projectName)))
      && r.value.properties == ModuleProperties(env, projectName, projectFile, project, solutionFile)
    ensures r.Ok? ==> r.value.sources == [] || r.value.tests == []
    ensures r.Ok? && r.value.tests != [] ==> IsTestProject(env.settings, env.regex, projectName) == Ok(true)
    ensures r.Ok? && r.value.sources != [] ==> IsTestProject(env.settings, env.regex, projectName) == Ok(false)
    ensures r.Ok? ==> forall i :: 0 <= i < |project.files| ==>
      (RelativePathFile(Parent(projectFile), project.files[i]) in r.value.sources + r.value.tests
         <== IsAdmitted(env.fs, Parent(projectFile).value, project.files[i]))
    ensures r.Ok? ==> forall f :: f in r.value.sources + r.value.tests ==>
      exists i :: 0 <= i < |project.files| && IsAdmitted(env.fs, Parent(projectFile).value, project.files[i])
        && f == RelativePathFile(Parent(projectFile), project.files[i])
  {
    var escapedName := EscapeProjectName(env.text, projectName);
    var projectDir := Parent(projectFile).value;
    var isTest :- IsTestProject(env.settings, env.regex, projectName);
    var files := AdmittedFiles(env.fs, projectDir, project.files);
    assert (if isTest then [] else files) + (if isTest then files else []) == files;
    Ok(Module(
      key := ProjectKey(env.settings, root.key) + ":" + escapedName,
      name := projectName,
      baseDir := projectDir,
      workDir := Child(root.workDir, WorkDirName(root.key, escapedName)),
      sources := if isTest then [] else files,
      tests := if isTest then files else [],
      properties := ModuleProperties(env, projectName, projectFile, project, solutionFile)))
  }

  /** Parsing the project file of an accepted entry, then building its module. */
  function EntryModule(env: Env, root: Root, solutionFile: string, solutionDir: string, entry: SolutionEntry): (r: Result<Module, BuildError>)
    ensures var projectFile := RelativePathFile(Some(solutionDir), entry.path);
      && (env.parseProject(projectFile).Err? ==> r == Err(UnreadableProject(projectFile, env.parseProject(projectFile).error)))
      && (env.parseProject(projectFile).Ok? ==> (r.Err? <==> IsTestProject(env.settings, env.regex, entry.name).Err?))
    ensures r.Ok? ==> r.value.name == entry.name && r.value.key == ModuleKey(env.settings, env.text, root.key, entry.name)
  {
    var projectFile := RelativePathFile(Some(solutionDir), entry.path);
    assert projectFile[|solutionDir|] == '/';
    match env.parseProject(projectFile)
    case Err(reason) => Err(UnreadableProject(projectFile, reason))
    case Ok(project) => BuildModule(env, root, solutionFile, entry.name, projectFile, project)
  }

  /**
   * Collects results in order, stopping at the first failure: it succeeds
   * exactly when every result is a success, the i-th value is the i-th
   * result's, and a failure is the first failing result's.
   */
  function CollectResults<U, E(==)>(rs: seq<Result<U, E>>): (r: Result<seq<U>, E>)
    ensures r.Ok? <==> forall i :: 0 <= i < |rs| ==> rs[i].Ok?
    ensures r.Ok? ==> |r.value| == |rs| && forall i :: 0 <= i < |rs| ==> r.value[i] == rs[i].value
    ensures r.Err? ==>
      exists i :: && 0 <= i < |rs| && rs[i] == Err(r.error)
                  && forall j :: 0 <= j < i ==> rs[j].Ok?
  {
    if rs == [] then Ok([])
    else
      match rs[0]
      case Err(e) => Err(e)
      case Ok(head) =>
        var rest := CollectResults(rs[1..]);
        assert forall i :: 1 <= i < |rs| ==> rs[i] == rs[1..][i - 1];
        match rest
        case Err(e) =>
          var i :| && 0 <= i < |rs[1..]| && rs[1..][i] == Err(e)
                   && forall j :: 0 <= j < i ==> rs[1..][j].Ok?;
          assert rs[i + 1] == Err(e);
          Err(e)
        case Ok(tail) =>
          var r := [head] + tail;
          assert forall i :: 1 <= i < |r| ==> r[i] == tail[i - 1];
          Ok(r)
  }

  /** The result of building each of the given entries, in order. */
  function EntryResults(env: Env, root: Root, solutionFile: string, solutionDir: string,
                        accepted: seq<SolutionEntry>): (rs: seq<Result<Module, BuildError>>)
    ensures |rs| == |accepted|
    ensures forall i :: 0 <= i < |accepted| ==> rs[i] == EntryModule(env, root, solutionFile, solutionDir, accepted[i])
  {
    if accepted == [] then []
    else
      var rest := EntryResults(env, root, solutionFile, solutionDir, accepted[1..]);
      [EntryModule(env, root, solutionFile, solutionDir, accepted[0])] + rest
  }

  /** When building the entries fails, the error is that of the first entry that fails. */
  lemma FirstFailingEntry(env: Env, root: Root, solutionFile: string, solutionDir: string, accepted: seq<SolutionEntry>)
    ensures var r := CollectResults(EntryResults(env, root, solutionFile, solutionDir, accepted));
      r.Err? ==> exists i ::
        && 0 <= i < |accepted|
        && EntryModule(env, root, solutionFile, solutionDir, accepted[i]) == Err(r.error)
        && forall j :: 0 <= j < i ==> EntryModule(env, root, solutionFile, solutionDir, accepted[j]).Ok?
  {
    var results := EntryResults(env, root, solutionFile, solutionDir, accepted);
    var r := CollectResults(results);
    if r.Err? {
      var i :| && 0 <= i < |results| && results[i] == Err(r.error)
               && forall j :: 0 <= j < i ==> results[j].Ok?;
      assert forall j :: 0 <= j <= i ==> results[j] == EntryModule(env, root, solutionFile, solutionDir, accepted[j]);
    }
  }

  /**
   * The build loop over the solution's entries: skipped entries contribute
   * nothing, each accepted entry contributes its module in solution order, and
   * the first accepted entry that fails aborts the loop. Skipping never fails,
   * so this is building each accepted entry in order.
   */
  function BuildEntries(env: Env, root: Root, solutionFile: string, solutionDir: string, skipped: set<string>,
                        entries: seq<SolutionEntry>): (r: Result<seq<Module>, BuildError>)
    ensures var accepted := AcceptedEntries(env, solutionDir, skipped, entries);
      && (r.Ok? <==> forall i :: 0 <= i < |accepted| ==> EntryModule(env, root, solutionFile, solutionDir, accepted[i]).Ok?)
      && (r.Ok? ==> && |r.value| == |accepted|
                    && forall i :: 0 <= i < |accepted| ==>
                         r.value[i] == EntryModule(env, root, solutionFile, solutionDir, accepted[i]).value)
      && (r.Err? ==> exists i ::
            && 0 <= i < |accepted|
            && EntryModule(env, root, solutionFile, solutionDir, accepted[i]) == Err(r.error)
            && forall j :: 0 <= j < i ==> EntryModule(env, root, solutionFile, solutionDir, accepted[j]).Ok?)
  {
    var accepted := AcceptedEntries(env, solutionDir, skipped, entries);
    FirstFailingEntry(env, root, solutionFile, solutionDir, accepted);
    CollectResults(EntryResults(env, root, solutionFile, solutionDir, accepted))
  }

  /* ---------------------------------------------------------------------- */
  /* The build                                                               */
  /* ---------------------------------------------------------------------- */

  /**
   * getSolutionFile: a non-empty explicit path is taken relative to the base
   * directory; otherwise the single ".sln" file of the base directory, none
   * when there is no such file, and an error when there are several.
   */
  function GetSolutionFile(settings: Settings, fs: FileSystem, baseDir: string): (r: Result<Option<string>, BuildError>)
    ensures SolutionKey in settings && settings[SolutionKey] != "" ==>
      r == Ok(Some(Child(baseDir, settings[SolutionKey])))
    ensures (SolutionKey !in settings || settings[SolutionKey] == "") ==>
      && (|fs.solutionFilesIn(baseDir)| == 0 <==> r == Ok(None))
      && (|fs.solutionFilesIn(baseDir)| == 1 ==> r == Ok(Some(Child(baseDir, fs.solutionFilesIn(baseDir)[0]))))
      && (r.Ok? && r.value.Some? ==> |fs.solutionFilesIn(baseDir)| == 1)
      && (|fs.solutionFilesIn(baseDir)| > 1 <==> r == Err(SeveralSolutionFiles(baseDir)))
    ensures r.Ok? && r.value.Some? ==> '/' in r.value.value
  {
    var explicit := GetString(settings, SolutionKey).GetOr("");
    if explicit != "" then
      assert Child(baseDir, explicit)[|baseDir|] == '/';
      Ok(Some(Child(baseDir, explicit)))
    else
      var names := fs.solutionFilesIn(baseDir);
      if |names| == 0 then Ok(None)
      else if |names| == 1 then
        assert Child(baseDir, names[0])[|baseDir|] == '/';
        Ok(Some(Child(baseDir, names[0])))
      else Err(SeveralSolutionFiles(baseDir))
  }

  /** How a build ends when it does not fail. */
  datatype Outcome =
    | NotEnabled
    | NoSolutionFile
    | Built(solutionFile: string, modules: seq<Module>)

  /**
   * build: nothing unless enabled; nothing when no solution file is found;
   * an error when "sonar.modules" is also set; otherwise one module per
   * accepted entry, and an error when no entry is accepted.
   */
  function Build(env: Env, root: Root): (r: Result<Outcome, BuildError>)
    ensures !GetBoolean(env.settings, EnableKey) ==> r == Ok(NotEnabled)
    ensures GetBoolean(env.settings, EnableKey) ==> r != Ok(NotEnabled)
    ensures GetBoolean(env.settings, EnableKey) && GetSolutionFile(env.settings, env.fs, root.baseDir).Err? ==>
      r == GetSolutionFile(env.settings, env.fs, root.baseDir).PropagateFailure()
    ensures r == Ok(NoSolutionFile) <==>
      GetBoolean(env.settings, EnableKey) && GetSolutionFile(env.settings, env.fs, root.baseDir) == Ok(None)
    ensures (&& GetBoolean(env.settings, EnableKey)
             && GetSolutionFile(env.settings, env.fs, root.baseDir).Ok?
             && GetSolutionFile(env.settings, env.fs, root.baseDir).value.Some?
             && ModulesKey in env.settings) ==>
      r == Err(ModulesPropertySet)
    ensures (&& GetBoolean(env.settings, EnableKey)
             && GetSolutionFile(env.settings, env.fs, root.baseDir).Ok?
             && GetSolutionFile(env.settings, env.fs, root.baseDir).value.Some?
             && ModulesKey !in env.settings) ==>
      var solutionFile := GetSolutionFile(env.settings, env.fs, root.baseDir).value.value;
      env.parseSolution(solutionFile).Err? ==>
        r == Err(UnreadableSolution(solutionFile, env.parseSolution(solutionFile).error))
    ensures r.Ok? && r.value.Built? ==>
      && ModulesKey !in env.settings
      && GetSolutionFile(env.settings, env.fs, root.baseDir) == Ok(Some(r.value.solutionFile))
      && r.value.modules != []
  {
    if !GetBoolean(env.settings, EnableKey) then Ok(NotEnabled)
    else
      var found :- GetSolutionFile(env.settings, env.fs, root.baseDir);
      match found
      case None => Ok(NoSolutionFile)
      case Some(solutionFile) =>
        if ModulesKey in env.settings then Err(ModulesPropertySet)
        else
          var skipped := SkippedProjects(env.settings);
          match env.parseSolution(solutionFile)
          case Err(reason) => Err(UnreadableSolution(solutionFile, reason))
          case Ok(entries) =>
            var solutionDir := Parent(solutionFile).value;
            var modules :- BuildEntries(env, root, solutionFile, solutionDir, skipped, entries);
            var hasModules := AcceptedEntries(env, solutionDir, skipped, entries) != [];
            if !hasModules then Err(NoProjectsFound) else Ok(Built(solutionFile, modules))
  }

  /**
   * Once the solution file is found and parsed: no accepted entry is an
   * error; otherwise the build yields the accepted entries' modules in
   * solution order when all of them build, and fails when one does not.
   */
  lemma BuildOfParsedSolution(env: Env, root: Root, solutionFile: string, entries: seq<SolutionEntry>)
    requires GetBoolean(env.settings, EnableKey)
    requires GetSolutionFile(env.settings, env.fs, root.baseDir) == Ok(Some(solutionFile))
    requires ModulesKey !in env.settings
    requires env.parseSolution(solutionFile) == Ok(entries)
    ensures var dir := Parent(solutionFile).value;
      var accepted := AcceptedEntries(env, dir, SkippedProjects(env.settings), entries);
      var r := Build(env, root);
      && (accepted == [] ==> r == Err(NoProjectsFound))
      && ((exists i :: 0 <= i < |accepted| && EntryModule(env, root, solutionFile, dir, accepted[i]).Err?) ==> r.Err?)
      && ((accepted != [] && forall i :: 0 <= i < |accepted| ==> EntryModule(env, root, solutionFile, dir, accepted[i]).Ok?)
            ==> && r.Ok? && r.value.Built? && r.value.solutionFile == solutionFile
                && |r.value.modules| == |accepted|
                && forall i :: 0 <= i < |accepted| ==>
                     r.value.modules[i] == EntryModule(env, root, solutionFile, dir, accepted[i]).value)
  {
    BuildOfEntries(env, root, solutionFile, entries);
    BuildFailsWithAnEntry(env, root, solutionFile, entries);
    BuildYieldsEntryModules(env, root, solutionFile, entries);
  }

  /** One accepted entry that fails to build fails the whole build. */
  lemma BuildFailsWithAnEntry(env: Env, root: Root, solutionFile: string, entries: seq<SolutionEntry>)
    requires GetBoolean(env.settings, EnableKey)
    requires GetSolutionFile(env.settings, env.fs, root.baseDir) == Ok(Some(solutionFile))
    requires ModulesKey !in env.settings
    requires env.parseSolution(solutionFile) == Ok(entries)
    ensures var dir := Parent(solutionFile).value;
      var accepted := AcceptedEntries(env, dir, SkippedProjects(env.settings), entries);
      (exists i :: 0 <= i < |accepted| && EntryModule(env, root, solutionFile, dir, accepted[i]).Err?) ==> Build(env, root).Err?
  {
    BuildOfEntries(env, root, solutionFile, entries);
  }

  /** When every accepted entry builds and there is one, the modules are theirs, in solution order. */
  lemma BuildYieldsEntryModules(env: Env, root: Root, solutionFile: string, entries: seq<SolutionEntry>)
    requires GetBoolean(env.settings, EnableKey)
    requires GetSolutionFile(env.settings, env.fs, root.baseDir) == Ok(Some(solutionFile))
    requires ModulesKey !in env.settings
    requires env.parseSolution(solutionFile) == Ok(entries)
    ensures var dir := Parent(solutionFile).value;
      var accepted := AcceptedEntries(env, dir, SkippedProjects(env.settings), entries);
      var r := Build(env, root);
      (accepted != [] && forall i :: 0 <= i < |accepted| ==> EntryModule(env, root, solutionFile, dir, accepted[i]).Ok?)
        ==> && r.Ok? && r.value.Built? && r.value.solutionFile == solutionFile
            && |r.value.modules| == |accepted|
            && forall i :: 0 <= i < |accepted| ==>
                 r.value.modules[i] == EntryModule(env, root, solutionFile, dir, accepted[i]).value
  {
    BuildOfEntries(env, root, solutionFile, entries);
  }

  /** Past the checks, the build is the entry loop followed by the check that some entry was accepted. */
  lemma BuildOfEntries(env: Env, root: Root, solutionFile: string, entries: seq<SolutionEntry>)
    requires GetBoolean(env.settings, EnableKey)
    requires GetSolutionFile(env.settings, env.fs, root.baseDir) == Ok(Some(solutionFile))
    requires ModulesKey !in env.settings
    requires env.parseSolution(solutionFile) == Ok(entries)
    ensures var dir := Parent(solutionFile).value;
      var skipped := SkippedProjects(env.settings);
      var built := BuildEntries(env, root, solutionFile, dir, skipped, entries);
      Build(env, root) == if built.Err? then Err(built.error)
                          else if AcceptedEntries(env, dir, skipped, entries) == [] then Err(NoProjectsFound)
                          else Ok(Built(solutionFile, built.value))
  {
  }

  /**
   * When decomposition leaves escaped names alone and '_' is not a mark, the
   * doubly escaped name the skip check consults is just the escaped name: a
   * supported project is skipped exactly when its escaped name is listed.
   */
  lemma SkipListMatchesEscapedName(env: Env, solutionDir: string, skipped: set<string>, entry: SolutionEntry)
    requires !env.text.isMark('_')
    requires env.text.decompose(EscapeProjectName(env.text, entry.name)) == EscapeProjectName(env.text, entry.name)
    requires IsSupportedProjectType(entry)
    ensures Decide(env, solutionDir, skipped, entry) == SkipListed <==> EscapeProjectName(env.text, entry.name) in skipped
  {
    EscapeTwice(env.text, entry.name);
  }
}
