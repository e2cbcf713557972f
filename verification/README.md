# Visual Studio bootstrapper for SonarQube, modelled in Dafny

The plugin lets SonarQube analyse a .NET code base without a hand-written
multi-module configuration. From the analysed root project it finds the Visual
Studio solution file. For every supported C# or VB.NET project listed there, it
creates one module. Each module gets:

- a key and a work directory derived from the project's escaped name;
- the project's source files, as sources or as tests;
- the settings scoped to the project;
- the paths that the FxCop, ReSharper and StyleCop analysers look up.

To give FxCop the compiled assembly, it either takes the configured
output-path override or, among the output directories the project declares,
picks the existing assembly that was modified most recently.

The model is split into modules that follow the program:

- `Wrappers`: `Option` and `Result`.
- `Strings`: the `java.lang.String` and Guava operations the code uses, each
  with its characterisation. This includes `Split`, Guava's `omitEmptyStrings`
  splitter, and its inverse `JoinWith`.
- `Environment`: the analysis settings and the file system as records. Path
  arithmetic of `java.io.File` over '/'-separated strings. Unicode
  decomposition and regular expressions as function-valued parameters.
- `Projects`: the `VisualStudioProject` record and the solution entries.
- `AssemblyLocator`: `VisualStudioAssemblyLocator`.
- `ProjectBuilder`: `VisualStudioProjectBuilder`.

Every operation is a pure function. A Java `null` return is `None`. An
exception the builder lets escape is an `Err` of `BuildError`. The whole build
is `ProjectBuilder.Build`, and it yields the modules it would add to the root
project.

Two properties of the code are worth knowing.

- The skip list is looked up with the project name escaped twice. The lemma
  `EscapeTwice` shows that the second escape changes nothing as long as
  decomposition leaves an escaped name alone.
- Escaping is not injective. `SpaceAndUnderscoreShareAKey` exhibits two
  project names that get the same module key: "a b" and "a_b".

All paths in the table below are relative to the repository root.

## Model

| member | source | states |
|---|---|---|
| AssemblyLocator.Extension | src/main/java/org/sonar/plugins/visualstudio/VisualStudioAssemblyLocator.java:71-85 | "Library" maps to "dll". "Exe" and "WinExe" map to "exe". Every other output type has no extension. Both directions of each case are stated. |
| AssemblyLocator.MatchesBuildConfigurationAndPlatform | src/main/java/org/sonar/plugins/visualstudio/VisualStudioAssemblyLocator.java:110-122 | When build configuration and platform are both set, a property-group condition passes exactly when each occurs in it as a substring. When either is unset, every condition passes. |
| AssemblyLocator.AssemblyFileName | src/main/java/org/sonar/plugins/visualstudio/VisualStudioAssemblyLocator.java:48-57 | An assembly file name exists exactly when the output type and the assembly name are present and the output type has an extension. It is then the assembly name, a dot, and that extension. |
| AssemblyLocator.CandidatesFrom | src/main/java/org/sonar/plugins/visualstudio/VisualStudioAssemblyLocator.java:95-108 | Every candidate comes from an output path that passes the filter and whose assembly file exists. It carries that path's index and the file's modification time. Candidates appear in strictly increasing index order. |
| AssemblyLocator.CandidatesComplete | src/main/java/org/sonar/plugins/visualstudio/VisualStudioAssemblyLocator.java:95-107 | Every qualifying output path produces a candidate, so no existing matching assembly is overlooked. |
| AssemblyLocator.Compare | src/main/java/org/sonar/plugins/visualstudio/VisualStudioAssemblyLocator.java:124-137 | The comparator returns 0 for equal modification times, -1 when the first file is newer, and 1 when it is older. |
| AssemblyLocator.InsertPermutes | src/main/java/org/sonar/plugins/visualstudio/VisualStudioAssemblyLocator.java:64 | One insertion step of the sort adds exactly the inserted candidate to the multiset. |
| AssemblyLocator.InsertSorted | src/main/java/org/sonar/plugins/visualstudio/VisualStudioAssemblyLocator.java:64 | Inserting into a newest-first sequence keeps it newest first. |
| AssemblyLocator.Sort | src/main/java/org/sonar/plugins/visualstudio/VisualStudioAssemblyLocator.java:64 | The sort returns the candidates reordered newest first: the result is sorted and has the same multiset of candidates. |
| AssemblyLocator.FirstNewest | src/main/java/org/sonar/plugins/visualstudio/VisualStudioAssemblyLocator.java:64-66 | This independent reference picks a position holding the latest modification time. Every earlier position is strictly older. |
| AssemblyLocator.SortHeadIsFirstNewest | src/main/java/org/sonar/plugins/visualstudio/VisualStudioAssemblyLocator.java:64-66 | The first element after the stable sort is the reference's pick: the earliest-listed of the newest candidates. |
| AssemblyLocator.FirstNewestIsNewestQualifying | src/main/java/org/sonar/plugins/visualstudio/VisualStudioAssemblyLocator.java:58-66 | The reference's pick comes from a qualifying output path. No qualifying path is newer, and every qualifying path declared before it is strictly older. |
| AssemblyLocator.Discover | src/main/java/org/sonar/plugins/visualstudio/VisualStudioAssemblyLocator.java:58-66 | Without the override, the result is null exactly when no output path qualifies. Otherwise it is the assembly path of the newest qualifying output path, the first declared on a tie. |
| AssemblyLocator.OverridePathShape | src/main/java/org/sonar/plugins/visualstudio/VisualStudioAssemblyLocator.java:90 | The override file is the configured directory with each backslash turned into a slash and every other character kept, then '/', then "assemblyName.extension". |
| AssemblyLocator.CandidatePathShape | src/main/java/org/sonar/plugins/visualstudio/VisualStudioAssemblyLocator.java:101 | A candidate is the project file's parent directory and '/' (nothing when there is no parent), then the output path with each backslash turned into a slash, then '/' and "assemblyName.extension". |
| AssemblyLocator.LocateAssembly | src/main/java/org/sonar/plugins/visualstudio/VisualStudioAssemblyLocator.java:47-67 | The result is null for a missing output type, a missing assembly name, no output paths, or an unsupported output type; conditions are not needed for these. With the output-path setting present, the result is that directory's assembly, whether or not it exists. Without it, the result is null exactly when nothing qualifies; otherwise it is the newest qualifying assembly, the first declared on a tie. A found file is always named after the assembly. |
| AssemblyLocator.UnsupportedExtensionExample | src/test/java/org/sonar/plugins/visualstudio/VisualStudioAssemblyLocatorTest.java:125-133 | A "Database" project named "foo" with one output path and no conditions yields null. |
| AssemblyLocator.UniqueNewestWins | src/main/java/org/sonar/plugins/visualstudio/VisualStudioAssemblyLocator.java:58-66 | A qualifying output path whose assembly is strictly newer than every other qualifying one is the one found. |
| AssemblyLocator.LocateAssemblyIgnoresOrder | src/main/java/org/sonar/plugins/visualstudio/VisualStudioAssemblyLocator.java:58-66 | When distinct qualifying assemblies have distinct modification times, listing the output paths with their conditions in any other order finds the same file. |
| AssemblyLocator.ReorderedFindsNothing | src/main/java/org/sonar/plugins/visualstudio/VisualStudioAssemblyLocator.java:58-66 | When no output path of a project yields an assembly, no output path of any reordering does either. |
| AssemblyLocator.ReorderedFindsTheSame | src/main/java/org/sonar/plugins/visualstudio/VisualStudioAssemblyLocator.java:58-66 | When a project yields an assembly and distinct qualifying assemblies have distinct times, a reordering yields the same file. |
| AssemblyLocator.NewerAssemblyWinsInEitherOrder | src/test/java/org/sonar/plugins/visualstudio/VisualStudioAssemblyLocatorTest.java:79-89 | With two qualifying output paths modified at different times, the newer assembly is chosen. Declaring the two paths in the opposite order chooses the same file. |
| AssemblyLocator.NewerAssemblyWins | src/test/java/org/sonar/plugins/visualstudio/VisualStudioAssemblyLocatorTest.java:79-89 | With two qualifying output paths modified at different times, the file found is the newer one. |
| AssemblyLocator.SwappedPairAgrees | src/test/java/org/sonar/plugins/visualstudio/VisualStudioAssemblyLocatorTest.java:79-89 | With two qualifying output paths modified at different times, exchanging the two paths together with their conditions finds the same file. |
| AssemblyLocator.EqualTimesKeepFirstListed | src/main/java/org/sonar/plugins/visualstudio/VisualStudioAssemblyLocator.java:64-66 | When two qualifying assemblies were modified at the same time, the stable sort keeps the one whose output path is declared first. |
| Projects.Accessors | src/main/java/org/sonar/plugins/visualstudio/VisualStudioProject.java:37-60 | Each accessor returns exactly the constructor argument, an absent output type or assembly name included. |
| ProjectBuilder.StripMarks | src/main/java/org/sonar/plugins/visualstudio/VisualStudioProjectBuilder.java:237 | After removing the combining marks, no character of the result is a mark. |
| ProjectBuilder.EscapeProjectName | src/main/java/org/sonar/plugins/visualstudio/VisualStudioProjectBuilder.java:234-240 | An escaped name never holds a space. It holds no combining mark provided '_' is not one. |
| ProjectBuilder.EscapeIsPerCharacter | src/main/java/org/sonar/plugins/visualstudio/VisualStudioProjectBuilder.java:234-240 | The escaped name is the per-character image of the decomposed name laid end to end: a mark disappears, a space becomes '_', and every other character is kept in order. |
| ProjectBuilder.EscapeUmlautExample | src/main/java/org/sonar/plugins/visualstudio/VisualStudioProjectBuilder.java:234-240 | "über" escapes to "uber" once ü decomposes into u and a combining diaeresis. |
| ProjectBuilder.EscapeAcuteExample | src/main/java/org/sonar/plugins/visualstudio/VisualStudioProjectBuilder.java:234-240 | "héhé" escapes to "hehe" once é decomposes into e and a combining acute accent. |
| ProjectBuilder.EscapeSpaceExample | src/main/java/org/sonar/plugins/visualstudio/VisualStudioProjectBuilder.java:238 | "foo bar" escapes to "foo_bar". |
| ProjectBuilder.EscapeTwice | src/main/java/org/sonar/plugins/visualstudio/VisualStudioProjectBuilder.java:96 | Escaping an escaped name changes nothing when decomposition leaves that name alone and '_' is not a mark. |
| ProjectBuilder.SkipListMatchesEscapedName | src/main/java/org/sonar/plugins/visualstudio/VisualStudioProjectBuilder.java:94-97 | Under those conditions, a supported project is skipped exactly when its singly escaped name is listed. |
| ProjectBuilder.ProjectKey | src/main/java/org/sonar/plugins/visualstudio/VisualStudioProjectBuilder.java:214-232 | The "unsafe" strategy with a ':' in the root key gives the prefix before the first ':'. Otherwise the root key is returned unchanged. |
| ProjectBuilder.ModuleKey | src/main/java/org/sonar/plugins/visualstudio/VisualStudioProjectBuilder.java:123 | A module key is the project key, then ':', then the escaped name. Without the "unsafe" strategy it starts with the whole root key. With it, the first ':' of the key sits right after the project key. |
| ProjectBuilder.ModuleKeysCollideIffEscapedNamesEqual | src/main/java/org/sonar/plugins/visualstudio/VisualStudioProjectBuilder.java:120-123 | Two projects of one root share a module key exactly when their escaped names are equal. |
| ProjectBuilder.WorkDirName | src/main/java/org/sonar/plugins/visualstudio/VisualStudioProjectBuilder.java:128 | The work directory name is the root key with each ':' turned into '_' and every other character kept, then '_', then the escaped name. |
| ProjectBuilder.DistinctEscapedNamesDoNotCollide | src/main/java/org/sonar/plugins/visualstudio/VisualStudioProjectBuilder.java:123-128 | Within one root, different escaped names never share a module key or a work directory. |
| ProjectBuilder.SpaceAndUnderscoreShareAKey | src/main/java/org/sonar/plugins/visualstudio/VisualStudioProjectBuilder.java:120-123 | The projects "a b" and "a_b" receive the same module key. |
| ProjectBuilder.ModuleKeyExample | src/test/java/org/sonar/plugins/visualstudio/VisualStudioProjectBuilderTest.java:76 | The project "MyLibrary" under the root "solution:key" gets the key "solution:key:MyLibrary". |
| ProjectBuilder.WorkDirNameExample | src/test/java/org/sonar/plugins/visualstudio/VisualStudioProjectBuilderTest.java:86 | Its work directory is named "solution_key_MyLibrary". |
| ProjectBuilder.SupportedProjectTypes | src/main/java/org/sonar/plugins/visualstudio/VisualStudioProjectBuilder.java:112-116 | A project type is supported exactly when the last seven characters of its path, lower-cased, are ".csproj" or ".vbproj". |
| Strings.Split | src/main/java/org/sonar/plugins/visualstudio/VisualStudioProjectBuilder.java:255 | Every piece is non-empty and free of the separator. The pieces laid end to end are the input with its separators removed. |
| Strings.SplitAppend | src/main/java/org/sonar/plugins/visualstudio/VisualStudioProjectBuilder.java:255 | A separator between two strings splits them: the pieces of a + sep + b are the pieces of a followed by those of b, so empty pieces at either end or between doubled separators are dropped. |
| ProjectBuilder.SkipListNames | src/main/java/org/sonar/plugins/visualstudio/VisualStudioProjectBuilder.java:255 | Every listed name is non-empty and free of ','. |
| ProjectBuilder.SkipListNamesAppend | src/main/java/org/sonar/plugins/visualstudio/VisualStudioProjectBuilder.java:255 | The names of a + "," + b are exactly the names of a together with those of b. |
| ProjectBuilder.SkipListNamesSingle | src/main/java/org/sonar/plugins/visualstudio/VisualStudioProjectBuilder.java:255 | A value without a comma lists itself, or nothing when it is empty. |
| ProjectBuilder.TrailingCommaExample | src/main/java/org/sonar/plugins/visualstudio/VisualStudioProjectBuilder.java:255 | "A,B," lists exactly "A" and "B". |
| ProjectBuilder.SkippedProjects | src/main/java/org/sonar/plugins/visualstudio/VisualStudioProjectBuilder.java:252-256 | Nothing is skipped when the setting is absent. Otherwise the skipped names are those the setting's value lists. |
| ProjectBuilder.SkippedProjectsListed | src/main/java/org/sonar/plugins/visualstudio/VisualStudioProjectBuilder.java:252-256 | Setting the names joined by ',' skips exactly those names. |
| ProjectBuilder.Decide | src/main/java/org/sonar/plugins/visualstudio/VisualStudioProjectBuilder.java:91-106 | An entry reaches module building exactly when its project type is supported, its doubly escaped name is not listed, and its project file exists beside the solution. |
| ProjectBuilder.AcceptedEntries | src/main/java/org/sonar/plugins/visualstudio/VisualStudioProjectBuilder.java:91-106 | The accepted entries are exactly the solution entries for which the checks pass. |
| ProjectBuilder.AcceptedEntriesSingle | src/main/java/org/sonar/plugins/visualstudio/VisualStudioProjectBuilder.java:91-106 | A single entry is kept exactly when it is accepted. |
| ProjectBuilder.AcceptedEntriesAppend | src/main/java/org/sonar/plugins/visualstudio/VisualStudioProjectBuilder.java:91-106 | The accepted entries of a + b are those of a followed by those of b, so filtering keeps the solution's order. |
| ProjectBuilder.IsTestProject | src/main/java/org/sonar/plugins/visualstudio/VisualStudioProjectBuilder.java:242-250 | The result is true exactly when a pattern is set, compiles and matches the whole name. The result is an error exactly when the pattern does not compile. |
| ProjectBuilder.IsInSourceDir | src/main/java/org/sonar/plugins/visualstudio/VisualStudioProjectBuilder.java:180-186 | A file is in the folder exactly when its canonical path is longer than the folder's, agrees with it character by character with '\\' read as '/', and has a separator right after it. |
| ProjectBuilder.ChildIsInSourceDir | src/main/java/org/sonar/plugins/visualstudio/VisualStudioProjectBuilder.java:180-186 | A file named directly under the folder is inside it when canonicalisation keeps that shape. |
| ProjectBuilder.FolderIsNotInsideItself | src/main/java/org/sonar/plugins/visualstudio/VisualStudioProjectBuilder.java:180-186 | No folder lies inside itself. |
| ProjectBuilder.AdmittedFiles | src/main/java/org/sonar/plugins/visualstudio/VisualStudioProjectBuilder.java:132-145 | The module's files are exactly the listed files that exist and lie inside the project directory, resolved against it. |
| ProjectBuilder.ForwardModuleProperties | src/main/java/org/sonar/plugins/visualstudio/VisualStudioProjectBuilder.java:153-159 | The module has property k with value v exactly when the settings hold "escapedName.k" = v. |
| ProjectBuilder.DerivedProperties | src/main/java/org/sonar/plugins/visualstudio/VisualStudioProjectBuilder.java:161-178 | Both FxCop assembly keys are set exactly when an assembly is found, to its absolute path. The ReSharper solution file and project name and the StyleCop project file are always set. |
| ProjectBuilder.ModuleProperties | src/main/java/org/sonar/plugins/visualstudio/VisualStudioProjectBuilder.java:147-150 | Every derived property is set to its derived value, overriding a forwarded one. Every key that is not derived for this module, including an FxCop key when no assembly is found, is forwarded unchanged. |
| ProjectBuilder.BuildModule | src/main/java/org/sonar/plugins/visualstudio/VisualStudioProjectBuilder.java:118-151 | The only failure is an invalid test pattern. A module gets its key, name, base directory, work directory and properties as above. All admitted files go to the tests of a test project and to the sources otherwise, and no other file is added. |
| ProjectBuilder.EntryModule | src/main/java/org/sonar/plugins/visualstudio/VisualStudioProjectBuilder.java:99-104 | An unreadable project file is an error naming the file. Otherwise the entry builds exactly when its test pattern is valid. |
| Environment.RelativePathFile | src/main/java/org/sonar/plugins/visualstudio/VisualStudioProjectBuilder.java:210-212 | The project file is the solution directory and '/', then the relative path with each backslash turned into a slash and every other character kept. |
| Environment.ParentOfRelativePathFile | src/main/java/org/sonar/plugins/visualstudio/VisualStudioProjectBuilder.java:127 | A project listed by a bare file name has the solution directory as its base directory. |
| ProjectBuilder.CollectResults | src/main/java/org/sonar/plugins/visualstudio/VisualStudioProjectBuilder.java:91-107 | Collecting per-entry results succeeds exactly when every result succeeds, and then keeps the values in order. Its failure is the first failing result, and every result before it succeeded. |
| ProjectBuilder.EntryResults | src/main/java/org/sonar/plugins/visualstudio/VisualStudioProjectBuilder.java:99-104 | One result per accepted entry, in order. The i-th result is what building the i-th entry gives. |
| ProjectBuilder.FirstFailingEntry | src/main/java/org/sonar/plugins/visualstudio/VisualStudioProjectBuilder.java:91-107 | When building the entries fails, some entry fails with exactly that error, and every entry before it builds. |
| ProjectBuilder.BuildEntries | src/main/java/org/sonar/plugins/visualstudio/VisualStudioProjectBuilder.java:91-107 | The loop succeeds exactly when every accepted entry builds. The i-th module then belongs to the i-th accepted entry. On failure, the error is that of the first accepted entry that fails. |
| ProjectBuilder.GetSolutionFile | src/main/java/org/sonar/plugins/visualstudio/VisualStudioProjectBuilder.java:188-208 | A non-empty explicit path is resolved under the base directory. Otherwise 0, 1 or several ".sln" files give none, that file, or an error. |
| ProjectBuilder.Build | src/main/java/org/sonar/plugins/visualstudio/VisualStudioProjectBuilder.java:63-110 | Nothing happens unless the build is enabled. A missing solution file ends the build quietly. Several solution files, or "sonar.modules" set together with a solution, are errors. A solution that fails to parse is an error naming the file and the reason. A successful build always has at least one module. |
| ProjectBuilder.BuildOfParsedSolution | src/main/java/org/sonar/plugins/visualstudio/VisualStudioProjectBuilder.java:86-109 | Once the solution parses, the build fails when no entry is accepted or when an accepted entry fails. Otherwise it yields the accepted entries' modules in solution order. |
| ProjectBuilder.BuildOfEntries | src/main/java/org/sonar/plugins/visualstudio/VisualStudioProjectBuilder.java:86-109 | Once the solution parses, the build is decided by the entry loop alone: its error, or "no projects found" when nothing is accepted, or the modules. |
| ProjectBuilder.BuildFailsWithAnEntry | src/main/java/org/sonar/plugins/visualstudio/VisualStudioProjectBuilder.java:91-109 | Once the solution parses, an accepted entry that fails to build makes the whole build fail. |
| ProjectBuilder.BuildYieldsEntryModules | src/main/java/org/sonar/plugins/visualstudio/VisualStudioProjectBuilder.java:91-109 | Once the solution parses, when at least one entry is accepted and every accepted entry builds, the build yields the solution file and the modules of the accepted entries in solution order. |

## Left out

- Solution and project file parsing is not part of this model. The two parsers
  are parameters of `Env` that return either the parsed records or a reason.
- Plugin registration and the property definitions in `VisualStudioPlugin`
  are left out. The deprecated-key fallback of the settings is left out too.
- The builder reads four setting keys whose names are not declared in
  `VisualStudioPlugin.java`: enable, skipped projects, test-project pattern
  and project-key strategy. They are constants with unknown names.
- The builder's first check reads the enable flag, as the code does. The
  plugin also declares a "sonar.visualstudio.skip" flag, and the builder does
  not consult it.
- `java.io.File` path normalisation is not modelled. Paths are '/'-joined
  strings, and canonical and absolute paths are functions of the file system.
  An `IOException` from canonicalisation is not modelled.
- `Normalizer` in form NFD and the regular-expression class `\p{M}` are
  parameters. So are `String.matches` and whether a pattern compiles.
  `toLowerCase` is modelled for ASCII letters only.
- Logging is left out. So is the clearing of the root project's own sources
  and tests (lines 83-84): the outcome carries only the new modules.
- The builder passes the module name as an extra first argument to
  `locateAssembly`. `VisualStudioAssemblyLocator.locateAssembly`
  (VisualStudioAssemblyLocator.java:47) takes only the project file and the
  project, so the model calls it with those two.
- `VisualStudioProject` declares no property-group conditions, yet the locator
  reads them. The record carries them as a fifth field.
- AssemblyLocator.LocateAssembly: when it searches the output paths (an
  assembly file name, at least one output path, no override), it requires at
  least as many conditions as output paths. The Java code would throw
  `IndexOutOfBoundsException` there otherwise. The other branches never read
  the conditions and require nothing.
- The builder tests mock settings and a three-argument locator. They belong
  to another version of the code, so the model follows the code and uses
  only their expected keys and work directory names.
