/**
 * What the bootstrapper reads from outside itself: the analysis settings, the
 * file system, java.io.File path arithmetic, and the two pieces of the Java
 * platform (Unicode decomposition and regular expressions) whose tables are
 * not part of this model.
 */
module Environment {
  import opened Wrappers
  import opened Strings

  /** Setting keys declared by the plugin. */
  const SolutionKey := "sonar.visualstudio.solution"
  const BuildConfigurationKey := "sonar.dotnet.buildConfiguration"
  const BuildPlatformKey := "sonar.dotnet.buildPlatform"
  const OutputPathKey := "sonar.visualstudio.outputPath"
  /** The generic multi-module key that must not be combined with the bootstrapper. */
  const ModulesKey := "sonar.modules"

  /**
   * Setting keys the builder reads but whose spelling is declared outside this
   * model: they are fixed, otherwise unknown names.
   */
  const EnableKey: string
  const SkippedProjectsKey: string
  const TestProjectPatternKey: string
  const ProjectKeyStrategyKey: string

  /** The analysis settings; a key that is absent reads as Java's `null`. */
  type Settings = map<string, string>

  function GetString(settings: Settings, key: string): Option<string> {
    if key in settings then Some(settings[key]) else None
  }

  /** Settings.getBoolean: true exactly when the value is "true", ignoring case. */
  predicate GetBoolean(settings: Settings, key: string) {
    key in settings && Lower(settings[key]) == "true"
  }

  /**
   * The file system as the bootstrapper observes it: the regular files with
   * their modification times, path canonicalisation, absolute paths, and the
   * names of the ".sln" files directly inside a directory.
   */
  datatype FileSystem = FileSystem(
    lastModified: map<string, int>,
    canonical: string -> string,
    absolute: string -> string,
    solutionFilesIn: string -> seq<string>)
  {
    /** File.isFile */
    predicate IsFile(path: string) {
      path in lastModified
    }
  }

  /** new File(dir, child) for a non-null directory. */
  function Child(dir: string, child: string): string {
    dir + "/" + child
  }

  /** new File(parent, child), where a null parent leaves `child` as it is. */
  function Resolve(parent: Option<string>, child: string): string {
    match parent
    case Some(dir) => Child(dir, child)
    case None => child
  }

  /** new File(parent, relativePath.replace('\\', '/')): a Windows-style relative path resolved under `parent`. */
  function RelativePathFile(parent: Option<string>, relativePath: string): (r: string)
    ensures var offset := if parent.Some? then |parent.value| + 1 else 0;
      && |r| == offset + |relativePath|
      && (parent.Some? ==> r[..offset] == parent.value + "/")
      && forall i :: 0 <= i < |relativePath| ==>
           r[offset + i] == (if relativePath[i] == '\\' then '/' else relativePath[i])
  {
    Resolve(parent, Replace(relativePath, '\\', '/'))
  }

  /**
   * File.getParentFile: everything before the last '/', or null when there is
   * none. The parent and the final name put back together give the path.
   */
  function Parent(path: string): (r: Option<string>)
    ensures r.None? <==> '/' !in path
    ensures r.Some? ==> |r.value| < |path| && '/' !in path[|r.value| + 1..] && Child(r.value, path[|r.value| + 1..]) == path
  {
    match LastIndexOf(path, '/')
    case None => None
    case Some(i) =>
      assert path == path[..i] + "/" + path[i + 1..];
      Some(path[..i])
  }

  lemma {:induction false} ParentOfChild(dir: string, name: string)
    requires '/' !in name
    ensures Parent(Child(dir, name)) == Some(dir)
  {
    var p := Child(dir, name);
    assert p[|dir|] == '/';
    assert p[|dir| + 1..] == name;
    assert p[..|dir|] == dir;
  }

  /** A project listed by its bare file name lives directly in the solution's directory. */
  lemma ParentOfRelativePathFile(dir: string, name: string)
    requires '/' !in name && '\\' !in name
    ensures Parent(RelativePathFile(Some(dir), name)) == Some(dir)
  {
    assert Replace(name, '\\', '/') == name;
    ParentOfChild(dir, name);
  }

  /**
   * java.text.Normalizer in form NFD and the regular-expression class \p{M}:
   * the Unicode tables behind them are not part of this model.
   */
  datatype Unicode = Unicode(decompose: string -> string, isMark: char -> bool)

  /**
   * java.util.regex as used by String.matches: whether a pattern compiles, and
   * whether a compiled pattern matches the whole of a string.
   */
  datatype Regex = Regex(compiles: string -> bool, matches: (string, string) -> bool)
}
