/** The records read from a solution file and from a project file. */
module Projects {
  import opened Wrappers

  /** One project listed in a solution: its display name and its solution-relative path. */
  datatype SolutionEntry = SolutionEntry(name: string, path: string)

  /**
   * What a project file declares: the compiled files, the output type and
   * assembly name (each possibly absent), and per property group the output
   * path and the group's condition, paired by position. All fields are fixed
   * at construction.
   */
  datatype VisualStudioProject = VisualStudioProject(
    files: seq<string>,
    outputType: Option<string>,
    assemblyName: Option<string>,
    outputPaths: seq<string>,
    conditions: seq<string>)
  {
    /** Every output path has the condition of its property group at the same index. */
    predicate ConditionsCoverOutputPaths() {
      |outputPaths| <= |conditions|
    }
  }

  /** A project as the project-file parser delivers it: conditions and output paths come in pairs. */
  type ParsedProject = p: VisualStudioProject | p.ConditionsCoverOutputPaths()
    witness VisualStudioProject([], None, None, [], [])

  /** The accessors hand back exactly what the record was built from, absent values included. */
  lemma Accessors(files: seq<string>, outputType: Option<string>, assemblyName: Option<string>,
                  outputPaths: seq<string>, conditions: seq<string>)
    ensures var p := VisualStudioProject(files, outputType, assemblyName, outputPaths, conditions);
      && p.files == files && p.outputType == outputType && p.assemblyName == assemblyName
      && p.outputPaths == outputPaths && p.conditions == conditions
  {
  }
}
