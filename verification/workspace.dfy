/**
 The slice of the Java model that the runnable-jar export reads: projects by
 name, the names of the projects each one requires, and its package fragment
 roots. Every platform query is a field or a map lookup here.
 */
module Workspace {
  import opened Options

  /** A project name as the workspace root knows it. */
  type Name = string

  /** A file-system location (`IPath`), compared by equality. */
  type Path = string

  /** A package fragment root handle (a source folder or an archive). */
  datatype Root = Root(handle: string)

  /**
   A Java project: `requiredProjectNames` is None when the query throws a
   JavaModelException, and so is `packageFragmentRoots`.
   */
  datatype JavaProject = JavaProject(
    name: Name,
    requiredProjectNames: Option<seq<Name>>,
    packageFragmentRoots: Option<seq<Root>>)

  /**
   The projects `getJavaProject` finds: a name is a key exactly when the
   workspace has a project of that name, `JavaCore.create` accepts it, and
   the Java project exists.
   */
  type Projects = map<Name, JavaProject>

  /** The names the worklist adds for `name`: none when the project is missing or the query fails. */
  function RequiredNames(ws: Projects, name: Name): (r: seq<Name>)
    ensures name !in ws ==> r == []
    ensures name in ws && ws[name].requiredProjectNames.Some? ==> r == ws[name].requiredProjectNames.value
  {
    if name in ws then
      match ws[name].requiredProjectNames
      case Some(children) => children
      case None => []
    else []
  }
}
