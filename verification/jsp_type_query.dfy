/**
 The index query behind a search for JSP references to a Java type: which
 index files to consult (one per accessible Java project), the index key
 to look up, and the type references reported for the hits.
 */
module JspTypeQuery {
  import opened Options
  import opened Lists
  import opened Workspace

  /** The answer of `project.hasNature(JavaCore.NATURE_ID)`, which may throw a CoreException. */
  datatype NatureCheck = HasJavaNature | LacksJavaNature | NatureCheckFails

  /** A workspace project: its full path, whether it is accessible, and its Java nature. */
  datatype WorkspaceProject = WorkspaceProject(fullPath: Path, accessible: bool, javaNature: NatureCheck)

  /** The nature is only asked of accessible projects. */
  predicate IsJavaProject(p: WorkspaceProject)
  {
    p.accessible && p.javaNature == HasJavaNature
  }

  predicate NatureCheckThrows(p: WorkspaceProject)
  {
    p.accessible && p.javaNature == NatureCheckFails
  }

  /** How many projects the loop handles before a nature check throws. */
  function ScannedCount(projects: seq<WorkspaceProject>): (k: nat)
    ensures k <= |projects|
    ensures forall i | 0 <= i < k :: !NatureCheckThrows(projects[i])
    ensures k < |projects| ==> NatureCheckThrows(projects[k])
    decreases |projects|
  {
    if |projects| == 0 then 0
    else if NatureCheckThrows(projects[0]) then 0
    else
      var k := ScannedCount(projects[1..]);
      assert forall i | 1 <= i < k + 1 :: projects[i] == projects[1..][i - 1];
      1 + k
  }

  /** What one project contributes to the keys: its full path if it is an accessible Java project. */
  function PathIfJava(p: WorkspaceProject): seq<Path>
  {
    if IsJavaProject(p) then [p.fullPath] else []
  }

  /** The full paths of the accessible Java projects, in workspace order. */
  function JavaProjectPaths(projects: seq<WorkspaceProject>): (r: seq<Path>)
    ensures forall p | p in r :: exists i | 0 <= i < |projects| :: IsJavaProject(projects[i]) && projects[i].fullPath == p
    ensures forall i | 0 <= i < |projects| && IsJavaProject(projects[i]) :: projects[i].fullPath in r
    decreases |projects|
  {
    if |projects| == 0 then []
    else
      var rest := JavaProjectPaths(projects[1..]);
      assert forall i | 1 <= i < |projects| :: projects[i] == projects[1..][i - 1];
      PathIfJava(projects[0]) + rest
  }

  /** One step of the walk over a project whose nature check does not throw. */
  lemma ScanOne(projects: seq<WorkspaceProject>)
    requires |projects| > 0 && !NatureCheckThrows(projects[0])
    ensures ScannedCount(projects) == 1 + ScannedCount(projects[1..])
    ensures JavaProjectPaths(projects[..ScannedCount(projects)])
         == PathIfJava(projects[0]) + JavaProjectPaths(projects[1..][..ScannedCount(projects[1..])])
  {
    var k := ScannedCount(projects);
    assert projects[..k][1..] == projects[1..][..k - 1];
    assert projects[..k][0] == projects[0];
  }

  lemma AppendAllCons<T>(s: seq<T>, x: seq<T>, xs: seq<T>)
    requires |x| <= 1
    ensures AppendAllAbsent(s, x + xs) == AppendAllAbsent(AppendAllAbsent(s, x), xs)
  {
    if |x| == 1 {
      assert (x + xs)[0] == x[0] && (x + xs)[1..] == xs;
      assert x[1..] == [];
    } else {
      assert x + xs == xs;
    }
  }

  /**
   computePathsKeyingIndexFiles: walks the workspace projects, skipping
   the inaccessible ones and those without the Java nature, and adds each
   remaining full path to `requiredIndexKeys` unless it is already there. A
   CoreException from a nature check ends the walk and keeps what was added.
   The result is the caller's list after the call.
   */
  function ComputePathsKeyingIndexFiles(requiredIndexKeys: seq<Path>, projects: seq<WorkspaceProject>): (r: seq<Path>)
    ensures r == AppendAllAbsent(requiredIndexKeys, JavaProjectPaths(projects[..ScannedCount(projects)]))
    decreases |projects|
  {
    if |projects| == 0 then requiredIndexKeys
    else
      var project := projects[0];
      if NatureCheckThrows(project) then requiredIndexKeys
      else
        ScanOne(projects);
        AppendAllCons(requiredIndexKeys, PathIfJava(project), JavaProjectPaths(projects[1..][..ScannedCount(projects[1..])]));
        if !project.accessible then ComputePathsKeyingIndexFiles(requiredIndexKeys, projects[1..])
        else
          match project.javaNature
          case LacksJavaNature => ComputePathsKeyingIndexFiles(requiredIndexKeys, projects[1..])
          case HasJavaNature =>
            var keys := AppendIfAbsent(requiredIndexKeys, project.fullPath);
            assert keys == AppendAllAbsent(requiredIndexKeys, [project.fullPath]);
            ComputePathsKeyingIndexFiles(keys, projects[1..])
  }

  /**
   What the caller's list holds afterwards: its old entries in place, then
   new, distinct paths of accessible Java projects; every such project is
   covered when no nature check throws.
   */
  lemma ComputedPaths(requiredIndexKeys: seq<Path>, projects: seq<WorkspaceProject>)
    ensures var r := ComputePathsKeyingIndexFiles(requiredIndexKeys, projects);
            && |requiredIndexKeys| <= |r| && r[..|requiredIndexKeys|] == requiredIndexKeys
            && (forall i | |requiredIndexKeys| <= i < |r| :: r[i] !in requiredIndexKeys)
            && Distinct(r[|requiredIndexKeys|..])
            && (forall p | p in r[|requiredIndexKeys|..] ::
                  exists i | 0 <= i < |projects| :: IsJavaProject(projects[i]) && projects[i].fullPath == p)
            && ((forall i | 0 <= i < |projects| :: !NatureCheckThrows(projects[i])) ==>
                  forall i | 0 <= i < |projects| && IsJavaProject(projects[i]) :: projects[i].fullPath in r)
  {
    var r := ComputePathsKeyingIndexFiles(requiredIndexKeys, projects);
    var k := ScannedCount(projects);
    forall p | p in r[|requiredIndexKeys|..]
      ensures exists i | 0 <= i < |projects| :: IsJavaProject(projects[i]) && projects[i].fullPath == p
    {
      var j :| 0 <= j < |r[|requiredIndexKeys|..]| && r[|requiredIndexKeys|..][j] == p;
      assert r[|requiredIndexKeys| + j] == p;
      ScannedPathSource(projects, k, p);
    }
    if forall i | 0 <= i < |projects| :: !NatureCheckThrows(projects[i]) {
      assert k == |projects|;
      assert projects[..k] == projects;
    }
  }

  /** A path collected from the first `k` projects is the full path of one of them that is an accessible Java project. */
  lemma ScannedPathSource(projects: seq<WorkspaceProject>, k: nat, p: Path)
    requires k <= |projects| && p in JavaProjectPaths(projects[..k])
    ensures exists i | 0 <= i < |projects| :: IsJavaProject(projects[i]) && projects[i].fullPath == p
  {
    var i :| 0 <= i < k && IsJavaProject(projects[..k][i]) && projects[..k][i].fullPath == p;
    assert projects[i] == projects[..k][i];
  }

  /** Running the query's path computation twice over the same workspace adds nothing the second time. */
  lemma ComputeIdempotent(requiredIndexKeys: seq<Path>, projects: seq<WorkspaceProject>)
    ensures ComputePathsKeyingIndexFiles(ComputePathsKeyingIndexFiles(requiredIndexKeys, projects), projects)
         == ComputePathsKeyingIndexFiles(requiredIndexKeys, projects)
  {
    AppendAllIdempotent(requiredIndexKeys, JavaProjectPaths(projects[..ScannedCount(projects)]));
  }

  /** The index key of JSP references to a type: `JSP_TYPE_REF + "/" + typeName`. */
  function IndexKey(jspTypeRef: string, typeName: string): string
  {
    jspTypeRef + "/" + typeName
  }

  /** The type name an index key under `jspTypeRef` names, if it is one. */
  function TypeNameOfKey(jspTypeRef: string, key: string): Option<string>
  {
    if |jspTypeRef| < |key| && key[..|jspTypeRef|] == jspTypeRef && key[|jspTypeRef|] == '/'
    then Some(key[|jspTypeRef| + 1..])
    else None
  }

  /** Key construction and reading invert each other. */
  lemma IndexKeyRoundTrip(jspTypeRef: string, typeName: string, key: string)
    ensures TypeNameOfKey(jspTypeRef, IndexKey(jspTypeRef, typeName)) == Some(typeName)
    ensures TypeNameOfKey(jspTypeRef, key) == Some(typeName) ==> key == IndexKey(jspTypeRef, typeName)
  {
    var k := IndexKey(jspTypeRef, typeName);
    assert k[..|jspTypeRef|] == jspTypeRef;
    assert k[|jspTypeRef| + 1..] == typeName;
    if TypeNameOfKey(jspTypeRef, key) == Some(typeName) {
      assert key == key[..|jspTypeRef|] + [key[|jspTypeRef|]] + key[|jspTypeRef| + 1..];
    }
  }

  /** Different type names never share a key. */
  lemma IndexKeyInjective(jspTypeRef: string, a: string, b: string)
    requires IndexKey(jspTypeRef, a) == IndexKey(jspTypeRef, b)
    ensures a == b
  {
    IndexKeyRoundTrip(jspTypeRef, a, IndexKey(jspTypeRef, b));
  }

  /** An `IQueryResult`: the document that holds a matching key. */
  datatype IndexHit = IndexHit(path: Path)

  /** The answer of `index.queryPrefix`: an IOException, a null array, or the hits. */
  datatype QueryAnswer = QueryThrows | NullAnswer | Answer(hits: seq<IndexHit>)

  /** One `acceptTypeReference(path, typeName)` report to the path collector. */
  datatype TypeReference = TypeReference(path: Path, typeName: string)

  /**
   How `findIndexMatches` ends: the IOException of the index query
   propagates to the caller before anything is reported, or the method
   returns normally after the reports.
   */
  datatype MatchOutcome = IOFailure | Reported(references: seq<TypeReference>)

  /**
   findIndexMatches: looks the type's key up by prefix (the index query is
   given as `queryPrefix`) and reports every hit as a reference to the
   type, in hit order. A null answer reports nothing; a throwing query
   propagates its IOException.
   */
  method FindIndexMatches(jspTypeRef: string, typeName: string, queryPrefix: string -> QueryAnswer)
    returns (outcome: MatchOutcome)
    ensures outcome.IOFailure? <==> queryPrefix(IndexKey(jspTypeRef, typeName)).QueryThrows?
    ensures queryPrefix(IndexKey(jspTypeRef, typeName)).NullAnswer? ==> outcome == Reported([])
    ensures queryPrefix(IndexKey(jspTypeRef, typeName)).Answer? ==>
              var hits := queryPrefix(IndexKey(jspTypeRef, typeName)).hits;
              && outcome.Reported?
              && |outcome.references| == |hits|
              && forall i | 0 <= i < |hits| :: outcome.references[i] == TypeReference(hits[i].path, typeName)
  {
    var s := jspTypeRef + "/" + typeName;
    var result := queryPrefix(s);
    match result
    case QueryThrows =>
      outcome := IOFailure;
    case NullAnswer =>
      outcome := Reported([]);
    case Answer(hits) =>
      var reports := [];
      var i := 0;
      while i < |hits|
        invariant 0 <= i <= |hits|
        invariant |reports| == i
        invariant forall j | 0 <= j < i :: reports[j] == TypeReference(hits[j].path, typeName)
      {
        reports := reports + [TypeReference(hits[i].path, typeName)];
        i := i + 1;
      }
      outcome := Reported(reports);
  }
}
