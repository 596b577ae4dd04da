/**
 The order in which the runnable-jar export looks for the package fragment
 root of a classpath entry: the launch configuration's project first, then
 every project it requires, directly or not, breadth first.
 */
module SearchOrder {
  import opened Options
  import opened Lists
  import opened Workspace

  /** Every name the worklist can ever hold: the root and every required name in the workspace. */
  ghost function Universe(root: Name, ws: Projects): set<Name>
  {
    {root} + set n, c | n in ws && c in RequiredNames(ws, n) :: c
  }

  lemma RequiredInUniverse(root: Name, ws: Projects, n: Name, c: Name)
    requires c in RequiredNames(ws, n)
    ensures c in Universe(root, ws)
  {
    assert n in ws;
  }

  /** Every name required by a project in `names` is itself in `names`. */
  ghost predicate Closed(names: seq<Name>, ws: Projects)
  {
    forall i, c | 0 <= i < |names| && c in RequiredNames(ws, names[i]) :: c in names
  }

  /** Name `i` was required by a project listed before it. */
  ghost predicate DiscoveredAt(names: seq<Name>, ws: Projects, i: int)
    requires 0 < i < |names|
  {
    exists j | 0 <= j < i :: names[i] in RequiredNames(ws, names[j])
  }

  /** Every name after the first was required by a project listed before it. */
  ghost predicate DiscoveredInOrder(names: seq<Name>, ws: Projects)
  {
    forall i | 0 < i < |names| :: DiscoveredAt(names, ws, i)
  }

  /** A set of names closed under "requires". */
  ghost predicate ClosedSet(s: set<Name>, ws: Projects)
  {
    forall n, c | n in s && c in RequiredNames(ws, n) :: c in s
  }

  /** The projects of the names that exist, in the order of the names. */
  function ExistingProjects(names: seq<Name>, ws: Projects): (r: seq<JavaProject>)
    ensures |r| <= |names|
    ensures forall p | p in r :: exists n | n in names :: n in ws && ws[n] == p
    ensures forall n | n in names && n in ws :: ws[n] in r
    ensures 0 < |names| && names[0] in ws ==> 0 < |r| && r[0] == ws[names[0]]
    decreases |names|
  {
    if |names| == 0 then []
    else (if names[0] in ws then [ws[names[0]]] else []) + ExistingProjects(names[1..], ws)
  }

  /** One visit of the worklist keeps its invariants and extends the closed prefix by one name. */
  lemma VisitPreservesWorklist(before: seq<Name>, after: seq<Name>, next: nat, ws: Projects)
    requires next < |before|
    requires after == AppendAllAbsent(before, RequiredNames(ws, before[next]))
    requires forall i, c | 0 <= i < next && c in RequiredNames(ws, before[i]) :: c in before
    requires DiscoveredInOrder(before, ws)
    ensures forall i | 0 <= i < |before| :: after[i] == before[i]
    ensures forall i, c | 0 <= i < next + 1 && c in RequiredNames(ws, after[i]) :: c in after
    ensures DiscoveredInOrder(after, ws)
  {
    VisitKeepsPrefix(before, after, RequiredNames(ws, before[next]));
    VisitClosesNext(before, after, next, ws);
    VisitKeepsDiscovery(before, after, next, ws);
  }

  lemma VisitKeepsPrefix(before: seq<Name>, after: seq<Name>, children: seq<Name>)
    requires after == AppendAllAbsent(before, children)
    ensures forall i | 0 <= i < |before| :: after[i] == before[i]
  {
    assert after[..|before|] == before;
    forall i | 0 <= i < |before|
      ensures after[i] == before[i]
    {
      assert after[..|before|][i] == after[i];
    }
  }

  lemma VisitClosesNext(before: seq<Name>, after: seq<Name>, next: nat, ws: Projects)
    requires next < |before|
    requires forall c | c in RequiredNames(ws, before[next]) :: c in after
    requires forall y | y in before :: y in after
    requires forall i, c | 0 <= i < next && c in RequiredNames(ws, before[i]) :: c in before
    requires |before| <= |after| && forall i | 0 <= i < |before| :: after[i] == before[i]
    ensures forall i, c | 0 <= i < next + 1 && c in RequiredNames(ws, after[i]) :: c in after
  {
    forall i, c | 0 <= i < next + 1 && c in RequiredNames(ws, after[i])
      ensures c in after
    {
      assert after[i] == before[i];
      if i < next {
        assert c in before;
      }
    }
  }

  lemma VisitKeepsDiscovery(before: seq<Name>, after: seq<Name>, next: nat, ws: Projects)
    requires next < |before| <= |after|
    requires forall i | |before| <= i < |after| :: after[i] in RequiredNames(ws, before[next])
    requires DiscoveredInOrder(before, ws)
    requires forall i | 0 <= i < |before| :: after[i] == before[i]
    ensures DiscoveredInOrder(after, ws)
  {
    forall i | 0 < i < |after|
      ensures DiscoveredAt(after, ws, i)
    {
      if i < |before| {
        assert DiscoveredAt(before, ws, i);
        var j :| 0 <= j < i && before[i] in RequiredNames(ws, before[j]);
        assert after[j] == before[j];
      } else {
        assert after[next] == before[next];
        assert 0 <= next < i && after[i] in RequiredNames(ws, after[next]);
      }
    }
  }

  lemma ExistingProjectsInWorkspace(names: seq<Name>, ws: Projects)
    ensures forall p | p in ExistingProjects(names, ws) :: p in ws.Values
  {
    forall p | p in ExistingProjects(names, ws)
      ensures p in ws.Values
    {
      var n :| n in names && n in ws && ws[n] == p;
    }
  }

  /** Every name a project in the universe requires lies in the universe too. */
  lemma ChildrenInUniverse(root: Name, ws: Projects, n: Name)
    ensures forall c | c in RequiredNames(ws, n) :: c in Universe(root, ws)
  {
    forall c | c in RequiredNames(ws, n)
      ensures c in Universe(root, ws)
    {
      RequiredInUniverse(root, ws, n, c);
    }
  }

  /**
   The worklist loop as a function: visits `names[next..]`, appending the
   names each visited project requires that are not yet listed. It ends
   because the list never holds a name twice and every name it can hold
   comes from the finite universe.
   */
  function Visit(root: Name, names: seq<Name>, next: nat, ws: Projects): seq<Name>
    requires next <= |names|
    requires Distinct(names)
    requires forall n | n in names :: n in Universe(root, ws)
    decreases |Universe(root, ws)| - next
  {
    if next == |names| then names
    else
      var after := AppendAllAbsent(names, RequiredNames(ws, names[next]));
      ChildrenInUniverse(root, ws, names[next]);
      DistinctBound(after, Universe(root, ws));
      Visit(root, after, next + 1, ws)
  }

  /** The names getProjectSearchOrder lists, in its order. */
  function SearchNames(projectName: Name, ws: Projects): seq<Name>
  {
    Visit(projectName, [projectName], 0, ws)
  }

  /** The search order getProjectSearchOrder returns. */
  function SearchOrderOf(projectName: Name, ws: Projects): seq<JavaProject>
  {
    ExistingProjects(SearchNames(projectName, ws), ws)
  }

  /** The first position in `names` whose project requires `x`, or -1. */
  function FirstRequirer(names: seq<Name>, ws: Projects, x: Name): (r: int)
    ensures -1 <= r < |names|
    ensures r == -1 <==> forall j | 0 <= j < |names| :: x !in RequiredNames(ws, names[j])
    ensures 0 <= r ==> x in RequiredNames(ws, names[r]) && forall j | 0 <= j < r :: x !in RequiredNames(ws, names[j])
    decreases |names|
  {
    if |names| == 0 then -1
    else if x in RequiredNames(ws, names[0]) then 0
    else
      var k := FirstRequirer(names[1..], ws, x);
      assert forall j | 1 <= j < |names| :: names[j] == names[1..][j - 1];
      if k == -1 then -1 else k + 1
  }

  /** Visiting one more name does not change an earlier first requirer. */
  lemma {:induction false} FirstRequirerAppend(visited: seq<Name>, y: Name, ws: Projects, x: Name)
    ensures FirstRequirer(visited + [y], ws, x)
         == if 0 <= FirstRequirer(visited, ws, x) then FirstRequirer(visited, ws, x)
            else if x in RequiredNames(ws, y) then |visited| else -1
    decreases |visited|
  {
    var t := visited + [y];
    if |visited| == 0 {
      assert t == [y] && t[1..] == [];
    } else {
      assert t[0] == visited[0] && t[1..] == visited[1..] + [y];
      FirstRequirerAppend(visited[1..], y, ws, x);
    }
  }

  /**
   `x` comes before `y` in breadth-first order with respect to the visited
   names: `x` was discovered no later than `y`, and when the same project
   discovered both, `x` comes first in its list of required names.
   */
  ghost predicate DiscoveredBefore(visited: seq<Name>, ws: Projects, x: Name, y: Name)
  {
    var a := FirstRequirer(visited, ws, x);
    var b := FirstRequirer(visited, ws, y);
    0 <= a <= b && (a == b ==> IndexOf(RequiredNames(ws, visited[a]), x) < IndexOf(RequiredNames(ws, visited[a]), y))
  }

  /** Every name after the first was discovered by one of the first `visited` names, in breadth-first order. */
  ghost predicate BreadthFirstSoFar(names: seq<Name>, visited: nat, ws: Projects)
    requires visited <= |names|
  {
    && (forall i | 0 < i < |names| :: 0 <= FirstRequirer(names[..visited], ws, names[i]))
    && (forall i, j | 0 < i < j < |names| :: DiscoveredBefore(names[..visited], ws, names[i], names[j]))
  }

  /** The list is in breadth-first order: discovered no later, and in the discoverer's order. */
  ghost predicate BreadthFirst(names: seq<Name>, ws: Projects)
  {
    && (forall i | 0 < i < |names| :: 0 <= FirstRequirer(names, ws, names[i]))
    && (forall i, j | 0 < i < j < |names| :: DiscoveredBefore(names, ws, names[i], names[j]))
  }

  /** The names visited after one more visit: the earlier ones and the one just visited. */
  lemma VisitedAfterVisit(before: seq<Name>, after: seq<Name>, next: nat)
    requires next < |before| <= |after|
    requires after[..|before|] == before
    ensures after[..next + 1] == before[..next] + [before[next]]
  {
    assert after[..next + 1] == after[..|before|][..next + 1];
  }

  /** A name already listed keeps its first requirer when one more name is visited. */
  lemma OldNameKeepsRequirer(visited: seq<Name>, y: Name, ws: Projects, x: Name)
    requires 0 <= FirstRequirer(visited, ws, x)
    ensures FirstRequirer(visited + [y], ws, x) == FirstRequirer(visited, ws, x)
  {
    FirstRequirerAppend(visited, y, ws, x);
  }

  /** A name the visit adds was first required by the name just visited. */
  lemma NewNameRequiredByNext(before: seq<Name>, next: nat, ws: Projects, x: Name)
    requires next < |before|
    requires forall k, c | 0 <= k < next && c in RequiredNames(ws, before[k]) :: c in before
    requires x !in before && x in RequiredNames(ws, before[next])
    ensures FirstRequirer(before[..next] + [before[next]], ws, x) == next
  {
    FirstRequirerAppend(before[..next], before[next], ws, x);
  }

  /** Where the first requirer of a listed name lies once one more name is visited. */
  lemma FirstRequirerAfterVisit(before: seq<Name>, after: seq<Name>, next: nat, ws: Projects, i: nat)
    requires next < |before|
    requires after == AppendAllAbsent(before, RequiredNames(ws, before[next]))
    requires forall k, c | 0 <= k < next && c in RequiredNames(ws, before[k]) :: c in before
    requires forall k | 0 < k < |before| :: 0 <= FirstRequirer(before[..next], ws, before[k])
    requires 0 < i < |after|
    ensures after[..next + 1] == before[..next] + [before[next]]
    ensures i < |before| ==>
              after[i] == before[i] &&
              FirstRequirer(after[..next + 1], ws, after[i]) == FirstRequirer(before[..next], ws, before[i])
    ensures |before| <= i ==> FirstRequirer(after[..next + 1], ws, after[i]) == next
  {
    assert after[..|before|] == before;
    VisitedAfterVisit(before, after, next);
    if i < |before| {
      assert after[i] == after[..|before|][i];
      OldNameKeepsRequirer(before[..next], before[next], ws, before[i]);
    } else {
      assert after[i] !in before && after[i] in RequiredNames(ws, before[next]);
      NewNameRequiredByNext(before, next, ws, after[i]);
    }
  }

  /** One visit keeps the list in breadth-first order with respect to one more visited name. */
  lemma VisitKeepsBreadthFirst(before: seq<Name>, after: seq<Name>, next: nat, ws: Projects)
    requires next < |before|
    requires after == AppendAllAbsent(before, RequiredNames(ws, before[next]))
    requires forall k, c | 0 <= k < next && c in RequiredNames(ws, before[k]) :: c in before
    requires BreadthFirstSoFar(before, next, ws)
    ensures BreadthFirstSoFar(after, next + 1, ws)
  {
    var children := RequiredNames(ws, before[next]);
    AppendAllAbsentOrder(before, children);
    forall i | 0 < i < |after|
      ensures 0 <= FirstRequirer(after[..next + 1], ws, after[i])
    {
      FirstRequirerAfterVisit(before, after, next, ws, i);
    }
    forall i, j | 0 < i < j < |after|
      ensures DiscoveredBefore(after[..next + 1], ws, after[i], after[j])
    {
      FirstRequirerAfterVisit(before, after, next, ws, i);
      FirstRequirerAfterVisit(before, after, next, ws, j);
      PairAfterVisit(before, after, next, ws, i, j);
    }
  }

  /**
   Two listed names stay in breadth-first order once one more name is
   visited, given where their first requirers lie before and after.
   */
  lemma PairAfterVisit(before: seq<Name>, after: seq<Name>, next: nat, ws: Projects, i: nat, j: nat)
    requires next < |before| <= |after| && 0 < i < j < |after|
    requires after[..next + 1] == before[..next] + [before[next]]
    requires i < |before| ==> after[i] == before[i] && 0 <= FirstRequirer(before[..next], ws, before[i])
                              && FirstRequirer(after[..next + 1], ws, after[i]) == FirstRequirer(before[..next], ws, before[i])
    requires j < |before| ==> after[j] == before[j]
                              && FirstRequirer(after[..next + 1], ws, after[j]) == FirstRequirer(before[..next], ws, before[j])
    requires |before| <= i ==> FirstRequirer(after[..next + 1], ws, after[i]) == next
    requires |before| <= j ==> FirstRequirer(after[..next + 1], ws, after[j]) == next
    requires j < |before| ==> DiscoveredBefore(before[..next], ws, before[i], before[j])
    requires |before| <= i ==> IndexOf(RequiredNames(ws, before[next]), after[i]) < IndexOf(RequiredNames(ws, before[next]), after[j])
    ensures DiscoveredBefore(after[..next + 1], ws, after[i], after[j])
  {
    var visited := after[..next + 1];
    if j < |before| {
      var a := FirstRequirer(before[..next], ws, before[i]);
      assert visited[a] == before[..next][a];
    } else if |before| <= i {
      assert visited[next] == before[next];
    }
  }

  /** A state of the worklist loop that the rest of the loop turns into a breadth-first worklist. */
  ghost predicate LoopState(root: Name, names: seq<Name>, next: nat, ws: Projects)
  {
    && next <= |names| && 0 < |names| && names[0] == root
    && Distinct(names)
    && (forall n | n in names :: n in Universe(root, ws))
    && (forall i, c | 0 <= i < next && c in RequiredNames(ws, names[i]) :: c in names)
    && DiscoveredInOrder(names, ws)
    && BreadthFirstSoFar(names, next, ws)
  }

  /** What the loop yields: a closed, breadth-first worklist from `root`. */
  ghost predicate Worklist(root: Name, r: seq<Name>, ws: Projects)
  {
    0 < |r| && r[0] == root && Distinct(r) && Closed(r, ws) && DiscoveredInOrder(r, ws) && BreadthFirst(r, ws)
  }

  /** One visit keeps the loop state. */
  lemma VisitKeepsLoopState(root: Name, names: seq<Name>, next: nat, ws: Projects)
    requires LoopState(root, names, next, ws) && next < |names|
    ensures LoopState(root, AppendAllAbsent(names, RequiredNames(ws, names[next])), next + 1, ws)
  {
    var after := AppendAllAbsent(names, RequiredNames(ws, names[next]));
    ChildrenInUniverse(root, ws, names[next]);
    VisitPreservesWorklist(names, after, next, ws);
    VisitKeepsBreadthFirst(names, after, next, ws);
  }

  /** A finished loop state is a worklist. */
  lemma LoopStateDone(root: Name, names: seq<Name>, ws: Projects)
    requires LoopState(root, names, |names|, ws)
    ensures Worklist(root, names, ws)
  {
    assert names[..|names|] == names;
  }

  /** Running the rest of the loop from a valid state yields a closed, breadth-first worklist. */
  lemma {:induction false} VisitYieldsWorklist(root: Name, names: seq<Name>, next: nat, ws: Projects)
    requires LoopState(root, names, next, ws)
    ensures Worklist(root, Visit(root, names, next, ws), ws)
    decreases |Universe(root, ws)| - next
  {
    if next == |names| {
      LoopStateDone(root, names, ws);
    } else {
      var after := AppendAllAbsent(names, RequiredNames(ws, names[next]));
      VisitKeepsLoopState(root, names, next, ws);
      ChildrenInUniverse(root, ws, names[next]);
      DistinctBound(after, Universe(root, ws));
      assert Visit(root, names, next, ws) == Visit(root, after, next + 1, ws);
      VisitYieldsWorklist(root, after, next + 1, ws);
    }
  }

  /**
   The worklist starts at the given project, holds no name twice, holds
   every name a listed project requires, lists every later name after a
   project that requires it, and is in breadth-first order.
   */
  lemma SearchNamesWorklist(projectName: Name, ws: Projects)
    ensures var names := SearchNames(projectName, ws);
            && 0 < |names| && names[0] == projectName
            && Distinct(names) && Closed(names, ws) && DiscoveredInOrder(names, ws) && BreadthFirst(names, ws)
  {
    VisitYieldsWorklist(projectName, [projectName], 0, ws);
  }

  /**
   getProjectSearchOrder: the worklist `names` starts at `projectName`,
   appends each required name not yet present, and visits the names in
   order until none is left; the search order is the worklist restricted
   to projects that exist.
   */
  method GetProjectSearchOrder(projectName: Name, ws: Projects) returns (names: seq<Name>, searchOrder: seq<JavaProject>)
    ensures names == SearchNames(projectName, ws)
    ensures 0 < |names| && names[0] == projectName
    ensures Distinct(names)
    ensures Closed(names, ws)
    ensures DiscoveredInOrder(names, ws)
    ensures BreadthFirst(names, ws)
    ensures searchOrder == ExistingProjects(names, ws)
  {
    names := VisitAll(projectName, ws);
    SearchNamesWorklist(projectName, ws);
    searchOrder := ExistingProjects(names, ws);
  }

  /** The worklist loop of getProjectSearchOrder. */
  method VisitAll(projectName: Name, ws: Projects) returns (names: seq<Name>)
    ensures names == SearchNames(projectName, ws)
  {
    names := [projectName];
    var next := 0;
    ghost var u := Universe(projectName, ws);
    while next < |names|
      invariant 0 <= next <= |names|
      invariant Distinct(names)
      invariant forall n | n in names :: n in u
      invariant Visit(projectName, names, next, ws) == SearchNames(projectName, ws)
      decreases |u| - next
    {
      DistinctBound(names, u);
      var children := RequiredNames(ws, names[next]);
      VisitStep(projectName, names, next, ws);
      names := AppendAllAbsent(names, children);
      next := next + 1;
    }
  }

  /** One turn of the loop: visiting `names[next]` and moving on leaves the outcome unchanged. */
  lemma VisitStep(root: Name, names: seq<Name>, next: nat, ws: Projects)
    requires next < |names|
    requires Distinct(names)
    requires forall n | n in names :: n in Universe(root, ws)
    ensures var after := AppendAllAbsent(names, RequiredNames(ws, names[next]));
            && Distinct(after)
            && (forall n | n in after :: n in Universe(root, ws))
            && Visit(root, names, next, ws) == Visit(root, after, next + 1, ws)
            && |after| <= |Universe(root, ws)|
  {
    ChildrenInUniverse(root, ws, names[next]);
    DistinctBound(AppendAllAbsent(names, RequiredNames(ws, names[next])), Universe(root, ws));
  }

  /** The search order of a concatenation is the concatenation of the search orders. */
  lemma {:induction false} ExistingProjectsAppend(a: seq<Name>, b: seq<Name>, ws: Projects)
    ensures ExistingProjects(a + b, ws) == ExistingProjects(a, ws) + ExistingProjects(b, ws)
    decreases |a|
  {
    if |a| == 0 {
      assert a + b == b;
    } else {
      var t := a + b;
      assert t[0] == a[0];
      assert t[1..] == a[1..] + b;
      ExistingProjectsAppend(a[1..], b, ws);
    }
  }

  lemma {:induction false} DiscoveredNameInClosedSet(names: seq<Name>, ws: Projects, s: set<Name>, i: nat)
    requires DiscoveredInOrder(names, ws)
    requires 0 < |names| && names[0] in s && ClosedSet(s, ws)
    requires i < |names|
    ensures names[i] in s
    decreases i
  {
    if i > 0 {
      assert DiscoveredAt(names, ws, i);
      var j :| 0 <= j < i && names[i] in RequiredNames(ws, names[j]);
      DiscoveredNameInClosedSet(names, ws, s, j);
    }
  }

  /** A closed worklist discovered from its first name lies inside every closed set holding that name. */
  lemma WorklistIsLeastClosed(names: seq<Name>, ws: Projects, s: set<Name>)
    requires 0 < |names| && names[0] in s && ClosedSet(s, ws)
    requires Closed(names, ws) && DiscoveredInOrder(names, ws)
    ensures ClosedSet((set n | n in names), ws)
    ensures forall n | n in names :: n in s
  {
    forall n | n in names
      ensures n in s
    {
      var i :| 0 <= i < |names| && names[i] == n;
      DiscoveredNameInClosedSet(names, ws, s, i);
    }
    forall n, c | n in (set m | m in names) && c in RequiredNames(ws, n)
      ensures c in (set m | m in names)
    {
      var i :| 0 <= i < |names| && names[i] == n;
    }
  }

  /**
   The search names are exactly the projects reachable from the start
   project: they form a closed set, and they lie inside every closed set
   that contains the start project.
   */
  lemma SearchOrderIsLeastClosed(projectName: Name, ws: Projects, s: set<Name>)
    requires projectName in s && ClosedSet(s, ws)
    ensures ClosedSet((set n | n in SearchNames(projectName, ws)), ws)
    ensures forall n | n in SearchNames(projectName, ws) :: n in s
  {
    SearchNamesWorklist(projectName, ws);
    WorklistIsLeastClosed(SearchNames(projectName, ws), ws, s);
  }
}
