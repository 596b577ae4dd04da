/**
 Finding the package fragment roots that back each entry of the user
 classpath: for one entry, the roots of the first project in search order
 that has any; for the whole classpath, the union of those, with a warning
 for each entry no project backs.
 */
module FragmentRoots {
  import opened Options
  import opened Workspace
  import opened Statuses
  import opened Lists
  import SearchOrder

  /**
   The answer of `isRootAt` for one root and one entry. `RootCheckFailed`
   is an unchecked exception escaping `isRootAt` (its own JavaModelException
   handling is part of the answer): the caller's `catch (Exception)` ends
   the scan of that project.
   */
  datatype RootCheck = RootAt | NotRootAt | RootCheckFailed

  /** The position of the first root whose check fails, or the length of the list when none does. */
  function FailedAt(roots: seq<Root>, entry: Path, isRootAt: (Root, Path) -> RootCheck): (r: nat)
    ensures r <= |roots|
    ensures r < |roots| ==> isRootAt(roots[r], entry) == RootCheckFailed
    ensures forall k | 0 <= k < r :: isRootAt(roots[k], entry) != RootCheckFailed
    decreases |roots|
  {
    if |roots| == 0 || isRootAt(roots[0], entry) == RootCheckFailed then 0
    else 1 + FailedAt(roots[1..], entry, isRootAt)
  }

  /** The roots of `roots` that lie at `entry`, in list order, whatever the other checks answer. */
  function RootsAt(roots: seq<Root>, entry: Path, isRootAt: (Root, Path) -> RootCheck): seq<Root>
    decreases |roots|
  {
    if |roots| == 0 then []
    else
      var last := roots[|roots| - 1];
      RootsAt(roots[..|roots| - 1], entry, isRootAt) + if isRootAt(last, entry) == RootAt then [last] else []
  }

  /** Filtering a list with one more root in front. */
  lemma {:induction false} RootsAtCons(x: Root, rest: seq<Root>, entry: Path, isRootAt: (Root, Path) -> RootCheck)
    ensures RootsAt([x] + rest, entry, isRootAt)
         == (if isRootAt(x, entry) == RootAt then [x] else []) + RootsAt(rest, entry, isRootAt)
    decreases |rest|
  {
    if |rest| > 0 {
      var t := [x] + rest;
      assert t[..|t| - 1] == [x] + rest[..|rest| - 1] && t[|t| - 1] == rest[|rest| - 1];
      RootsAtCons(x, rest[..|rest| - 1], entry, isRootAt);
    } else {
      assert [x] + rest == [x] && [x][..0] == [];
    }
  }

  /**
   The scan of a root list, stopping at the first failed check: exactly the
   roots before that failure that lie at `entry` (in list order, by
   `ScanRootsInOrder`).
   */
  function ScanRoots(roots: seq<Root>, entry: Path, isRootAt: (Root, Path) -> RootCheck): (r: seq<Root>)
    ensures |r| <= FailedAt(roots, entry, isRootAt)
    ensures forall x | x in r :: x in roots[..FailedAt(roots, entry, isRootAt)] && isRootAt(x, entry) == RootAt
    ensures forall i | 0 <= i < FailedAt(roots, entry, isRootAt) && isRootAt(roots[i], entry) == RootAt :: roots[i] in r
    decreases |roots|
  {
    if |roots| == 0 then []
    else
      var rest := ScanRoots(roots[1..], entry, isRootAt);
      assert forall i | 1 <= i < |roots| :: roots[i] == roots[1..][i - 1];
      match isRootAt(roots[0], entry)
      case RootAt => [roots[0]] + rest
      case NotRootAt => rest
      case RootCheckFailed => []
  }

  /** A prefix of a root list, split after its first root. */
  lemma ScanRootsPrefix(roots: seq<Root>, k: nat, entry: Path, isRootAt: (Root, Path) -> RootCheck)
    requires k < |roots|
    ensures RootsAt(roots[..k + 1], entry, isRootAt)
         == (if isRootAt(roots[0], entry) == RootAt then [roots[0]] else []) + RootsAt(roots[1..][..k], entry, isRootAt)
  {
    assert roots[..k + 1] == [roots[0]] + roots[1..][..k];
    RootsAtCons(roots[0], roots[1..][..k], entry, isRootAt);
  }

  /** The scan keeps the roots at `entry` in the order of the list, up to the first failed check. */
  lemma {:induction false} ScanRootsInOrder(roots: seq<Root>, entry: Path, isRootAt: (Root, Path) -> RootCheck)
    ensures ScanRoots(roots, entry, isRootAt) == RootsAt(roots[..FailedAt(roots, entry, isRootAt)], entry, isRootAt)
    decreases |roots|
  {
    if |roots| > 0 && isRootAt(roots[0], entry) != RootCheckFailed {
      ScanRootsInOrder(roots[1..], entry, isRootAt);
      ScanRootsPrefix(roots, FailedAt(roots[1..], entry, isRootAt), entry, isRootAt);
    }
  }

  /**
   findRootsInProject: the roots of `project` located at `entry`, scanned
   until a check fails. A project whose roots cannot be listed yields none.
   */
  function FindRootsInProject(entry: Path, project: JavaProject, isRootAt: (Root, Path) -> RootCheck): (r: seq<Root>)
    ensures project.packageFragmentRoots.None? ==> r == []
    ensures forall x | x in r :: project.packageFragmentRoots.Some? && x in project.packageFragmentRoots.value
                                 && isRootAt(x, entry) == RootAt
    ensures project.packageFragmentRoots.Some? ==>
              var roots := project.packageFragmentRoots.value;
              forall i | 0 <= i < FailedAt(roots, entry, isRootAt) && isRootAt(roots[i], entry) == RootAt :: roots[i] in r
  {
    match project.packageFragmentRoots
    case None => []
    case Some(roots) => ScanRoots(roots, entry, isRootAt)
  }

  /** Project `i` is the first in `searchOrder` with roots at `entry`. */
  ghost predicate FirstMatchAt(entry: Path, searchOrder: seq<JavaProject>, isRootAt: (Root, Path) -> RootCheck, i: int)
  {
    && 0 <= i < |searchOrder|
    && FindRootsInProject(entry, searchOrder[i], isRootAt) != []
    && forall j | 0 <= j < i :: FindRootsInProject(entry, searchOrder[j], isRootAt) == []
  }

  /** When the first project has no roots at `entry`, a first match in the rest is a first match overall. */
  lemma FirstMatchShift(entry: Path, searchOrder: seq<JavaProject>, isRootAt: (Root, Path) -> RootCheck)
    requires 0 < |searchOrder| && FindRootsInProject(entry, searchOrder[0], isRootAt) == []
    ensures forall i | FirstMatchAt(entry, searchOrder[1..], isRootAt, i) ::
              FirstMatchAt(entry, searchOrder, isRootAt, i + 1) && searchOrder[1..][i] == searchOrder[i + 1]
    ensures forall i | 1 <= i < |searchOrder| :: searchOrder[i] == searchOrder[1..][i - 1]
  {
  }

  /**
   findRootsForClasspath: the roots found in the first project of the search
   order that has any; None (the Java null) when no project has any.
   */
  function FindRootsForClasspath(entry: Path, searchOrder: seq<JavaProject>, isRootAt: (Root, Path) -> RootCheck): (r: Option<seq<Root>>)
    ensures r.None? <==> forall i | 0 <= i < |searchOrder| :: FindRootsInProject(entry, searchOrder[i], isRootAt) == []
    ensures r.Some? ==> exists i :: FirstMatchAt(entry, searchOrder, isRootAt, i)
                                  && r.value == FindRootsInProject(entry, searchOrder[i], isRootAt)
    decreases |searchOrder|
  {
    if |searchOrder| == 0 then None
    else
      var elements := FindRootsInProject(entry, searchOrder[0], isRootAt);
      if elements != [] then Some(elements)
      else
        var rest := FindRootsForClasspath(entry, searchOrder[1..], isRootAt);
        FirstMatchShift(entry, searchOrder, isRootAt);
        rest
  }

  /** The roots an entry contributes: those of its first matching project, if any. */
  function RootsFor(entry: Path, searchOrder: seq<JavaProject>, isRootAt: (Root, Path) -> RootCheck): set<Root>
  {
    match FindRootsForClasspath(entry, searchOrder, isRootAt)
    case None => {}
    case Some(elements) => set x | x in elements
  }

  /** The roots collected for the entries of `classpath`. */
  function FoundRoots(classpath: seq<Path>, searchOrder: seq<JavaProject>, isRootAt: (Root, Path) -> RootCheck): (r: set<Root>)
    ensures forall x | x in r :: exists e | e in classpath :: x in RootsFor(e, searchOrder, isRootAt)
    ensures forall e | e in classpath :: RootsFor(e, searchOrder, isRootAt) <= r
    decreases |classpath|
  {
    if |classpath| == 0 then {}
    else
      var init := classpath[..|classpath| - 1];
      var entry := classpath[|classpath| - 1];
      assert forall e | e in init :: e in classpath;
      assert forall e | e in classpath :: e in init || e == entry;
      FoundRoots(init, searchOrder, isRootAt) + RootsFor(entry, searchOrder, isRootAt)
  }

  /** The warning an entry contributes: one when no project of the search order backs it. */
  function WarningFor(entry: Path, searchOrder: seq<JavaProject>, isRootAt: (Root, Path) -> RootCheck): MultiStatus
  {
    if FindRootsForClasspath(entry, searchOrder, isRootAt).None? then [StatusEntry(Warning, MissingClassFile(entry))] else []
  }

  /** One warning per entry of `classpath` that no project of the search order backs, in classpath order. */
  function MissingClassFileWarnings(classpath: seq<Path>, searchOrder: seq<JavaProject>, isRootAt: (Root, Path) -> RootCheck): (r: MultiStatus)
    ensures |r| <= |classpath|
    ensures forall w | w in r :: w.severity == Warning && w.message.MissingClassFile?
              && w.message.entry in classpath
              && FindRootsForClasspath(w.message.entry, searchOrder, isRootAt).None?
    ensures forall e | e in classpath && FindRootsForClasspath(e, searchOrder, isRootAt).None? ::
              StatusEntry(Warning, MissingClassFile(e)) in r
    decreases |classpath|
  {
    if |classpath| == 0 then []
    else
      var init := classpath[..|classpath| - 1];
      var entry := classpath[|classpath| - 1];
      assert forall e | e in init :: e in classpath;
      assert forall e | e in classpath :: e in init || e == entry;
      MissingClassFileWarnings(init, searchOrder, isRootAt) + WarningFor(entry, searchOrder, isRootAt)
  }

  /** Roots and warnings together, entry by entry, as the loop accumulates them. */
  function Collected(classpath: seq<Path>, searchOrder: seq<JavaProject>, isRootAt: (Root, Path) -> RootCheck): (set<Root>, MultiStatus)
    decreases |classpath|
  {
    if |classpath| == 0 then ({}, [])
    else
      var (roots, warnings) := Collected(classpath[..|classpath| - 1], searchOrder, isRootAt);
      var entry := classpath[|classpath| - 1];
      (roots + RootsFor(entry, searchOrder, isRootAt), warnings + WarningFor(entry, searchOrder, isRootAt))
  }

  lemma {:induction false} CollectedIsFoundAndMissing(classpath: seq<Path>, searchOrder: seq<JavaProject>, isRootAt: (Root, Path) -> RootCheck)
    ensures Collected(classpath, searchOrder, isRootAt)
         == (FoundRoots(classpath, searchOrder, isRootAt), MissingClassFileWarnings(classpath, searchOrder, isRootAt))
    decreases |classpath|
  {
    if |classpath| > 0 {
      CollectedIsFoundAndMissing(classpath[..|classpath| - 1], searchOrder, isRootAt);
    }
  }

  /** The warnings entry by entry, as the loop accumulates them. */
  function Warnings(classpath: seq<Path>, searchOrder: seq<JavaProject>, isRootAt: (Root, Path) -> RootCheck): MultiStatus
    decreases |classpath|
  {
    if |classpath| == 0 then []
    else Warnings(classpath[..|classpath| - 1], searchOrder, isRootAt) + WarningFor(classpath[|classpath| - 1], searchOrder, isRootAt)
  }

  lemma {:induction false} WarningsAppend(a: seq<Path>, b: seq<Path>, searchOrder: seq<JavaProject>, isRootAt: (Root, Path) -> RootCheck)
    ensures Warnings(a + b, searchOrder, isRootAt) == Warnings(a, searchOrder, isRootAt) + Warnings(b, searchOrder, isRootAt)
    decreases |b|
  {
    if |b| == 0 {
      assert a + b == a;
    } else {
      var t := a + b;
      var init := b[..|b| - 1];
      var w := WarningFor(b[|b| - 1], searchOrder, isRootAt);
      InitOfAppend(a, b);
      WarningsAppend(a, init, searchOrder, isRootAt);
      calc {
        Warnings(t, searchOrder, isRootAt);
        Warnings(a + init, searchOrder, isRootAt) + w;
        (Warnings(a, searchOrder, isRootAt) + Warnings(init, searchOrder, isRootAt)) + w;
        Warnings(a, searchOrder, isRootAt) + (Warnings(init, searchOrder, isRootAt) + w);
        Warnings(a, searchOrder, isRootAt) + Warnings(b, searchOrder, isRootAt);
      }
    }
  }

  lemma {:induction false} MissingClassFileWarningsAreWarnings(classpath: seq<Path>, searchOrder: seq<JavaProject>, isRootAt: (Root, Path) -> RootCheck)
    ensures MissingClassFileWarnings(classpath, searchOrder, isRootAt) == Warnings(classpath, searchOrder, isRootAt)
    decreases |classpath|
  {
    if |classpath| > 0 {
      MissingClassFileWarningsAreWarnings(classpath[..|classpath| - 1], searchOrder, isRootAt);
    }
  }

  /** The missing-class-file warnings of a concatenation are those of each part, in order. */
  lemma MissingClassFileWarningsAppend(a: seq<Path>, b: seq<Path>, searchOrder: seq<JavaProject>, isRootAt: (Root, Path) -> RootCheck)
    ensures MissingClassFileWarnings(a + b, searchOrder, isRootAt)
         == MissingClassFileWarnings(a, searchOrder, isRootAt) + MissingClassFileWarnings(b, searchOrder, isRootAt)
  {
    MissingClassFileWarningsAreWarnings(a + b, searchOrder, isRootAt);
    MissingClassFileWarningsAreWarnings(a, searchOrder, isRootAt);
    MissingClassFileWarningsAreWarnings(b, searchOrder, isRootAt);
    WarningsAppend(a, b, searchOrder, isRootAt);
  }

  /** A single entry yields exactly one warning when no project backs it, and none otherwise. */
  lemma MissingClassFileWarningsSingle(entry: Path, searchOrder: seq<JavaProject>, isRootAt: (Root, Path) -> RootCheck)
    ensures MissingClassFileWarnings([entry], searchOrder, isRootAt)
         == if FindRootsForClasspath(entry, searchOrder, isRootAt).None? then [StatusEntry(Warning, MissingClassFile(entry))] else []
  {
    assert [entry][..0] == [];
  }

  /** One turn of the loop: the roots and warnings after entry `i`, from those before it. */
  lemma CollectStep(classpath: seq<Path>, i: nat, searchOrder: seq<JavaProject>, isRootAt: (Root, Path) -> RootCheck)
    requires i < |classpath|
    ensures var (roots, warnings) := Collected(classpath[..i], searchOrder, isRootAt);
            Collected(classpath[..i + 1], searchOrder, isRootAt)
              == match FindRootsForClasspath(classpath[i], searchOrder, isRootAt)
                 case None => (roots, warnings + [StatusEntry(Warning, MissingClassFile(classpath[i]))])
                 case Some(elements) => (roots + (set x | x in elements), warnings)
  {
    var (roots, warnings) := Collected(classpath[..i], searchOrder, isRootAt);
    CollectedSnoc(classpath, i, searchOrder, isRootAt);
    var elements := FindRootsForClasspath(classpath[i], searchOrder, isRootAt);
    if elements.None? {
      assert roots + RootsFor(classpath[i], searchOrder, isRootAt) == roots;
    } else {
      assert warnings + WarningFor(classpath[i], searchOrder, isRootAt) == warnings;
    }
  }

  lemma CollectedSnoc(classpath: seq<Path>, i: nat, searchOrder: seq<JavaProject>, isRootAt: (Root, Path) -> RootCheck)
    requires i < |classpath|
    ensures var (roots, warnings) := Collected(classpath[..i], searchOrder, isRootAt);
            Collected(classpath[..i + 1], searchOrder, isRootAt)
              == (roots + RootsFor(classpath[i], searchOrder, isRootAt), warnings + WarningFor(classpath[i], searchOrder, isRootAt))
  {
    assert classpath[..i + 1][..i] == classpath[..i];
  }

  /**
   The loop of getRequiredPackageFragmentRoots: for each classpath entry
   either adds the roots found for it or appends a missing-class-file
   warning.
   */
  method CollectRoots(classpath: seq<Path>, searchOrder: seq<JavaProject>, isRootAt: (Root, Path) -> RootCheck, status: MultiStatus)
    returns (roots: set<Root>, statusOut: MultiStatus)
    ensures roots == FoundRoots(classpath, searchOrder, isRootAt)
    ensures statusOut == status + MissingClassFileWarnings(classpath, searchOrder, isRootAt)
  {
    roots := {};
    var warnings: MultiStatus := [];
    var i := 0;
    while i < |classpath|
      invariant 0 <= i <= |classpath|
      invariant (roots, warnings) == Collected(classpath[..i], searchOrder, isRootAt)
    {
      var entry := classpath[i];
      CollectStep(classpath, i, searchOrder, isRootAt);
      var elements := FindRootsForClasspath(entry, searchOrder, isRootAt);
      match elements {
        case None =>
          warnings := warnings + [StatusEntry(Warning, MissingClassFile(entry))];
        case Some(found) =>
          roots := roots + set x | x in found;
      }
      i := i + 1;
    }
    statusOut := status + warnings;
    assert classpath[..|classpath|] == classpath;
    CollectedIsFoundAndMissing(classpath, searchOrder, isRootAt);
  }

  /**
   getRequiredPackageFragmentRoots: the search order from `projectName`,
   then the roots of every classpath entry. `searchOrder` is returned too,
   so that callers can see what was searched.
   */
  method GetRequiredPackageFragmentRoots(
    classpath: seq<Path>, projectName: Name, ws: Projects,
    isRootAt: (Root, Path) -> RootCheck, status: MultiStatus)
    returns (roots: set<Root>, statusOut: MultiStatus, searchOrder: seq<JavaProject>)
    ensures searchOrder == SearchOrder.SearchOrderOf(projectName, ws)
    ensures forall p | p in searchOrder :: p in ws.Values
    ensures projectName in ws ==> 0 < |searchOrder| && searchOrder[0] == ws[projectName]
    ensures roots == FoundRoots(classpath, searchOrder, isRootAt)
    ensures statusOut == status + MissingClassFileWarnings(classpath, searchOrder, isRootAt)
  {
    var names;
    names, searchOrder := SearchOrder.GetProjectSearchOrder(projectName, ws);
    SearchOrder.ExistingProjectsInWorkspace(names, ws);
    roots, statusOut := CollectRoots(classpath, searchOrder, isRootAt, status);
  }
}
