/**
 The user classpath of a launch configuration: the locations of the
 resolved runtime classpath entries that hold user classes, without
 repetitions, in the order they are first met.
 */
module Classpath {
  import opened Options
  import opened Lists
  import opened Workspace

  /** `IRuntimeClasspathEntry.getClasspathProperty()`. */
  datatype ClasspathProperty = StandardClasses | BootstrapClasses | UserClasses

  /** A resolved runtime classpath entry; `location` is None when `getLocation()` is null. */
  datatype RuntimeClasspathEntry = RuntimeClasspathEntry(classpathProperty: ClasspathProperty, location: Option<string>)

  predicate IsUserEntry(e: RuntimeClasspathEntry)
  {
    e.classpathProperty == UserClasses && e.location.Some?
  }

  /** The paths of the user entries, in entry order, repetitions included. */
  function UserLocations(entries: seq<RuntimeClasspathEntry>, fromOSString: string -> Path): (r: seq<Path>)
    decreases |entries|
  {
    if |entries| == 0 then []
    else
      var last := entries[|entries| - 1];
      UserLocations(entries[..|entries| - 1], fromOSString)
        + (if IsUserEntry(last) then [fromOSString(last.location.value)] else [])
  }

  /** The classpath getClasspath returns: the user locations, each kept at its first occurrence. */
  function UserClasspath(entries: seq<RuntimeClasspathEntry>, fromOSString: string -> Path): seq<Path>
  {
    Dedup(UserLocations(entries, fromOSString))
  }

  /** A path is a user location exactly when some user entry's location converts to it. */
  lemma {:induction false} UserLocationsMembership(entries: seq<RuntimeClasspathEntry>, fromOSString: string -> Path, p: Path)
    ensures p in UserLocations(entries, fromOSString)
        <==> exists i | 0 <= i < |entries| :: IsUserEntry(entries[i]) && fromOSString(entries[i].location.value) == p
    decreases |entries|
  {
    if |entries| > 0 {
      var init := entries[..|entries| - 1];
      UserLocationsMembership(init, fromOSString, p);
      if exists i | 0 <= i < |init| :: IsUserEntry(init[i]) && fromOSString(init[i].location.value) == p {
        var i :| 0 <= i < |init| && IsUserEntry(init[i]) && fromOSString(init[i].location.value) == p;
        assert entries[i] == init[i];
      }
      if exists i | 0 <= i < |entries| :: IsUserEntry(entries[i]) && fromOSString(entries[i].location.value) == p {
        var i :| 0 <= i < |entries| && IsUserEntry(entries[i]) && fromOSString(entries[i].location.value) == p;
        if i < |init| {
          assert init[i] == entries[i];
        }
      }
    }
  }

  /** Scanning entry `i` extends the scan of the entries before it by that entry's contribution. */
  lemma ScanStep(entries: seq<RuntimeClasspathEntry>, i: nat, fromOSString: string -> Path)
    requires i < |entries|
    ensures IsUserEntry(entries[i]) ==>
      Dedup(UserLocations(entries[..i + 1], fromOSString))
        == AppendIfAbsent(Dedup(UserLocations(entries[..i], fromOSString)), fromOSString(entries[i].location.value))
    ensures !IsUserEntry(entries[i]) ==>
      Dedup(UserLocations(entries[..i + 1], fromOSString)) == Dedup(UserLocations(entries[..i], fromOSString))
  {
    assert entries[..i + 1][..i] == entries[..i];
    var before := UserLocations(entries[..i], fromOSString);
    if !IsUserEntry(entries[i]) {
      assert UserLocations(entries[..i + 1], fromOSString) == before + [];
      assert before + [] == before;
    }
  }

  /**
   getClasspath, after resolution: keeps the entries whose property is
   USER_CLASSES and whose location is not null, converts each location to a
   path, and adds the path unless the list already contains it.
   */
  method GetClasspath(entries: seq<RuntimeClasspathEntry>, fromOSString: string -> Path) returns (paths: seq<Path>)
    ensures paths == UserClasspath(entries, fromOSString)
    ensures KeepsFirstOccurrences(paths, UserLocations(entries, fromOSString))
  {
    paths := [];
    var i := 0;
    while i < |entries|
      invariant 0 <= i <= |entries|
      invariant paths == Dedup(UserLocations(entries[..i], fromOSString))
    {
      ScanStep(entries, i, fromOSString);
      if entries[i].classpathProperty == UserClasses {
        match entries[i].location
        case Some(location) =>
          var entry := fromOSString(location);
          paths := AppendIfAbsent(paths, entry);
        case None =>
      }
      i := i + 1;
    }
    assert entries[..|entries|] == entries;
    DedupKeepsFirstOccurrences(UserLocations(entries, fromOSString));
  }
}
