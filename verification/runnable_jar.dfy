/**
 What the runnable-jar export collects from a launch configuration: the
 package fragment roots of its user classpath, the main class, and the
 problems met on the way.
 */
module RunnableJar {
  import opened Options
  import opened Workspace
  import opened Statuses
  import opened Classpath
  import opened FragmentRoots
  import opened LaunchConfigs
  import SearchOrder

  /** A type with a main method, as the main-method search engine reports it. */
  datatype MainType = MainType(fullyQualifiedName: string, root: Root)

  /** The part of `JarPackageData` this page writes. */
  datatype JarPackageData = JarPackageData(launchConfigurationName: string, manifestMainClass: Option<MainType>)

  /**
   The platform services consulted: the Java projects of the workspace,
   `Path.fromOSString`, `isRootAt`, and the main-method search over the
   resources of a set of roots (None when the roots have no resources or
   the search throws or is interrupted).
   */
  datatype Platform = Platform(
    projects: Projects,
    fromOSString: string -> Path,
    isRootAt: (Root, Path) -> RootCheck,
    searchMainMethods: set<Root> -> Option<seq<MainType>>)

  /**
   getMainClass: the stored main type name; when the configuration is null,
   the attribute is unset or its lookup throws, "" and one warning.
   */
  function GetMainClass(config: Option<LaunchConfig>, status: MultiStatus): (r: (string, MultiStatus))
    ensures config.Some? && config.value.mainTypeName.Stored? ==> r == (config.value.mainTypeName.value, status)
    ensures !(config.Some? && config.value.mainTypeName.Stored?) ==>
              r == ("", status + [StatusEntry(Warning, LaunchConfigurationWithoutMainType)])
  {
    var result := if config.Some? && config.value.mainTypeName.Stored? then Some(config.value.mainTypeName.value) else None;
    match result
    case Some(name) => (name, status)
    case None => ("", status + [StatusEntry(Warning, LaunchConfigurationWithoutMainType)])
  }

  /** The main class is "" with a warning exactly when no main type name is stored. */
  lemma MainClassWarnsIffUnset(config: Option<LaunchConfig>, status: MultiStatus)
    ensures |GetMainClass(config, status).1| == |status| + 1
        <==> !(config.Some? && config.value.mainTypeName.Stored?)
    ensures GetMainClass(config, status).1[..|status|] == status
  {
  }

  /**
   The scan of findMainMethodByName: the first reported type whose fully
   qualified name is `name`.
   */
  function FirstNamed(types: seq<MainType>, name: string): (r: Option<MainType>)
    ensures r.None? <==> forall i | 0 <= i < |types| :: types[i].fullyQualifiedName != name
    ensures r.Some? ==> exists i | 0 <= i < |types| :: types[i] == r.value
                          && r.value.fullyQualifiedName == name
                          && forall k | 0 <= k < i :: types[k].fullyQualifiedName != name
    decreases |types|
  {
    if |types| == 0 then None
    else if types[0].fullyQualifiedName == name then Some(types[0])
    else
      var rest := FirstNamed(types[1..], name);
      assert forall i | 1 <= i < |types| :: types[i] == types[1..][i - 1];
      rest
  }

  /** findMainMethodByName: the first main type named `name` that the search over `roots` reports. */
  function FindMainMethodByName(name: string, roots: set<Root>, platform: Platform): (r: Option<MainType>)
    ensures platform.searchMainMethods(roots).None? ==> r.None?
    ensures r.Some? ==> r.value.fullyQualifiedName == name && r.value in platform.searchMainMethods(roots).value
    ensures platform.searchMainMethods(roots).Some? ==>
              (r.None? <==> forall t | t in platform.searchMainMethods(roots).value :: t.fullyQualifiedName != name)
    ensures platform.searchMainMethods(roots).Some? ==> r == FirstNamed(platform.searchMainMethods(roots).value, name)
  {
    match platform.searchMainMethods(roots)
    case None => None
    case Some(types) => FirstNamed(types, name)
  }

  /**
   The shape of what the export appends to the status: missing-class-file
   warnings, then possibly the missing-main-type warning, then possibly the
   no-main-method error.
   */
  lemma ReportedProblems(status: MultiStatus, missing: MultiStatus, noMainTypeName: bool, noMainMethod: bool)
    requires forall w | w in missing :: w.severity == Warning && w.message.MissingClassFile?
    ensures var s2 := status + missing + (if noMainTypeName then [StatusEntry(Warning, LaunchConfigurationWithoutMainType)] else []);
            var s3 := if noMainMethod then s2 + [StatusEntry(Error, NoMainMethod)] else s2;
            && |status| <= |s3| && s3[..|status|] == status
            && (noMainMethod <==> |status| < |s3| && s3[|s3| - 1] == StatusEntry(Error, NoMainMethod))
            && (forall k | |status| <= k < |s3| - 1 :: s3[k].severity == Warning)
            && (StatusEntry(Warning, LaunchConfigurationWithoutMainType) in s3[|status|..] <==> noMainTypeName)
  {
    var s2 := status + missing + (if noMainTypeName then [StatusEntry(Warning, LaunchConfigurationWithoutMainType)] else []);
    var s3 := if noMainMethod then s2 + [StatusEntry(Error, NoMainMethod)] else s2;
    var added := s3[|status|..];
    var me: MultiStatus := if noMainMethod then [StatusEntry(Error, NoMainMethod)] else [];
    var tail := (if noMainTypeName then [StatusEntry(Warning, LaunchConfigurationWithoutMainType)] else []) + me;
    assert s3 == s2 + me;
    assert s3 == status + (missing + tail);
    assert added == missing + tail;
    forall k | |status| <= k < |s3|
      ensures s3[k] == added[k - |status|]
    {
    }
    forall k | |status| <= k < |s3| - 1
      ensures s3[k].severity == Warning
    {
      if k - |status| < |missing| {
        assert added[k - |status|] in missing;
      }
    }
    if !noMainMethod && |status| < |s3| {
      var last := added[|added| - 1];
      if |tail| == 0 {
        assert last in missing;
      }
    }
  }

  /** The user classpath of a configuration whose classpath resolves. */
  function ConfigClasspath(lc: LaunchConfig, platform: Platform): seq<Path>
    requires lc.runtimeClasspath.Some?
  {
    UserClasspath(lc.runtimeClasspath.value, platform.fromOSString)
  }

  /** The search order from a configuration's project (default ""), when its name can be read. */
  function ConfigSearchOrder(lc: LaunchConfig, platform: Platform): seq<JavaProject>
    requires !lc.projectName.AttributeFails?
  {
    SearchOrder.SearchOrderOf(GetAttribute(lc.projectName, "").value, platform.projects)
  }

  /** The warning getMainClass adds when no main type name is stored. */
  function MainTypeWarning(lc: LaunchConfig): MultiStatus
  {
    if lc.mainTypeName.Stored? then [] else [StatusEntry(Warning, LaunchConfigurationWithoutMainType)]
  }

  /** The error added when no main method is found. */
  function MainMethodError(mainType: Option<MainType>): MultiStatus
  {
    if mainType.None? then [StatusEntry(Error, NoMainMethod)] else []
  }

  /** The result of the static getSelectedElementsWithoutContainedChildren. */
  datatype Selection =
    | CoreException
    | Selected(elements: set<Root>, data: JarPackageData, status: MultiStatus)

  /**
   The static getSelectedElementsWithoutContainedChildren: for a null
   configuration nothing; otherwise the roots of the user classpath, searched
   from the configuration's project, the main class named by the
   configuration if the search over those roots reports it, and the
   warnings and the error met. A failing project-name lookup or classpath
   resolution throws before anything is reported.
   */
  method GetSelectedElementsWithoutContainedChildren(
    config: Option<LaunchConfig>, data: JarPackageData, platform: Platform, status: MultiStatus)
    returns (r: Selection)
    ensures config.None? ==> r == Selected({}, data, status)
    ensures config.Some? && (config.value.projectName.AttributeFails? || config.value.runtimeClasspath.None?) ==>
              r == CoreException
    ensures config.Some? && !config.value.projectName.AttributeFails? && config.value.runtimeClasspath.Some? ==>
              r.Selected?
    ensures r.Selected? ==> |status| <= |r.status| && r.status[..|status|] == status
    ensures r.Selected? ==> r.data.launchConfigurationName == data.launchConfigurationName
    ensures r.Selected? && config.Some? ==>
              r.data.manifestMainClass == FindMainMethodByName(GetMainClass(config, []).0, r.elements, platform)
    ensures r.Selected? && config.Some? ==>
              (r.data.manifestMainClass.None? <==> |status| < |r.status| && r.status[|r.status| - 1] == StatusEntry(Error, NoMainMethod))
    ensures r.Selected? ==> forall k | |status| <= k < |r.status| - 1 :: r.status[k].severity == Warning
    ensures r.Selected? && config.Some? ==>
              (StatusEntry(Warning, LaunchConfigurationWithoutMainType) in r.status[|status|..] <==> !config.value.mainTypeName.Stored?)
    ensures r.Selected? && config.Some? && !config.value.projectName.AttributeFails? && config.value.runtimeClasspath.Some? ==>
              var lc := config.value;
              var classpath := ConfigClasspath(lc, platform);
              var searchOrder := ConfigSearchOrder(lc, platform);
              && r.elements == FoundRoots(classpath, searchOrder, platform.isRootAt)
              && r.status == status + MissingClassFileWarnings(classpath, searchOrder, platform.isRootAt)
                             + MainTypeWarning(lc) + MainMethodError(r.data.manifestMainClass)
  {
    if config.None? {
      return Selected({}, data, status);
    }
    var launchConfig := config.value;
    var projectName := GetAttribute(launchConfig.projectName, "");
    if projectName.None? || launchConfig.runtimeClasspath.None? {
      return CoreException;
    }
    var classpath := GetClasspath(launchConfig.runtimeClasspath.value, platform.fromOSString);
    var classpathResources, status1, searchOrder :=
      GetRequiredPackageFragmentRoots(classpath, projectName.value, platform.projects, platform.isRootAt, status);
    assert classpath == ConfigClasspath(launchConfig, platform);
    assert searchOrder == ConfigSearchOrder(launchConfig, platform);
    ghost var missing := MissingClassFileWarnings(classpath, searchOrder, platform.isRootAt);
    assert status1[|status|..] == missing;
    r := SelectMainClass(launchConfig, classpathResources, data, platform, status, status1[|status|..]);
  }

  /**
   The rest of the static getSelectedElementsWithoutContainedChildren, once
   the roots are found and `missing` reported: the main class by name among
   the roots, and the warning and the error that go with it.
   */
  method SelectMainClass(
    launchConfig: LaunchConfig, classpathResources: set<Root>, data: JarPackageData, platform: Platform,
    status: MultiStatus, missing: MultiStatus)
    returns (r: Selection)
    requires forall w | w in missing :: w.severity == Warning && w.message.MissingClassFile?
    ensures r.Selected? && r.elements == classpathResources
    ensures |status| <= |r.status| && r.status[..|status|] == status
    ensures r.data.launchConfigurationName == data.launchConfigurationName
    ensures r.data.manifestMainClass == FindMainMethodByName(GetMainClass(Some(launchConfig), []).0, classpathResources, platform)
    ensures r.data.manifestMainClass.None? <==> |status| < |r.status| && r.status[|r.status| - 1] == StatusEntry(Error, NoMainMethod)
    ensures forall k | |status| <= k < |r.status| - 1 :: r.status[k].severity == Warning
    ensures StatusEntry(Warning, LaunchConfigurationWithoutMainType) in r.status[|status|..] <==> !launchConfig.mainTypeName.Stored?
    ensures r.status == status + missing + MainTypeWarning(launchConfig) + MainMethodError(r.data.manifestMainClass)
  {
    var status1 := status + missing;
    var (mainClass, status2) := GetMainClass(Some(launchConfig), status1);
    var mainType := FindMainMethodByName(mainClass, classpathResources, platform);
    var status3 := if mainType.None? then status2 + [StatusEntry(Error, NoMainMethod)] else status2;
    ReportedProblems(status, missing, !launchConfig.mainTypeName.Stored?, mainType.None?);
    r := Selected(classpathResources, data.(manifestMainClass := mainType), status3);
  }

  /**
   The page's getSelectedElementsWithoutContainedChildren: records the label
   of the selected combo entry as the jar's launch configuration name, then
   collects from that entry's configuration; a CoreException is logged and
   the result is null (None). The combo keeps `index` within the entries.
   */
  method GetSelectedElementsOfPage(
    model: seq<LaunchConfigurationElement>, index: int, data: JarPackageData, platform: Platform, status: MultiStatus)
    returns (elements: Option<set<Root>>, dataOut: JarPackageData, statusOut: MultiStatus)
    requires 0 <= index < |model|
    ensures dataOut.launchConfigurationName == LaunchConfigurationName(model[index])
    ensures var config := model[index].launchConfiguration;
            elements.None? <==> config.projectName.AttributeFails? || config.runtimeClasspath.None?
    ensures elements.None? ==> statusOut == status && dataOut.manifestMainClass == data.manifestMainClass
    ensures elements.Some? ==>
              dataOut.manifestMainClass == FindMainMethodByName(GetMainClass(Some(model[index].launchConfiguration), []).0, elements.value, platform)
    ensures var lc := model[index].launchConfiguration;
            elements.Some? && !lc.projectName.AttributeFails? && lc.runtimeClasspath.Some? ==>
              var classpath := ConfigClasspath(lc, platform);
              var searchOrder := ConfigSearchOrder(lc, platform);
              && elements.value == FoundRoots(classpath, searchOrder, platform.isRootAt)
              && statusOut == status + MissingClassFileWarnings(classpath, searchOrder, platform.isRootAt)
                              + MainTypeWarning(lc) + MainMethodError(dataOut.manifestMainClass)
  {
    var element := model[index];
    var named := data.(launchConfigurationName := LaunchConfigurationName(element));
    var r := GetSelectedElementsWithoutContainedChildren(Some(element.launchConfiguration), named, platform, status);
    match r {
      case CoreException =>
        elements, dataOut, statusOut := None, named, status;
      case Selected(roots, data', status') =>
        elements, dataOut, statusOut := Some(roots), data', status';
    }
  }
}
