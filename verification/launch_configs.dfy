/**
 Java-application launch configurations as the runnable-jar wizard reads
 them, and the entries of its launch-configuration combo box.
 */
module LaunchConfigs {
  import opened Options
  import opened Classpath

  /**
   What `getAttribute(key, default)` meets for one key: a CoreException,
   a stored string, or no stored value (the default is returned).
   */
  datatype Attribute = AttributeFails | Stored(value: string) | Unset

  /**
   A launch configuration. `runtimeClasspath` is the resolved runtime
   classpath, None when computing or resolving it throws a CoreException.
   */
  datatype LaunchConfig = LaunchConfig(
    name: string,
    projectName: Attribute,
    mainTypeName: Attribute,
    programArguments: Attribute,
    vmArguments: Attribute,
    runtimeClasspath: Option<seq<RuntimeClasspathEntry>>)

  /** `getAttribute(key, default)`: None when it throws, else the stored value or the default. */
  function GetAttribute(a: Attribute, default: string): (r: Option<string>)
    ensures r.None? <==> a.AttributeFails?
    ensures a.Stored? ==> r == Some(a.value)
    ensures a.Unset? ==> r == Some(default)
  {
    match a
    case AttributeFails => None
    case Stored(v) => Some(v)
    case Unset => Some(default)
  }

  /**
   `getAttribute(key, (String) null) != null`, with a CoreException logged
   and read as false: true exactly when a value is stored.
   */
  predicate IsSet(a: Attribute)
  {
    a.Stored?
  }

  /** An entry of the combo box: a configuration with the project name read when the list was built. */
  datatype LaunchConfigurationElement = ExistingLaunchConfigurationElement(launchConfiguration: LaunchConfig, projectName: string)

  /** The entry's label: the configuration name, " - ", the project name. */
  function LaunchConfigurationName(e: LaunchConfigurationElement): (r: string)
    ensures |r| == |e.launchConfiguration.name| + 3 + |e.projectName|
    ensures r[..|e.launchConfiguration.name|] == e.launchConfiguration.name
    ensures r[|e.launchConfiguration.name|..|e.launchConfiguration.name| + 3] == " - "
    ensures r[|r| - |e.projectName|..] == e.projectName
  {
    e.launchConfiguration.name + " - " + e.projectName
  }

  /**
   hasProgramArguments: the stored program arguments are read back when
   there are any; a failing read and an unset attribute both answer false.
   */
  function HasProgramArguments(e: LaunchConfigurationElement): (r: bool)
    ensures r ==> e.launchConfiguration.programArguments.Stored?
                  && GetAttribute(e.launchConfiguration.programArguments, "") == Some(e.launchConfiguration.programArguments.value)
    ensures !r <==> e.launchConfiguration.programArguments.AttributeFails? || e.launchConfiguration.programArguments.Unset?
  {
    IsSet(e.launchConfiguration.programArguments)
  }

  /** hasVMArguments: the same question for the VM arguments. */
  function HasVMArguments(e: LaunchConfigurationElement): (r: bool)
    ensures r ==> e.launchConfiguration.vmArguments.Stored?
                  && GetAttribute(e.launchConfiguration.vmArguments, "") == Some(e.launchConfiguration.vmArguments.value)
    ensures !r <==> e.launchConfiguration.vmArguments.AttributeFails? || e.launchConfiguration.vmArguments.Unset?
  {
    IsSet(e.launchConfiguration.vmArguments)
  }

  /**
   getLaunchConfigurations: one entry per Java-application configuration,
   with its project name (default ""). `configs` is None when the launch
   manager fails; a project-name lookup that throws ends the list there,
   keeping the entries built before it.
   */
  function GetLaunchConfigurations(configs: Option<seq<LaunchConfig>>): (r: seq<LaunchConfigurationElement>)
    ensures configs.None? ==> r == []
    ensures configs.Some? ==> |r| <= |configs.value|
    ensures configs.Some? ==> forall i | 0 <= i < |r| ::
              r[i].launchConfiguration == configs.value[i] && GetAttribute(configs.value[i].projectName, "") == Some(r[i].projectName)
    ensures configs.Some? && |r| < |configs.value| ==> configs.value[|r|].projectName.AttributeFails?
  {
    match configs
    case None => []
    case Some(cs) => ElementsUntilFailure(cs)
  }

  function ElementsUntilFailure(cs: seq<LaunchConfig>): (r: seq<LaunchConfigurationElement>)
    ensures |r| <= |cs|
    ensures forall i | 0 <= i < |r| :: r[i].launchConfiguration == cs[i] && GetAttribute(cs[i].projectName, "") == Some(r[i].projectName)
    ensures |r| < |cs| ==> cs[|r|].projectName.AttributeFails?
    decreases |cs|
  {
    if |cs| == 0 then []
    else
      match GetAttribute(cs[0].projectName, "")
      case None => []
      case Some(projectName) => [ExistingLaunchConfigurationElement(cs[0], projectName)] + ElementsUntilFailure(cs[1..])
  }
}
