# Runnable-jar export and search-result labels, modelled in Dafny

This project models four pieces of the Eclipse JDT UI.

- **The runnable-jar wizard page** (`FatJarPackageWizardPage`). From a Java-application launch configuration it collects:
  - the package fragment roots that back the user classpath;
  - the main class;
  - the warnings and the error met on the way.

  It also runs the page's validation of the launch-configuration combo and its message line.
- **The tree-layout label of a search match** (`PostfixLabelProvider`). The label is the element's text, then the match count, then a postfix that names the ancestors the tree does not show.
- **The flat-layout label of a search match** (`SortingLabelProvider`). The label is the element's text and the match count. `setOrder` picks the text flags for each display order.
- **The JSP type query** (`JspTypeQuery`). It decides which index files to consult, builds the key it looks up, and reports the hits.

Platform services are parameters of the model:

- the workspace's Java projects are a map from name to project;
- `isRootAt` is a function that answers yes, no, or throws;
- `Path.fromOSString` is a function;
- the main-method search engine is a function from a set of roots to the types it reports;
- the label provider's text, the search participant's text, the match counts and the viewer's parents are functions;
- the index's prefix query is a function that answers with hits, with null, or with an IOException.

An exception the source catches becomes a value of the model:

- `AttributeFails` for an attribute lookup;
- `None` for a requirement query or a classpath resolution;
- `RootCheckFailed` for `isRootAt`;
- `NatureCheckFails` for a project nature.

Java's `null` is `None` throughout.

Modules:

- `Options`, `Lists`, `Decimal`: shared helpers. They hold first-occurrence de-duplication and the decimal rendering of a count.
- `Workspace`, `SearchOrder`, `Classpath`, `Statuses`, `FragmentRoots`, `LaunchConfigs`, `PageMessages`, `RunnableJar`: the wizard page.
- `JavaElements`, `SearchLabels`, `PostfixLabels`, `SortingLabels`: the two label providers.
- `JspTypeQuery`: the JSP query.

## Model

| member | source | states |
|---|---|---|
| SearchOrder.GetProjectSearchOrder | org.eclipse.jdt.ui/ui/org/eclipse/jdt/internal/ui/jarpackagerfat/FatJarPackageWizardPage.java:303-337 | The worklist starts at the given project and holds no name twice. It contains every name that a listed, existing project requires. Every name after the first was required by a name listed before it. The list is in breadth-first order: a name first required by an earlier project comes earlier, and names first required by the same project keep the order of that project's required names. The search order is the worklist restricted to existing projects, in worklist order. |
| SearchOrder.VisitKeepsBreadthFirst | org.eclipse.jdt.ui/ui/org/eclipse/jdt/internal/ui/jarpackagerfat/FatJarPackageWizardPage.java:308-325 | Visiting one more project keeps the worklist in breadth-first order, now counted over the projects visited so far. The names it appends are first required by the project just visited. |
| SearchOrder.SearchOrderIsLeastClosed | org.eclipse.jdt.ui/ui/org/eclipse/jdt/internal/ui/jarpackagerfat/FatJarPackageWizardPage.java:305-326 | The names the worklist lists from a project are exactly the projects reachable from it. They form a set closed under "requires", and they lie inside every closed set that contains the start project. |
| SearchOrder.ExistingProjects | org.eclipse.jdt.ui/ui/org/eclipse/jdt/internal/ui/jarpackagerfat/FatJarPackageWizardPage.java:328-336 | The search order holds exactly the projects of the listed names that exist, and no more entries than names. When the start project exists, it comes first. |
| SearchOrder.ExistingProjectsAppend | org.eclipse.jdt.ui/ui/org/eclipse/jdt/internal/ui/jarpackagerfat/FatJarPackageWizardPage.java:328-336 | Restricting a concatenation of names to existing projects restricts each part, in order. So the search order keeps the worklist order and drops only missing projects. |
| Lists.AppendAllAbsent | org.eclipse.jdt.ui/ui/org/eclipse/jdt/internal/ui/jarpackagerfat/FatJarPackageWizardPage.java:315-319 | Adding a project's required names keeps the old list as a prefix. Every required name is in the result. Each new entry is a required name that was not there before, and the new entries are distinct. A list without duplicates stays without duplicates. |
| Lists.AppendAllAbsentOrder | org.eclipse.jdt.ui/ui/org/eclipse/jdt/internal/ui/jarpackagerfat/FatJarPackageWizardPage.java:315-319 | The names appended for one project come in the order of that project's required names. |
| Lists.AppendAllIdempotent | org.eclipse.jdt.ui/ui/org/eclipse/jdt/internal/ui/jarpackagerfat/FatJarPackageWizardPage.java:315-319 | Adding the same names a second time changes nothing. |
| Lists.AppendIfAbsent | org.eclipse.jdt.ui.examples.javafamily/src/org/eclipse/jsp/JspTypeQuery.java:54-56 | "Add unless contained": the element is in the result, the old list is a prefix, nothing else is added, and the list is unchanged exactly when the element was already present. |
| Classpath.GetClasspath | org.eclipse.jdt.ui/ui/org/eclipse/jdt/internal/ui/jarpackagerfat/FatJarPackageWizardPage.java:354-372 | The result is the user classpath: the converted locations of the user-class entries that have a location, with later repeats dropped. It has no duplicates and holds every such path. Its order is the order of first occurrence in the classpath. |
| Classpath.UserLocationsMembership | org.eclipse.jdt.ui/ui/org/eclipse/jdt/internal/ui/jarpackagerfat/FatJarPackageWizardPage.java:358-363 | A path is among the user locations exactly when some entry has the USER_CLASSES property and a non-null location that converts to that path. |
| Lists.KeepsFirstOccurrencesUnique | org.eclipse.jdt.ui/ui/org/eclipse/jdt/internal/ui/jarpackagerfat/FatJarPackageWizardPage.java:364-366 | Two lists that both keep the first occurrences of the same sequence are equal. So the de-duplicated classpath is determined by the entries alone. |
| Lists.DedupKeepsFirstOccurrences | org.eclipse.jdt.ui.examples.javafamily/src/org/eclipse/jsp/JspTypeQuery.java:54-57 | Scanning a sequence with "add unless contained" keeps exactly its first occurrences, in order. |
| FragmentRoots.ScanRoots | org.eclipse.jdt.ui/ui/org/eclipse/jdt/internal/ui/jarpackagerfat/FatJarPackageWizardPage.java:426-441 | The roots found for a project are exactly its roots located at the entry that come before the first root whose check throws. Nothing after that failure is returned. |
| FragmentRoots.ScanRootsInOrder | org.eclipse.jdt.ui/ui/org/eclipse/jdt/internal/ui/jarpackagerfat/FatJarPackageWizardPage.java:426-441 | The scan equals the roots at the entry, filtered from the list before the first failed check, in list order. |
| FragmentRoots.FindRootsInProject | org.eclipse.jdt.ui/ui/org/eclipse/jdt/internal/ui/jarpackagerfat/FatJarPackageWizardPage.java:426-441 | A project whose roots cannot be listed contributes no roots. Otherwise every root it contributes is one of its own roots and is located at the entry. Every such root before the first failed check is contributed. |
| FragmentRoots.FindRootsForClasspath | org.eclipse.jdt.ui/ui/org/eclipse/jdt/internal/ui/jarpackagerfat/FatJarPackageWizardPage.java:416-424 | The result is null exactly when no project in the search order has roots at the entry. Otherwise it is the root list of the first project in search order that has any. |
| FragmentRoots.FoundRoots | org.eclipse.jdt.ui/ui/org/eclipse/jdt/internal/ui/jarpackagerfat/FatJarPackageWizardPage.java:396-414 | A root is collected only if it backs some classpath entry. Every root that backs an entry is collected. |
| FragmentRoots.MissingClassFileWarnings | org.eclipse.jdt.ui/ui/org/eclipse/jdt/internal/ui/jarpackagerfat/FatJarPackageWizardPage.java:403-406 | Every appended entry is a missing-class-file WARNING for a classpath entry that no project backs. Each such entry gets its warning. |
| FragmentRoots.MissingClassFileWarningsAppend | org.eclipse.jdt.ui/ui/org/eclipse/jdt/internal/ui/jarpackagerfat/FatJarPackageWizardPage.java:401-411 | The warnings for a concatenation of entries are the warnings for each part, in order. With the single-entry case this gives exactly one warning per unbacked entry, in classpath order. |
| FragmentRoots.MissingClassFileWarningsSingle | org.eclipse.jdt.ui/ui/org/eclipse/jdt/internal/ui/jarpackagerfat/FatJarPackageWizardPage.java:403-406 | One entry yields one missing-class-file warning when no project backs it, and none otherwise. |
| FragmentRoots.CollectedIsFoundAndMissing | org.eclipse.jdt.ui/ui/org/eclipse/jdt/internal/ui/jarpackagerfat/FatJarPackageWizardPage.java:401-411 | Accumulating over the classpath one entry at a time yields exactly the collected roots and the missing-entry warnings. |
| FragmentRoots.CollectRoots | org.eclipse.jdt.ui/ui/org/eclipse/jdt/internal/ui/jarpackagerfat/FatJarPackageWizardPage.java:401-411 | The loop yields the union of the roots found for every entry. It appends to the caller's status exactly the missing-class-file warnings, in classpath order. |
| FragmentRoots.GetRequiredPackageFragmentRoots | org.eclipse.jdt.ui/ui/org/eclipse/jdt/internal/ui/jarpackagerfat/FatJarPackageWizardPage.java:396-414 | The roots are searched over the start project's search order, as the worklist computes it. Its projects all belong to the workspace, and it starts with the start project when that exists. The status grows by exactly the missing-class-file warnings. |
| LaunchConfigs.GetLaunchConfigurations | org.eclipse.jdt.ui/ui/org/eclipse/jdt/internal/ui/jarpackagerfat/FatJarPackageWizardPage.java:268-287 | One combo entry per configuration, in order, each with the project name its lookup returned ("" when unset). The list is empty when the launch manager fails. A project-name lookup that throws ends the list there. |
| LaunchConfigs.LaunchConfigurationName | org.eclipse.jdt.ui/ui/org/eclipse/jdt/internal/ui/jarpackagerfat/FatJarPackageWizardPage.java:116-124 | The entry's label is the configuration name, then " - ", then the project name. |
| LaunchConfigs.HasProgramArguments | org.eclipse.jdt.ui/ui/org/eclipse/jdt/internal/ui/jarpackagerfat/FatJarPackageWizardPage.java:126-133 | True exactly when program arguments are stored, and then reading them returns the stored value. A failing read (logged) and an unset attribute both give false. |
| LaunchConfigs.HasVMArguments | org.eclipse.jdt.ui/ui/org/eclipse/jdt/internal/ui/jarpackagerfat/FatJarPackageWizardPage.java:135-142 | True exactly when VM arguments are stored, and then reading them returns the stored value. A failing read (logged) and an unset attribute both give false. |
| PageMessages.ClearMessages | org.eclipse.jdt.ui/ui/org/eclipse/jdt/internal/ui/jarpackagerfat/FatJarPackageWizardPage.java:251-256 | After clearing, neither an error message nor a message is shown. The message type becomes NONE if a message was shown. |
| PageMessages.SetWarningMessage | org.eclipse.jdt.ui/ui/org/eclipse/jdt/internal/ui/jarpackagerfat/FatJarPackageWizardPage.java:258-266 | Afterwards a message of severity WARNING or above is shown. The page is unchanged exactly when one was shown before. Otherwise the new message is shown as a WARNING. |
| PageMessages.WarningIsSticky | org.eclipse.jdt.ui/ui/org/eclipse/jdt/internal/ui/jarpackagerfat/FatJarPackageWizardPage.java:258-266 | A second warning never replaces the first. |
| PageMessages.ValidateLaunchConfigurationGroup | org.eclipse.jdt.ui/ui/org/eclipse/jdt/internal/ui/jarpackagerfat/FatJarPackageWizardPage.java:233-246 | The result is true exactly when an entry is selected. A page that already shows a warning is left unchanged. When no warning was shown before and the entry has program or VM arguments, the page then shows a message of WARNING severity. The program-arguments warning is shown when the entry has program arguments and no warning was shown before. The VM-arguments warning is shown when the entry has VM arguments but no program arguments, and no warning was shown before. The page is untouched when the entry has neither. |
| PageMessages.IsPageComplete | org.eclipse.jdt.ui/ui/org/eclipse/jdt/internal/ui/jarpackagerfat/FatJarPackageWizardPage.java:226-231 | The page is complete exactly when the destination group validates and a launch configuration is selected. The page state is the destination check's result on the cleared page. With no selection, or when the destination check leaves a warning, nothing more changes. Otherwise it is the launch-configuration check applied to that state. |
| PageMessages.ProgramArgumentsWarningWins | org.eclipse.jdt.ui/ui/org/eclipse/jdt/internal/ui/jarpackagerfat/FatJarPackageWizardPage.java:226-246 | With both kinds of argument set, the program-arguments warning is what the page shows, unless the destination check left a warning or error behind. |
| RunnableJar.GetMainClass | org.eclipse.jdt.ui/ui/org/eclipse/jdt/internal/ui/jarpackagerfat/FatJarPackageWizardPage.java:374-388 | The stored main type name is returned and the status is untouched. Otherwise (null configuration, no value, or a failing lookup) "" is returned and exactly one WARNING is appended. |
| RunnableJar.MainClassWarnsIffUnset | org.eclipse.jdt.ui/ui/org/eclipse/jdt/internal/ui/jarpackagerfat/FatJarPackageWizardPage.java:374-388 | The status grows by one entry exactly when no main type name is stored, and the caller's entries stay in front. |
| RunnableJar.FirstNamed | org.eclipse.jdt.ui/ui/org/eclipse/jdt/internal/ui/jarpackagerfat/FatJarPackageWizardPage.java:489-492 | The result is the first reported type with the given fully qualified name. It is null exactly when no reported type has that name. |
| RunnableJar.FindMainMethodByName | org.eclipse.jdt.ui/ui/org/eclipse/jdt/internal/ui/jarpackagerfat/FatJarPackageWizardPage.java:470-498 | When the search over the roots succeeds, the result is the first reported type with the requested name, and null when none has it. When the search fails, the result is null. |
| RunnableJar.ReportedProblems | org.eclipse.jdt.ui/ui/org/eclipse/jdt/internal/ui/jarpackagerfat/FatJarPackageWizardPage.java:568-574 | What is appended to the status is: missing-class-file warnings, then possibly the missing-main-type warning, then possibly the no-main-method ERROR. The ERROR is last exactly when it is added, and the missing-main-type warning is present exactly when it is added. |
| RunnableJar.SelectMainClass | org.eclipse.jdt.ui/ui/org/eclipse/jdt/internal/ui/jarpackagerfat/FatJarPackageWizardPage.java:571-577 | The manifest main class is the main type found by name among the collected roots. The status becomes the caller's entries, then the missing-class-file warnings, then the missing-main-type warning when no name is stored, then the no-main-method ERROR when no type is found. |
| RunnableJar.GetSelectedElementsWithoutContainedChildren | org.eclipse.jdt.ui/ui/org/eclipse/jdt/internal/ui/jarpackagerfat/FatJarPackageWizardPage.java:561-578 | A null configuration yields no elements and leaves the data and the status alone. A failing project-name lookup or classpath resolution throws. Otherwise the elements are the roots found for the user classpath over the search order of the configuration's project. The manifest main class is the type found by the configured name among them. The status gets the missing-class-file warnings, then the missing-main-type warning when no name is stored, then the ERROR when no type is found. |
| RunnableJar.GetSelectedElementsOfPage | org.eclipse.jdt.ui/ui/org/eclipse/jdt/internal/ui/jarpackagerfat/FatJarPackageWizardPage.java:289-301 | The jar's launch configuration name is the selected entry's label. The result is null exactly when collecting from the selected configuration throws. Otherwise the elements, the main class and the status are those the static method computes for the selected configuration. |
| SearchLabels.InternalText | org.eclipse.jdt.ui/ui/org/eclipse/jdt/internal/ui/search/PostfixLabelProvider.java:64-72 | The label provider's text is used when it is neither null nor empty. Otherwise the participant's text is used, and "" when there is no participant. |
| SearchLabels.InternalTextEmpty | org.eclipse.jdt.ui/ui/org/eclipse/jdt/internal/ui/search/SortingLabelProvider.java:57-63 | The text is empty exactly when neither the label provider nor the participant supplies a non-empty text. |
| SearchLabels.MatchSuffixShowsCount | org.eclipse.jdt.ui/ui/org/eclipse/jdt/internal/ui/search/SortingLabelProvider.java:50 | The count suffix is " (", then decimal digits, then " matches)", and its digits read back as the count. |
| Decimal.DecimalRoundTrip | org.eclipse.jdt.ui/ui/org/eclipse/jdt/internal/ui/search/PostfixLabelProvider.java:61 | The decimal rendering of a count reads back as that count. |
| PostfixLabels.SameInformationOfParent | org.eclipse.jdt.ui/ui/org/eclipse/jdt/internal/ui/search/PostfixLabelProvider.java:74-86 | For an element and its parent, the parent adds no information exactly when the element is a type and the parent is a class file or compilation unit. That parent is then the type's own unit. |
| PostfixLabels.Segments | org.eclipse.jdt.ui/ui/org/eclipse/jdt/internal/ui/search/PostfixLabelProvider.java:47-54 | Every ancestor named in the postfix is reached by the walk before it stops. So it lies strictly above the element, is not the Java model, and is not the parent the tree shows. The ancestors are listed child first. |
| PostfixLabels.SegmentsComplete | org.eclipse.jdt.ui/ui/org/eclipse/jdt/internal/ui/search/PostfixLabelProvider.java:47-54 | Every element the walk passes is named in the postfix exactly when it is not the own class file or compilation unit of the type below it. With the previous row this makes the postfix complete. |
| PostfixLabels.GetText | org.eclipse.jdt.ui/ui/org/eclipse/jdt/internal/ui/search/PostfixLabelProvider.java:41-62 | With no matches the label is the text and the postfix. With one match it is the text alone. With more it is the text, the count suffix and the postfix. The postfix names, child first, the segments of the walk up to the shown parent. |
| SortingLabels.LabelTarget | org.eclipse.jdt.ui/ui/org/eclipse/jdt/internal/ui/search/SortingLabelProvider.java:54-55 | An import declaration is labelled by the element two levels above it. Any other element is labelled by itself. |
| SortingLabels.GetText | org.eclipse.jdt.ui/ui/org/eclipse/jdt/internal/ui/search/SortingLabelProvider.java:45-51 | With fewer than two matches the label is the text of the labelled element. Otherwise the count suffix is appended. |
| SortingLabels.GetTextShowsCount | org.eclipse.jdt.ui/ui/org/eclipse/jdt/internal/ui/search/SortingLabelProvider.java:45-51 | The label starts with the text. It is longer than the text exactly when there are at least two matches, and then the rest is the count suffix. |
| SortingLabels.SetOrder | org.eclipse.jdt.ui/ui/org/eclipse/jdt/internal/ui/search/SortingLabelProvider.java:66-82 | Every order keeps the default flags and adds P_COMPRESSED, and an unknown order adds nothing else. SHOW_ELEMENT_CONTAINER post-qualifies, and the other two orders fully qualify. The root path is prepended exactly for SHOW_PATH, or when the defaults already ask for it. For each known order the flag set is exactly the defaults plus P_COMPRESSED plus that order's qualification flags, and plus the root path for SHOW_PATH. |
| SortingLabels.ShowPathPrependsRoot | org.eclipse.jdt.ui/ui/org/eclipse/jdt/internal/ui/search/SortingLabelProvider.java:72-79 | SHOW_PATH's flags are SHOW_CONTAINER_ELEMENT's flags plus PREPEND_ROOT_PATH. |
| SortingLabels.OrdersDiffer | org.eclipse.jdt.ui/ui/org/eclipse/jdt/internal/ui/search/SortingLabelProvider.java:68-74 | The two name/container orders give different flags unless the defaults already post-qualify and fully qualify types. |
| JspTypeQuery.ComputePathsKeyingIndexFiles | org.eclipse.jdt.ui.examples.javafamily/src/org/eclipse/jsp/JspTypeQuery.java:46-61 | The keys after the call are the old keys followed by the paths of the accessible Java projects scanned before a nature check throws. Each path is added once and only if absent. |
| JspTypeQuery.ComputedPaths | org.eclipse.jdt.ui.examples.javafamily/src/org/eclipse/jsp/JspTypeQuery.java:46-61 | The old keys stay in front. The new keys are distinct, were absent before, and are each the full path of an accessible Java project. When no nature check throws, every accessible Java project's path is a key. |
| JspTypeQuery.ComputeIdempotent | org.eclipse.jdt.ui.examples.javafamily/src/org/eclipse/jsp/JspTypeQuery.java:54-57 | Computing the keys again over the same workspace adds nothing. |
| JspTypeQuery.IndexKeyRoundTrip | org.eclipse.jdt.ui.examples.javafamily/src/org/eclipse/jsp/JspTypeQuery.java:68-69 | The type name read back from a key is the name it was built from. A key that reads back as a type name is that name's key. |
| JspTypeQuery.IndexKeyInjective | org.eclipse.jdt.ui.examples.javafamily/src/org/eclipse/jsp/JspTypeQuery.java:68-69 | Different type names have different keys. |
| JspTypeQuery.FindIndexMatches | org.eclipse.jdt.ui.examples.javafamily/src/org/eclipse/jsp/JspTypeQuery.java:66-75 | The method fails with the IOException exactly when the index query throws, and then reports nothing. A null query result reports nothing and returns normally. Otherwise exactly one type reference to the queried type is reported per hit, carrying the hit's path, in hit order. |

## Left out

- User interface: widget creation, listeners, dialog settings, the destination group's own checks, `getImage`, `dispose`, colours and localised message texts. The destination check is a parameter of `PageMessages.IsPageComplete`.
- `isRootAt`: its internals are left out. It is a parameter whose answer may be an escaping exception, and its own JavaModelException handling is part of the answer.
- `JarPackagerUtil.asResources` and the main-method search engine: both are folded into one parameter that maps a set of roots to the reported types. A null resource list, an InvocationTargetException and an interruption all read as "no types".
- Logging (`JavaPlugin.log`) and progress monitors: these have no effect on the results.
- The order in which `HashSet.toArray` lists the roots: the model returns a set.
- The launch manager and runtime classpath computation: these are inputs. Resolution failure is `None`.
- `JavaCore.create`, `IProject.exists` and the other project lookups: the workspace map holds a name exactly when `getJavaProject` returns a project.
- `locateMatches` and `JspMatchLocatorParser`: the JSP parser is not part of this model. `JspIndexParser.JSP_TYPE_REF` is a parameter.
- `AppearanceAwareLabelProvider.DEFAULT_TEXTFLAGS`: it is a parameter, and the rendering of labels from text flags is not modelled.
- Context files: the quick-fix tests, `ITestSuiteElement` and `ClasspathChange` are not part of this model.
- PostfixLabels.IsSameInformation: a type whose `getClassFile()` or `getCompilationUnit()` is null counts as "not the same" rather than throwing. On the walk the parent is the type's own container, so the source never meets that case.
- PageMessages.ValidateLaunchConfigurationGroup: requires the selection index to be -1 or a valid combo index. The combo guarantees this.
- RunnableJar.GetSelectedElementsOfPage: requires a valid selection index. With no selection (index -1), `ArrayList.get` on line 291 throws an unchecked IndexOutOfBoundsException that the method does not catch; the model leaves that case out. The method's callers are not part of this model, so whether they can reach it with no selection is not shown.
- PostfixLabels.GetText: assumes a participant's text is not null, so the `participant.getText` result is a string.
- SortingLabels.LabelTarget: requires an import declaration to have a parent and a grandparent (`ImportHasUnit`). The model does not constrain that grandparent to be a compilation unit. In the Java model, an import declaration sits in an import container inside a compilation unit.
- SortingLabels.GetText: has the same `ImportHasUnit` requirement as `LabelTarget`.
- JspTypeQuery.ComputePathsKeyingIndexFiles: paths are compared by string equality, whereas `IPath.equals` also normalises segments.
