/**
 The problems the runnable-jar export reports into its `MultiStatus`, kept
 as an ordered list of entries. Message texts are identified by the message
 they stand for; their localised wording is not modelled.
 */
module Statuses {
  import opened Workspace

  /** `IStatus.WARNING` and `IStatus.ERROR`, the two severities reported here. */
  datatype Severity = Warning | Error

  datatype StatusMessage =
    | LaunchConfigurationWithoutMainType
    | MissingClassFile(entry: Path)
    | NoMainMethod

  datatype StatusEntry = StatusEntry(severity: Severity, message: StatusMessage)

  /** A `MultiStatus`: the entries `add` has appended, oldest first. */
  type MultiStatus = seq<StatusEntry>
}
