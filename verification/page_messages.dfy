/**
 The message line of the runnable-jar wizard page: validation clears it,
 and a warning is installed only where no message of WARNING severity or
 above is shown, so the first warning of a validation pass stays.
 */
module PageMessages {
  import opened Options
  import opened LaunchConfigs

  /** `IMessageProvider` severities. */
  const NONE: int := 0
  const INFORMATION: int := 1
  const WARNING: int := 2
  const ERROR: int := 3

  datatype PageMessage =
    | ProgramArgumentsWarning
    | VMArgumentsWarning
    | OtherMessage(text: string)

  /** The page's error message, message and message type; None is the Java null. */
  datatype PageState = PageState(errorMessage: Option<string>, message: Option<PageMessage>, messageType: int)

  /** The page shows a message of severity WARNING or above. */
  predicate ShowsWarning(p: PageState)
  {
    p.message.Some? && WARNING <= p.messageType
  }

  /** clearMessages: resets a set error message, and a set message together with its type. */
  function ClearMessages(p: PageState): (r: PageState)
    ensures r.errorMessage.None? && r.message.None?
    ensures !ShowsWarning(r)
    ensures p.message.Some? ==> r.messageType == NONE
    ensures p.message.None? ==> r.messageType == p.messageType
  {
    PageState(None, None, if p.message.Some? then NONE else p.messageType)
  }

  /** setWarningMessage: installs `m` as a WARNING unless a message of WARNING or above is shown. */
  function SetWarningMessage(p: PageState, m: PageMessage): (r: PageState)
    ensures ShowsWarning(r)
    ensures r.errorMessage == p.errorMessage
    ensures ShowsWarning(p) <==> r == p
    ensures !ShowsWarning(p) ==> r.message == Some(m) && r.messageType == WARNING
  {
    if p.message.None? || p.messageType < WARNING then PageState(p.errorMessage, Some(m), WARNING) else p
  }

  /** Once a warning is shown, later warnings leave the page as it is. */
  lemma WarningIsSticky(p: PageState, first: PageMessage, second: PageMessage)
    ensures SetWarningMessage(SetWarningMessage(p, first), second) == SetWarningMessage(p, first)
  {
  }

  /**
   validateLaunchConfigurationGroup: false when nothing is selected (index
   -1); otherwise true, after warning about program arguments and then about
   VM arguments of the selected configuration.
   */
  function ValidateLaunchConfigurationGroup(p: PageState, model: seq<LaunchConfigurationElement>, index: int): (r: (bool, PageState))
    requires -1 <= index < |model|
    ensures r.0 <==> index != -1
    ensures r.1.errorMessage == p.errorMessage
    ensures index == -1 ==> r.1 == p
    ensures index != -1 && ShowsWarning(p) ==> r.1 == p
    ensures index != -1 && !HasProgramArguments(model[index]) && !HasVMArguments(model[index]) ==> r.1 == p
    ensures index != -1 && (HasProgramArguments(model[index]) || HasVMArguments(model[index])) ==> ShowsWarning(r.1)
    ensures index != -1 && !ShowsWarning(p) && (HasProgramArguments(model[index]) || HasVMArguments(model[index])) ==>
              r.1.messageType == WARNING
    ensures index != -1 && !ShowsWarning(p) && HasProgramArguments(model[index]) ==> r.1.message == Some(ProgramArgumentsWarning)
    ensures index != -1 && !ShowsWarning(p) && !HasProgramArguments(model[index]) && HasVMArguments(model[index]) ==>
              r.1.message == Some(VMArgumentsWarning)
  {
    if index == -1 then (false, p)
    else
      var element := model[index];
      var p1 := if HasProgramArguments(element) then SetWarningMessage(p, ProgramArgumentsWarning) else p;
      var p2 := if HasVMArguments(element) then SetWarningMessage(p1, VMArgumentsWarning) else p1;
      (true, p2)
  }

  /**
   isPageComplete: clears the messages, validates the destination group
   (a page query given here as `validateDestination`), then the launch
   configuration group; both are always validated.
   */
  function IsPageComplete(p: PageState, validateDestination: PageState -> (bool, PageState),
                          model: seq<LaunchConfigurationElement>, index: int): (r: (bool, PageState))
    requires -1 <= index < |model|
    ensures r.0 <==> validateDestination(ClearMessages(p)).0 && index != -1
    ensures var d := validateDestination(ClearMessages(p));
            index == -1 || ShowsWarning(d.1) ==> r.1 == d.1
    ensures index != -1 ==> r.1 == ValidateLaunchConfigurationGroup(validateDestination(ClearMessages(p)).1, model, index).1
  {
    var cleared := ClearMessages(p);
    var destination := validateDestination(cleared);
    var launch := ValidateLaunchConfigurationGroup(destination.1, model, index);
    (launch.0 && destination.0, launch.1)
  }

  /**
   A selected configuration with both program and VM arguments leaves the
   program-arguments warning on the page whenever the destination check
   leaves no warning or error behind.
   */
  lemma ProgramArgumentsWarningWins(p: PageState, validateDestination: PageState -> (bool, PageState),
                                    model: seq<LaunchConfigurationElement>, index: int)
    requires 0 <= index < |model|
    requires HasProgramArguments(model[index]) && HasVMArguments(model[index])
    requires !ShowsWarning(validateDestination(ClearMessages(p)).1)
    ensures IsPageComplete(p, validateDestination, model, index).1.message == Some(ProgramArgumentsWarning)
  {
  }
}
