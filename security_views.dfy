/**
  The security module's view logic: whether restricted login access is on
  (a scan of access.conf for the restrictive policy line), the privileged
  action that switches it, and the change-only orchestration that reports
  one outcome to the user.
 */
module SecurityViews {
  import opened PyStrings

  /** Path of the PAM access-control file whose lines are scanned. */
  const AccessConfFile: string := "/etc/security/access.conf"

  /** The policy line whose presence means restricted access is enabled. */
  const AccessConfSnippet: string := "-:ALL EXCEPT root fbx (admin) (sudo):ALL"

  /** Module name and action names handed to the privileged action runner. */
  const SecurityModule: string := "security"
  const EnableAction: string := "enable-restricted-access"
  const DisableAction: string := "disable-restricted-access"

  /** Prefix of the user-visible error text; the exception's text follows it. */
  const ErrorPrefix: string := "Error setting restricted access: "

  /** Success text reported after the action completed. */
  const UpdatedMessage: string := "Updated security configuration"

  /** A read of the configuration file: its lines, or the reason it failed. */
  datatype Result<T> = Ok(value: T) | Err(error: string)

  /** The status record shown in the form: its only key is `restricted_access`. */
  datatype Status = Status(restrictedAccess: bool)

  /** One request to the privileged runner: module name and argument list. */
  datatype RunRequest = RunRequest(moduleName: string, args: seq<string>)

  /** What the privileged runner does with a request: completes, or raises with a text. */
  datatype RunReply = Completed | Raised(exception: string)

  /** The single outcome `_apply_changes` reports to the user. */
  datatype ChangeOutcome = NoChange | Updated | Failed(message: string)

  // ---------------------------------------------------------------------------
  // Status detection
  // ---------------------------------------------------------------------------

  /** Reference meaning of "restricted access is enabled": some line contains the snippet. */
  ghost predicate RestrictedAccessPresent(lines: seq<string>) {
    exists k :: 0 <= k < |lines| && Occurs(AccessConfSnippet, lines[k])
  }

  /**
    Scans the lines of access.conf and stops at the first one containing the
    snippet. A failed read propagates unchanged, as the exception does.
   */
  method GetRestrictedAccessEnabled(conf: Result<seq<string>>) returns (r: Result<bool>)
    ensures conf.Err? ==> r == Err(conf.error)
    ensures conf.Ok? ==> r == Ok(RestrictedAccessPresent(conf.value))
  {
    if conf.Err? {
      return Err(conf.error);
    }
    var lines := conf.value;
    var i := 0;
    while i < |lines|
      invariant 0 <= i <= |lines|
      invariant forall j :: 0 <= j < i ==> !Occurs(AccessConfSnippet, lines[j])
    {
      InIffOccurs(AccessConfSnippet, lines[i]);
      if In(AccessConfSnippet, lines[i]) {
        return Ok(true);
      }
      i := i + 1;
    }
    return Ok(false);
  }

  /** The current status: a record whose one field is the scan's result. */
  method GetStatus(conf: Result<seq<string>>) returns (r: Result<Status>)
    ensures conf.Err? ==> r == Err(conf.error)
    ensures conf.Ok? ==> r == Ok(Status(RestrictedAccessPresent(conf.value)))
  {
    var enabled := GetRestrictedAccessEnabled(conf);
    if enabled.Err? {
      return Err(enabled.error);
    }
    return Ok(Status(enabled.value));
  }

  /** A file without lines does not enable restricted access. */
  lemma EmptyConfNotRestricted()
    ensures !RestrictedAccessPresent([])
  {
  }

  /** A line counts when the snippet sits anywhere in it, e.g. followed by the newline `readlines` keeps. */
  lemma SnippetAnywhereInLineCounts(lines: seq<string>, k: nat, before: string, after: string)
    requires k < |lines| && lines[k] == before + AccessConfSnippet + after
    ensures RestrictedAccessPresent(lines)
  {
    OccursWithSurroundingText(AccessConfSnippet, before, after);
  }

  /** Lines all shorter than the snippet (such as only a prefix or suffix of it) leave access open. */
  lemma ShortLinesNotRestricted(lines: seq<string>)
    requires forall k :: 0 <= k < |lines| ==> |lines[k]| < |AccessConfSnippet|
    ensures !RestrictedAccessPresent(lines)
  {
  }

  /** The status of two files read one after the other is the disjunction of their statuses. */
  lemma {:induction false} PresentConcat(a: seq<string>, b: seq<string>)
    ensures RestrictedAccessPresent(a + b) <==> RestrictedAccessPresent(a) || RestrictedAccessPresent(b)
  {
    if RestrictedAccessPresent(a + b) {
      var k :| 0 <= k < |a + b| && Occurs(AccessConfSnippet, (a + b)[k]);
      if k < |a| {
        assert (a + b)[k] == a[k];
      } else {
        assert (a + b)[k] == b[k - |a|];
      }
    }
    if RestrictedAccessPresent(a) {
      var k :| 0 <= k < |a| && Occurs(AccessConfSnippet, a[k]);
      assert (a + b)[k] == a[k];
    }
    if RestrictedAccessPresent(b) {
      var k :| 0 <= k < |b| && Occurs(AccessConfSnippet, b[k]);
      assert (a + b)[|a| + k] == b[k];
    }
  }

  // ---------------------------------------------------------------------------
  // Action selection
  // ---------------------------------------------------------------------------

  /** The request that switches restricted access on or off. */
  function RestrictedAccessRequest(enabled: bool): (req: RunRequest)
    ensures req.moduleName == SecurityModule && |req.args| == 1
    ensures req.args[0] == EnableAction <==> enabled
    ensures req.args[0] == DisableAction <==> !enabled
  {
    RunRequest(SecurityModule, [if enabled then EnableAction else DisableAction])
  }

  /** Different settings produce different requests: the request tells which setting was asked for. */
  lemma RequestDeterminesSetting(a: bool, b: bool)
    requires RestrictedAccessRequest(a) == RestrictedAccessRequest(b)
    ensures a == b
  {
  }

  /**
    The privileged action runner, seen from this module: every call is
    recorded in `log`, and what the privileged process answers is an input.
   */
  class ActionRunner {
    var log: seq<RunRequest>

    constructor ()
      ensures log == []
    {
      log := [];
    }

    /** Runs one action as superuser; raises when the process reports failure. */
    method SuperuserRun(moduleName: string, args: seq<string>, reply: RunReply) returns (r: RunReply)
      modifies this
      ensures log == old(log) + [RunRequest(moduleName, args)]
      ensures r == reply
    {
      log := log + [RunRequest(moduleName, args)];
      r := reply;
    }
  }

  /** Chooses the action for `enabled` and issues it as the one runner call. */
  method SetRestrictedAccess(runner: ActionRunner, enabled: bool, reply: RunReply) returns (r: RunReply)
    modifies runner
    ensures runner.log == old(runner.log) + [RestrictedAccessRequest(enabled)]
    ensures r == reply
  {
    var action := DisableAction;
    if enabled {
      action := EnableAction;
    }
    r := runner.SuperuserRun(SecurityModule, [action], reply);
  }

  // ---------------------------------------------------------------------------
  // Change orchestration
  // ---------------------------------------------------------------------------

  /** The text reported when the action raised: it carries the exception's text. */
  function ErrorMessage(exception: string): (message: string)
    ensures Occurs(exception, message)
    ensures |ErrorPrefix| <= |message|
    ensures message[..|ErrorPrefix|] == ErrorPrefix && message[|ErrorPrefix|..] == exception
  {
    OccursWithSurroundingText(exception, ErrorPrefix, "");
    assert ErrorPrefix + exception + "" == ErrorPrefix + exception;
    ErrorPrefix + exception
  }

  /** What a change from `oldStatus` to `newStatus` asks of the runner, and what it reports. */
  datatype Effect = Effect(calls: seq<RunRequest>, outcome: ChangeOutcome)

  /** The effect of `_apply_changes`, given what the runner would answer. */
  function ChangeEffect(oldStatus: Status, newStatus: Status, reply: RunReply): Effect {
    if oldStatus.restrictedAccess == newStatus.restrictedAccess then
      Effect([], NoChange)
    else
      Effect([RestrictedAccessRequest(newStatus.restrictedAccess)],
             match reply
             case Completed => Updated
             case Raised(e) => Failed(ErrorMessage(e)))
  }

  /** Applies the form's change only when the setting differs, and reports one outcome. */
  method ApplyChanges(runner: ActionRunner, oldStatus: Status, newStatus: Status, reply: RunReply)
    returns (outcome: ChangeOutcome)
    modifies runner
    ensures runner.log == old(runner.log) + ChangeEffect(oldStatus, newStatus, reply).calls
    ensures outcome == ChangeEffect(oldStatus, newStatus, reply).outcome
  {
    outcome := NoChange;
    if oldStatus.restrictedAccess != newStatus.restrictedAccess {
      var r := SetRestrictedAccess(runner, newStatus.restrictedAccess, reply);
      match r
      case Raised(e) =>
        outcome := Failed(ErrorMessage(e));
      case Completed =>
        outcome := Updated;
    }
  }

  /** An unchanged setting makes no runner call and reports nothing. */
  lemma UnchangedIsNoOp(oldStatus: Status, newStatus: Status, reply: RunReply)
    requires oldStatus.restrictedAccess == newStatus.restrictedAccess
    ensures ChangeEffect(oldStatus, newStatus, reply) == Effect([], NoChange)
  {
  }

  /**
    A changed setting makes exactly one runner call, with the new value, and
    reports exactly one of success or failure, the failure carrying the exception text.
   */
  lemma ChangedCallsOnceAndReports(oldStatus: Status, newStatus: Status, reply: RunReply)
    requires oldStatus.restrictedAccess != newStatus.restrictedAccess
    ensures ChangeEffect(oldStatus, newStatus, reply).calls == [RestrictedAccessRequest(newStatus.restrictedAccess)]
    ensures reply.Completed? <==> ChangeEffect(oldStatus, newStatus, reply).outcome == Updated
    ensures reply.Raised? <==> ChangeEffect(oldStatus, newStatus, reply).outcome.Failed?
    ensures reply.Raised? ==> Occurs(reply.exception, ChangeEffect(oldStatus, newStatus, reply).outcome.message)
  {
  }

  /** The enable action is requested exactly on a false-to-true change, the disable action exactly on true-to-false. */
  lemma TransitionsSelectAction(oldStatus: Status, newStatus: Status, reply: RunReply)
    ensures ChangeEffect(oldStatus, newStatus, reply).calls == [RunRequest(SecurityModule, [EnableAction])]
            <==> !oldStatus.restrictedAccess && newStatus.restrictedAccess
    ensures ChangeEffect(oldStatus, newStatus, reply).calls == [RunRequest(SecurityModule, [DisableAction])]
            <==> oldStatus.restrictedAccess && !newStatus.restrictedAccess
    ensures ChangeEffect(oldStatus, newStatus, reply).calls == []
            <==> oldStatus.restrictedAccess == newStatus.restrictedAccess
  {
  }

  /**
    A form submission from open to restricted access: the status is read, the
    enable action is requested, and once the file holds the snippet the
    status reads enabled.
   */
  method EnableScenario(reply: RunReply) {
    var before := GetStatus(Ok(["ALL:ALL\n"]));
    ShortLinesNotRestricted(["ALL:ALL\n"]);
    assert before == Ok(Status(false));
    var runner := new ActionRunner();
    var outcome := ApplyChanges(runner, before.value, Status(true), reply);
    assert runner.log == [RunRequest(SecurityModule, [EnableAction])];
    assert reply == Completed ==> outcome == Updated;
    var conf := ["ALL:ALL\n", AccessConfSnippet + "\n"];
    SnippetAnywhereInLineCounts(conf, 1, "", "\n");
    var after := GetStatus(Ok(conf));
    assert after == Ok(Status(true));
  }
}
