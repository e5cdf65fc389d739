# Security module views: restricted login access

This project models the view logic of Plinth's security module, which turns
"restricted access" on or off. Restricted access is a PAM `access.conf` policy
that lets only `root`, `fbx` and the `admin` and `sudo` groups log in. The model
covers three things:

- **Status detection.** Access is restricted when some line of
  `/etc/security/access.conf` contains the policy line
  `-:ALL EXCEPT root fbx (admin) (sudo):ALL`. The check is contiguous substring
  containment, as in Python's `in`. The file's lines are an input. A failed read
  is an `Err` value, passed on the way the Python exception is.
- **Action selection.** The boolean setting is mapped to `enable-restricted-access`
  or `disable-restricted-access`. That action is handed, as a one-element argument
  list, to the privileged runner under module name `security`. The runner is a class
  that records each call in `log`. Its answer (`Completed` or `Raised(text)`) is an
  input, because the privileged process is outside the model.
- **Change orchestration.** `_apply_changes` calls the runner only when the old
  and new `restricted_access` values differ, and always with the new value. It
  reports exactly one outcome: `NoChange`, `Updated` (the text "Updated security
  configuration"), or `Failed(message)`. The failure message is
  "Error setting restricted access: " followed by the exception's text.

Files:

- `python_strings.dfy` (module `PyStrings`): string containment. The executable
  `In` is used by the code. The reference `Occurs` says some slice equals the
  needle. A lemma proves the two agree.
- `security_views.dfy` (module `SecurityViews`): the constants, the status scan,
  `get_status`, the runner, `set_restricted_access`, `_apply_changes`, their
  specification functions and lemmas, and a client method `EnableScenario`. That
  method walks one form submission: open access, the enable request, then the
  re-read status shows enabled.

## Model

| member | source | states |
|---|---|---|
| `PyStrings.InIffOccurs` | plinth/modules/security/views.py:79 | the executable containment test used by the scan is true exactly when the needle occurs at some index of the line (both directions) |
| `PyStrings.OccursWithSurroundingText` | plinth/modules/security/views.py:79 | text before and after the needle (a trailing newline from `readlines`, say) never stops it being found, since the test is `in`, not equality |
| `PyStrings.ShorterNeverContains` | plinth/modules/security/views.py:79 | a line shorter than the snippet, such as a proper prefix or suffix of it, never contains it |
| `SecurityViews.GetRestrictedAccessEnabled` | plinth/modules/security/views.py:73-82 | the loop with early return yields true exactly when some line contains the snippet; a failed file read is passed on unchanged |
| `SecurityViews.GetStatus` | plinth/modules/security/views.py:54-56 | the status record's only field `restricted_access` equals the scan's result; a failed read is passed on |
| `SecurityViews.EmptyConfNotRestricted` | plinth/modules/security/views.py:78-82 | a file with no lines reports restricted access as off |
| `SecurityViews.SnippetAnywhereInLineCounts` | plinth/modules/security/views.py:78-80 | any line that has the snippet somewhere inside it, with any surrounding text, makes the status enabled |
| `SecurityViews.ShortLinesNotRestricted` | plinth/modules/security/views.py:78-82 | when every line is shorter than the snippet (e.g. only `ALL:ALL`, or fragments of the snippet), the status is off |
| `SecurityViews.PresentConcat` | plinth/modules/security/views.py:78-82 | the status of a concatenation of line lists is on exactly when the status of either part is on |
| `SecurityViews.RestrictedAccessRequest` | plinth/modules/security/views.py:87-90 | the request names module `security` and has one argument, which is `enable-restricted-access` exactly when enabling and `disable-restricted-access` exactly when disabling; no other name is possible |
| `SecurityViews.RequestDeterminesSetting` | plinth/modules/security/views.py:87-89 | the two settings give different requests, so the request tells which setting was asked for |
| `SecurityViews.ActionRunner.SuperuserRun` | plinth/modules/security/views.py:90 | a runner call appends exactly that request to the log and returns the privileged process's answer |
| `SecurityViews.SetRestrictedAccess` | plinth/modules/security/views.py:85-90 | exactly one runner call is made, with the request for the given setting, and a raised failure comes back to the caller |
| `SecurityViews.ErrorMessage` | plinth/modules/security/views.py:64-68 | the error text starts with "Error setting restricted access: " and carries the exception's text, which can be read back from it |
| `SecurityViews.ApplyChanges` | plinth/modules/security/views.py:59-70 | the runner log grows by exactly the calls of the change's effect, and the reported outcome is that effect's outcome |
| `SecurityViews.UnchangedIsNoOp` | plinth/modules/security/views.py:61 | equal old and new settings make no runner call and report nothing |
| `SecurityViews.ChangedCallsOnceAndReports` | plinth/modules/security/views.py:61-70 | a changed setting makes one call, with the new value; it reports success exactly when the call completed and failure exactly when it raised, the failure text containing the exception's text |
| `SecurityViews.TransitionsSelectAction` | plinth/modules/security/views.py:61-63 | the enable action is requested exactly on a false-to-true change, the disable action exactly on a true-to-false change, and nothing exactly when the setting is unchanged |

## Left out

- `index` (views.py:34-51): Django request handling, validation by `SecurityForm` and template rendering. The forms module is not part of this model. `EnableScenario` follows the same POST path by hand.
- Opening and reading `/etc/security/access.conf` (views.py:75-76): file I/O. The lines are an input, and a read failure is an `Err` carrying its reason.
- The inside of `actions.superuser_run`: a separate privileged process. Its success or failure is an input to each call.
- `messages.error` / `messages.success` and `ugettext` translation: framework side effects. They are modelled as the `ChangeOutcome` value, with the untranslated English text.
- Converting the exception to text with `str(exception)`: not modelled. The error message takes the exception's text as a given string.
- The source's `except Exception` also catches failures from anywhere inside `set_restricted_access`. In the model, only the runner call can fail.
