# DRXUtil language-pack and erase screens, modelled in Dafny

This project models the two screens of DRXUtil_Formatter that drive the Wii U
GamePad (DRC) through a firmware operation:

- the language-pack screen (`DrcLangScreen`), which:
  - copies `lang.bin` from the SD card to the console's MLC storage;
  - asks the user to confirm;
  - invalidates the caffeine slot;
  - reattaches the GamePad in update mode;
  - starts an extended software update of the language part;
  - follows the update's progress until the update service calls back;
  - activates the new firmware;
  - reattaches the GamePad in active mode;
- the erase screen (`FormatScreen`), which aborts any pending update and
  resets the GamePad's settings.

The helpers the language-pack screen relies on are modelled with it:
`CaffeineInvalidate`, `WaitForEeprom`, `ReattachDRC` and `AbortUpdate`.

How the model is built:

- **Hardware as an oracle.** The console's vendor calls (CDC, CCR system,
  CCR config, IOS-PAD update service), the file copy and the home-menu switch are not
  modelled by their semantics.
  - Each call is an `Event` appended to a `Log`.
  - The reply comes from a `Hardware` function of the log so far and the
    call.
  - Every property therefore holds for every sequence of replies the
    GamePad, the update service and the file system can give.
  - Vendor calls are taken to return at once. The time bounds below are
    therefore bounds on the time spent sleeping, not on wall-clock time: a
    call that blocks (a slow `__CCRSysWaitReattach`, say) adds to the real
    duration.
- **Clock.** The log carries the system clock in milliseconds. Only sleeps
  move it. `OSTicksToSeconds` truncates, which is written as integer division
  by 1000.
- **Imperative form where the source is imperative.**
  - `ReattachDRC`, `WaitForEeprom`, `AbortUpdate`, the reactivation loop and
    the two screen classes are methods with the source's loops and field
    updates.
  - Each method is proved equal to a specification function: `Poll`,
    `Reattachment`, `Reactivation`, the per-state steps and `Tick`.
  - The properties are lemmas about those functions.
- **Screen states.** The two screens' own headers are not part of this
  model. The model borrows the state names of the enumeration declared in
  `source/screens/FlashScreen.hpp:27-37`, which cover every state the two
  screens' `switch` statements name. States a screen does not handle fall to
  `default`.

Behaviour of the code that the model keeps as written:

- **Unknown state 3.** `ReattachDRC` counts state 3 as ACTIVE only on its
  first read. The confirming re-read must show the target itself. So a
  GamePad that reports state 3 after a reattachment to ACTIVE makes the
  attempt fail (`DrcHelpers.ReattachmentConfirmsTarget` states both reads).
- **EEPROM wait.** The wait gives up only when the truncated number of seconds
  exceeds 2. It can therefore run for up to 3 s and 16 probes
  (`DrcHelpers.PollBounded`).
- **Caffeine failure.** Unlike a failed reattachment or a refused start,
  a failed caffeine invalidation goes straight to ERROR without a rollback,
  before the link state is touched
  (source/screens/DrcLangScreen.cpp:244-248,
  `DrcLang.UpdateStopsOnCaffeineFailure`).
- **Failed abort.** The abort that precedes a rollback is best effort: its
  failure is ignored and the rollback is attempted anyway.

## Model

| member | source | states |
|---|---|---|
| DrcHelpers.CaffeineInvalidate | source/screens/DrcLangScreen.cpp:51-62 | Asks for the running version first. Below 0x180a0000 it succeeds with no slot call. Otherwise it makes exactly one `SetCaffeineSlot(0xff)` call and succeeds iff that call returns 0. The clock does not move. |
| DrcHelpers.PollStopsAtFirstSuccess | source/screens/DrcLangScreen.cpp:64-78 | The polling loop of the EEPROM wait and the abort starts with an attempt and ends with one. It succeeds exactly when the last attempt succeeded. Every earlier event is a failed attempt or a 200 ms sleep. It fails only once more than the timeout's whole seconds have passed. |
| DrcHelpers.PollSleepsAfterFailure | source/screens/DrcLangScreen.cpp:68-75 | Every sleep of the polling loop comes right after an attempt that failed. |
| DrcHelpers.PollBounded | source/screens/DrcLangScreen.cpp:64-78 | The polling loop sleeps at most timeout + 1 s in total, and adds at most 2·5·(timeout + 1) + 1 events: 3 s of sleep and 31 events for the EEPROM wait, 4 s of sleep and 41 events for the abort. |
| DrcHelpers.WaitForEeprom | source/screens/DrcLangScreen.cpp:64-78 | The while loop probing the cached EEPROM returns exactly the outcome and log of the polling specification, with a 2 s timeout. |
| DrcHelpers.AbortUpdate | source/screens/DrcLangScreen.cpp:132-145 | The while loop issuing the abort returns exactly the outcome and log of the polling specification, with a 3 s timeout. |
| DrcHelpers.ReattachDrc | source/screens/DrcLangScreen.cpp:80-130 | The step-by-step reattachment returns exactly the outcome and log of `Reattachment`. |
| DrcHelpers.ReattachmentConfirmsTarget | source/screens/DrcLangScreen.cpp:82-129 | Starts with a state read. If that read succeeds and shows the target (state 3 taken as ACTIVE), it succeeds right there with no reattach or set-state call. It succeeds iff its last event is a successful state read that shows the target. |
| DrcHelpers.ReattachmentAnnouncesRequest | source/screens/DrcLangScreen.cpp:99-105 | When the first read succeeds but shows another state (state 3 taken as ACTIVE), the next two calls announce the reattachment and request the target state. |
| DrcHelpers.ReattachmentSucceedsAfterWaits | source/screens/DrcLangScreen.cpp:101-129 | A reattachment that had to request the target succeeds only after the request and the wait for reattachment were accepted, the EEPROM wait followed them, and its last probe, just before the confirming re-read, found the EEPROM readable. |
| DrcHelpers.ReattachmentSleepsOnlyToPoll | source/screens/DrcLangScreen.cpp:114-117 | The only sleeps of a reattachment are the 200 ms pauses of its EEPROM wait, each right after a probe that answered -1. |
| DrcHelpers.ReattachmentWithinBudget | source/screens/DrcLangScreen.cpp:114-117 | A reattachment only appends to the log and sleeps at most 3 s, the bound of its EEPROM wait. |
| DrcHelpers.ReattachmentStopsAtFirstFailure | source/screens/DrcLangScreen.cpp:99-124 | No step before the last event of a reattachment was refused: the first refusal ends it. |
| DrcHelpers.ConfirmationRefusesLastOnly | source/screens/DrcLangScreen.cpp:114-124 | The EEPROM wait and re-read that close a reattachment request no state, and only the final re-read can be a refusal. |
| DrcHelpers.ReattachmentFailureCause | source/screens/DrcLangScreen.cpp:99-129 | A failed reattachment ends with the step that failed: a refused read, set-state or wait-reattach, a re-read that shows another state, or an EEPROM probe still answering -1 once more than 2 whole seconds of waiting have passed. |
| DrcHelpers.ReattachmentRequestsOnlyTarget | source/screens/DrcLangScreen.cpp:101-105 | Every set-state call a reattachment makes requests its target. |
| DrcLang.Rollback | source/screens/DrcLangScreen.cpp:255 | The rollback starts with a state read, requests no state but ACTIVE, only appends to the log and sleeps at most 3 s. |
| DrcLang.AbortAndRollback | source/screens/DrcLangScreen.cpp:265-266 | The abort-then-rollback path starts with an abort request, only appends to the log and sleeps at most 7 s. |
| DrcLang.Tick | source/screens/DrcLangScreen.cpp:214-342 | A frame closes the screen iff B went down in CONFIRM2, DONE or ERROR. Every other frame returns true. |
| DrcLang.PrepareStagesPack | source/screens/DrcLangScreen.cpp:229-240 | PREPARE makes exactly one call, the copy from the SD card to MLC, and sets the update path either way. A failed copy goes to ERROR with the copy message. A successful copy goes to CONFIRM2. The update fields are unchanged. |
| DrcLang.Confirm2AwaitsUser | source/screens/DrcLangScreen.cpp:218-228 | In CONFIRM2, B closes the screen even if A also went down. A alone moves to UPDATE. Otherwise nothing changes. No call is made. |
| DrcLang.UpdateDisablesHomeMenuFirst | source/screens/DrcLangScreen.cpp:241-244 | UPDATE first disables the home menu, then asks for the running version. It ends in FLASHING or ERROR and only appends to the log. |
| DrcLang.UpdateStartsOnlyInUpdateMode | source/screens/DrcLangScreen.cpp:244-273 | FLASHING is reached only after a caffeine step that succeeded: a version below the threshold, or an accepted slot call. The last call is then an accepted language update of the staged path. That call directly follows a successful state read showing UPDATE. Progress, completion flag and result are reset to 0/false/0. The message is unchanged. |
| DrcLang.UpdateStopsOnCaffeineFailure | source/screens/DrcLangScreen.cpp:244-248 | UPDATE ends in ERROR with the caffeine message iff the version was at or above the threshold and the slot call was refused. It then stops after exactly three calls, with no reattachment. |
| DrcLang.UpdateRollsBackFailedReattach | source/screens/DrcLangScreen.cpp:250-259 | A successful caffeine step followed by a failed reattachment to UPDATE (issued right after the abort request) ends in ERROR with the reattach message, after a reattachment to ACTIVE. Conversely, that ERROR arises only this way. |
| DrcLang.UpdateFlashesWhenStepsSucceed | source/screens/DrcLangScreen.cpp:244-273 | When the caffeine step, the reattachment to UPDATE and the start of the update all succeed, UPDATE ends in FLASHING with the start call as the last event. |
| DrcLang.UpdateErrorMessages | source/screens/DrcLangScreen.cpp:244-271 | Every ERROR that UPDATE reaches carries the caffeine, reattach or start message. |
| DrcLang.UpdateAbortsFailedStart | source/screens/DrcLangScreen.cpp:264-271 | A refused language-update call after a successful caffeine step and reattachment ends in ERROR with the start message, after the abort loop and the rollback. Conversely, that ERROR arises only this way. |
| DrcLang.FlashingPollsProgress | source/screens/DrcLangScreen.cpp:275-282 | FLASHING polls the firmware info, then sleeps 200 ms. The progress is overwritten only when the poll returns 0. The completion flag and result are unchanged. |
| DrcLang.FlashingActsOnCompletion | source/screens/DrcLangScreen.cpp:284-296 | Without a recorded completion the state stays FLASHING after just those two calls. A result of IOS_ERROR_OK goes to ACTIVATE. Any other result goes through abort and rollback to ERROR with the update-failed message. |
| DrcLang.ReactivationStops | source/screens/DrcLangScreen.cpp:307-318 | The reactivation loop ends with a reattachment to ACTIVE. That reattachment either succeeded or ended more than 10 whole seconds after the loop started. |
| DrcLang.ReactivationRetriesOnlyAfterFailure | source/screens/DrcLangScreen.cpp:309-317 | Every 1 s sleep of the reactivation loop comes right after a failed reattachment to ACTIVE, and every other sleep right after an EEPROM probe answering -1. So nothing follows a successful reattachment: the loop stops at its first success. |
| DrcLang.ReactivationPausesOnlyAfterFailedProbe | source/screens/DrcLangScreen.cpp:309-317 | Every sleep of the reactivation loop other than its 1 s pause comes right after an EEPROM probe answering -1. |
| DrcLang.ReactivationBounded | source/screens/DrcLangScreen.cpp:307-318 | The reactivation loop sleeps for less than 15 s in total from its start and only appends to the log. |
| DrcLang.ReactivateDrc | source/screens/DrcLangScreen.cpp:307-318 | The while loop retrying the reattachment returns exactly the log of `Reactivation`. |
| DrcLang.ActivateFinishesWhenAccepted | source/screens/DrcLangScreen.cpp:297-320 | ACTIVATE first issues the activation and reaches DONE iff it returned 0, however the reactivation loop ends. DONE comes after exactly the reactivation loop started right after the activation, with less than 15 s of sleep. The log only grows. |
| DrcLang.ActivateRollsBackWhenRefused | source/screens/DrcLangScreen.cpp:297-306 | A refused activation goes through abort and rollback to ERROR with the activation message. |
| DrcLang.ExitRestoresHomeMenu | source/screens/DrcLangScreen.cpp:322-335 | In DONE or ERROR, B re-enables the home menu as the one new call and closes the screen with nothing else changed. Without B, nothing changes. |
| DrcLang.TickNeverRegresses | source/screens/DrcLangScreen.cpp:214-342 | A frame keeps the state or moves strictly forward through PREPARE, CONFIRM2, UPDATE, FLASHING, ACTIVATE, DONE/ERROR (`Advances`). It only appends to the log. |
| DrcLang.RunNeverRegresses | source/screens/DrcLangScreen.cpp:214-342 | Over any sequence of frames and completion callbacks, the rank of the last state is at least that of the first, and the log only grows. |
| DrcLang.RunComposes | source/screens/DrcLangScreen.cpp:214-342 | A run over two stimulus sequences in a row is the first run, continued by the second while the screen is still open. |
| DrcLang.RunNeverReturnsToFlashing | source/screens/DrcLangScreen.cpp:275-296 | Once a run has moved past FLASHING, no continuation of it returns to FLASHING: the update is flashed at most once per screen. |
| DrcLang.RunClosesOnlyWhenSettled | source/screens/DrcLangScreen.cpp:214-342 | Once UPDATE is reached, any run that closes the screen closes it from DONE or ERROR. |
| DrcLang.CompletionSeenNextFrame | source/screens/DrcLangScreen.cpp:284-296 | A completion recorded in FLASHING is acted on by the next frame: ACTIVATE for IOS_ERROR_OK, otherwise ERROR with the update-failed message. |
| DrcLang.DrcLangScreen.Update | source/screens/DrcLangScreen.cpp:214-342 | The frame method leaves exactly the fields and return value that `Tick` gives for the old fields. |
| DrcLang.DrcLangScreen.Prepare | source/screens/DrcLangScreen.cpp:229-240 | The PREPARE case updates the fields as `PrepareStep` does. |
| DrcLang.DrcLangScreen.StartUpdate | source/screens/DrcLangScreen.cpp:241-273 | The UPDATE case updates the fields as `UpdateStep` does. |
| DrcLang.DrcLangScreen.EnterUpdateMode | source/screens/DrcLangScreen.cpp:250-273 | The part of the UPDATE case after the abort request updates the fields as `StartInUpdateMode` does. |
| DrcLang.DrcLangScreen.PollFlashing | source/screens/DrcLangScreen.cpp:275-296 | The FLASHING case updates the fields as `FlashingStep` does. |
| DrcLang.DrcLangScreen.Activate | source/screens/DrcLangScreen.cpp:297-320 | The ACTIVATE case updates the fields as `ActivateStep` does. |
| DrcLang.DrcLangScreen.OnUpdateCompleted | source/screens/DrcLangScreen.cpp:344-348 | Sets the completion flag and the result, and nothing else. |
| Format.Tick | source/screens/FormatScreen.cpp:41-81 | A frame closes the screen iff B went down in DONE or ERROR. No frame changes the erase-completion flag. |
| Format.EraseAbortsThenResets | source/screens/FormatScreen.cpp:45-59 | UPDATE makes exactly two calls: the abort, with its answer ignored, then the settings reset. So it never touches the home menu. A nonzero reset goes to ERROR with "Erase failed."; zero goes to DONE. |
| Format.ExitRestoresHomeMenu | source/screens/FormatScreen.cpp:61-74 | In DONE or ERROR, B re-enables the home menu as the one new call and closes the screen. Without B, nothing changes. |
| Format.OtherStatesIdle | source/screens/FormatScreen.cpp:76-80 | Every other state changes nothing and keeps the screen open. |
| Format.RunNeverDisablesHomeMenu | source/screens/FormatScreen.cpp:45-50 | Over any run the erase screen never disables the home menu, and the log only grows. |
| Format.RunSettles | source/screens/FormatScreen.cpp:61-80 | DONE and ERROR are final. Over any run from them, the state and message stay. The log gains nothing until B, which adds only the home-menu call. |
| Format.FormatScreen.Update | source/screens/FormatScreen.cpp:41-81 | The frame method leaves exactly the fields and return value that `Tick` gives for the old fields. |
| Format.FormatScreen.OnEraseCompleted | source/screens/FormatScreen.cpp:83-86 | Sets the erase-completion flag and nothing else. |

## Left out

- **Byte copy.** `CopyFile` (source/screens/DrcLangScreen.cpp:17-49) is file I/O. Only its boolean outcome is kept, as the status of a `CopyFile` call.
- **Vendor calls.** Their semantics and their latency are not modelled. A vendor call takes no time, so the time bounds count sleeps only.
- **Reply contents.** Only the fields the screens read are kept: status, link state, running version, update progress. The EEPROM byte read by the probe is dropped.
- **Completion callback.** The completion callback (source/screens/DrcLangScreen.cpp:147-152) arrives from another context. It is modelled as a stimulus between two frames. The unsynchronised access to the completion flag is not modelled.
- **Drawing.** `Draw`, Gfx and `Utils::sprintf` are user interface and are not modelled. This includes the floating-point progress bar and the bottom-bar condition at source/screens/DrcLangScreen.cpp:207, whose bare `STATE_UPDATE` operand is true whenever `STATE_UPDATE` is nonzero (it is 4 in the `FlashScreen.hpp` order).
- **Initial field values.** `DrcLangScreen.hpp` and `FormatScreen.hpp` are not part of this model. The constructors take the initial field values as a parameter.
- **State codes.** `DrcOther` is assumed never to carry the code of ACTIVE, UPDATE or state 3. A hardware that answers with such a code is outside the model, because the program would take it for the named state.
- **Integer widths.** `mFlashingProgress` and `mUpdateResult` are modelled as unbounded integers. They are only stored, or compared with 0.
