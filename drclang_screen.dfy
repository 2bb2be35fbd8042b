/** The language-pack screen (DrcLangScreen). Once per frame it advances a
    state machine that stages a language pack on the console's storage, asks
    the user to confirm, puts the GamePad into update mode and starts an
    extended software update, follows its progress until the update service
    reports completion, activates the new firmware and puts the GamePad back
    into active mode. Every failure ends in the error state with a message;
    failures after the GamePad left active mode first try to bring it back. */
module DrcLang {
  import opened Platform
  import opened Screens
  import opened DrcHelpers

  /** The pack on the SD card, the copy on the console's storage, and that
      copy under the path the update service is given. */
  const LangSourcePath := "/vol/external01/lang.bin"
  const LangStagingPath := "storage_mlc01:/usr/tmp/lang.bin"
  const MlcFirmwarePath := "/vol/storage_mlc01/usr/tmp/lang.bin"

  const CopyFailed := "Failed to copy firmware to MLC"
  const CaffeineFailed := "Failed to invalidate caffeine."
  const ReattachFailed := "Failed to reattach DRC in update mode."
  const StartFailed := "Failed to start software update."
  const UpdateFailed := "Software update failed."
  const ActivateFailed := "Failed to activate software update."

  /** A flashing frame sleeps 200 ms after polling the progress. */
  const FlashPollMs: nat := 200
  /** After activation the GamePad is reattached in active mode, retrying
      every second until more than 10 whole seconds have passed. */
  const ReactivateSleepMs: nat := 1000
  const ReactivateTimeoutS: nat := 10

  /** The fields of the screen that its frames read and write, together with
      the log of the console's calls. */
  datatype Screen = Screen(
    state: State,
    errorString: string,
    firmwarePath: string,
    flashingProgress: int,
    updateComplete: bool,
    updateResult: int,
    log: Log)

  /** What one frame leaves: the screen, and whether it stays open. */
  datatype Ticked = Ticked(screen: Screen, stay: bool)

  /** The best-effort way back to active mode after a failure: one
      reattachment to ACTIVE, whatever its outcome; the only state it ever
      requests is ACTIVE. */
  function Rollback(hw: Hardware, l: Log): (r: Log)
    ensures Extends(l, r) && |l.events| < |r.events|
    ensures r.events[|l.events|].call == GetDrcState
    ensures r.now <= l.now + 3000
    ensures forall i | |l.events| <= i < |r.events| && r.events[i].call.SetDrcState? ::
      r.events[i].call.target == DrcActive
  {
    ReattachmentConfirmsTarget(hw, l, DrcActive, false);
    ReattachmentWithinBudget(hw, l, DrcActive, false);
    ReattachmentRequestsOnlyTarget(hw, l, DrcActive, false);
    Reattachment(hw, l, DrcActive, false).log
  }

  /** The way back after the update was started: abort it (until accepted
      or 3 s passed), then roll back, whatever the abort's outcome. */
  function AbortAndRollback(hw: Hardware, l: Log): (r: Log)
    ensures Extends(l, r) && |l.events| < |r.events|
    ensures r.events[|l.events|].call == SoftwareAbort
    ensures r.now <= l.now + 7000
  {
    var a := Poll(hw, l, AbortProbe, l.now);
    PollStopsAtFirstSuccess(hw, l, AbortProbe, l.now);
    PollBounded(hw, l, AbortProbe, l.now, 0);
    assert a.log.events[|l.events|].call == SoftwareAbort;
    Rollback(hw, a.log)
  }

  /** PREPARE: copy the pack to the console's storage. */
  function PrepareStep(hw: Hardware, s: Screen): Screen
  {
    var l := Issue(hw, s.log, CopyFile(LangSourcePath, LangStagingPath));
    var s1 := s.(firmwarePath := MlcFirmwarePath, log := l);
    if Last(l).reply.status != 0 then s1.(errorString := CopyFailed, state := StateError)
    else s1.(state := StateConfirm2)
  }

  /** UPDATE: disable the home menu, invalidate the caffeine slot, abort any
      pending update (ignoring the answer), reattach the GamePad in update
      mode, reset the progress and completion fields and start the update. */
  function UpdateStep(hw: Hardware, s: Screen): Screen
  {
    var c := CaffeineInvalidate(hw, Issue(hw, s.log, SetHomeMenu(false)));
    if !c.ok then s.(errorString := CaffeineFailed, state := StateError, log := c.log)
    else StartInUpdateMode(hw, s, Issue(hw, c.log, SoftwareAbort))
  }

  /** The rest of UPDATE once any pending update was asked to abort, from
      the log `l`: reattach in update mode (rolling back on failure), reset
      the progress and completion fields and start the update (aborting and
      rolling back on failure). */
  function StartInUpdateMode(hw: Hardware, s: Screen, l: Log): Screen
  {
    var r := Reattachment(hw, l, DrcUpdate, false);
    if !r.ok then s.(errorString := ReattachFailed, state := StateError, log := Rollback(hw, r.log))
    else
      var l1 := Issue(hw, r.log, SoftwareExtUpdate(ExtLanguage, s.firmwarePath));
      var s1 := s.(flashingProgress := 0, updateComplete := false, updateResult := 0);
      if Last(l1).reply.status != 0 then
        s1.(errorString := StartFailed, state := StateError, log := AbortAndRollback(hw, l1))
      else s1.(state := StateFlashing, log := l1)
  }

  /** The rest of UPDATE only appends to the log and ends in FLASHING or
      ERROR. */
  lemma StartInUpdateModeAppends(hw: Hardware, s: Screen, l: Log)
    ensures var t := StartInUpdateMode(hw, s, l);
      Extends(l, t.log) && (t.state == StateFlashing || t.state == StateError)
  {
    ReattachmentWithinBudget(hw, l, DrcUpdate, false);
  }

  /** FLASHING: refresh the progress when the service reports it, sleep,
      then act on the completion the callback recorded, if any. */
  function FlashingStep(hw: Hardware, s: Screen): Screen
  {
    var l1 := Issue(hw, s.log, GetFWInfo);
    var progress := if Last(l1).reply.status == 0 then Last(l1).reply.progress else s.flashingProgress;
    var s1 := s.(flashingProgress := progress, log := Issue(hw, l1, Sleep(FlashPollMs)));
    if !s.updateComplete then s1
    else if s.updateResult == IosErrorOk then s1.(state := StateActivate)
    else s1.(errorString := UpdateFailed, state := StateError, log := AbortAndRollback(hw, s1.log))
  }

  /** The reattach-to-ACTIVE loop after a successful activation, started
      when the clock read `start`: attempt; stop on success or once more than
      10 whole seconds have passed; otherwise sleep a second and retry. */
  function Reactivation(hw: Hardware, l: Log, start: nat): Log
    requires start <= l.now
    decreases (ReactivateTimeoutS + 1) * 1000 + ReactivateSleepMs - (l.now - start)
  {
    var r := Reattachment(hw, l, DrcActive, false);
    ReattachmentWithinBudget(hw, l, DrcActive, false);
    if r.ok || (r.log.now - start) / 1000 > ReactivateTimeoutS then r.log
    else Reactivation(hw, Issue(hw, r.log, Sleep(ReactivateSleepMs)), start)
  }

  /** The reattach-to-ACTIVE loop of the ACTIVATE state, as the screen runs
      it. */
  method ReactivateDrc(hw: Hardware, l0: Log) returns (l: Log)
    ensures l == Reactivation(hw, l0, l0.now)
  {
    var startTime := l0.now;
    ghost var before := l0;
    var back;
    back, l := ReattachDrc(hw, l0, DrcActive, false);
    while !back
      invariant startTime <= before.now
      invariant Outcome(back, l) == Reattachment(hw, before, DrcActive, false)
      invariant Reactivation(hw, before, startTime) == Reactivation(hw, l0, startTime)
      decreases (ReactivateTimeoutS + 1) * 1000 + ReactivateSleepMs - (before.now - startTime)
    {
      if (l.now - startTime) / 1000 > ReactivateTimeoutS {
        break;
      }
      ReattachmentWithinBudget(hw, before, DrcActive, false);
      l := Issue(hw, l, Sleep(ReactivateSleepMs));
      before := l;
      back, l := ReattachDrc(hw, l, DrcActive, false);
    }
  }

  /** ACTIVATE: activate the flashed firmware; on success reattach in active
      mode as long as the loop allows and finish, on failure abort and roll
      back. */
  function ActivateStep(hw: Hardware, s: Screen): Screen
  {
    var l := Issue(hw, s.log, SoftwareActivate);
    if Last(l).reply.status != 0 then
      s.(errorString := ActivateFailed, state := StateError, log := AbortAndRollback(hw, l))
    else s.(state := StateDone, log := Reactivation(hw, l, l.now))
  }

  /** Update: one frame of the screen. The screen closes only when B goes
      down in CONFIRM2, DONE or ERROR; everywhere else a frame keeps it open,
      so once the update has begun the user cannot leave before it ends. */
  function Tick(hw: Hardware, s: Screen, trigger: bv32): (t: Ticked)
    ensures !t.stay <==>
      (s.state == StateConfirm2 || Settled(s.state)) && Pressed(trigger, ButtonB)
  {
    match s.state
    case StateConfirm2 =>
      if Pressed(trigger, ButtonB) then Ticked(s, false)
      else if Pressed(trigger, ButtonA) then Ticked(s.(state := StateUpdate), true)
      else Ticked(s, true)
    case StatePrepare => Ticked(PrepareStep(hw, s), true)
    case StateUpdate => Ticked(UpdateStep(hw, s), true)
    case StateFlashing => Ticked(FlashingStep(hw, s), true)
    case StateActivate => Ticked(ActivateStep(hw, s), true)
    case StateDone | StateError =>
      if Pressed(trigger, ButtonB) then Ticked(s.(log := Issue(hw, s.log, SetHomeMenu(true))), false)
      else Ticked(s, true)
    case _ => Ticked(s, true)
  }

  /** OnUpdateCompleted: what the completion callback records. */
  function Completed(s: Screen, result: int): Screen
  {
    s.(updateComplete := true, updateResult := result)
  }

  /** PREPARE makes one call, the copy; the path handed to the update service
      is set either way; a failed copy ends in ERROR with the copy message,
      a successful one moves on to CONFIRM2; nothing else changes. */
  lemma PrepareStagesPack(hw: Hardware, s: Screen)
    ensures var t := PrepareStep(hw, s);
      var copy := Last(t.log);
      && t.log.events == s.log.events + [copy]
      && copy.call == CopyFile(LangSourcePath, LangStagingPath)
      && t.firmwarePath == MlcFirmwarePath
      && (copy.reply.status == 0 ==> t.state == StateConfirm2 && t.errorString == s.errorString)
      && (copy.reply.status != 0 ==> t.state == StateError && t.errorString == CopyFailed)
      && t.flashingProgress == s.flashingProgress
      && t.updateComplete == s.updateComplete && t.updateResult == s.updateResult
  {
  }

  /** CONFIRM2: B closes the screen even when A went down too, since it is
      looked at first; A alone moves on to UPDATE; otherwise nothing happens.
      No call is made. */
  lemma Confirm2AwaitsUser(hw: Hardware, s: Screen, trigger: bv32)
    requires s.state == StateConfirm2
    ensures var t := Tick(hw, s, trigger);
      && (Pressed(trigger, ButtonB) ==> t == Ticked(s, false))
      && (!Pressed(trigger, ButtonB) && Pressed(trigger, ButtonA) ==> t == Ticked(s.(state := StateUpdate), true))
      && (!Pressed(trigger, ButtonB) && !Pressed(trigger, ButtonA) ==> t == Ticked(s, true))
  {
  }

  /** UPDATE ends in FLASHING or ERROR, and first of all disables the home
      menu and asks for the running version. */
  lemma UpdateDisablesHomeMenuFirst(hw: Hardware, s: Screen)
    ensures var t := UpdateStep(hw, s);
      var n := |s.log.events|;
      && Extends(s.log, t.log) && n + 2 <= |t.log.events|
      && t.log.events[n].call == SetHomeMenu(false)
      && t.log.events[n + 1].call == GetSoftwareVersion
      && (t.state == StateFlashing || t.state == StateError)
  {
    var n := |s.log.events|;
    var l0 := Issue(hw, s.log, SetHomeMenu(false));
    var c := CaffeineInvalidate(hw, l0);
    var t := UpdateStep(hw, s);
    if c.ok {
      StartInUpdateModeAppends(hw, s, Issue(hw, c.log, SoftwareAbort));
    }
    assert Extends(c.log, t.log);
    assert t.log.events[n] == c.log.events[n] == l0.events[n];
  }

  /** UPDATE reaches FLASHING only after a caffeine step that succeeded (a
      version below the threshold, or an accepted slot call), with a started
      update of the staged pack issued right after a read that shows the
      GamePad in update mode, and with progress, completion flag and result
      reset. */
  lemma UpdateStartsOnlyInUpdateMode(hw: Hardware, s: Screen)
    ensures var t := UpdateStep(hw, s);
      var n := |s.log.events|;
      t.state == StateFlashing ==>
        && n + 3 <= |t.log.events|
        && (|| t.log.events[n + 1].reply.version < CaffeineVersion
            || (t.log.events[n + 2].call == SetCaffeineSlot(CaffeineSlot) && t.log.events[n + 2].reply.status == 0))
        && Last(t.log).call == SoftwareExtUpdate(ExtLanguage, s.firmwarePath)
        && Last(t.log).reply.status == 0
        && t.log.events[|t.log.events| - 2].call == GetDrcState
        && t.log.events[|t.log.events| - 2].reply.status == 0
        && t.log.events[|t.log.events| - 2].reply.state == DrcUpdate
        && t.flashingProgress == 0 && !t.updateComplete && t.updateResult == 0
        && t.errorString == s.errorString
  {
    var n := |s.log.events|;
    var c := CaffeineInvalidate(hw, Issue(hw, s.log, SetHomeMenu(false)));
    if c.ok {
      var q := Issue(hw, c.log, SoftwareAbort);
      var r := Reattachment(hw, q, DrcUpdate, false);
      ReattachmentConfirmsTarget(hw, q, DrcUpdate, false);
      if r.ok {
        var l := Issue(hw, r.log, SoftwareExtUpdate(ExtLanguage, s.firmwarePath));
        assert l.events[|l.events| - 2] == Last(r.log);
        assert l.events[n + 1] == c.log.events[n + 1];
        assert l.events[n + 2] == q.events[n + 2];
      }
    }
  }

  /** The converse: when every step before FLASHING succeeds (the caffeine
      step, the reattachment in update mode after the abort request, and the
      start of the update), UPDATE ends in FLASHING. */
  lemma UpdateFlashesWhenStepsSucceed(hw: Hardware, s: Screen)
    ensures var c := CaffeineInvalidate(hw, Issue(hw, s.log, SetHomeMenu(false)));
      var r := Reattachment(hw, Issue(hw, c.log, SoftwareAbort), DrcUpdate, false);
      var l := Issue(hw, r.log, SoftwareExtUpdate(ExtLanguage, s.firmwarePath));
      c.ok && r.ok && Last(l).reply.status == 0 ==>
        UpdateStep(hw, s).state == StateFlashing && UpdateStep(hw, s).log == l
  {
  }

  /** Every way UPDATE fails carries one of its three messages. */
  lemma UpdateErrorMessages(hw: Hardware, s: Screen)
    ensures var t := UpdateStep(hw, s);
      t.state == StateError ==>
        t.errorString == CaffeineFailed || t.errorString == ReattachFailed || t.errorString == StartFailed
  {
  }

  /** UPDATE ends in ERROR with the caffeine message exactly when the
      running version is at or above the threshold and the slot call that
      follows is refused; it then stops after those three calls, without
      touching the GamePad's link state. */
  lemma UpdateStopsOnCaffeineFailure(hw: Hardware, s: Screen)
    ensures var t := UpdateStep(hw, s);
      var n := |s.log.events|;
      && n + 3 <= |t.log.events|
      && ((t.state == StateError && t.errorString == CaffeineFailed) <==>
          (t.log.events[n + 1].reply.version >= CaffeineVersion && t.log.events[n + 2].reply.status != 0))
      && (t.state == StateError && t.errorString == CaffeineFailed ==>
          |t.log.events| == n + 3 && Last(t.log).call == SetCaffeineSlot(CaffeineSlot))
  {
    var n := |s.log.events|;
    var c := CaffeineInvalidate(hw, Issue(hw, s.log, SetHomeMenu(false)));
    if c.ok {
      var q := Issue(hw, c.log, SoftwareAbort);
      StartInUpdateModeAppends(hw, s, q);
      var t := UpdateStep(hw, s);
      assert t.log.events[n + 1] == c.log.events[n + 1];
      assert t.log.events[n + 2] == q.events[n + 2];
      assert t.errorString != CaffeineFailed || t.state != StateError by {
        UpdateErrorCauses(hw, s, q);
      }
    }
  }

  lemma UpdateErrorCauses(hw: Hardware, s: Screen, q: Log)
    ensures var t := StartInUpdateMode(hw, s, q);
      t.state == StateError ==> t.errorString == ReattachFailed || t.errorString == StartFailed
  {
  }

  /** A failed reattachment in update mode, which comes after the abort of
      any pending update, is always followed by a reattachment to ACTIVE
      before ERROR. */
  lemma UpdateRollsBackFailedReattach(hw: Hardware, s: Screen)
    ensures var t := UpdateStep(hw, s);
      t.state == StateError && t.errorString == ReattachFailed ==>
        exists q: Log {:trigger Reattachment(hw, q, DrcUpdate, false)} ::
          && Extends(s.log, q) && q.events != [] && Last(q).call == SoftwareAbort
          && !Reattachment(hw, q, DrcUpdate, false).ok
          && t.log == Rollback(hw, Reattachment(hw, q, DrcUpdate, false).log)
    ensures var c := CaffeineInvalidate(hw, Issue(hw, s.log, SetHomeMenu(false)));
      var r := Reattachment(hw, Issue(hw, c.log, SoftwareAbort), DrcUpdate, false);
      var t := UpdateStep(hw, s);
      c.ok && !r.ok ==>
        t.state == StateError && t.errorString == ReattachFailed && t.log == Rollback(hw, r.log)
  {
    var c := CaffeineInvalidate(hw, Issue(hw, s.log, SetHomeMenu(false)));
    if c.ok {
      var q := Issue(hw, c.log, SoftwareAbort);
      assert Extends(s.log, q);
    }
  }

  /** An update that fails to start is aborted, then rolled back, then
      reported. */
  lemma UpdateAbortsFailedStart(hw: Hardware, s: Screen)
    ensures var t := UpdateStep(hw, s);
      t.state == StateError && t.errorString == StartFailed ==>
        exists q: Log {:trigger AbortAndRollback(hw, q)} ::
          && Extends(s.log, q) && q.events != []
          && Last(q).call == SoftwareExtUpdate(ExtLanguage, s.firmwarePath)
          && Last(q).reply.status != 0
          && t.log == AbortAndRollback(hw, q)
    ensures var c := CaffeineInvalidate(hw, Issue(hw, s.log, SetHomeMenu(false)));
      var r := Reattachment(hw, Issue(hw, c.log, SoftwareAbort), DrcUpdate, false);
      var l := Issue(hw, r.log, SoftwareExtUpdate(ExtLanguage, s.firmwarePath));
      var t := UpdateStep(hw, s);
      c.ok && r.ok && Last(l).reply.status != 0 ==>
        t.state == StateError && t.errorString == StartFailed && t.log == AbortAndRollback(hw, l)
  {
    var c := CaffeineInvalidate(hw, Issue(hw, s.log, SetHomeMenu(false)));
    if c.ok {
      var a := Issue(hw, c.log, SoftwareAbort);
      var r := Reattachment(hw, a, DrcUpdate, false);
      ReattachmentWithinBudget(hw, a, DrcUpdate, false);
      if r.ok {
        var q := Issue(hw, r.log, SoftwareExtUpdate(ExtLanguage, s.firmwarePath));
        assert Extends(s.log, q);
      }
    }
  }

  /** FLASHING polls the progress and sleeps 200 ms. The progress is
      overwritten only by a successful poll; the recorded completion is left
      as it was. */
  lemma FlashingPollsProgress(hw: Hardware, s: Screen)
    ensures var u := FlashingStep(hw, s);
      var n := |s.log.events|;
      && Extends(s.log, u.log) && n + 2 <= |u.log.events|
      && u.log.events[n].call == GetFWInfo
      && u.log.events[n + 1].call == Sleep(FlashPollMs)
      && (u.log.events[n].reply.status == 0 ==> u.flashingProgress == u.log.events[n].reply.progress)
      && (u.log.events[n].reply.status != 0 ==> u.flashingProgress == s.flashingProgress)
      && u.updateComplete == s.updateComplete && u.updateResult == s.updateResult
  {
    var l2 := Issue(hw, Issue(hw, s.log, GetFWInfo), Sleep(FlashPollMs));
    if s.updateComplete && s.updateResult != IosErrorOk {
      var back := AbortAndRollback(hw, l2);
    }
  }

  /** The screen stays in FLASHING while no completion is recorded; a
      recorded IOS_ERROR_OK moves on to ACTIVATE, any other result aborts,
      rolls back and ends in ERROR. */
  lemma FlashingActsOnCompletion(hw: Hardware, s: Screen)
    requires s.state == StateFlashing
    ensures var u := FlashingStep(hw, s);
      var n := |s.log.events|;
      && n + 2 <= |u.log.events|
      && (!s.updateComplete ==> u.state == StateFlashing && |u.log.events| == n + 2)
      && (s.updateComplete && s.updateResult == IosErrorOk ==>
            u.state == StateActivate && |u.log.events| == n + 2)
      && (s.updateComplete && s.updateResult != IosErrorOk ==>
            && u.state == StateError && u.errorString == UpdateFailed
            && u.log == AbortAndRollback(hw, Log(u.log.events[..n + 2], s.log.now + FlashPollMs)))
  {
    var n := |s.log.events|;
    var l2 := Issue(hw, Issue(hw, s.log, GetFWInfo), Sleep(FlashPollMs));
    var u := FlashingStep(hw, s);
    if s.updateComplete && s.updateResult != IosErrorOk {
      assert u.log == AbortAndRollback(hw, l2);
      assert u.log.events[..n + 2] == l2.events;
      assert Log(u.log.events[..n + 2], s.log.now + FlashPollMs) == l2;
    } else {
      assert u.log == l2;
    }
  }

  /** The reactivation loop ends with a reattachment to ACTIVE that either
      succeeded or ended more than 10 whole seconds after the loop started. */
  lemma {:induction false} ReactivationStops(hw: Hardware, l: Log, start: nat)
    requires start <= l.now
    ensures var o := Reactivation(hw, l, start);
      exists q: Log {:trigger Reattachment(hw, q, DrcActive, false)} ::
        && Extends(l, q)
        && Reattachment(hw, q, DrcActive, false).log == o
        && (Reattachment(hw, q, DrcActive, false).ok || (o.now - start) / 1000 > ReactivateTimeoutS)
    decreases (ReactivateTimeoutS + 1) * 1000 + ReactivateSleepMs - (l.now - start)
  {
    var r := Reattachment(hw, l, DrcActive, false);
    ReattachmentWithinBudget(hw, l, DrcActive, false);
    if !(r.ok || (r.log.now - start) / 1000 > ReactivateTimeoutS) {
      var next := Issue(hw, r.log, Sleep(ReactivateSleepMs));
      ReactivationStops(hw, next, start);
      var q :| Extends(next, q) && Reattachment(hw, q, DrcActive, false).log == Reactivation(hw, next, start)
        && (Reattachment(hw, q, DrcActive, false).ok || (Reactivation(hw, next, start).now - start) / 1000 > ReactivateTimeoutS);
      assert Extends(l, q);
    } else {
      assert Extends(l, l);
    }
  }

  /** The events `p` are a log, continuing `l`, that ends with a failed
      reattachment to ACTIVE. */
  ghost predicate AfterFailedReattach(hw: Hardware, l: Log, p: seq<Event>)
  {
    exists q: Log {:trigger Reattachment(hw, q, DrcActive, false)} ::
      && Extends(l, q)
      && Reattachment(hw, q, DrcActive, false).log.events == p
      && !Reattachment(hw, q, DrcActive, false).ok
  }

  lemma AfterFailedReattachWidens(hw: Hardware, l: Log, m: Log, p: seq<Event>)
    requires Extends(l, m) && AfterFailedReattach(hw, m, p)
    ensures AfterFailedReattach(hw, l, p)
  {
    var q :| Extends(m, q)
      && Reattachment(hw, q, DrcActive, false).log.events == p
      && !Reattachment(hw, q, DrcActive, false).ok;
    assert Extends(l, q);
  }

  /** Every 1 s sleep in `o` past the log `l` comes right after a failed
      reattachment to ACTIVE. */
  ghost predicate RetriesOnlyAfterFailure(hw: Hardware, l: Log, o: seq<Event>)
  {
    forall i | |l.events| <= i < |o| && o[i].call == Sleep(ReactivateSleepMs) ::
      AfterFailedReattach(hw, l, o[..i])
  }

  /** Every sleep in `o` past the log `l` other than the loop's 1 s pause
      comes right after an EEPROM probe that found the EEPROM unreadable. */
  predicate PausesOnlyAfterFailedProbe(l: Log, o: seq<Event>)
  {
    forall i | |l.events| <= i < |o| && o[i].call.Sleep? && o[i].call != Sleep(ReactivateSleepMs) ::
      |l.events| < i && o[i - 1].call == GetCachedEeprom(DrcSlot) && o[i - 1].reply.status == -1
  }

  /** Inside the reactivation loop, the only other pauses are those of the
      EEPROM waits of its reattachments. */
  lemma {:induction false} ReactivationPausesOnlyAfterFailedProbe(hw: Hardware, l: Log, start: nat)
    requires start <= l.now
    ensures PausesOnlyAfterFailedProbe(l, Reactivation(hw, l, start).events)
    decreases (ReactivateTimeoutS + 1) * 1000 + ReactivateSleepMs - (l.now - start)
  {
    var r := Reattachment(hw, l, DrcActive, false);
    ReattachmentWithinBudget(hw, l, DrcActive, false);
    ReattachmentSleepsOnlyToPoll(hw, l, DrcActive, false);
    if !(r.ok || (r.log.now - start) / 1000 > ReactivateTimeoutS) {
      var next := Issue(hw, r.log, Sleep(ReactivateSleepMs));
      var o := Reactivation(hw, next, start).events;
      assert o == Reactivation(hw, l, start).events;
      ReactivationPausesOnlyAfterFailedProbe(hw, next, start);
      assert PausesOnlyAfterFailedProbe(next, o);
      ReactivationAppends(hw, next, start);
      forall i | |l.events| <= i < |r.log.events|
        ensures o[i] == r.log.events[i]
      {
      }
    }
  }

  /** The reactivation loop retries only after a failure: every 1 s sleep
      in its log comes right after a reattachment to ACTIVE that failed, and
      every other sleep is a pause of an EEPROM wait. So the loop stops at its
      first reattachment that succeeds. */
  lemma {:induction false} ReactivationRetriesOnlyAfterFailure(hw: Hardware, l: Log, start: nat)
    requires start <= l.now
    ensures RetriesOnlyAfterFailure(hw, l, Reactivation(hw, l, start).events)
    ensures PausesOnlyAfterFailedProbe(l, Reactivation(hw, l, start).events)
    decreases (ReactivateTimeoutS + 1) * 1000 + ReactivateSleepMs - (l.now - start)
  {
    ReactivationPausesOnlyAfterFailedProbe(hw, l, start);
    var r := Reattachment(hw, l, DrcActive, false);
    ReattachmentWithinBudget(hw, l, DrcActive, false);
    ReattachmentSleepsOnlyToPoll(hw, l, DrcActive, false);
    if !(r.ok || (r.log.now - start) / 1000 > ReactivateTimeoutS) {
      var next := Issue(hw, r.log, Sleep(ReactivateSleepMs));
      var o := Reactivation(hw, next, start).events;
      assert o == Reactivation(hw, l, start).events;
      ReactivationRetriesOnlyAfterFailure(hw, next, start);
      assert RetriesOnlyAfterFailure(hw, next, o);
      ReactivationAppends(hw, next, start);
      assert AfterFailedReattach(hw, l, r.log.events) by {
        assert Extends(l, l);
      }
      forall i | |l.events| <= i < |r.log.events|
        ensures o[i].call != Sleep(ReactivateSleepMs)
      {
        assert o[i] == r.log.events[i];
      }
      forall i | |l.events| <= i < |o| && o[i].call == Sleep(ReactivateSleepMs)
        ensures AfterFailedReattach(hw, l, o[..i])
      {
        if i == |r.log.events| {
          assert o[..i] == r.log.events;
        } else {
          AfterFailedReattachWidens(hw, l, next, o[..i]);
        }
      }
    }
  }

  lemma {:induction false} ReactivationAppends(hw: Hardware, l: Log, start: nat)
    requires start <= l.now
    ensures Extends(l, Reactivation(hw, l, start))
    decreases (ReactivateTimeoutS + 1) * 1000 + ReactivateSleepMs - (l.now - start)
  {
    var r := Reattachment(hw, l, DrcActive, false);
    ReattachmentWithinBudget(hw, l, DrcActive, false);
    if !(r.ok || (r.log.now - start) / 1000 > ReactivateTimeoutS) {
      ReactivationAppends(hw, Issue(hw, r.log, Sleep(ReactivateSleepMs)), start);
    }
  }

  /** The reactivation loop is bounded: entered less than 12 s after it
      started, it ends less than 15 s after it started. */
  lemma {:induction false} ReactivationBounded(hw: Hardware, l: Log, start: nat)
    requires start <= l.now && l.now - start < (ReactivateTimeoutS + 2) * 1000
    ensures var o := Reactivation(hw, l, start);
      Extends(l, o) && o.now - start < (ReactivateTimeoutS + 5) * 1000
    decreases (ReactivateTimeoutS + 1) * 1000 + ReactivateSleepMs - (l.now - start)
  {
    var r := Reattachment(hw, l, DrcActive, false);
    ReattachmentWithinBudget(hw, l, DrcActive, false);
    if !(r.ok || (r.log.now - start) / 1000 > ReactivateTimeoutS) {
      ReactivationBounded(hw, Issue(hw, r.log, Sleep(ReactivateSleepMs)), start);
    }
  }

  /** ACTIVATE issues the activation first. It ends in DONE exactly when the
      activation was accepted, however the reattach loop after it ends, and
      that loop ends within 15 s. */
  lemma ActivateFinishesWhenAccepted(hw: Hardware, s: Screen)
    ensures var u := ActivateStep(hw, s);
      var n := |s.log.events|;
      && Extends(s.log, u.log) && n < |u.log.events|
      && u.log.events[n].call == SoftwareActivate
      && (u.state == StateDone <==> u.log.events[n].reply.status == 0)
      && (u.state == StateDone ==> u.log.now < s.log.now + (ReactivateTimeoutS + 5) * 1000)
      && (u.state == StateDone ==> u.log == Reactivation(hw, Log(u.log.events[..n + 1], s.log.now), s.log.now))
  {
    var n := |s.log.events|;
    var l := Issue(hw, s.log, SoftwareActivate);
    if Last(l).reply.status == 0 {
      ReactivationBounded(hw, l, l.now);
      assert Reactivation(hw, l, l.now).events[n] == l.events[n];
      assert Reactivation(hw, l, l.now).events[..n + 1] == l.events;
      assert Log(Reactivation(hw, l, l.now).events[..n + 1], s.log.now) == l;
    } else {
      var back := AbortAndRollback(hw, l);
      assert back.events[n] == l.events[n];
    }
  }

  /** A refused activation aborts, rolls back and ends in ERROR with the
      activation message. */
  lemma ActivateRollsBackWhenRefused(hw: Hardware, s: Screen)
    ensures var u := ActivateStep(hw, s);
      var n := |s.log.events|;
      u.state != StateDone ==>
        && n < |u.log.events|
        && u.state == StateError && u.errorString == ActivateFailed
        && u.log == AbortAndRollback(hw, Log(u.log.events[..n + 1], s.log.now))
  {
    var n := |s.log.events|;
    var l := Issue(hw, s.log, SoftwareActivate);
    if Last(l).reply.status != 0 {
      var u := ActivateStep(hw, s);
      assert u.log.events[..n + 1] == l.events;
    }
  }

  /** DONE and ERROR: B re-enables the home menu and then closes the screen;
      without B nothing happens. */
  lemma ExitRestoresHomeMenu(hw: Hardware, s: Screen, trigger: bv32)
    requires Settled(s.state)
    ensures var t := Tick(hw, s, trigger);
      && (Pressed(trigger, ButtonB) ==>
            !t.stay && t.screen.log.events == s.log.events + [Last(t.screen.log)] &&
            Last(t.screen.log).call == SetHomeMenu(true) &&
            t.screen.(log := s.log) == s)
      && (!Pressed(trigger, ButtonB) ==> t == Ticked(s, true))
  {
  }

  /** Progress through the states: each frame keeps the state or moves
      strictly forward in this order, ERROR being as far as DONE. */
  function Rank(st: State): nat
  {
    match st
    case StateSelectFile => 0
    case StateConfirm => 0
    case StatePrepare => 1
    case StateConfirm2 => 2
    case StateUpdate => 3
    case StateFlashing => 4
    case StateActivate => 5
    case StateDone => 6
    case StateError => 6
  }

  /** `t` is where a frame may take `s`: the same state or a later one, and
      a log that continues the old one. */
  predicate Advances(s: Screen, t: Screen)
  {
    (t.state == s.state || Rank(s.state) < Rank(t.state)) && Extends(s.log, t.log)
  }

  lemma UpdateStepAdvances(hw: Hardware, s: Screen)
    requires s.state == StateUpdate
    ensures Advances(s, UpdateStep(hw, s))
  {
    var c := CaffeineInvalidate(hw, Issue(hw, s.log, SetHomeMenu(false)));
    if c.ok {
      StartInUpdateModeAppends(hw, s, Issue(hw, c.log, SoftwareAbort));
    }
  }

  lemma FlashingStepAdvances(hw: Hardware, s: Screen)
    requires s.state == StateFlashing
    ensures Advances(s, FlashingStep(hw, s))
  {
    var l2 := Issue(hw, Issue(hw, s.log, GetFWInfo), Sleep(FlashPollMs));
    if s.updateComplete && s.updateResult != IosErrorOk {
      var back := AbortAndRollback(hw, l2);
    }
  }

  lemma ActivateStepAdvances(hw: Hardware, s: Screen)
    requires s.state == StateActivate
    ensures Advances(s, ActivateStep(hw, s))
  {
    ActivateFinishesWhenAccepted(hw, s);
    ActivateRollsBackWhenRefused(hw, s);
  }

  /** A frame never goes back: it keeps the state or moves to a later one,
      and it only appends to the log. */
  lemma TickNeverRegresses(hw: Hardware, s: Screen, trigger: bv32)
    ensures Advances(s, Tick(hw, s, trigger).screen)
  {
    match s.state
    case StateUpdate => UpdateStepAdvances(hw, s);
    case StateFlashing => FlashingStepAdvances(hw, s);
    case StateActivate => ActivateStepAdvances(hw, s);
    case _ =>
  }

  /** What reaches the screen between two of its frames' ends: a frame with
      its button triggers, or the completion callback with its result. */
  datatype Stimulus = Frame(trigger: bv32) | UpdateCompletion(result: int)

  /** The screen driven by a sequence of stimuli until it closes or they run
      out. */
  function Run(hw: Hardware, s: Screen, xs: seq<Stimulus>): Ticked
    decreases |xs|
  {
    if xs == [] then Ticked(s, true)
    else
      match xs[0]
      case UpdateCompletion(result) => Run(hw, Completed(s, result), xs[1..])
      case Frame(trigger) =>
        var t := Tick(hw, s, trigger);
        if t.stay then Run(hw, t.screen, xs[1..]) else t
  }

  /** Over any run the state never goes back and the log only grows; in
      particular the screen leaves FLASHING at most once. */
  lemma {:induction false} RunNeverRegresses(hw: Hardware, s: Screen, xs: seq<Stimulus>)
    ensures var r := Run(hw, s, xs);
      Rank(s.state) <= Rank(r.screen.state) && Extends(s.log, r.screen.log)
    decreases |xs|
  {
    if xs != [] {
      match xs[0]
      case UpdateCompletion(result) =>
        RunNeverRegresses(hw, Completed(s, result), xs[1..]);
      case Frame(trigger) =>
        TickNeverRegresses(hw, s, trigger);
        var t := Tick(hw, s, trigger);
        if t.stay {
          RunNeverRegresses(hw, t.screen, xs[1..]);
        }
    }
  }

  /** A run over `xs + ys` is the run over `xs` continued, while the screen
      is still open, by the run over `ys`. */
  lemma {:induction false} RunComposes(hw: Hardware, s: Screen, xs: seq<Stimulus>, ys: seq<Stimulus>)
    ensures var r := Run(hw, s, xs);
      Run(hw, s, xs + ys) == if r.stay then Run(hw, r.screen, ys) else r
    decreases |xs|
  {
    if xs == [] {
      assert xs + ys == ys;
    } else {
      assert (xs + ys)[0] == xs[0];
      assert (xs + ys)[1..] == xs[1..] + ys;
      match xs[0]
      case UpdateCompletion(result) =>
        RunComposes(hw, Completed(s, result), xs[1..], ys);
      case Frame(trigger) =>
        var t := Tick(hw, s, trigger);
        if t.stay {
          RunComposes(hw, t.screen, xs[1..], ys);
        }
    }
  }

  /** Once a run has taken the screen past FLASHING, no continuation of it
      brings the screen back to FLASHING: the update is flashed at most once
      per screen. */
  lemma RunNeverReturnsToFlashing(hw: Hardware, s: Screen, xs: seq<Stimulus>, ys: seq<Stimulus>)
    requires Rank(StateFlashing) < Rank(Run(hw, s, xs).screen.state)
    ensures Run(hw, s, xs + ys).screen.state != StateFlashing
  {
    RunComposes(hw, s, xs, ys);
    RunNeverRegresses(hw, Run(hw, s, xs).screen, ys);
  }

  /** Once the update has begun, the screen closes only from DONE or ERROR:
      the user cannot leave the GamePad in the middle of an update. */
  lemma {:induction false} RunClosesOnlyWhenSettled(hw: Hardware, s: Screen, xs: seq<Stimulus>)
    requires Rank(StateUpdate) <= Rank(s.state)
    ensures var r := Run(hw, s, xs);
      !r.stay ==> Settled(r.screen.state)
    decreases |xs|
  {
    if xs != [] {
      match xs[0]
      case UpdateCompletion(result) =>
        RunClosesOnlyWhenSettled(hw, Completed(s, result), xs[1..]);
      case Frame(trigger) =>
        TickNeverRegresses(hw, s, trigger);
        var t := Tick(hw, s, trigger);
        if t.stay {
          RunClosesOnlyWhenSettled(hw, t.screen, xs[1..]);
        }
    }
  }

  /** A completion recorded while FLASHING is acted on by the very next frame:
      ACTIVATE for IOS_ERROR_OK, ERROR for anything else. */
  lemma CompletionSeenNextFrame(hw: Hardware, s: Screen, result: int, trigger: bv32)
    requires s.state == StateFlashing
    ensures var r := Run(hw, s, [UpdateCompletion(result), Frame(trigger)]);
      && r.stay
      && (result == IosErrorOk ==> r.screen.state == StateActivate)
      && (result != IosErrorOk ==> r.screen.state == StateError && r.screen.errorString == UpdateFailed)
  {
    var c := Completed(s, result);
    FlashingActsOnCompletion(hw, c);
    var xs := [UpdateCompletion(result), Frame(trigger)];
    assert xs[1..] == [Frame(trigger)] && [Frame(trigger)][1..] == [];
    assert Run(hw, s, xs) == Run(hw, c, [Frame(trigger)]);
    var t := Tick(hw, c, trigger);
    assert t == Ticked(FlashingStep(hw, c), true);
    assert Run(hw, c, [Frame(trigger)]) == Run(hw, t.screen, []);
  }

  /** DrcLangScreen: the screen object, whose frame and completion callback
      update its fields in place. */
  class DrcLangScreen {
    const hw: Hardware
    var state: State
    var errorString: string
    var firmwarePath: string
    var flashingProgress: int
    var updateComplete: bool
    var updateResult: int
    var log: Log

    function Snapshot(): Screen
      reads this
    {
      Screen(state, errorString, firmwarePath, flashingProgress, updateComplete, updateResult, log)
    }

    constructor(hw: Hardware, start: Screen)
      ensures this.hw == hw && Snapshot() == start
    {
      this.hw := hw;
      state := start.state;
      errorString := start.errorString;
      firmwarePath := start.firmwarePath;
      flashingProgress := start.flashingProgress;
      updateComplete := start.updateComplete;
      updateResult := start.updateResult;
      log := start.log;
    }

    /** One frame; returns whether the screen stays open. */
    method Update(trigger: bv32) returns (stay: bool)
      modifies this
      ensures Tick(hw, old(Snapshot()), trigger) == Ticked(Snapshot(), stay)
    {
      stay := true;
      match state
      case StateConfirm2 =>
        if Pressed(trigger, ButtonB) {
          return false;
        }
        if Pressed(trigger, ButtonA) {
          state := StateUpdate;
        }
      case StatePrepare => Prepare();
      case StateUpdate => StartUpdate();
      case StateFlashing => PollFlashing();
      case StateActivate => Activate();
      case StateDone | StateError =>
        if Pressed(trigger, ButtonB) {
          log := Issue(hw, log, SetHomeMenu(true));
          return false;
        }
      case _ =>
    }

    method Prepare()
      modifies this
      ensures Snapshot() == PrepareStep(hw, old(Snapshot()))
    {
      firmwarePath := MlcFirmwarePath;
      log := Issue(hw, log, CopyFile(LangSourcePath, LangStagingPath));
      if Last(log).reply.status != 0 {
        errorString := CopyFailed;
        state := StateError;
        return;
      }
      state := StateConfirm2;
    }

    method StartUpdate()
      modifies this
      ensures Snapshot() == UpdateStep(hw, old(Snapshot()))
    {
      var l := Issue(hw, log, SetHomeMenu(false));
      var c := CaffeineInvalidate(hw, l);
      if !c.ok {
        errorString := CaffeineFailed;
        state := StateError;
        log := c.log;
        return;
      }
      EnterUpdateMode(Issue(hw, c.log, SoftwareAbort));
    }

    /** The rest of UPDATE once any pending update was asked to abort, from
        the log `l`. */
    method EnterUpdateMode(l0: Log)
      modifies this
      ensures Snapshot() == StartInUpdateMode(hw, old(Snapshot()), l0)
    {
      var ok, back, aborted, l;
      ok, l := ReattachDrc(hw, l0, DrcUpdate, false);
      if !ok {
        back, l := ReattachDrc(hw, l, DrcActive, false);
        errorString := ReattachFailed;
        state := StateError;
        log := l;
        return;
      }
      flashingProgress := 0;
      updateComplete := false;
      updateResult := 0;
      l := Issue(hw, l, SoftwareExtUpdate(ExtLanguage, firmwarePath));
      if Last(l).reply.status != 0 {
        aborted, l := AbortUpdate(hw, l);
        back, l := ReattachDrc(hw, l, DrcActive, false);
        errorString := StartFailed;
        state := StateError;
        log := l;
        return;
      }
      state := StateFlashing;
      log := l;
    }

    method PollFlashing()
      modifies this
      ensures Snapshot() == FlashingStep(hw, old(Snapshot()))
    {
      var l := Issue(hw, log, GetFWInfo);
      if Last(l).reply.status == 0 {
        flashingProgress := Last(l).reply.progress;
      }
      l := Issue(hw, l, Sleep(FlashPollMs));
      log := l;
      if updateComplete {
        if updateResult == IosErrorOk {
          state := StateActivate;
        } else {
          var aborted, back;
          aborted, l := AbortUpdate(hw, l);
          back, l := ReattachDrc(hw, l, DrcActive, false);
          errorString := UpdateFailed;
          state := StateError;
          log := l;
        }
      }
    }

    method Activate()
      modifies this
      ensures Snapshot() == ActivateStep(hw, old(Snapshot()))
    {
      var l := Issue(hw, log, SoftwareActivate);
      if Last(l).reply.status != 0 {
        var aborted, back;
        aborted, l := AbortUpdate(hw, l);
        back, l := ReattachDrc(hw, l, DrcActive, false);
        errorString := ActivateFailed;
        state := StateError;
        log := l;
        return;
      }
      l := ReactivateDrc(hw, l);
      state := StateDone;
      log := l;
    }

    /** OnUpdateCompleted: records the completion and its result, nothing
        else. */
    method OnUpdateCompleted(result: int)
      modifies this
      ensures Snapshot() == Completed(old(Snapshot()), result)
    {
      updateComplete := true;
      updateResult := result;
    }
  }
}
