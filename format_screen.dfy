/** The GamePad erase screen (FormatScreen). Its UPDATE frame aborts any
    pending software update and resets the GamePad's settings, then waits in
    DONE or ERROR for the user to leave with B. */
module Format {
  import opened Platform
  import opened Screens

  const EraseFailed := "Erase failed."

  /** The fields of the screen that its frames read and write, together with
      the log of the console's calls. */
  datatype Screen = Screen(state: State, errorString: string, eraseComplete: bool, log: Log)

  /** What one frame leaves: the screen, and whether it stays open. */
  datatype Ticked = Ticked(screen: Screen, stay: bool)

  /** Update: one frame of the screen. It closes only when B goes down in
      DONE or ERROR, and no frame touches the completion flag. */
  function Tick(hw: Hardware, s: Screen, trigger: bv32): (t: Ticked)
    ensures !t.stay <==> Settled(s.state) && Pressed(trigger, ButtonB)
    ensures t.screen.eraseComplete == s.eraseComplete
  {
    match s.state
    case StateUpdate =>
      var l := Issue(hw, Issue(hw, s.log, SoftwareAbort), InitializeSettings);
      if Last(l).reply.status != 0 then Ticked(s.(errorString := EraseFailed, state := StateError, log := l), true)
      else Ticked(s.(state := StateDone, log := l), true)
    case StateDone | StateError =>
      if Pressed(trigger, ButtonB) then Ticked(s.(log := Issue(hw, s.log, SetHomeMenu(true))), false)
      else Ticked(s, true)
    case _ => Ticked(s, true)
  }

  /** OnEraseCompleted: what the completion notification records. */
  function Erased(s: Screen): Screen
  {
    s.(eraseComplete := true)
  }

  /** UPDATE makes exactly two calls: the abort of any pending update, whose
      answer is ignored, then the settings reset; so it leaves the home menu
      alone. A refused reset ends in ERROR with the erase message, an
      accepted one in DONE. */
  lemma EraseAbortsThenResets(hw: Hardware, s: Screen, trigger: bv32)
    requires s.state == StateUpdate
    ensures var t := Tick(hw, s, trigger);
      var n := |s.log.events|;
      var reset := Last(t.screen.log);
      && t.stay
      && Extends(s.log, t.screen.log) && |t.screen.log.events| == n + 2
      && t.screen.log.events[n].call == SoftwareAbort
      && reset.call == InitializeSettings
      && (reset.reply.status == 0 ==> t.screen.state == StateDone && t.screen.errorString == s.errorString)
      && (reset.reply.status != 0 ==> t.screen.state == StateError && t.screen.errorString == EraseFailed)
  {
  }

  /** DONE and ERROR: B re-enables the home menu and then closes the screen;
      without B nothing happens. */
  lemma ExitRestoresHomeMenu(hw: Hardware, s: Screen, trigger: bv32)
    requires Settled(s.state)
    ensures var t := Tick(hw, s, trigger);
      && (Pressed(trigger, ButtonB) ==>
            !t.stay && t.screen.log.events == s.log.events + [Last(t.screen.log)] &&
            Last(t.screen.log).call == SetHomeMenu(true) &&
            t.screen.(log := s.log) == s)
      && (!Pressed(trigger, ButtonB) ==> t == Ticked(s, true))
  {
  }

  /** Every other state falls to the default case: nothing changes and the
      screen stays open. */
  lemma OtherStatesIdle(hw: Hardware, s: Screen, trigger: bv32)
    requires s.state !in {StateUpdate, StateDone, StateError}
    ensures Tick(hw, s, trigger) == Ticked(s, true)
  {
  }

  /** What reaches the screen between two of its frames' ends: a frame with
      its button triggers, or the erase completion. */
  datatype Stimulus = Frame(trigger: bv32) | EraseCompletion

  /** The screen driven by a sequence of stimuli until it closes or they run
      out. */
  function Run(hw: Hardware, s: Screen, xs: seq<Stimulus>): Ticked
    decreases |xs|
  {
    if xs == [] then Ticked(s, true)
    else
      match xs[0]
      case EraseCompletion => Run(hw, Erased(s), xs[1..])
      case Frame(trigger) =>
        var t := Tick(hw, s, trigger);
        if t.stay then Run(hw, t.screen, xs[1..]) else t
  }

  /** The erase screen never disables the home menu, over any run: the only
      home-menu call it makes re-enables it. */
  lemma {:induction false} RunNeverDisablesHomeMenu(hw: Hardware, s: Screen, xs: seq<Stimulus>)
    ensures var r := Run(hw, s, xs).screen;
      && Extends(s.log, r.log)
      && forall i | |s.log.events| <= i < |r.log.events| :: r.log.events[i].call != SetHomeMenu(false)
    decreases |xs|
  {
    if xs != [] {
      match xs[0]
      case EraseCompletion =>
        RunNeverDisablesHomeMenu(hw, Erased(s), xs[1..]);
      case Frame(trigger) =>
        var t := Tick(hw, s, trigger);
        if t.stay {
          RunNeverDisablesHomeMenu(hw, t.screen, xs[1..]);
          var r := Run(hw, s, xs).screen;
          forall i | |s.log.events| <= i < |r.log.events|
            ensures r.log.events[i].call != SetHomeMenu(false)
          {
            if i < |t.screen.log.events| {
              assert r.log.events[i] == t.screen.log.events[i];
            }
          }
        }
    }
  }

  /** DONE and ERROR are final: once there, any run keeps the state, the
      message and the log, until B closes the screen with the home-menu
      call. */
  lemma {:induction false} RunSettles(hw: Hardware, s: Screen, xs: seq<Stimulus>)
    requires Settled(s.state)
    ensures var r := Run(hw, s, xs);
      && r.screen.state == s.state && r.screen.errorString == s.errorString
      && (r.stay ==> r.screen.log == s.log)
      && (!r.stay ==> r.screen.log == Issue(hw, s.log, SetHomeMenu(true)))
    decreases |xs|
  {
    if xs != [] {
      match xs[0]
      case EraseCompletion =>
        RunSettles(hw, Erased(s), xs[1..]);
      case Frame(trigger) =>
        var t := Tick(hw, s, trigger);
        if t.stay {
          RunSettles(hw, t.screen, xs[1..]);
        }
    }
  }

  /** FormatScreen: the screen object, whose frame and completion
      notification update its fields in place. */
  class FormatScreen {
    const hw: Hardware
    var state: State
    var errorString: string
    var eraseComplete: bool
    var log: Log

    function Snapshot(): Screen
      reads this
    {
      Screen(state, errorString, eraseComplete, log)
    }

    constructor(hw: Hardware, start: Screen)
      ensures this.hw == hw && Snapshot() == start
    {
      this.hw := hw;
      state := start.state;
      errorString := start.errorString;
      eraseComplete := start.eraseComplete;
      log := start.log;
    }

    /** One frame; returns whether the screen stays open. */
    method Update(trigger: bv32) returns (stay: bool)
      modifies this
      ensures Tick(hw, old(Snapshot()), trigger) == Ticked(Snapshot(), stay)
    {
      stay := true;
      match state
      case StateUpdate =>
        log := Issue(hw, log, SoftwareAbort);
        log := Issue(hw, log, InitializeSettings);
        if Last(log).reply.status != 0 {
          errorString := EraseFailed;
          state := StateError;
        } else {
          state := StateDone;
        }
      case StateDone | StateError =>
        if Pressed(trigger, ButtonB) {
          log := Issue(hw, log, SetHomeMenu(true));
          return false;
        }
      case _ =>
    }

    /** OnEraseCompleted: sets the completion flag, nothing else. */
    method OnEraseCompleted()
      modifies this
      ensures Snapshot() == Erased(old(Snapshot()))
    {
      eraseComplete := true;
    }
  }
}
