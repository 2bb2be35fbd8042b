/** The console's side of the two screens: the vendor calls they issue, the
    replies the hardware gives, the log of issued calls and the clock.

    Hardware is not modelled by its semantics. It is a total function that
    answers each call, given everything that was called and answered before;
    so a proof about the screens holds for every sequence of replies the
    GamePad, the IOS-PAD update service and the file system can give. Calls
    are taken to return at once: only sleeps move the clock. */
module Platform {

  newtype uint32 = x: int | 0 <= x < 0x1_0000_0000

  /** Link state of the GamePad (DRC) as read and written through
      CCRCDCSysGetDrcState / CCRCDCSysSetDrcState. Only ACTIVE, UPDATE and the
      undocumented state 3 matter to the screens; every other value is kept
      apart by its code. The encoding is canonical: `DrcOther` never carries
      the code of ACTIVE, UPDATE or state 3, so two states are equal here
      exactly when their codes are equal on the console. */
  datatype DrcState = DrcActive | DrcUpdate | DrcUnk3 | DrcOther(code: int)

  /** The part of the GamePad firmware an extended software update writes. */
  datatype Ext = ExtLanguage

  /** Every external call the screens make, with the arguments that vary. All
      CDC calls address the first GamePad (CCR_CDC_DESTINATION_DRC0). The
      home-menu switch of the host shell is logged like the others; its
      reply is never read. */
  datatype Call =
    | CopyFile(src: string, dst: string)         // file copy, true when status is 0
    | GetSoftwareVersion                         // CCRCDCSoftwareGetVersion
    | SetCaffeineSlot(slot: int)                 // CCRSysCaffeineSetCaffeineSlot
    | SoftwareAbort                              // CCRCDCSoftwareAbort
    | GetDrcState                                // CCRCDCSysGetDrcState
    | InitReattach                               // __CCRSysInitReattach
    | SetDrcState(target: DrcState)              // CCRCDCSysSetDrcState
    | WaitReattach(unknown: bool)                // __CCRSysWaitReattach
    | GetCachedEeprom(slot: int)                 // CCRCFGGetCachedEeprom
    | SoftwareExtUpdate(ext: Ext, path: string)  // CCRCDCSoftwareExtUpdate
    | GetFWInfo                                  // CCRCDCGetFWInfo
    | SoftwareActivate                           // CCRCDCSoftwareActivate
    | InitializeSettings                         // CCRSysInitializeSettings
    | Sleep(ms: nat)                             // OSSleepTicks
    | SetHomeMenu(enabled: bool)                 // ProcUI::SetHomeButtonMenuEnabled

  /** What a call returns: its status code and the out-structure fields the
      screens read. A call reads only the fields that belong to it. */
  datatype Reply = Reply(status: int, state: DrcState, version: uint32, progress: int)

  /** One issued call together with the reply it got. */
  datatype Event = Event(call: Call, reply: Reply)

  /** What the console has done so far: the calls issued, in order, with
      their replies, and the system clock in milliseconds. */
  datatype Log = Log(events: seq<Event>, now: nat)

  /** The hardware: the reply to a call, given everything before it. */
  type Hardware = (Log, Call) -> Reply

  /** IOS_ERROR_OK, the result code of a successful asynchronous update. */
  const IosErrorOk := 0

  function Last(l: Log): Event
    requires l.events != []
  {
    l.events[|l.events| - 1]
  }

  /** The log `l` is continued by `m`: the same events first, and a clock
      that has not gone back. */
  predicate Extends(l: Log, m: Log)
  {
    l.events <= m.events && l.now <= m.now
  }

  /** Issues call `c`: the log grows by the call and the reply the hardware
      gives it. Vendor calls are taken to return at once; only a sleep moves
      the clock, by its duration. */
  function Issue(hw: Hardware, l: Log, c: Call): Log
  {
    Log(l.events + [Event(c, hw(l, c))], if c.Sleep? then l.now + c.ms else l.now)
  }
}

/** Screen states and controller input shared by the screens. */
module Screens {

  /** The screen states, in the order FlashScreen declares them; the language
      pack and format screens use a subset and leave the others to `default`. */
  datatype State =
    | StateSelectFile
    | StateConfirm
    | StatePrepare
    | StateConfirm2
    | StateUpdate
    | StateFlashing
    | StateActivate
    | StateDone
    | StateError

  /** DONE and ERROR, where both screens wait for the user to leave. */
  predicate Settled(st: State)
  {
    st == StateDone || st == StateError
  }

  /** VPAD_BUTTON_A and VPAD_BUTTON_B, bits of VPADStatus.trigger. */
  const ButtonA: bv32 := 0x8000
  const ButtonB: bv32 := 0x4000

  /** `trigger & button` is nonzero: the button went down this frame. */
  predicate Pressed(trigger: bv32, button: bv32)
  {
    trigger & button != 0
  }
}
