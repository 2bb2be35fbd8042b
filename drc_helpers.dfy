/** The helpers of the language-pack screen: invalidating the caffeine slot,
    the two polling loops (EEPROM readiness and update abort) and the
    reattachment of the GamePad in a requested link state.

    Each helper takes the hardware and the log so far and yields whether it
    succeeded and the log it leaves behind. */
module DrcHelpers {
  import opened Platform

  datatype Outcome = Outcome(ok: bool, log: Log)

  /** `dest - CCR_CDC_DESTINATION_DRC0` for the first GamePad. */
  const DrcSlot := 0
  /** Running versions from this one on have a caffeine slot. */
  const CaffeineVersion: uint32 := 0x180a0000
  const CaffeineSlot := 0xff
  /** The polling loops sleep 200 ms between two attempts. */
  const PollSleepMs: nat := 200

  /** CaffeineInvalidate: a GamePad running a version below the threshold has
      nothing to invalidate and the step succeeds without a slot call;
      otherwise the result is exactly whether the slot call returned 0. */
  function CaffeineInvalidate(hw: Hardware, l: Log): (o: Outcome)
    ensures Extends(l, o.log) && o.log.now == l.now
    ensures |o.log.events| > |l.events| && o.log.events[|l.events|].call == GetSoftwareVersion
    ensures var version := o.log.events[|l.events|].reply.version;
      (version < CaffeineVersion ==> o.ok && |o.log.events| == |l.events| + 1) &&
      (version >= CaffeineVersion ==>
        |o.log.events| == |l.events| + 2 && Last(o.log).call == SetCaffeineSlot(CaffeineSlot) &&
        (o.ok <==> Last(o.log).reply.status == 0))
  {
    var l1 := Issue(hw, l, GetSoftwareVersion);
    if Last(l1).reply.version >= CaffeineVersion then
      var l2 := Issue(hw, l1, SetCaffeineSlot(CaffeineSlot));
      Outcome(Last(l2).reply.status == 0, l2)
    else
      Outcome(true, l1)
  }

  /** The two things the screen polls for until they succeed or time runs
      out: the GamePad's cached EEPROM becoming readable, and an abort of the
      pending software update being accepted. */
  datatype Probe = EepromProbe(slot: int) | AbortProbe

  function ProbeCall(p: Probe): Call
  {
    match p
    case EepromProbe(slot) => GetCachedEeprom(slot)
    case AbortProbe => SoftwareAbort
  }

  /** The EEPROM is readable once the probe stops answering -1; an abort is
      accepted when it answers 0. */
  predicate Succeeded(p: Probe, r: Reply)
  {
    match p
    case EepromProbe(_) => r.status != -1
    case AbortProbe => r.status == 0
  }

  /** The loops give up once more than this many whole seconds have passed. */
  function TimeoutS(p: Probe): nat
  {
    match p
    case EepromProbe(_) => 2
    case AbortProbe => 3
  }

  /** The polling loop of WaitForEeprom and AbortUpdate, started when the
      clock read `start`: attempt; stop on success; give up once more whole
      seconds than the timeout have passed; otherwise sleep 200 ms and try
      again. */
  function Poll(hw: Hardware, l: Log, p: Probe, start: nat): Outcome
    requires start <= l.now
    decreases (TimeoutS(p) + 1) * 1000 + PollSleepMs - (l.now - start)
  {
    var u := Issue(hw, l, ProbeCall(p));
    if Succeeded(p, Last(u).reply) then Outcome(true, u)
    else if (u.now - start) / 1000 > TimeoutS(p) then Outcome(false, u)
    else Poll(hw, Issue(hw, u, Sleep(PollSleepMs)), p, start)
  }

  /** The loop stops at the first attempt that succeeds, and succeeds exactly
      then; it retries only after a failed attempt and a 200 ms sleep; and it
      fails only once the truncated number of seconds since it started
      exceeds the timeout. */
  lemma {:induction false} PollStopsAtFirstSuccess(hw: Hardware, l: Log, p: Probe, start: nat)
    requires start <= l.now
    ensures var o := Poll(hw, l, p, start);
      && Extends(l, o.log) && |l.events| < |o.log.events|
      && o.log.events[|l.events|].call == ProbeCall(p)
      && Last(o.log).call == ProbeCall(p)
      && (o.ok <==> Succeeded(p, Last(o.log).reply))
      && (forall i | |l.events| <= i < |o.log.events| - 1 ::
            o.log.events[i].call == Sleep(PollSleepMs) ||
            (o.log.events[i].call == ProbeCall(p) && !Succeeded(p, o.log.events[i].reply)))
      && (!o.ok ==> (o.log.now - start) / 1000 > TimeoutS(p))
    decreases (TimeoutS(p) + 1) * 1000 + PollSleepMs - (l.now - start)
  {
    var u := Issue(hw, l, ProbeCall(p));
    if !Succeeded(p, Last(u).reply) && (u.now - start) / 1000 <= TimeoutS(p) {
      PollStopsAtFirstSuccess(hw, Issue(hw, u, Sleep(PollSleepMs)), p, start);
    }
  }

  /** Every sleep of the loop comes right after an attempt that failed. */
  lemma {:induction false} PollSleepsAfterFailure(hw: Hardware, l: Log, p: Probe, start: nat)
    requires start <= l.now
    ensures var o := Poll(hw, l, p, start).log.events;
      forall i | |l.events| <= i < |o| && o[i].call.Sleep? ::
        |l.events| < i && o[i - 1].call == ProbeCall(p) && !Succeeded(p, o[i - 1].reply)
    decreases (TimeoutS(p) + 1) * 1000 + PollSleepMs - (l.now - start)
  {
    var u := Issue(hw, l, ProbeCall(p));
    if !Succeeded(p, Last(u).reply) && (u.now - start) / 1000 <= TimeoutS(p) {
      var next := Issue(hw, u, Sleep(PollSleepMs));
      PollSleepsAfterFailure(hw, next, p, start);
      PollStopsAtFirstSuccess(hw, next, p, start);
      var o := Poll(hw, next, p, start).log.events;
      assert o == Poll(hw, l, p, start).log.events;
      assert o[|l.events|] == u.events[|l.events|];
      assert o[|u.events|] == Last(next) && o[|u.events| - 1] == Last(u);
    }
  }

  /** The loop is bounded: entered on the 200 ms grid at or before one second
      past the timeout, it returns by then, after at most one attempt per
      200 ms left, plus one. From the start that is 3 s and 16 probes for the
      EEPROM, 4 s and 21 abort requests for the abort. */
  lemma {:induction false} PollBounded(hw: Hardware, l: Log, p: Probe, start: nat, k: nat)
    requires l.now == start + PollSleepMs * k && k <= 5 * (TimeoutS(p) + 1)
    ensures var o := Poll(hw, l, p, start);
      o.log.now <= start + (TimeoutS(p) + 1) * 1000 &&
      |o.log.events| - |l.events| <= 2 * (5 * (TimeoutS(p) + 1) - k) + 1
    decreases 5 * (TimeoutS(p) + 1) - k
  {
    var u := Issue(hw, l, ProbeCall(p));
    if !Succeeded(p, Last(u).reply) && (u.now - start) / 1000 <= TimeoutS(p) {
      PollBounded(hw, Issue(hw, u, Sleep(PollSleepMs)), p, start, k + 1);
    }
  }

  /** WaitForEeprom: polls the cached EEPROM of a GamePad slot until it is
      readable, giving up after more than two seconds. */
  method WaitForEeprom(hw: Hardware, slot: int, l0: Log) returns (ok: bool, l: Log)
    ensures Outcome(ok, l) == Poll(hw, l0, EepromProbe(slot), l0.now)
  {
    var startTime := l0.now;
    ghost var before := l0;
    l := Issue(hw, l0, GetCachedEeprom(slot));
    while Last(l).reply.status == -1
      invariant startTime <= before.now && l == Issue(hw, before, GetCachedEeprom(slot))
      invariant Poll(hw, before, EepromProbe(slot), startTime) == Poll(hw, l0, EepromProbe(slot), l0.now)
      decreases 3000 + PollSleepMs - (l.now - startTime)
    {
      if (l.now - startTime) / 1000 > 2 {
        return false, l;
      }
      l := Issue(hw, l, Sleep(PollSleepMs));
      before := l;
      l := Issue(hw, l, GetCachedEeprom(slot));
    }
    return true, l;
  }

  /** AbortUpdate: asks the GamePad to abort its pending software update until
      it accepts, giving up after more than three seconds. */
  method AbortUpdate(hw: Hardware, l0: Log) returns (ok: bool, l: Log)
    ensures Outcome(ok, l) == Poll(hw, l0, AbortProbe, l0.now)
  {
    var startTime := l0.now;
    ghost var before := l0;
    l := Issue(hw, l0, SoftwareAbort);
    while Last(l).reply.status != 0
      invariant startTime <= before.now && l == Issue(hw, before, SoftwareAbort)
      invariant Poll(hw, before, AbortProbe, startTime) == Poll(hw, l0, AbortProbe, l0.now)
      decreases 4000 + PollSleepMs - (l.now - startTime)
    {
      if (l.now - startTime) / 1000 > 3 {
        return false, l;
      }
      l := Issue(hw, l, Sleep(PollSleepMs));
      before := l;
      l := Issue(hw, l, SoftwareAbort);
    }
    return true, l;
  }

  /** State 3 is taken for ACTIVE when comparing the current state. */
  function Normalize(s: DrcState): DrcState
  {
    if s == DrcUnk3 then DrcActive else s
  }

  /** A refusal by one of the reattachment steps that report a status. */
  predicate Refused(e: Event)
  {
    (e.call == GetDrcState || e.call.SetDrcState? || e.call.WaitReattach?) && e.reply.status != 0
  }

  /** ReattachDRC, as a function of the hardware and the log: read the state;
      if it already is the target (state 3 counting as ACTIVE), succeed at
      once. Otherwise announce the reattachment, request the target state, wait
      for the GamePad to reattach and for its EEPROM, and read the state again,
      which must now be exactly the target. The first step that fails ends the
      attempt. */
  function Reattachment(hw: Hardware, l: Log, target: DrcState, unknown: bool): Outcome
  {
    var l1 := Issue(hw, l, GetDrcState);
    if Last(l1).reply.status != 0 then Outcome(false, l1)
    else if Normalize(Last(l1).reply.state) == target then Outcome(true, l1)
    else
      var l2 := Issue(hw, Issue(hw, l1, InitReattach), SetDrcState(target));
      if Last(l2).reply.status != 0 then Outcome(false, l2)
      else
        var l3 := Issue(hw, l2, WaitReattach(unknown));
        if Last(l3).reply.status != 0 then Outcome(false, l3)
        else Confirmation(hw, l3, target)
  }

  /** The tail of a full reattachment, once the GamePad has reattached: wait
      for its EEPROM, then read the state again; it must be the target itself. */
  function Confirmation(hw: Hardware, l3: Log, target: DrcState): Outcome
  {
    var e := Poll(hw, l3, EepromProbe(DrcSlot), l3.now);
    if !e.ok then e
    else
      var l4 := Issue(hw, e.log, GetDrcState);
      Outcome(Last(l4).reply.status == 0 && Last(l4).reply.state == target, l4)
  }

  /** What a reattachment promises: it starts by reading the state; when that
      read already shows the target (state 3 counting as ACTIVE) it stops
      there, without announcing a reattachment or requesting a state; it
      succeeds exactly when its last event is a read that confirms the target
      (the re-read must show the target itself). */
  lemma ReattachmentConfirmsTarget(hw: Hardware, l: Log, target: DrcState, unknown: bool)
    ensures var o := Reattachment(hw, l, target, unknown);
      && Extends(l, o.log) && |l.events| < |o.log.events|
      && o.log.events[|l.events|].call == GetDrcState
      && (var first := o.log.events[|l.events|];
          first.reply.status == 0 && Normalize(first.reply.state) == target ==>
            o.ok && |o.log.events| == |l.events| + 1)
      && (o.ok <==>
            Last(o.log).call == GetDrcState && Last(o.log).reply.status == 0 &&
            (if |o.log.events| == |l.events| + 1
             then Normalize(Last(o.log).reply.state) else Last(o.log).reply.state) == target)
  {
    var l1 := Issue(hw, l, GetDrcState);
    if Last(l1).reply.status == 0 && Normalize(Last(l1).reply.state) != target {
      var l2 := Issue(hw, Issue(hw, l1, InitReattach), SetDrcState(target));
      if Last(l2).reply.status == 0 {
        var l3 := Issue(hw, l2, WaitReattach(unknown));
        if Last(l3).reply.status == 0 {
          PollStopsAtFirstSuccess(hw, l3, EepromProbe(DrcSlot), l3.now);
          PollBounded(hw, l3, EepromProbe(DrcSlot), l3.now, 0);
        }
      }
    }
  }

  /** A reattachment only waits in the EEPROM wait, so it takes at most its
      3 s bound. */
  lemma ReattachmentWithinBudget(hw: Hardware, l: Log, target: DrcState, unknown: bool)
    ensures var o := Reattachment(hw, l, target, unknown);
      Extends(l, o.log) && o.log.now <= l.now + 3000
  {
    var l1 := Issue(hw, l, GetDrcState);
    if Last(l1).reply.status == 0 && Normalize(Last(l1).reply.state) != target {
      var l2 := Issue(hw, Issue(hw, l1, InitReattach), SetDrcState(target));
      if Last(l2).reply.status == 0 {
        var l3 := Issue(hw, l2, WaitReattach(unknown));
        if Last(l3).reply.status == 0 {
          PollStopsAtFirstSuccess(hw, l3, EepromProbe(DrcSlot), l3.now);
          PollBounded(hw, l3, EepromProbe(DrcSlot), l3.now, 0);
        }
      }
    }
  }

  /** A reattachment gives up at the first step that fails: no step before
      its last event was refused. */
  lemma ReattachmentStopsAtFirstFailure(hw: Hardware, l: Log, target: DrcState, unknown: bool)
    ensures var o := Reattachment(hw, l, target, unknown);
      && |l.events| < |o.log.events|
      && (forall i | |l.events| <= i < |o.log.events| - 1 :: !Refused(o.log.events[i]))
  {
    var l1 := Issue(hw, l, GetDrcState);
    if Last(l1).reply.status == 0 && Normalize(Last(l1).reply.state) != target {
      var l2 := Issue(hw, Issue(hw, l1, InitReattach), SetDrcState(target));
      if Last(l2).reply.status == 0 {
        var l3 := Issue(hw, l2, WaitReattach(unknown));
        if Last(l3).reply.status == 0 {
          ReattachmentSetupAccepted(hw, l, target, unknown);
          ConfirmationRefusesLastOnly(hw, l3, target);
          var m := Reattachment(hw, l, target, unknown).log.events;
          assert m == Confirmation(hw, l3, target).log.events;
          forall i | |l.events| <= i < |m| - 1
            ensures !Refused(m[i])
          {
            if i < |l3.events| {
              assert m[i] == l3.events[i];
            }
          }
        }
      }
    }
  }

  /** The EEPROM wait refuses nothing and requests no state, so the only
      refusal in the tail of a reattachment can be the final re-read. */
  lemma ConfirmationRefusesLastOnly(hw: Hardware, l3: Log, target: DrcState)
    ensures var m := Confirmation(hw, l3, target).log.events;
      l3.events <= m && |l3.events| < |m| &&
      (forall i | |l3.events| <= i < |m| - 1 :: !Refused(m[i])) &&
      (forall i | |l3.events| <= i < |m| :: !m[i].call.SetDrcState?)
  {
    var e := Poll(hw, l3, EepromProbe(DrcSlot), l3.now);
    PollStopsAtFirstSuccess(hw, l3, EepromProbe(DrcSlot), l3.now);
    var m := Confirmation(hw, l3, target).log.events;
    forall i | |l3.events| <= i < |m| - 1
      ensures !Refused(m[i]) && !m[i].call.SetDrcState?
    {
      assert m[i] == e.log.events[i];
    }
  }

  /** The four steps that open a full reattachment (a read of another state,
      the announcement, the accepted request, the accepted wait) refuse
      nothing and request only the target. */
  lemma ReattachmentSetupAccepted(hw: Hardware, l: Log, target: DrcState, unknown: bool)
    requires var l1 := Issue(hw, l, GetDrcState);
      Last(l1).reply.status == 0 &&
      Last(Issue(hw, Issue(hw, l1, InitReattach), SetDrcState(target))).reply.status == 0
    ensures var l2 := Issue(hw, Issue(hw, Issue(hw, l, GetDrcState), InitReattach), SetDrcState(target));
      var l3 := Issue(hw, l2, WaitReattach(unknown));
      Last(l3).reply.status == 0 ==>
        l.events <= l3.events && |l3.events| == |l.events| + 4 &&
        (forall i | |l.events| <= i < |l3.events| :: !Refused(l3.events[i])) &&
        (forall i | |l.events| <= i < |l3.events| ::
           l3.events[i].call.SetDrcState? ==> l3.events[i].call.target == target)
  {
    var n := |l.events|;
    var l1 := Issue(hw, l, GetDrcState);
    var l2 := Issue(hw, Issue(hw, l1, InitReattach), SetDrcState(target));
    var l3 := Issue(hw, l2, WaitReattach(unknown));
    assert l3.events == l.events + [l1.events[n], l2.events[n + 1], l2.events[n + 2], Last(l3)];
  }

  /** A failed reattachment ends with the step that failed: a refusal, a
      re-read that shows another state, or an EEPROM probe still answering -1
      once more than 2 whole seconds of the EEPROM wait have passed. */
  lemma ReattachmentFailureCause(hw: Hardware, l: Log, target: DrcState, unknown: bool)
    ensures var o := Reattachment(hw, l, target, unknown);
      && |l.events| < |o.log.events|
      && (!o.ok ==>
            Refused(Last(o.log)) ||
            (Last(o.log).call == GetDrcState && Last(o.log).reply.state != target) ||
            (&& Last(o.log).call == GetCachedEeprom(DrcSlot) && Last(o.log).reply.status == -1
             && (o.log.now - l.now) / 1000 > TimeoutS(EepromProbe(DrcSlot))))
  {
    var l1 := Issue(hw, l, GetDrcState);
    if Last(l1).reply.status == 0 && Normalize(Last(l1).reply.state) != target {
      var l2 := Issue(hw, Issue(hw, l1, InitReattach), SetDrcState(target));
      if Last(l2).reply.status == 0 {
        var l3 := Issue(hw, l2, WaitReattach(unknown));
        if Last(l3).reply.status == 0 {
          PollStopsAtFirstSuccess(hw, l3, EepromProbe(DrcSlot), l3.now);
        }
      }
    }
  }

  /** The only link state a reattachment ever requests is its target. */
  lemma ReattachmentRequestsOnlyTarget(hw: Hardware, l: Log, target: DrcState, unknown: bool)
    ensures var o := Reattachment(hw, l, target, unknown);
      && |l.events| < |o.log.events|
      && (forall i | |l.events| <= i < |o.log.events| ::
            o.log.events[i].call.SetDrcState? ==> o.log.events[i].call.target == target)
  {
    var l1 := Issue(hw, l, GetDrcState);
    if Last(l1).reply.status == 0 && Normalize(Last(l1).reply.state) != target {
      var l2 := Issue(hw, Issue(hw, l1, InitReattach), SetDrcState(target));
      if Last(l2).reply.status == 0 {
        var l3 := Issue(hw, l2, WaitReattach(unknown));
        if Last(l3).reply.status == 0 {
          ReattachmentSetupAccepted(hw, l, target, unknown);
          ConfirmationRefusesLastOnly(hw, l3, target);
          var m := Reattachment(hw, l, target, unknown).log.events;
          assert m == Confirmation(hw, l3, target).log.events;
          forall i | |l.events| <= i < |m|
            ensures m[i].call.SetDrcState? ==> m[i].call.target == target
          {
            if i < |l3.events| {
              assert m[i] == l3.events[i];
            }
          }
        }
      }
    }
  }

  /** When the first read succeeds but shows another state, a reattachment
      announces itself and then requests the target. */
  lemma ReattachmentAnnouncesRequest(hw: Hardware, l: Log, target: DrcState, unknown: bool)
    ensures var m := Reattachment(hw, l, target, unknown).log.events;
      var n := |l.events|;
      && n < |m|
      && (m[n].reply.status == 0 && Normalize(m[n].reply.state) != target ==>
            && n + 3 <= |m|
            && m[n + 1].call == InitReattach
            && m[n + 2].call == SetDrcState(target))
  {
    var n := |l.events|;
    var l1 := Issue(hw, l, GetDrcState);
    if Last(l1).reply.status == 0 && Normalize(Last(l1).reply.state) != target {
      var l2 := Issue(hw, Issue(hw, l1, InitReattach), SetDrcState(target));
      var m := Reattachment(hw, l, target, unknown).log.events;
      if Last(l2).reply.status == 0 {
        var l3 := Issue(hw, l2, WaitReattach(unknown));
        if Last(l3).reply.status == 0 {
          ConfirmationWaitsForEeprom(hw, l3, target);
        }
        assert l2.events <= l3.events;
      }
      assert m[n + 1] == l2.events[n + 1] && m[n + 2] == l2.events[n + 2];
    }
  }

  /** A reattachment that had to request the target succeeds only after the
      request and the wait for reattachment were accepted and the EEPROM
      wait that followed found the EEPROM readable, right before the
      confirming re-read. */
  lemma ReattachmentSucceedsAfterWaits(hw: Hardware, l: Log, target: DrcState, unknown: bool)
    ensures var o := Reattachment(hw, l, target, unknown);
      var n := |l.events|;
      var m := o.log.events;
      && n < |m|
      && (m[n].reply.status == 0 && Normalize(m[n].reply.state) != target && o.ok ==>
            && n + 6 <= |m|
            && m[n + 2].call == SetDrcState(target) && m[n + 2].reply.status == 0
            && m[n + 3].call == WaitReattach(unknown) && m[n + 3].reply.status == 0
            && m[n + 4].call == GetCachedEeprom(DrcSlot)
            && m[|m| - 2].call == GetCachedEeprom(DrcSlot) && m[|m| - 2].reply.status != -1)
  {
    var n := |l.events|;
    var l1 := Issue(hw, l, GetDrcState);
    if Last(l1).reply.status == 0 && Normalize(Last(l1).reply.state) != target {
      var l2 := Issue(hw, Issue(hw, l1, InitReattach), SetDrcState(target));
      if Last(l2).reply.status == 0 {
        var l3 := Issue(hw, l2, WaitReattach(unknown));
        if Last(l3).reply.status == 0 {
          ConfirmationWaitsForEeprom(hw, l3, target);
          var m := Reattachment(hw, l, target, unknown).log.events;
          assert m == Confirmation(hw, l3, target).log.events;
          assert l3.events == l.events + [l1.events[n], l2.events[n + 1], l2.events[n + 2], Last(l3)];
          assert m[n + 2] == l3.events[n + 2] && m[n + 3] == l3.events[n + 3];
        }
      }
    }
  }

  /** The tail of a full reattachment starts with an EEPROM probe; when it
      succeeds, the probe just before the re-read found the EEPROM readable. */
  lemma ConfirmationWaitsForEeprom(hw: Hardware, l3: Log, target: DrcState)
    ensures var c := Confirmation(hw, l3, target);
      var m := c.log.events;
      && l3.events <= m && |l3.events| < |m|
      && m[|l3.events|].call == GetCachedEeprom(DrcSlot)
      && (c.ok ==>
            |l3.events| + 2 <= |m| &&
            m[|m| - 2].call == GetCachedEeprom(DrcSlot) && m[|m| - 2].reply.status != -1)
  {
    var e := Poll(hw, l3, EepromProbe(DrcSlot), l3.now);
    PollStopsAtFirstSuccess(hw, l3, EepromProbe(DrcSlot), l3.now);
    if e.ok {
      var m := Confirmation(hw, l3, target).log.events;
      assert m == e.log.events + [Last(Confirmation(hw, l3, target).log)];
      assert m[|l3.events|] == e.log.events[|l3.events|];
      assert m[|m| - 2] == Last(e.log);
    }
  }

  /** Every sleep in `m` from index `n` on is a 200 ms pause right after an
      EEPROM probe that answered -1. */
  predicate PausesAfterFailedProbe(n: nat, m: seq<Event>)
  {
    forall i | n <= i < |m| && m[i].call.Sleep? ::
      && m[i].call.ms == PollSleepMs
      && n < i && m[i - 1].call == GetCachedEeprom(DrcSlot) && m[i - 1].reply.status == -1
  }

  /** Events without a sleep in front of a stretch whose pauses follow failed
      probes keep that property. */
  lemma PausesAfterFailedProbeWidens(n: nat, k: nat, m: seq<Event>)
    requires n <= k <= |m| && PausesAfterFailedProbe(k, m)
    requires forall i | n <= i < k :: !m[i].call.Sleep?
    ensures PausesAfterFailedProbe(n, m)
  {
  }

  /** The only sleeps of a reattachment are the 200 ms pauses of its EEPROM
      wait, each right after a probe that found the EEPROM unreadable. */
  lemma ReattachmentSleepsOnlyToPoll(hw: Hardware, l: Log, target: DrcState, unknown: bool)
    ensures PausesAfterFailedProbe(|l.events|, Reattachment(hw, l, target, unknown).log.events)
  {
    var n := |l.events|;
    var m := Reattachment(hw, l, target, unknown).log.events;
    var l1 := Issue(hw, l, GetDrcState);
    var l2 := Issue(hw, Issue(hw, l1, InitReattach), SetDrcState(target));
    var l3 := Issue(hw, l2, WaitReattach(unknown));
    assert l3.events == l.events + [l1.events[n], l2.events[n + 1], l2.events[n + 2], Last(l3)];
    if Last(l1).reply.status != 0 || Normalize(Last(l1).reply.state) == target {
      assert m == l1.events;
      PausesAfterFailedProbeWidens(n, |m|, m);
    } else if Last(l2).reply.status != 0 {
      assert m == l2.events;
      PausesAfterFailedProbeWidens(n, |m|, m);
    } else if Last(l3).reply.status != 0 {
      assert m == l3.events;
      PausesAfterFailedProbeWidens(n, |m|, m);
    } else {
      SetupThenConfirmationSleeps(hw, l, l3, target);
    }
  }

  /** The four opening steps of a full reattachment do not sleep, so the
      pauses after them are those of the EEPROM wait. */
  lemma SetupThenConfirmationSleeps(hw: Hardware, l: Log, l3: Log, target: DrcState)
    requires l.events <= l3.events && |l3.events| == |l.events| + 4
    requires forall i | |l.events| <= i < |l3.events| :: !l3.events[i].call.Sleep?
    ensures PausesAfterFailedProbe(|l.events|, Confirmation(hw, l3, target).log.events)
  {
    var m := Confirmation(hw, l3, target).log.events;
    ConfirmationSleepsOnlyToPoll(hw, l3, target);
    assert forall i | |l.events| <= i < |l3.events| :: m[i] == l3.events[i];
    PausesAfterFailedProbeWidens(|l.events|, |l3.events|, m);
  }

  lemma ConfirmationSleepsOnlyToPoll(hw: Hardware, l3: Log, target: DrcState)
    ensures var m := Confirmation(hw, l3, target).log.events;
      l3.events <= m && PausesAfterFailedProbe(|l3.events|, m)
  {
    var e := Poll(hw, l3, EepromProbe(DrcSlot), l3.now);
    PollStopsAtFirstSuccess(hw, l3, EepromProbe(DrcSlot), l3.now);
    PollSleepsAfterFailure(hw, l3, EepromProbe(DrcSlot), l3.now);
    var m := Confirmation(hw, l3, target).log.events;
    if e.ok {
      assert m == e.log.events + [Last(Confirmation(hw, l3, target).log)];
    }
  }

  /** ReattachDRC: the same steps, issued one after the other. */
  method ReattachDrc(hw: Hardware, l0: Log, target: DrcState, unknown: bool) returns (ok: bool, l: Log)
    ensures Outcome(ok, l) == Reattachment(hw, l0, target, unknown)
  {
    l := Issue(hw, l0, GetDrcState);
    if Last(l).reply.status != 0 {
      return false, l;
    }
    var state := Normalize(Last(l).reply.state);
    if state == target {
      return true, l;
    }
    l := Issue(hw, l, InitReattach);
    l := Issue(hw, l, SetDrcState(target));
    if Last(l).reply.status != 0 {
      return false, l;
    }
    l := Issue(hw, l, WaitReattach(unknown));
    if Last(l).reply.status != 0 {
      return false, l;
    }
    var ready;
    ready, l := WaitForEeprom(hw, DrcSlot, l);
    if !ready {
      return false, l;
    }
    l := Issue(hw, l, GetDrcState);
    if Last(l).reply.status != 0 {
      return false, l;
    }
    if Last(l).reply.state != target {
      return false, l;
    }
    return true, l;
  }
}
