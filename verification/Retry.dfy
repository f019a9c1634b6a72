/**
 What repeating one request does to the device. A host that gets no answer sends the request
 again, so the device may see it any number of times, and may lose power in between; these results
 say what the last answer then tells the host.
 */
module Retry {
  import opened Bytes
  import opened Optional
  import opened Flash
  import opened Status
  import opened Meta
  import opened Image
  import opened Core
  import opened Safety
  import opened Answers

  /**
   One time the device sees a request: whether it restarted before, the fates of the flash
   operations, and whether power is lost in handling the request or right after.
   */
  datatype SightData = SightData(restarted: bool, fates: Fates, lost: bool) {
    predicate Steady() {
      !restarted && !lost
    }
  }

  /** Operations are cut only by losing power. */
  type Sight = x: SightData | x.lost || Powered(x.fates)
    witness SightData(false, Fates(Done, Done), false)

  const FLAWLESS: Sight := SightData(false, Fates(Done, Done), false)

  /** The device as the request finds it. */
  function Found(d: Device, x: Sight): Device {
    if x.restarted then Rebooted(d) else d
  }

  function After(d: Device, cmd: byte, payload: seq<byte>, x: Sight): Device {
    var e := Handle(Found(d, x), cmd, payload, x.fates).device;
    if x.lost then Rebooted(e) else e
  }

  /** The device after seeing the same request once per element of `seen`. */
  function Applied(d: Device, cmd: byte, payload: seq<byte>, seen: seq<Sight>): Device {
    if seen == [] then d
    else After(Applied(d, cmd, payload, seen[..|seen| - 1]), cmd, payload, seen[|seen| - 1])
  }

  /** The payload of the answer to the last of them. */
  function LastAnswer(d: Device, cmd: byte, payload: seq<byte>, seen: seq<Sight>): Option<seq<byte>>
    requires seen != []
  {
    var last := seen[|seen| - 1];
    Handle(Found(Applied(d, cmd, payload, seen[..|seen| - 1]), last), cmd, payload, last.fates).response
  }

  lemma AppliedOnce(d: Device, cmd: byte, payload: seq<byte>, seen: seq<Sight>, last: Sight)
    ensures var before := Applied(d, cmd, payload, seen);
            && Applied(d, cmd, payload, seen + [last]) == After(before, cmd, payload, last)
            && LastAnswer(d, cmd, payload, seen + [last]) ==
                 Handle(Found(before, last), cmd, payload, last.fates).response
  {
    hide Handle;
    assert (seen + [last])[..|seen|] == seen;
  }

  /** Power is never lost and the device never restarts. */
  predicate AllSteady(seen: seq<Sight>) {
    forall i :: 0 <= i < |seen| ==> seen[i].Steady()
  }

  predicate AllFlawless(seen: seq<Sight>) {
    forall i :: 0 <= i < |seen| ==> seen[i] == FLAWLESS
  }

  /** The answer is the bare status. */
  predicate AnsweredWith(answer: Option<seq<byte>>, status: Status) {
    answer == Some([status.Code()])
  }

  /** Flash is as it was, and the session is or has started over. */
  predicate Untouched(d: Device, e: Device) {
    e.flash == d.flash && (e.session == d.session || e.session == IDLE)
  }

  // -------------------------------------------------------- queries and erases

  lemma {:induction false} QueryApplied(d: Device, cmd: byte, payload: seq<byte>, seen: seq<Sight>)
    requires cmd == HELLO || cmd == VERIFY
    ensures Untouched(d, Applied(d, cmd, payload, seen))
    ensures AllSteady(seen) ==> Applied(d, cmd, payload, seen) == d
  {
    hide Handle;
    if seen != [] {
      var n := |seen| - 1;
      QueryApplied(d, cmd, payload, seen[..n]);
      QueryStep(Found(Applied(d, cmd, payload, seen[..n]), seen[n]), cmd, payload, seen[n].fates);
    }
  }

  /** What an acknowledged erase leaves. */
  predicate ErasedFor(e: Device, slot: nat)
    requires slot < SLOT_COUNT
  {
    && SlotBytes(e.flash, slot) == Fill(SLOT_SIZE, ERASED)
    && Blank(e.flash, SlotAt(slot), SLOT_SIZE)
    && e.session.erased && e.session.target == slot && e.session.highest == 0 && !e.session.headerWritten
  }

  lemma EraseStep(d: Device, slot: byte, fates: Fates)
    requires slot < SLOT_COUNT
    ensures var r := Handle(d, ERASE_SLOT, [slot], fates);
            && SameOutside(d.flash, r.device.flash, SlotAt(slot), SLOT_SIZE)
            && (AnsweredWith(r.response, Ok) ==> ErasedFor(r.device, slot))
            && (fates.erase.Done? ==> AnsweredWith(r.response, Ok))
  {
    hide Erase;
    assert [Ok.Code()] + [] == [Ok.Code()];
    EraseFrame(d.flash, SlotAt(slot), SLOT_SIZE, fates.erase);
    if fates.erase.Done? {
      EraseDone(d.flash, SlotAt(slot), SLOT_SIZE, fates.erase);
    }
  }

  lemma EraseOfNoSlot(d: Device, slot: byte, fates: Fates)
    requires slot >= SLOT_COUNT
    ensures var r := Handle(d, ERASE_SLOT, [slot], fates);
            r.device == d && AnsweredWith(r.response, ErrInvalidArgument)
  {
  }

  /**
   However often it is repeated, whatever the power does, an erase touches its slot only; answered
   with success, it erased it. An erase of no slot is refused and changes nothing.
   */
  lemma {:induction false} EraseApplied(d: Device, slot: byte, seen: seq<Sight>)
    ensures var e := Applied(d, ERASE_SLOT, [slot], seen);
            if slot >= SLOT_COUNT then
              && Untouched(d, e) && (AllSteady(seen) ==> e == d)
              && (seen != [] ==> AnsweredWith(LastAnswer(d, ERASE_SLOT, [slot], seen), ErrInvalidArgument))
            else
              && SameOutside(d.flash, e.flash, SlotAt(slot), SLOT_SIZE)
              && (seen != [] && !seen[|seen| - 1].lost ==>
                    AnsweredWith(LastAnswer(d, ERASE_SLOT, [slot], seen), Ok) ==> ErasedFor(e, slot))
              && (seen != [] && AllFlawless(seen) ==> AnsweredWith(LastAnswer(d, ERASE_SLOT, [slot], seen), Ok))
  {
    hide Handle, ErasedFor, SameOutside;
    if seen == [] {
      if slot < SLOT_COUNT {
        SameOutsideReflexive(d.flash, SlotAt(slot), SLOT_SIZE);
      }
    } else {
      var n := |seen| - 1;
      EraseApplied(d, slot, seen[..n]);
      var before := Applied(d, ERASE_SLOT, [slot], seen[..n]);
      var found, fates := Found(before, seen[n]), seen[n].fates;
      if slot < SLOT_COUNT {
        EraseStep(found, slot, fates);
        var after := Handle(found, ERASE_SLOT, [slot], fates).device.flash;
        SameOutsideTransitive(d.flash, before.flash, after, SlotAt(slot), SLOT_SIZE, SlotAt(slot), SLOT_SIZE);
      } else {
        EraseOfNoSlot(found, slot, fates);
      }
    }
  }

  // -------------------------------------------------------------------- writes

  /** The device once an acceptable write has been programmed. */
  function Landed(d: Device, payload: seq<byte>): Device
    requires WriteCheck(d.session, payload) == Ok
  {
    HandleWrite(d, payload, FLAWLESS.fates).device
  }

  lemma WriteOnce(d: Device, payload: seq<byte>, fates: Fates)
    requires WriteCheck(d.session, payload) == Ok && Powered(fates)
    ensures var r := HandleWrite(d, payload, fates);
            && (fates.write.Done? ==> r.device == Landed(d, payload) && r.response == Some([Ok.Code()] + payload[..4]))
            && (fates.write.Failed? ==> r.device == d && AnsweredWith(r.response, ErrFlashProgram))
  {
    hide Program, WriteCheck;
    if fates.write.Failed? {
      var at := SlotAt(d.session.target) + WriteOffset(payload);
      ProgramFailed(d.flash, at, payload[4..], fates.write);
    }
  }

  /** A write that has landed is refused when it is sent again. */
  lemma WriteAgain(d: Device, payload: seq<byte>, fates: Fates)
    requires WriteCheck(d.session, payload) == Ok
    ensures WriteCheck(Landed(d, payload).session, payload) == ErrNotErased
    ensures var r := HandleWrite(Landed(d, payload), payload, fates);
            r.device == Landed(d, payload) && AnsweredWith(r.response, ErrNotErased)
  {
    hide Program;
  }

  /**
   A write sent any number of times either never landed or landed once, and the last answer tells
   which: success or a refusal as not erased, which only a repeated write can get, means that it
   landed, and a programming failure means that it did not.
   */
  lemma {:induction false} WriteApplied(d: Device, payload: seq<byte>, seen: seq<Sight>)
    requires WriteCheck(d.session, payload) == Ok && AllSteady(seen)
    ensures var e := Applied(d, WRITE, payload, seen);
            && d != Landed(d, payload)
            && (e == d || e == Landed(d, payload))
            && (seen != [] ==>
                  var answer := LastAnswer(d, WRITE, payload, seen);
                  var acknowledged := Some([Ok.Code()] + payload[..4]);
                  && (|| answer == acknowledged
                      || AnsweredWith(answer, ErrNotErased)
                      || AnsweredWith(answer, ErrFlashProgram))
                  && (answer == acknowledged ==> e == Landed(d, payload))
                  && (AnsweredWith(answer, ErrNotErased) ==> e == Landed(d, payload) && |seen| > 1)
                  && (AnsweredWith(answer, ErrFlashProgram) ==> e == d)
                  && (AllFlawless(seen) ==> !AnsweredWith(answer, ErrFlashProgram)))
  {
    hide HandleWrite, WriteCheck, Landed;
    WriteAgain(d, payload, FLAWLESS.fates);
    if seen != [] {
      var n := |seen| - 1;
      WriteApplied(d, payload, seen[..n]);
      WriteOnce(d, payload, seen[n].fates);
      WriteAgain(d, payload, seen[n].fates);
      if n == 0 {
        assert seen[..n] == [];
      }
    }
  }

  /** A write the device is not ready for changes nothing, however often it is sent. */
  lemma {:induction false} WriteRefused(d: Device, payload: seq<byte>, seen: seq<Sight>)
    requires WriteCheck(d.session, payload) != Ok
    ensures Untouched(d, Applied(d, WRITE, payload, seen))
    ensures AllSteady(seen) ==> Applied(d, WRITE, payload, seen) == d
    ensures AllSteady(seen) && seen != [] ==>
              AnsweredWith(LastAnswer(d, WRITE, payload, seen), WriteCheck(d.session, payload))
  {
    hide WriteCheck, Handle, After;
    NotReadyWhenIdle(payload);
    if seen != [] {
      var n := |seen| - 1;
      WriteRefused(d, payload, seen[..n]);
      RefusedStep(Applied(d, WRITE, payload, seen[..n]), payload, seen[n]);
    }
  }

  lemma NotReadyWhenIdle(payload: seq<byte>)
    ensures WriteCheck(IDLE, payload) != Ok
  {
  }

  lemma WriteStepFrame(d: Device, payload: seq<byte>, x: Sight)
    requires WriteCheck(d.session, payload) == Ok
    ensures var e := After(d, WRITE, payload, x);
            && SameOutside(d.flash, e.flash, SlotAt(d.session.target) + WriteOffset(payload), |payload| - 4)
            && (!x.Steady() ==> e.session == IDLE)
  {
    hide Program, WriteCheck, SameOutside, HandleErase, HandleHello, HandleVerify, HandleSetActive;
    NotReadyWhenIdle(payload);
    var at := SlotAt(d.session.target) + WriteOffset(payload);
    ProgramFrame(d.flash, at, payload[4..], x.fates.write);
    SameOutsideReflexive(d.flash, at, |payload| - 4);
  }

  /** However often a write is sent, it is accepted from the same state or not at all. */
  lemma {:induction false} WriteAcceptedOnce(d: Device, payload: seq<byte>, seen: seq<Sight>)
    requires WriteCheck(d.session, payload) == Ok
    ensures var e := Applied(d, WRITE, payload, seen);
            && (e == d || WriteCheck(e.session, payload) != Ok)
            && (!AllSteady(seen) ==> e.session == IDLE)
  {
    hide After, WriteCheck, SameOutside, Landed;
    NotReadyWhenIdle(payload);
    if AllSteady(seen) {
      WriteApplied(d, payload, seen);
      WriteAgain(d, payload, FLAWLESS.fates);
    } else {
      var n := |seen| - 1;
      var before := Applied(d, WRITE, payload, seen[..n]);
      WriteAcceptedOnce(d, payload, seen[..n]);
      if before == d {
        WriteStepFrame(d, payload, seen[n]);
      } else {
        RefusedStep(before, payload, seen[n]);
      }
    }
  }

  /**
   An acceptable write touches the range it names and nothing else, however often it is sent and
   whatever the power does; once power was lost, the session is gone for good.
   */
  lemma {:induction false} WriteConfined(d: Device, payload: seq<byte>, seen: seq<Sight>)
    requires WriteCheck(d.session, payload) == Ok
    ensures var e := Applied(d, WRITE, payload, seen);
            && SameOutside(d.flash, e.flash, SlotAt(d.session.target) + WriteOffset(payload), |payload| - 4)
            && (!AllSteady(seen) ==> e.session == IDLE)
  {
    hide After, WriteCheck, SameOutside, AllSteady;
    WriteAcceptedOnce(d, payload, seen);
    if seen == [] {
      SameOutsideReflexive(d.flash, SlotAt(d.session.target) + WriteOffset(payload), |payload| - 4);
    } else {
      var n := |seen| - 1;
      var before := Applied(d, WRITE, payload, seen[..n]);
      WriteConfined(d, payload, seen[..n]);
      WriteAcceptedOnce(d, payload, seen[..n]);
      if before == d {
        WriteStepFrame(d, payload, seen[n]);
      } else {
        RefusedStep(before, payload, seen[n]);
      }
    }
  }

  lemma RefusedStep(d: Device, payload: seq<byte>, x: Sight)
    requires WriteCheck(d.session, payload) != Ok
    ensures After(d, WRITE, payload, x).flash == d.flash
    ensures After(d, WRITE, payload, x).session == if x.Steady() then d.session else IDLE
    ensures x.Steady() ==>
              AnsweredWith(Handle(Found(d, x), WRITE, payload, x.fates).response, WriteCheck(d.session, payload))
  {
    hide WriteCheck, HandleWrite;
    NotReadyWhenIdle(payload);
    RefusedWrite(Found(d, x), payload, x.fates);
  }

  lemma RefusedWrite(d: Device, payload: seq<byte>, fates: Fates)
    requires WriteCheck(d.session, payload) != Ok
    ensures Handle(d, WRITE, payload, fates).device == d
    ensures AnsweredWith(Handle(d, WRITE, payload, fates).response, WriteCheck(d.session, payload))
  {
    hide WriteCheck, Program;
  }

  // ---------------------------------------------------------------- nomination

  predicate FreshTrial(cell: Option<Record>, slot: nat) {
    cell.Some? && cell.value.slot == slot && cell.value.state == TRIAL && cell.value.attempts == 0
  }

  /** Why a nomination is refused before anything is committed; Ok when it is not. */
  function NominationCheck(f: Flash, slot: byte): Status {
    if slot >= SLOT_COUNT then ErrInvalidArgument else Validate(SlotBytes(f, slot))
  }

  /** What sending a nomination, once or repeatedly, may make of flash. */
  predicate Nominated(f: Flash, g: Flash, slot: byte) {
    && (forall s :: 0 <= s < SLOT_COUNT ==> SlotBytes(g, s) == SlotBytes(f, s))
    && (NominationCheck(f, slot) != Ok ==> g == f)
    && (Read(g) == Read(f) || FreshTrial(Read(g), slot))
    && (Exhausted(Read(f)) ==> Read(g) == Read(f))
    && (Startable(f) ==> Startable(g))
  }

  lemma SetActiveStep(d: Device, slot: byte, fates: Fates)
    ensures var r, check := Handle(d, SET_ACTIVE, [slot], fates), NominationCheck(d.flash, slot);
            && Nominated(d.flash, r.device.flash, slot)
            && (check != Ok ==> AnsweredWith(r.response, check))
            && (check == Ok && fates == FLAWLESS.fates ==> AnsweredWith(r.response, Ok))
            && (AnsweredWith(r.response, Ok) && !Exhausted(Read(d.flash)) ==> FreshTrial(Read(r.device.flash), slot))
  {
    hide Commit, Read, Validate, SlotBytes;
    if NominationCheck(d.flash, slot) == Ok {
      CommitAtomic(d.flash, slot, TRIAL, 0, fates);
      CommitSlots(d.flash, slot, TRIAL, 0, fates);
      if Startable(d.flash) {
        CommitKeepsStartable(d.flash, slot, TRIAL, 0, fates);
      }
    }
  }

  /**
   A nomination sent any number of times, whatever the power does. Of no slot, or of one that does
   not validate, it is refused and changes nothing; answered with success, the slot is freshly on
   trial.
   */
  lemma {:induction false} SetActiveApplied(d: Device, slot: byte, seen: seq<Sight>)
    ensures var e, check := Applied(d, SET_ACTIVE, [slot], seen), NominationCheck(d.flash, slot);
            && Nominated(d.flash, e.flash, slot)
            && (seen != [] ==>
                  var answer := LastAnswer(d, SET_ACTIVE, [slot], seen);
                  && (check != Ok ==> AnsweredWith(answer, check))
                  && (check == Ok && AllFlawless(seen) ==> AnsweredWith(answer, Ok))
                  && (AnsweredWith(answer, Ok) && !Exhausted(Read(d.flash)) ==> FreshTrial(Read(e.flash), slot)))
  {
    hide Handle, Read, SlotBytes, Validate;
    if seen != [] {
      var n := |seen| - 1;
      SetActiveApplied(d, slot, seen[..n]);
      SetActiveStep(Found(Applied(d, SET_ACTIVE, [slot], seen[..n]), seen[n]), slot, seen[n].fates);
    }
  }
}
