/** Every request is answered, and both ends of the link decode the answer alike. */
module Answers {
  import opened Bytes
  import opened Frame
  import opened Optional
  import opened Flash
  import opened Status
  import opened Meta
  import opened Image
  import opened Core

  /** Smallest buffer the device may be given for a response. */
  const MIN_RESPONSE_SIZE: nat := 29

  predicate Powered(fates: Fates) {
    !fates.erase.Cut? && !fates.write.Cut?
  }

  predicate IsStatusCode(b: byte) {
    exists s: Status :: s.Code() == b
  }

  lemma CommitAnswers(f: Flash, slot: nat, state: byte, attempts: byte, fates: Fates)
    requires Powered(fates)
    ensures Commit(f, slot, state, attempts, fates).status.Some?
  {
    hide Erase, Program, Parse, RecordBytes, Newest;
  }

  /**
   For any command byte, any payload and any device state that keeps power, the device produces
   a response of a status code and at most twenty data bytes; its frame fits the smallest buffer
   and is decoded to the same command and payload by the device's parser and by the host.
   */
  lemma EveryRequestAnswered(d: Device, cmd: byte, payload: seq<byte>, fates: Fates)
    requires Powered(fates)
    ensures var r := Handle(d, cmd, payload, fates).response;
            && r.Some? && 1 <= |r.value| <= 21 && IsStatusCode(r.value[0])
            && |Wire(cmd, r.value)| <= MIN_RESPONSE_SIZE
            && Decode(Wire(cmd, r.value)) == Some(Frame(cmd, r.value))
            && Delivered([], Wire(cmd, r.value)) == [Frame(cmd, r.value)]
  {
    hide Wire, Decode, Delivered, Held;
    ResponseShape(d, cmd, payload, fates);
    var r := Handle(d, cmd, payload, fates).response.value;
    DecodeIffEncoded(Wire(cmd, r), Frame(cmd, r));
    FrameDelivered(Frame(cmd, r));
  }

  lemma ResponseShape(d: Device, cmd: byte, payload: seq<byte>, fates: Fates)
    requires Powered(fates)
    ensures var r := Handle(d, cmd, payload, fates).response;
            r.Some? && 1 <= |r.value| <= 21 && IsStatusCode(r.value[0])
  {
    hide Commit, Read, Validate, HelloData, VerifyData, Erase, Program, WriteCheck;
    if cmd == SET_ACTIVE && |payload| == 1 {
      CommitAnswers(d.flash, payload[0], TRIAL, 0, fates);
    }
    var r := Handle(d, cmd, payload, fates).response;
    assert r.Some?;
    StatusFirst(d, cmd, payload, fates);
  }

  lemma StatusFirst(d: Device, cmd: byte, payload: seq<byte>, fates: Fates)
    requires Handle(d, cmd, payload, fates).response.Some?
    ensures |Handle(d, cmd, payload, fates).response.value| >= 1
    ensures IsStatusCode(Handle(d, cmd, payload, fates).response.value[0])
  {
    hide Commit, Read, Validate, HelloData, VerifyData, Erase, Program, WriteCheck;
    assert IsStatusCode(Ok.Code());
    assert IsStatusCode(ErrInvalidPacket.Code());
    assert IsStatusCode(ErrInvalidArgument.Code());
    assert IsStatusCode(ErrFlashErase.Code());
    assert IsStatusCode(ErrFlashProgram.Code());
    assert IsStatusCode(WriteCheck(d.session, payload).Code());
    if |payload| == 1 {
      if payload[0] < SLOT_COUNT {
        assert IsStatusCode(Validate(SlotBytes(d.flash, payload[0])).Code());
      }
      var out := MarkPending(d.flash, payload[0], fates);
      if out.status.Some? {
        assert IsStatusCode(out.status.value.Code());
      }
    }
  }

  /** A reset is asked for by an acknowledged RESET and by nothing else, and survives until it happens. */
  lemma ResetOnlyByReset(d: Device, cmd: byte, payload: seq<byte>, fates: Fates)
    requires Powered(fates)
    ensures var r := Handle(d, cmd, payload, fates);
            && r.device.session.resetRequested == (d.session.resetRequested || (cmd == RESET && payload == []))
            && (cmd == RESET && payload == [] ==> r.response == Some([Ok.Code()]) && r.device.flash == d.flash)
  {
    hide Commit, Read, Validate, HelloData, VerifyData, Erase, Program, WriteCheck;
    assert [Ok.Code()] + [] == [Ok.Code()];
    if cmd == SET_ACTIVE && |payload| == 1 {
      CommitAnswers(d.flash, payload[0], TRIAL, 0, fates);
    }
  }

  // ------------------------------------------------------------- refused requests

  /** A request whose payload has the length its command asks for. */
  predicate WellFormed(cmd: byte, payload: seq<byte>) {
    match cmd
    case 0x01 => payload == []
    case 0x02 => |payload| == 1
    case 0x03 => |payload| >= 5
    case 0x04 => |payload| == 1
    case 0x05 => |payload| == 1
    case 0x06 => payload == []
    case _ => false
  }

  /** Unknown commands and payloads of the wrong length change nothing and are answered alike. */
  lemma MalformedRefused(d: Device, cmd: byte, payload: seq<byte>, fates: Fates)
    requires !WellFormed(cmd, payload)
    ensures Handle(d, cmd, payload, fates) == Reply(d, Some([0x41]))
  {
    hide HelloData, VerifyData, Validate, Program, Erase, Commit;
  }

  /** So does every command that names a slot the device does not have. */
  lemma AbsentSlotRefused(d: Device, cmd: byte, slot: byte, fates: Fates)
    requires cmd in {0x02, 0x04, 0x05} && slot >= 2
    ensures Handle(d, cmd, [slot], fates) == Reply(d, Some([0x51]))
  {
    hide HelloData, VerifyData, Validate, Program, Erase, Commit;
  }

  /** An erase of a slot reports how it ended; one that fails changes nothing, the session included. */
  lemma EraseDecided(d: Device, slot: byte, fates: Fates)
    requires slot < SLOT_COUNT
    ensures var r := Handle(d, ERASE_SLOT, [slot], fates);
            && (fates.erase.Done? ==>
                  r.response == Some([0x00]) && SlotBytes(r.device.flash, slot) == Fill(SLOT_SIZE, ERASED))
            && (fates.erase.Failed? ==> r == Reply(d, Some([0x31])))
            && (fates.erase.Cut? ==> r.response == None && r.device.session == IDLE)
            && SameOutside(d.flash, r.device.flash, SlotAt(slot), SLOT_SIZE)
  {
    hide Erase, SameOutside;
    assert [Ok.Code()] + [] == [Ok.Code()];
    EraseFrame(d.flash, SlotAt(slot), SLOT_SIZE, fates.erase);
    if fates.erase.Done? {
      EraseDone(d.flash, SlotAt(slot), SLOT_SIZE, fates.erase);
    } else if fates.erase.Failed? {
      EraseFailed(d.flash, SlotAt(slot), SLOT_SIZE, fates.erase);
    }
  }

  /** A code on the wire tells the result: no two share one. */
  lemma CodesDistinct(s: Status, t: Status)
    requires s.Code() == t.Code()
    ensures s == t
  {
  }
}
