/**
 The host's update tool, talking to the device over a link that may lose any request or any
 response.
 */
module HostTool {
  import opened Bytes
  import opened Frame
  import opened Optional
  import opened Flash
  import opened Status
  import opened Meta
  import opened Image
  import opened Core
  import opened Safety
  import opened Programming
  import opened Retry
  import opened Link
  import opened Install

  // ------------------------------------------------------------ target choice

  /**
   `choose_target_slot`: with a nominated slot the other one, otherwise by the versions the two
   slots report, `None` for a slot that does not validate. A tie goes to slot A.
   */
  function ChooseTarget(active: byte, versionA: Option<nat>, versionB: Option<nat>): (slot: nat)
    ensures slot < SLOT_COUNT
  {
    if active != NONE then (active + 1) % SLOT_COUNT
    else
      match (versionA, versionB)
      case (None, None) => 0
      case (Some(_), None) => 1
      case (None, Some(_)) => 0
      case (Some(a), Some(b)) => if b < a then 1 else 0
  }

  datatype SlotInfo = SlotInfo(imgSize: nat, imgCrc: seq<byte>, fwVersion: nat)

  /** What `slot_status` learns of a slot: what a valid one holds, or the status refusing it. */
  datatype SlotReport = Holds(info: SlotInfo) | Unusable(status: byte)

  function ReportOf(f: Flash, slot: byte): SlotReport {
    if slot >= SLOT_COUNT then Unusable(ErrInvalidArgument.Code())
    else if !SlotOk(f, slot) then Unusable(Validate(SlotBytes(f, slot)).Code())
    else
      var h := SlotHeader(f, slot);
      Holds(SlotInfo(h.imgSize, h.imgCrc, h.fwVersion))
  }

  function VersionIn(report: SlotReport): Option<nat> {
    match report
    case Holds(i) => Some(i.fwVersion)
    case Unusable(_) => None
  }

  function ActiveByte(f: Flash): byte {
    match Read(f)
    case Some(m) => m.slot
    case None => NONE
  }

  /** The slot the tool would overwrite on a device holding `f`. */
  function TargetOf(f: Flash): (slot: nat)
    ensures slot < SLOT_COUNT
  {
    ChooseTarget(ActiveByte(f), VersionIn(ReportOf(f, 0)), VersionIn(ReportOf(f, 1)))
  }

  /**
   The policy on every device: the slot that is not nominated; with no nomination the slot that does
   not validate, the lower version of two that do, and slot A of a blank device or on a tie.
   */
  lemma TargetPolicy(f: Flash)
    ensures match Read(f)
            case Some(m) => TargetOf(f) != m.slot
            case None =>
              && (SlotOk(f, 0) && !SlotOk(f, 1) ==> TargetOf(f) == 1)
              && (!SlotOk(f, 0) ==> TargetOf(f) == 0)
              && (SlotOk(f, 0) && SlotOk(f, 1) ==>
                    (TargetOf(f) == 1 <==> SlotHeader(f, 1).fwVersion < SlotHeader(f, 0).fwVersion))
  {
    hide Read, SlotOk, SlotHeader, Validate, SlotBytes;
  }

  /**
   The tool is meant to preserve the slot that would boot. It does exactly when neither of two
   things holds: the nominated slot is damaged while the other is good, or there is no nomination
   and two valid images tie on version, which both sides resolve towards slot A.
   */
  lemma TargetPreservesBootSlotIff(f: Flash)
    ensures Select(f) != Some(TargetOf(f)) <==>
              && !(Read(f).Some? && !SlotOk(f, Read(f).value.slot) && SlotOk(f, Other(Read(f).value.slot)))
              && !(Read(f).None? && SlotOk(f, 0) && SlotOk(f, 1) &&
                   SlotHeader(f, 0).fwVersion == SlotHeader(f, 1).fwVersion)
  {
    hide Read, SlotOk, SlotHeader, Validate, SlotBytes;
  }

  // ------------------------------------------------------------------ the tool

  datatype HostError = Timeout | Protocol | DeviceRefused(status: byte) | BadImage | BadSlot

  datatype Result<+T> = Success(value: T) | Failure(error: HostError) {
    predicate IsFailure() {
      Failure?
    }

    function PropagateFailure<U>(): Result<U>
      requires Failure?
    {
      Failure(error)
    }

    function Extract(): T
      requires Success?
    {
      value
    }
  }

  datatype Response = Response(status: byte, data: seq<byte>, attempts: nat)

  datatype DeviceInfo = DeviceInfo(
    slotCount: nat, slotSize: nat, granularity: nat, eraseGranularity: nat, maxWrite: nat,
    active: byte, bootState: byte, bootAttempts: byte)

  /** What a device holding `f` reports about itself. */
  function InfoOf(f: Flash): DeviceInfo {
    match Read(f)
    case Some(m) => DeviceInfo(SLOT_COUNT, SLOT_SIZE, UNIT, PAGE, MAX_WRITE, m.slot, m.state, m.attempts)
    case None => DeviceInfo(SLOT_COUNT, SLOT_SIZE, UNIT, PAGE, MAX_WRITE, NONE, NONE, 0)
  }

  class Bootloader {
    const link: Link
    const retries: nat

    constructor (link: Link, retries: nat)
      ensures this.link == link && this.retries == retries
    {
      this.link := link;
      this.retries := retries;
    }

    /** One attempt: send the request and decode the response, if one arrives. */
    method TryOnce(cmd: byte, payload: seq<byte>, request: seq<byte>) returns (r: Option<seq<byte>>)
      requires |payload| <= MAX_PAYLOAD && request == Wire(cmd, payload)
      requires !Clobbers(link.device, cmd, payload)
      modifies link
      ensures link.next == old(link.next) + 1
      ensures var now := link.script(old(link.next));
              && r.Some? == now.Answered?
              && (now.RequestLost? ==> link.device == old(link.device))
              && (!now.RequestLost? ==> link.device == After(old(link.device), cmd, payload, now.Sight()))
              && (r.Some? ==>
                    var found := Found(old(link.device), now.Sight());
                    Handle(found, cmd, payload, now.Sight().fates).response == r && r.value != [])
    {
      hide Handle, After, Wire, Clobbers, Decode;
      ghost var before := link.device;
      ghost var now := link.script(link.next);
      var response := link.Exchange(cmd, payload, request);
      if response.None? {
        return None;
      }
      ghost var reply := Handle(Found(before, now.Sight()), cmd, payload, now.Sight().fates);
      DecodeIffEncoded(response.value, Frame(cmd, reply.response.value));
      var frame := Decode(response.value);
      if frame.None? || frame.value.cmd != cmd || frame.value.payload == [] {
        return None;
      }
      return Some(frame.value.payload);
    }

    /**
     `_transact`: one request, retried until answered. The device has then seen it once for every
     element of `seen`, and the response is its answer to the last. It succeeds exactly when one of
     the attempts is answered, and reports whether that was the first.
     */
    method Transact(cmd: byte, payload: seq<byte>) returns (r: Result<Response>, ghost seen: seq<Sight>)
      requires SafeToRepeat(link.device, cmd, payload)
      modifies link
      ensures link.device == Applied(old(link.device), cmd, payload, seen)
      ensures r.Success? ==>
                && seen != [] && |seen| <= r.value.attempts <= retries && !seen[|seen| - 1].lost
                && (r.value.attempts == 1 <==> link.script(old(link.next)).Answered?)
                && LastAnswer(old(link.device), cmd, payload, seen) == Some([r.value.status] + r.value.data)
      ensures r.Success? <==> |payload| <= MAX_PAYLOAD && AnsweredWithin(link.script, old(link.next), retries)
      ensures r.Failure? ==> r.error == (if |payload| <= MAX_PAYLOAD then Timeout else Protocol)
      ensures Steady(link.script) ==> AllSteady(seen)
      ensures Reliable(link.script, retries) ==> AllFlawless(seen)
    {
      hide Handle, After, Wire, Clobbers, Applied, LastAnswer, SafeToRepeat;
      hide AnsweredWithin, Unanswered, Reliable, Steady, AllSteady, AllFlawless;
      NothingSeen(link.device, cmd, payload, link.script, link.next);
      seen := [];
      var encoded := Encode(cmd, payload);
      if encoded.None? {
        return Failure(Protocol), seen;
      }
      var request := encoded.value;
      ghost var start := link.next;
      for attempt := 1 to retries + 1
        invariant link.device == Applied(old(link.device), cmd, payload, seen)
        invariant |seen| < attempt && link.next == start + attempt - 1
        invariant Steady(link.script) ==> AllSteady(seen)
        invariant Reliable(link.script, retries) ==> AllFlawless(seen)
        invariant Unanswered(link.script, start, attempt - 1)
      {
        ghost var now := link.script(link.next);
        UnansweredNext(link.script, start, attempt - 1);
        SafeAgain(old(link.device), cmd, payload, seen);
        var response := TryOnce(cmd, payload, request);
        if !now.RequestLost? {
          AppliedOnce(old(link.device), cmd, payload, seen, now.Sight());
          SeenGrows(link.script, retries, start + attempt - 1, seen);
          seen := seen + [now.Sight()];
        }
        if response.Some? {
          var data := response.value;
          assert data == [data[0]] + data[1..];
          AnsweredAt(link.script, start, retries, start + attempt - 1);
          return Success(Response(data[0], data[1..], attempt)), seen;
        }
      }
      UnansweredThroughout(link.script, start, retries);
      return Failure(Timeout), seen;
    }

    /** `hello`: the device's geometry and boot state. */
    method Hello() returns (r: Result<DeviceInfo>)
      modifies link
      ensures Untouched(old(link.device), link.device)
      ensures Steady(link.script) ==> link.device == old(link.device)
      ensures r.Success? ==> r.value == InfoOf(link.device.flash)
      ensures r.Success? <==> AnsweredWithin(link.script, old(link.next), retries)
    {
      hide Handle, Applied, Read, HelloData, AnsweredWithin;
      QueriesSafe(link.device, HELLO, []);
      var t, seen := Transact(HELLO, []);
      QueryApplied(old(link.device), HELLO, [], seen);
      if t.Failure? {
        return t.PropagateFailure();
      }
      HelloAnswer(old(link.device), seen);
      var data := t.value.data;
      var status := t.value.status;
      SameAnswer(status, data, Ok.Code(), HelloData(link.device.flash));
      HelloFields(link.device.flash);
      if status != Ok.Code() {
        return Failure(DeviceRefused(status));
      }
      if |data| < 20 || data[0] != PROTO_VERSION || data[1] != HDR_VERSION {
        return Failure(Protocol);
      }
      return Success(DeviceInfo(
        data[2], GetU32(data[3..7]), GetU32(data[7..11]), GetU32(data[11..15]), GetU16(data[15..17]),
        data[17], data[18], data[19]));
    }

    /** `slot_status`: what a valid slot holds, or the status refusing it. */
    method SlotStatus(slot: byte) returns (r: Result<SlotReport>)
      modifies link
      ensures Untouched(old(link.device), link.device)
      ensures Steady(link.script) ==> link.device == old(link.device)
      ensures r.Success? ==> r.value == ReportOf(link.device.flash, slot)
      ensures r.Success? <==> AnsweredWithin(link.script, old(link.next), retries)
    {
      hide Handle, Applied, SlotOk, SlotHeader, AnsweredWithin;
      QueriesSafe(link.device, VERIFY, [slot]);
      var t, seen := Transact(VERIFY, [slot]);
      QueryApplied(old(link.device), VERIFY, [slot], seen);
      if t.Failure? {
        return t.PropagateFailure();
      }
      VerifyAnswer(old(link.device), slot, seen, t.value.status, t.value.data);
      var data := t.value.data;
      if t.value.status != Ok.Code() {
        return Success(Unusable(t.value.status));
      }
      return Success(Holds(SlotInfo(GetU32(data[0..4]), data[4..8], GetU32(data[8..12]))));
    }

    /** `verify`: what a valid slot holds, or the device's refusal. */
    method VerifySlot(slot: byte) returns (r: Result<SlotInfo>)
      modifies link
      ensures Untouched(old(link.device), link.device)
      ensures Steady(link.script) ==> link.device == old(link.device)
      ensures r == if !AnsweredWithin(link.script, old(link.next), retries) then Failure(Timeout)
                   else match ReportOf(link.device.flash, slot)
                        case Holds(info) => Success(info)
                        case Unusable(status) => Failure(DeviceRefused(status))
    {
      hide Handle, Applied, SlotOk, SlotHeader, AnsweredWithin;
      QueriesSafe(link.device, VERIFY, [slot]);
      var t, seen := Transact(VERIFY, [slot]);
      QueryApplied(old(link.device), VERIFY, [slot], seen);
      if t.Failure? {
        return t.PropagateFailure();
      }
      VerifyAnswer(old(link.device), slot, seen, t.value.status, t.value.data);
      var data := t.value.data;
      if t.value.status != Ok.Code() {
        return Failure(DeviceRefused(t.value.status));
      }
      if |data| < 12 {
        return Failure(Protocol);
      }
      return Success(SlotInfo(GetU32(data[0..4]), data[4..8], GetU32(data[8..12])));
    }

    /** `choose_target_slot` */
    method ChooseTargetSlot(info: DeviceInfo) returns (r: Result<nat>)
      requires info == InfoOf(link.device.flash)
      modifies link
      ensures Untouched(old(link.device), link.device)
      ensures Steady(link.script) ==> link.device == old(link.device)
      ensures r.Success? ==> r.value == TargetOf(link.device.flash)
      ensures Reliable(link.script, retries) ==> r.Success?
    {
      hide Read, SlotOk, SlotHeader, Validate, SlotBytes, AnsweredWithin;
      if info.active != NONE {
        return Success((info.active + 1) % info.slotCount);
      }
      var a := SlotStatus(0);
      if a.Failure? {
        return a.PropagateFailure();
      }
      var b := SlotStatus(1);
      if b.Failure? {
        return b.PropagateFailure();
      }
      return Success(ChooseTarget(NONE, VersionIn(a.value), VersionIn(b.value)));
    }

    /** `erase_slot` */
    method EraseSlot(slot: byte) returns (r: Result<()>)
      modifies link
      ensures slot < SLOT_COUNT ==>
                && SameOutside(old(link.device.flash), link.device.flash, SlotAt(slot), SLOT_SIZE)
                && (r.Success? ==> ErasedFor(link.device, slot))
                && (Reliable(link.script, retries) ==> r.Success?)
      ensures slot >= SLOT_COUNT ==>
                && Untouched(old(link.device), link.device)
                && r == Failure(if AnsweredWithin(link.script, old(link.next), retries)
                                then DeviceRefused(ErrInvalidArgument.Code()) else Timeout)
    {
      hide Handle, Applied, SlotBytes, SameOutside, Blank, AnsweredWithin;
      QueriesSafe(link.device, ERASE_SLOT, [slot]);
      var t, seen := Transact(ERASE_SLOT, [slot]);
      EraseApplied(old(link.device), slot, seen);
      if t.Failure? {
        return t.PropagateFailure();
      }
      EraseAnswerShape(old(link.device), slot, seen);
      BareStatus(t.value.status, t.value.data);
      if t.value.status != Ok.Code() {
        return Failure(DeviceRefused(t.value.status));
      }
      return Success(());
    }

    /**
     `write`. A refusal as not erased is taken as success on a retry. While the device does not
     restart this is right for a write it was ready to accept: an answered write is reported as
     success exactly when the data has been programmed. For one it was not ready to accept nothing
     is programmed, and success is reported exactly when the refusal is as not erased and answers a
     retry. Whether or not it restarts, nothing outside the range the write names changes, and a
     device that still has its session after success has the data.
     */
    method Write(offset: nat, data: seq<byte>) returns (r: Result<()>)
      requires offset < U32_LIMIT && !Clobbers(link.device, WRITE, PutU32(offset) + data)
      modifies link
      ensures var payload, before := PutU32(offset) + data, old(link.device);
              var check := WriteCheck(before.session, payload);
              if check == Ok then
                && offset + |data| <= SLOT_SIZE
                && SameOutside(before.flash, link.device.flash, SlotAt(before.session.target) + offset, |data|)
                && (link.device.session == IDLE || link.device == before || link.device == Landed(before, payload))
                && (r.Success? && link.device.session != IDLE ==> link.device == Landed(before, payload))
              else
                Untouched(before, link.device)
      ensures var payload, before := PutU32(offset) + data, old(link.device);
              var check := WriteCheck(before.session, payload);
              var answered := |payload| <= MAX_PAYLOAD && AnsweredWithin(link.script, old(link.next), retries);
              Steady(link.script) ==>
                if check == Ok then
                  && (link.device == before || link.device == Landed(before, payload))
                  && before != Landed(before, payload)
                  && (r.Success? <==> answered && link.device == Landed(before, payload))
                  && (answered && r.Failure? ==> r == Failure(DeviceRefused(ErrFlashProgram.Code())))
                  && (Reliable(link.script, retries) && |payload| <= MAX_PAYLOAD ==> r.Success?)
                else
                  && link.device == before
                  && (r.Success? <==> answered && check == ErrNotErased && !link.script(old(link.next)).Answered?)
                  && (answered && r.Failure? ==> r == Failure(DeviceRefused(check.Code())))
    {
      hide Handle, Applied, WriteCheck, Clobbers, Landed, Bytes.PutU32, Bytes.GetU32, AnsweredWithin;
      hide SameOutside, AllSteady, Steady, LastAnswer, Reliable;
      var payload := PutU32(offset) + data;
      assert payload[..4] == PutU32(offset);
      U32RoundTrip(offset);
      ReliableSteady(link.script, retries, link.next);
      WriteSafe(link.device, payload);
      var t, seen := Transact(WRITE, payload);
      ghost var ready := WriteCheck(old(link.device).session, payload) == Ok;
      if ready {
        WriteConfined(old(link.device), payload, seen);
        if AllSteady(seen) {
          WriteApplied(old(link.device), payload, seen);
        }
      } else {
        WriteRefused(old(link.device), payload, seen);
      }
      if t.Failure? {
        return t.PropagateFailure();
      }
      var response := t.value;
      if AllSteady(seen) {
        if ready {
          WriteAnswerShape(old(link.device), payload, seen, response.status, response.data);
        } else {
          SameAnswer(response.status, response.data, WriteCheck(old(link.device).session, payload).Code(), []);
        }
      }
      if response.status == Ok.Code() {
        assert |response.data| == 4 ==> response.data[..4] == response.data;
        if |response.data| < 4 || GetU32(response.data[..4]) != offset {
          return Failure(Protocol);
        }
        return Success(());
      }
      if response.status == ErrNotErased.Code() && response.attempts > 1 {
        return Success(());
      }
      return Failure(DeviceRefused(response.status));
    }

    /** `set_active` */
    method SetActive(slot: byte) returns (r: Result<()>)
      modifies link
      ensures Nominated(old(link.device.flash), link.device.flash, slot)
      ensures var cell, check := Read(old(link.device.flash)), NominationCheck(old(link.device.flash), slot);
              var answered := AnsweredWithin(link.script, old(link.next), retries);
              && (r.Success? && !Exhausted(cell) ==> FreshTrial(Read(link.device.flash), slot))
              && (check != Ok ==> r == Failure(if answered then DeviceRefused(check.Code()) else Timeout))
              && (check == Ok && Reliable(link.script, retries) ==> r.Success?)
    {
      hide Handle, Applied, Read, SlotBytes, Nominated, NominationCheck, AnsweredWithin;
      QueriesSafe(link.device, SET_ACTIVE, [slot]);
      var t, seen := Transact(SET_ACTIVE, [slot]);
      SetActiveApplied(old(link.device), slot, seen);
      if t.Failure? {
        return t.PropagateFailure();
      }
      SetActiveAnswerShape(old(link.device), slot, seen);
      BareStatus(t.value.status, t.value.data);
      if t.value.status != Ok.Code() {
        return Failure(DeviceRefused(t.value.status));
      }
      return Success(());
    }

    /** The next chunk of the payload. */
    method SendChunk(image: seq<byte>, slot: nat, sent: nat, chunkSize: nat) returns (r: Result<nat>)
      requires HostValidate(image, Some(SLOT_SIZE)).Some? && Sending(link.device, image, slot, sent)
      requires DecodeHeader(image).entryOffset + sent < |image| && sent % UNIT == 0
      requires 0 < chunkSize <= MAX_WRITE && chunkSize % UNIT == 0
      modifies link
      ensures SameOutside(old(link.device.flash), link.device.flash, SlotAt(slot), SLOT_SIZE)
      ensures r.Success? ==>
                && sent < r.value && r.value % UNIT == 0 && DecodeHeader(image).entryOffset + r.value <= |image|
                && Sending(link.device, image, slot, r.value)
                && (Steady(link.script) && Writing(old(link.device), image, slot, sent) ==>
                      Writing(link.device, image, slot, r.value))
      ensures Reliable(link.script, retries) && Writing(old(link.device), image, slot, sent) ==> r.Success?
    {
      hide SlotBytes, HostValidate, Landed, WriteCheck, Clobbers, Blank, DecodeHeader, Partial, Bytes.PutU32;
      hide SameOutside, NextChunk, Writing, Adrift, Reliable, Steady, AnsweredWithin;
      ghost var before := link.device;
      HostValidateFacts(image, SLOT_SIZE);
      ReliableSteady(link.script, retries, link.next);
      var entry := DecodeHeader(image).entryOffset;
      var payload := image[entry..];
      var chunk := payload[sent..if sent + chunkSize < |payload| then sent + chunkSize else |payload|];
      ChunkShape(image, sent, chunkSize, chunk);
      ghost var writing := Writing(before, image, slot, sent);
      if writing {
        WritingFacts(before, image, slot, sent);
        ChunkReady(before, image, slot, sent, chunk);
      } else {
        AdriftRefuses(before, slot, PutU32(entry + sent) + chunk);
      }
      var written := Write(entry + sent, chunk);
      if writing {
        ChunkSent(before, link.device, image, slot, sent, chunk);
      } else {
        StaysAdrift(before, link.device, slot);
      }
      if written.Failure? {
        return written.PropagateFailure();
      }
      return Success(sent + |chunk|);
    }

    /** The payload in ascending chunks, then the header. */
    method SendImage(image: seq<byte>, slot: nat, chunkSize: nat) returns (r: Result<()>)
      requires Writing(link.device, image, slot, 0)
      requires 0 < chunkSize <= MAX_WRITE && chunkSize % UNIT == 0
      modifies link
      ensures SameOutside(old(link.device.flash), link.device.flash, SlotAt(slot), SLOT_SIZE)
      ensures r.Success? ==> NoHeader(link.device.flash, slot) || PayloadStored(link.device.flash, image, slot)
      ensures r.Success? && Steady(link.script) ==>
                SlotBytes(link.device.flash, slot) == Installed(image, SLOT_SIZE)
      ensures Reliable(link.script, retries) ==> r.Success?
    {
      hide SlotBytes, HostValidate, Landed, WriteCheck, Clobbers, Blank, DecodeHeader, Installed, Partial, Bytes.PutU32;
      hide SameOutside, Writing, Adrift, NoHeader, Reliable, Steady, AnsweredWithin;
      ghost var start := link.device.flash;
      WritingFacts(link.device, image, slot, 0);
      HostValidateFacts(image, SLOT_SIZE);
      ReliableSteady(link.script, retries, link.next);
      SameOutsideReflexive(start, SlotAt(slot), SLOT_SIZE);
      var entry := DecodeHeader(image).entryOffset;
      var sent := 0;
      while entry + sent < |image|
        invariant entry + sent <= |image| && sent % UNIT == 0
        invariant Sending(link.device, image, slot, sent)
        invariant Steady(link.script) ==> Writing(link.device, image, slot, sent)
        invariant SameOutside(start, link.device.flash, SlotAt(slot), SLOT_SIZE)
      {
        ghost var before := link.device.flash;
        var next := SendChunk(image, slot, sent, chunkSize);
        SameOutsideTransitive(start, before, link.device.flash, SlotAt(slot), SLOT_SIZE, SlotAt(slot), SLOT_SIZE);
        if next.Failure? {
          return next.PropagateFailure();
        }
        sent := next.value;
      }
      ghost var before := link.device;
      ghost var writing := Writing(before, image, slot, sent);
      if writing {
        WritingFacts(before, image, slot, sent);
        HeaderReady(before, image, slot);
      } else {
        AdriftRefuses(before, slot, PutU32(0) + image[..HDR_SIZE]);
      }
      r := Write(0, image[..HDR_SIZE]);
      if writing {
        HeaderSent(before, link.device, image, slot);
      } else {
        StaysAdrift(before, link.device, slot);
      }
      SameOutsideTransitive(start, before.flash, link.device.flash, SlotAt(slot), SLOT_SIZE, SlotAt(slot), SLOT_SIZE);
    }

    /**
     `update`: install an image and arm it for a trial boot.

     Whenever it returns successfully the slot validates and holds exactly the image's payload, the
     metadata nominates it on a fresh trial unless the sequence counter was used up, and the other
     slot is as it was; so it is even if the device lost power on the way. If it did not, the slot
     holds exactly the image. However it ends and whatever the power does, a device that could boot
     its nominated slot still can. An image or a slot it refuses leaves the device untouched. Over a
     reliable link it succeeds for every acceptable image.
     */
    method Update(image: seq<byte>, requested: Option<nat>) returns (r: Result<nat>)
      modifies link
      ensures r.Success? ==>
                && r.value < SLOT_COUNT && r.value != ActiveByte(old(link.device.flash))
                && r.value == (if requested.Some? then requested.value else TargetOf(old(link.device.flash)))
                && HostValidate(image, Some(SLOT_SIZE)).Some?
                && SlotOk(link.device.flash, r.value) && PayloadStored(link.device.flash, image, r.value)
                && SlotHeader(link.device.flash, r.value).imgCrc == DecodeHeader(image).imgCrc
                && (Steady(link.script) ==> SlotBytes(link.device.flash, r.value) == Installed(image, SLOT_SIZE))
                && (if Exhausted(Read(old(link.device.flash)))
                    then Read(link.device.flash) == Read(old(link.device.flash))
                    else FreshTrial(Read(link.device.flash), r.value))
                && SlotBytes(link.device.flash, Other(r.value)) == SlotBytes(old(link.device.flash), Other(r.value))
      ensures Startable(old(link.device.flash)) ==> Startable(link.device.flash)
      ensures var before := old(link.device.flash);
              requested.None? && Select(before).Some? && Select(before) != Some(TargetOf(before)) ==>
                Select(link.device.flash).Some?
      ensures HostValidate(image, Some(SLOT_SIZE)).None? ==> r.Failure? && Untouched(old(link.device), link.device)
      ensures requested.Some? &&
              (requested.value >= SLOT_COUNT || requested.value == ActiveByte(old(link.device.flash))) ==>
                r.Failure? && Untouched(old(link.device), link.device)
      ensures && Reliable(link.script, retries)
              && HostValidate(image, Some(SLOT_SIZE)).Some?
              && (requested.Some? ==>
                    requested.value < SLOT_COUNT && requested.value != ActiveByte(old(link.device.flash)))
              ==> r.Success?
    {
      hide Read, SlotOk, SlotHeader, SlotBytes, HostValidate, Landed, WriteCheck, SameOutside, Blank;
      hide DecodeHeader, Installed, Select, AnsweredWithin, PayloadStored, NoHeader, Writing, ErasedFor, Nominated;
      hide Steady, Startable;
      ghost var start := link.device.flash;
      ReliableSteady(link.script, retries, link.next);
      var info :- Hello();
      var validated := HostValidate(image, Some(info.slotSize));
      if validated.None? {
        return Failure(BadImage);
      }
      var header := validated.value;
      HostValidateFacts(image, SLOT_SIZE);
      var slot: nat;
      if requested.Some? {
        slot := requested.value;
      } else {
        slot :- ChooseTargetSlot(info);
        TargetNotActive(start);
      }
      if slot >= info.slotCount || slot == info.active {
        return Failure(BadSlot);
      }
      var erased := EraseSlot(slot);
      KeepsStartable(start, link.device.flash, slot);
      if erased.Failure? {
        return erased.PropagateFailure();
      }
      WritingStarts(link.device, image, slot);
      var chunkSize := if info.maxWrite < MAX_WRITE then info.maxWrite else MAX_WRITE;
      if chunkSize % info.granularity != 0 {
        return Failure(Protocol);
      }
      ghost var blank := link.device.flash;
      var written := SendImage(image, slot, chunkSize);
      SameOutsideTransitive(start, blank, link.device.flash, SlotAt(slot), SLOT_SIZE, SlotAt(slot), SLOT_SIZE);
      KeepsStartable(start, link.device.flash, slot);
      if written.Failure? {
        return written.PropagateFailure();
      }
      ghost var filled := link.device.flash;
      if Steady(link.script) {
        InstalledOk(filled, image, slot);
      }
      var stored :- VerifySlot(slot);
      if stored.imgCrc != header.imgCrc {
        return Failure(Protocol);
      }
      Verified(filled, image, slot);
      KeepsCell(start, filled, slot);
      var armed := SetActive(slot);
      Armed(filled, link.device.flash, image, slot);
      if armed.Failure? {
        return armed.PropagateFailure();
      }
      return Success(slot);
    }
  }

  // ------------------------------------------------------- answers, field by field

  lemma SameAnswer(a: byte, s: seq<byte>, b: byte, t: seq<byte>)
    requires [a] + s == [b] + t
    ensures a == b && s == t
  {
    assert ([a] + s)[0] == a && ([b] + t)[0] == b;
    assert ([a] + s)[1..] == s && ([b] + t)[1..] == t;
  }

  lemma HelloAnswer(d: Device, seen: seq<Sight>)
    requires seen != []
    ensures LastAnswer(d, HELLO, [], seen) == Some([Ok.Code()] + HelloData(d.flash))
  {
    hide HelloData, Applied;
    QueryApplied(d, HELLO, [], seen[..|seen| - 1]);
  }

  lemma HelloFields(f: Flash)
    ensures var data := HelloData(f);
            && data[0] == PROTO_VERSION && data[1] == HDR_VERSION
            && DeviceInfo(data[2], GetU32(data[3..7]), GetU32(data[7..11]), GetU32(data[11..15]), GetU16(data[15..17]),
                          data[17], data[18], data[19]) == InfoOf(f)
  {
    hide Read, Bytes.PutU32, Bytes.GetU32, Bytes.PutU16, Bytes.GetU16;
    var data := HelloData(f);
    assert data[3..7] == PutU32(SLOT_SIZE) && data[7..11] == PutU32(UNIT) && data[11..15] == PutU32(PAGE);
    assert data[15..17] == PutU16(MAX_WRITE) && data[17..] == BootBytes(Read(f));
    assert data[17] == data[17..][0] && data[18] == data[17..][1] && data[19] == data[17..][2];
    U32RoundTrip(PAGE);
    U32RoundTrip(SLOT_SIZE);
    U32RoundTrip(UNIT);
    U16RoundTrip(MAX_WRITE);
  }

  lemma VerifyAnswer(d: Device, slot: byte, seen: seq<Sight>, status: byte, data: seq<byte>)
    requires seen != [] && LastAnswer(d, VERIFY, [slot], seen) == Some([status] + data)
    ensures match ReportOf(d.flash, slot)
            case Unusable(refusal) => status == refusal != Ok.Code()
            case Holds(info) =>
              && status == Ok.Code() && |data| == 12
              && SlotInfo(GetU32(data[0..4]), data[4..8], GetU32(data[8..12])) == info
  {
    hide Validate, DecodeHeader, Applied, Bytes.PutU32, Bytes.GetU32, SlotBytes;
    QueryApplied(d, VERIFY, [slot], seen[..|seen| - 1]);
    if slot < SLOT_COUNT && SlotOk(d.flash, slot) {
      var h := SlotHeader(d.flash, slot);
      SameAnswer(status, data, Ok.Code(), VerifyData(h));
      assert data[0..4] == PutU32(h.imgSize) && data[4..8] == h.imgCrc && data[8..12] == PutU32(h.fwVersion);
      U32RoundTrip(h.imgSize);
      U32RoundTrip(h.fwVersion);
    } else {
      assert ([status] + data)[0] == status;
    }
  }

  lemma BareStatus(status: byte, data: seq<byte>)
    requires |[status] + data| == 1
    ensures [status] + data == [status]
  {
  }

  /** The answer to an erase is a bare status. */
  lemma EraseAnswerShape(d: Device, slot: byte, seen: seq<Sight>)
    requires seen != []
    ensures var answer := LastAnswer(d, ERASE_SLOT, [slot], seen);
            answer.Some? ==> |answer.value| == 1
  {
    hide Applied, Erase;
  }

  /** So is the answer to a nomination. */
  lemma SetActiveAnswerShape(d: Device, slot: byte, seen: seq<Sight>)
    requires seen != []
    ensures var answer := LastAnswer(d, SET_ACTIVE, [slot], seen);
            answer.Some? ==> |answer.value| == 1
  {
    hide Applied, MarkPending;
  }

  lemma WriteAnswerShape(d: Device, payload: seq<byte>, seen: seq<Sight>, status: byte, data: seq<byte>)
    requires WriteCheck(d.session, payload) == Ok && seen != [] && AllSteady(seen)
    requires LastAnswer(d, WRITE, payload, seen) == Some([status] + data)
    ensures var answer := LastAnswer(d, WRITE, payload, seen);
            && (status == Ok.Code() ==> data == payload[..4] && answer == Some([Ok.Code()] + payload[..4]))
            && (status == ErrNotErased.Code() ==> AnsweredWith(answer, ErrNotErased))
            && (status == ErrFlashProgram.Code() ==> AnsweredWith(answer, ErrFlashProgram))
            && (status == Ok.Code() || status == ErrNotErased.Code() || status == ErrFlashProgram.Code())
    ensures AllFlawless(seen) ==> status != ErrFlashProgram.Code()
  {
    hide LastAnswer, Applied, WriteCheck, Landed;
    WriteApplied(d, payload, seen);
    var answer := [status] + data;
    assert answer[0] == status && answer[1..] == data;
    if status == Ok.Code() {
      assert answer == [Ok.Code()] + payload[..4];
      assert answer[1..] == payload[..4];
    } else if status == ErrNotErased.Code() {
      assert answer == [ErrNotErased.Code()];
    } else {
      assert answer == [ErrFlashProgram.Code()];
    }
  }

  // ------------------------------------------------------------ update, step by step

  lemma TargetNotActive(f: Flash)
    ensures TargetOf(f) != ActiveByte(f)
  {
    hide Read, SlotOk, SlotHeader, Validate, SlotBytes;
  }

  lemma KeepsCell(f: Flash, g: Flash, slot: nat)
    requires slot < SLOT_COUNT && SameOutside(f, g, SlotAt(slot), SLOT_SIZE)
    ensures Read(g) == Read(f) && SlotBytes(g, Other(slot)) == SlotBytes(f, Other(slot))
  {
    hide Read;
    SlotChangeKeeps(f, g, slot, SlotAt(slot), SLOT_SIZE);
  }

  lemma KeepsStartable(f: Flash, g: Flash, slot: nat)
    requires slot < SLOT_COUNT && SameOutside(f, g, SlotAt(slot), SLOT_SIZE)
    requires slot != ActiveByte(f)
    ensures Startable(f) ==> Startable(g)
    ensures Select(f).Some? && Select(f) != Some(slot) ==> Select(g).Some?
  {
    hide Read, Validate, SlotBytes, SameOutside, Select;
    KeepsCell(f, g, slot);
    if Select(f).Some? && Select(f) != Some(slot) {
      SlotChangeSpares(f, g, slot, SlotAt(slot), SLOT_SIZE);
    }
  }

  lemma InstalledOk(f: Flash, image: seq<byte>, slot: nat)
    requires slot < SLOT_COUNT && HostValidate(image, Some(SLOT_SIZE)).Some?
    requires SlotBytes(f, slot) == Installed(image, SLOT_SIZE)
    ensures ReportOf(f, slot).Holds? && ReportOf(f, slot).info.imgCrc == DecodeHeader(image).imgCrc
  {
    hide HostValidate, DecodeHeader, SlotBytes, Validate, Installed;
    InstalledBootable(image, SLOT_SIZE);
  }

  /** A slot that passes VERIFY has a header, so the write that committed it found the payload whole. */
  lemma Verified(f: Flash, image: seq<byte>, slot: nat)
    requires slot < SLOT_COUNT && HostValidate(image, Some(SLOT_SIZE)).Some? && ReportOf(f, slot).Holds?
    requires NoHeader(f, slot) || PayloadStored(f, image, slot)
    ensures SlotOk(f, slot) && NominationCheck(f, slot) == Ok && PayloadStored(f, image, slot)
    ensures SlotHeader(f, slot).imgCrc == ReportOf(f, slot).info.imgCrc
  {
    hide HostValidate, DecodeHeader, SlotBytes, Validate, Installed, NoHeader, PayloadStored;
    if NoHeader(f, slot) {
      NoHeaderRejected(f, slot);
    }
  }

  /** Nomination leaves what the slots hold alone. */
  lemma Armed(f: Flash, g: Flash, image: seq<byte>, slot: byte)
    requires slot < SLOT_COUNT && HostValidate(image, Some(SLOT_SIZE)).Some? && Nominated(f, g, slot)
    requires SlotOk(f, slot) && PayloadStored(f, image, slot)
    ensures SlotOk(g, slot) && PayloadStored(g, image, slot) && SlotHeader(g, slot) == SlotHeader(f, slot)
    ensures forall s :: 0 <= s < SLOT_COUNT ==> SlotBytes(g, s) == SlotBytes(f, s)
    ensures Startable(f) ==> Startable(g)
    ensures Exhausted(Read(f)) ==> Read(g) == Read(f)
    ensures Select(f).Some? && Select(g).Some?
  {
    hide HostValidate, DecodeHeader, SlotBytes, Validate, Installed, Read, Startable, Select;
    SelectIffBootable(f);
    SelectIffBootable(g);
  }
}
