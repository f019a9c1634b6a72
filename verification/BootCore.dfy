/**
 The bootloader core as it runs: loops and assignments over the simulated flash and a session
 object, each method proved to do what the value-level core says.
 */
module BootCore {
  import opened Bytes
  import Crc32
  import opened Frame
  import opened Optional
  import opened Flash
  import opened Status
  import opened Meta
  import opened Image
  import opened Core
  import opened Safety
  import opened Answers
  import opened Programming
  import opened HostFlash

  /** The most data a response carries after its status. */
  const MAX_RESPONSE_DATA: nat := 20

  /** Bytes read at a time while checksumming a payload. */
  const CHUNK: nat := 256

  const BLANK_HEADER := Header(0, 0, 0, 0, [], 0, 0, [], [])

  class BootCore {
    const port: HostFlash
    var target: nat
    var erased: bool
    var highest: nat
    var headerWritten: bool
    var resetRequested: bool

    constructor (port: HostFlash)
      requires port.Valid()
      ensures Valid() && this.port == port && Now().session == IDLE
    {
      this.port := port;
      target, erased, highest, headerWritten, resetRequested := 0, false, 0, false, false;
    }

    ghost predicate Valid()
      reads this
    {
      port.Valid() && target < SLOT_COUNT && highest <= SLOT_SIZE
    }

    /** The device as a value. */
    ghost function Now(): Device
      requires Valid()
      reads this, port.flash, port.written
    {
      DeviceData(port.View(), Session(target, erased, highest, headerWritten, resetRequested))
    }

    /** What becomes of the flash operations of one core operation: only writes can fail here. */
    ghost function PortFates(): Fates
      reads this, port
    {
      Fates(Done, port.WriteFate())
    }

    // ----------------------------------------------------------- validation

    /**
     `bl_core_validate_slot`: the chunked loop computes the checksum of the whole payload, every
     read goes through `ReadSlot`, and the caller's header changes only on success.
     */
    method ValidateSlot(slot: byte, header: Header) returns (status: Status, headerOut: Header)
      requires Valid()
      ensures slot >= SLOT_COUNT ==> status == ErrInvalidArgument
      ensures slot < SLOT_COUNT ==> status == Validate(SlotBytes(port.View(), slot))
      ensures status == Ok ==> slot < SLOT_COUNT && headerOut == SlotHeader(port.View(), slot)
      ensures status != Ok ==> headerOut == header
    {
      hide Crc32.Crc, Crc32.PutWord, DecodeHeader, SlotBytes, HostFlash.View;
      headerOut := header;
      if slot >= SLOT_COUNT {
        return ErrInvalidArgument, header;
      }
      var raw := ReadHeader(slot);
      var h := DecodeHeader(raw);
      if h.magic != MAGIC {
        return ErrMagic, header;
      }
      if h.version != HDR_VERSION {
        return ErrHdrVersion, header;
      }
      var headerCrc := Crc32.Compute(0, raw[..36]);
      if h.hdrCrc != Crc32.PutWord(headerCrc) {
        return ErrHdrCrc, header;
      }
      if h.entryOffset < HDR_SIZE || h.entryOffset % HDR_REGION != 0 || h.entryOffset >= SLOT_SIZE {
        return ErrEntryOffset, header;
      }
      if h.imgSize == 0 || h.imgSize > SLOT_SIZE - h.entryOffset {
        return ErrImageSize, header;
      }
      var payloadCrc := PayloadCrc(slot, h.entryOffset, h.imgSize);
      if Crc32.PutWord(payloadCrc) != h.imgCrc {
        return ErrImageCrc, header;
      }
      return Ok, h;
    }

    /** A read inside one slot; validation reads flash in no other way. */
    method ReadSlot(slot: nat, lo: nat, hi: nat) returns (data: seq<byte>)
      requires Valid() && slot < SLOT_COUNT && lo <= hi <= SLOT_SIZE
      ensures data == SlotBytes(port.View(), slot)[lo..hi]
    {
      hide HostFlash.View, SlotBytes;
      RangeValidExact(FLASH_BASE + SlotAt(slot) + lo, hi - lo);
      data := port.ReadRange(FLASH_BASE + SlotAt(slot) + lo, hi - lo);
      SlotRange(port.View(), slot, lo, hi);
    }

    method ReadHeader(slot: nat) returns (raw: seq<byte>)
      requires Valid() && slot < SLOT_COUNT
      ensures |raw| == HDR_SIZE && raw[..36] == SlotBytes(port.View(), slot)[..36]
      ensures DecodeHeader(raw) == DecodeHeader(SlotBytes(port.View(), slot))
    {
      hide DecodeHeader, HostFlash.View, SlotBytes;
      ghost var bytes := SlotBytes(port.View(), slot);
      raw := ReadSlot(slot, 0, HDR_SIZE);
      assert raw[..HDR_SIZE] == bytes[..HDR_SIZE];
      HeaderPrefix(raw, bytes);
    }

    method PayloadCrc(slot: nat, entry: nat, size: nat) returns (crc: Crc32.word)
      requires Valid() && slot < SLOT_COUNT && entry + size <= SLOT_SIZE
      ensures crc == Crc32.Crc(0, SlotBytes(port.View(), slot)[entry..entry + size])
    {
      hide Crc32.Crc, SlotBytes, HostFlash.View;
      EmptyCrc();
      crc := 0;
      ghost var bytes := SlotBytes(port.View(), slot);
      var remaining := size;
      var offset := entry;
      assert bytes[entry..entry] == [];
      while remaining > 0
        invariant entry <= offset <= entry + size == offset + remaining
        invariant crc == Crc32.Crc(0, bytes[entry..offset])
      {
        var chunk := if remaining > CHUNK then CHUNK else remaining;
        var buffer := ReadSlot(slot, offset, offset + chunk);
        Crc32.CrcConcat(0, bytes[entry..offset], buffer);
        assert bytes[entry..offset] + buffer == bytes[entry..offset + chunk];
        crc := Crc32.Compute(crc, buffer);
        offset := offset + chunk;
        remaining := remaining - chunk;
      }
    }

    // ------------------------------------------------------------- metadata

    method ReadRegion(index: nat) returns (r: Option<Record>)
      requires Valid() && index < META_COUNT
      ensures r == Parse(MetaBytes(port.View(), index))
    {
      hide Parse, HostFlash.View;
      RangeValidExact(FLASH_BASE + MetaAt(index), RECORD);
      var raw := port.ReadRange(FLASH_BASE + MetaAt(index), RECORD);
      r := ParseRaw(raw);
    }

    method ParseRaw(raw: seq<byte>) returns (r: Option<Record>)
      requires |raw| == RECORD
      ensures r == Parse(raw)
    {
      hide Crc32.Crc, Crc32.PutWord, HostFlash.View;
      var crc := Crc32.Compute(0, raw[..12]);
      if raw[12..] != Crc32.PutWord(crc) || raw[4] >= SLOT_COUNT || !StateValid(raw[5]) {
        return None;
      }
      return Some(Record(GetU32(raw[..4]), raw[4], raw[5], raw[6]));
    }

    /** `find_newest`: the loop keeps the newest record met so far. */
    method FindNewest() returns (newest: Option<Located>)
      requires Valid()
      ensures newest == Newest(port.View())
    {
      hide Parse, HostFlash.View;
      newest := None;
      ghost var first, second := Parse(MetaBytes(port.View(), 0)), Parse(MetaBytes(port.View(), 1));
      var i := 0;
      while i < META_COUNT
        invariant i <= META_COUNT
        invariant i == 0 ==> newest == None
        invariant i == 1 ==> newest == NewestOf(first, None)
        invariant i == 2 ==> newest == NewestOf(first, second)
      {
        var candidate := ReadRegion(i);
        if candidate.Some? && (newest.None? || candidate.value.sequence > newest.value.record.sequence) {
          newest := Some(Located(candidate.value, i));
        }
        i := i + 1;
      }
    }

    /** `bl_meta_read` */
    method MetaRead() returns (r: Option<Record>)
      requires Valid()
      ensures r == Read(port.View())
    {
      hide Newest, HostFlash.View;
      var newest := FindNewest();
      r := if newest.Some? then Some(newest.value.record) else None;
    }

    /** `bl_meta_commit` */
    method MetaCommit(slot: nat, state: byte, attempts: byte) returns (status: Status)
      requires Valid()
      modifies port`writeCalls, port.flash, port.written
      ensures Valid()
      ensures Outcome(port.View(), Some(status)) == Commit(old(port.View()), slot, state, attempts, old(PortFates()))
    {
      hide Parse, Newest, RecordBytes, HostFlash.View, Erase, Program, Blank;
      ghost var before, fates := port.View(), PortFates();
      if slot >= SLOT_COUNT || !StateValid(state) {
        return ErrInvalidArgument;
      }
      var newest := FindNewest();
      var nextSeq, index := 1, 0;
      if newest.Some? {
        nextSeq := (newest.value.record.sequence + 1) % U32_LIMIT;
        index := (newest.value.index + 1) % META_COUNT;
      }
      var record := Record(nextSeq, slot, state, attempts);
      var at := MetaAt(index);
      RangeValidExact(FLASH_BASE + at, META_SIZE);
      RangeValidExact(FLASH_BASE + at, RECORD);
      status := port.EraseRange(FLASH_BASE + at, META_SIZE);
      ghost var clean := port.View();
      EraseDone(before, at, META_SIZE, fates.erase);
      BlankWithin(clean, at, META_SIZE, at, RECORD);
      status := port.WriteRange(FLASH_BASE + at, RecordBytes(record));
      if status != Ok {
        return;
      }
      var stored := ReadRegion(index);
      if stored != Some(record) {
        return ErrFlashVerify;
      }
    }

    // ----------------------------------------------------- selection and boot

    /** `bl_core_select_slot`: the outputs are written only on success. */
    method SelectSlot(slot: nat, header: Header) returns (status: Status, slotOut: nat, headerOut: Header)
      requires Valid()
      ensures status == (if Select(port.View()).Some? then Ok else ErrNoValidImage)
      ensures status == Ok ==> Select(port.View()) == Some(slotOut) && headerOut == SlotHeader(port.View(), slotOut)
      ensures status != Ok ==> slotOut == slot && headerOut == header
    {
      hide Read, Validate, DecodeHeader, SlotBytes, HostFlash.View;
      slotOut, headerOut := slot, header;
      var meta := MetaRead();
      if meta.None? {
        var a, headerA := ValidateSlot(0, header);
        var b, headerB := ValidateSlot(1, header);
        if a == Ok && b == Ok {
          if headerB.fwVersion > headerA.fwVersion {
            return Ok, 1, headerB;
          }
          return Ok, 0, headerA;
        }
        if a == Ok {
          return Ok, 0, headerA;
        }
        if b == Ok {
          return Ok, 1, headerB;
        }
        return ErrNoValidImage, slot, header;
      }
      var nominated, h := ValidateSlot(meta.value.slot, header);
      if nominated == Ok {
        return Ok, meta.value.slot, h;
      }
      var other := (meta.value.slot + 1) % SLOT_COUNT;
      nominated, h := ValidateSlot(other, header);
      if nominated == Ok {
        return Ok, other, h;
      }
      return ErrNoValidImage, slot, header;
    }

    /** `advance_trial_state` */
    method AdvanceTrial()
      requires Valid()
      modifies port`writeCalls, port.flash, port.written
      ensures Valid()
      ensures port.View() == Advance(old(port.View()), old(PortFates())).flash
      ensures Advance(old(port.View()), old(PortFates())).status.Some?
    {
      hide Read, Commit, Validate, SlotBytes, HostFlash.View;
      var meta := MetaRead();
      if meta.None? || meta.value.state != TRIAL {
        return;
      }
      if meta.value.attempts < MAX_ATTEMPTS {
        var _ := MetaCommit(meta.value.slot, TRIAL, meta.value.attempts + 1);
        return;
      }
      var other := (meta.value.slot + 1) % SLOT_COUNT;
      var status, _ := ValidateSlot(other, BLANK_HEADER);
      if status == Ok {
        var _ := MetaCommit(other, CONFIRMED, 0);
      }
    }

    /**
     `bl_core_boot`. On the simulated port it always returns; the jump is what the port records.
     */
    method BootImage() returns (status: Status)
      requires Valid()
      modifies port, port.flash, port.written
      ensures Valid()
      ensures var b := Boot(old(port.View()), old(PortFates()));
              && port.View() == b.flash && !b.result.PowerLost?
              && status == (if b.result.JumpTo? then ErrJumpRefused else ErrNoValidImage)
              && (b.result.JumpTo? ==>
                    forall sp: nat, reset: nat ::
                      HoldsVectors(b.flash, b.result.address, b.result.slot, sp, reset) ==>
                        var base := 0x0800_9000 + 0x1_B000 * b.result.slot;
                        if && 0x2000_0000 <= sp <= 0x2001_0000 && sp % 4 == 0
                           && reset % 2 == 1 && base <= reset - 1 < base + 0x1_B000
                        then port.jumped && port.jumpTarget == b.result.address
                        else port.jumped == old(port.jumped) && port.jumpTarget == old(port.jumpTarget))
              && (if b.result.JumpTo? && JumpAccepted(b.flash, b.result.address)
                  then port.jumped && port.jumpTarget == b.result.address
                  else port.jumped == old(port.jumped) && port.jumpTarget == old(port.jumpTarget))
    {
      hide Advance, Select, SlotHeader, SlotOk, SlotBytes, Read, HostFlash.View, JumpAccepted, HoldsVectors;
      AdvanceTrial();
      var selected, slot, header := SelectSlot(0, BLANK_HEADER);
      if selected != Ok {
        return selected;
      }
      EntryInside(port.View(), slot);
      port.JumpToApp(FLASH_BASE + SlotAt(slot) + header.entryOffset);
      return ErrJumpRefused;
    }

    /** `bl_core_mark_pending` */
    method MarkSlotPending(slot: byte) returns (status: Status)
      requires Valid()
      modifies port`writeCalls, port.flash, port.written
      ensures Valid()
      ensures Outcome(port.View(), Some(status)) == MarkPending(old(port.View()), slot, old(PortFates()))
    {
      hide Commit, Validate, SlotBytes, HostFlash.View;
      if slot >= SLOT_COUNT {
        return ErrInvalidArgument;
      }
      var valid, _ := ValidateSlot(slot, BLANK_HEADER);
      if valid != Ok {
        return valid;
      }
      status := MetaCommit(slot, TRIAL, 0);
    }

    /** `bl_core_confirm` */
    method ConfirmRunning() returns (status: Status)
      requires Valid()
      modifies port`writeCalls, port.flash, port.written
      ensures Valid()
      ensures Outcome(port.View(), Some(status)) == Confirm(old(port.View()), old(PortFates()))
    {
      hide Commit, Read, HostFlash.View;
      var meta := MetaRead();
      if meta.None? {
        return ErrNoMetadata;
      }
      if meta.value.state == CONFIRMED {
        return Ok;
      }
      status := MetaCommit(meta.value.slot, CONFIRMED, 0);
    }

    // ------------------------------------------------------- command handling

    /** `respond`: a complete frame in the caller's buffer, or a failure and an untouched buffer. */
    method Respond(cmd: byte, status: Status, data: seq<byte>, response: array<byte>) returns (result: Status, len: nat)
      modifies response
      ensures |data| > MAX_RESPONSE_DATA ==> result == ErrUnknown && response[..] == old(response[..])
      ensures |data| <= MAX_RESPONSE_DATA ==>
                Responded(cmd, [status.Code()] + data, response, old(response[..]), result, len)
    {
      hide Wire, HostFlash.View;
      if |data| > MAX_RESPONSE_DATA {
        return ErrUnknown, 0;
      }
      len := EncodeInto(cmd, [status.Code()] + data, response);
      result := if len == 0 then ErrUnknown else Ok;
    }

    method AnswerHello(payload: seq<byte>) returns (status: Status, data: seq<byte>)
      requires Valid()
      ensures |data| <= 20
      ensures Reply(Now(), Some([status.Code()] + data)) == HandleHello(Now(), payload)
    {
      hide Read, HostFlash.View;
      if |payload| != 0 {
        assert [ErrInvalidPacket.Code()] + [] == [ErrInvalidPacket.Code()];
        return ErrInvalidPacket, [];
      }
      var meta := MetaRead();
      return Ok, Geometry() + BootBytes(meta);
    }

    method EraseTarget(payload: seq<byte>) returns (status: Status)
      requires Valid()
      modifies this, port.flash, port.written
      ensures Valid()
      ensures Reply(Now(), Some([status.Code()])) == HandleErase(old(Now()), payload, old(PortFates()))
    {
      hide Erase, HostFlash.View;
      assert [Ok.Code()] + [] == [Ok.Code()];
      if |payload| != 1 {
        return ErrInvalidPacket;
      }
      var slot := payload[0];
      if slot >= SLOT_COUNT {
        return ErrInvalidArgument;
      }
      RangeValidExact(FLASH_BASE + SlotAt(slot), SLOT_SIZE);
      status := port.EraseRange(FLASH_BASE + SlotAt(slot), SLOT_SIZE);
      target, erased, highest, headerWritten := slot, true, 0, false;
    }

    method WriteChunk(payload: seq<byte>) returns (status: Status, data: seq<byte>)
      requires Valid() && |payload| <= MAX_PAYLOAD && !Clobbers(Now(), WRITE, payload)
      modifies this, port`writeCalls, port.flash, port.written
      ensures Valid() && |data| <= 20
      ensures Reply(Now(), Some([status.Code()] + data)) == HandleWrite(old(Now()), payload, old(PortFates()))
    {
      hide Program, WriteCheck, Blank, Bytes.GetU32, Unpacked;
      ghost var before := Now();
      status := CheckWrite(payload);
      assert [status.Code()] + [] == [status.Code()];
      if status != Ok {
        return status, [];
      }
      var offset := WriteOffset(payload);
      var chunk := payload[4..];
      var at := SlotAt(target) + offset;
      RangeValidExact(FLASH_BASE + at, |chunk|);
      status := port.WriteRange(FLASH_BASE + at, chunk);
      assert [ErrFlashProgram.Code()] + [] == [ErrFlashProgram.Code()];
      if status != Ok {
        return status, [];
      }
      if offset == 0 {
        headerWritten := true;
      }
      if offset + |chunk| > highest {
        highest := offset + |chunk|;
      }
      return Ok, payload[..4];
    }

    /** The checks of `handle_write` that precede the flash write. */
    method CheckWrite(payload: seq<byte>) returns (status: Status)
      requires Valid()
      ensures status == WriteCheck(Now().session, payload)
    {
      hide HostFlash.View, Bytes.GetU32;
      if |payload| < 5 {
        return ErrInvalidPacket;
      }
      if !erased {
        return ErrNotErased;
      }
      var offset, len := WriteOffset(payload), |payload| - 4;
      if offset % UNIT != 0 || len % UNIT != 0 {
        return ErrInvalidArgument;
      }
      if offset == 0 {
        if headerWritten {
          return ErrNotErased;
        }
      } else if offset < highest {
        return ErrNotErased;
      }
      if offset > SLOT_SIZE || len > SLOT_SIZE - offset {
        return ErrImageSize;
      }
      return Ok;
    }

    method AnswerVerify(payload: seq<byte>) returns (status: Status, data: seq<byte>)
      requires Valid()
      ensures |data| <= 20
      ensures Reply(Now(), Some([status.Code()] + data)) == HandleVerify(Now(), payload)
    {
      hide Validate, DecodeHeader, SlotBytes, Bytes.PutU32, HostFlash.View;
      if |payload| != 1 {
        assert [ErrInvalidPacket.Code()] + [] == [ErrInvalidPacket.Code()];
        return ErrInvalidPacket, [];
      }
      var header;
      status, header := ValidateSlot(payload[0], BLANK_HEADER);
      if status != Ok {
        assert [status.Code()] + [] == [status.Code()];
        return status, [];
      }
      return Ok, VerifyData(header);
    }

    method SetActiveSlot(payload: seq<byte>) returns (status: Status)
      requires Valid()
      modifies port`writeCalls, port.flash, port.written
      ensures Valid()
      ensures Reply(Now(), Some([status.Code()])) == HandleSetActive(old(Now()), payload, old(PortFates()))
    {
      hide MarkPending, HostFlash.View;
      if |payload| != 1 {
        return ErrInvalidPacket;
      }
      status := MarkSlotPending(payload[0]);
    }

    /**
     `bl_core_handle_frame`: every request is handled as the value-level core says, and every
     path answers with a complete frame when the buffer has the room.
     */
    method HandleFrame(cmd: byte, payload: seq<byte>, response: array<byte>) returns (result: Status, len: nat)
      requires Valid() && |payload| <= MAX_PAYLOAD && !Clobbers(Now(), cmd, payload)
      requires response != port.flash && response as object != port.written as object
      modifies this, port`writeCalls, port.flash, port.written, response
      ensures Valid()
      ensures var reply := Handle(old(Now()), cmd, payload, old(PortFates()));
              && Now() == reply.device && reply.response.Some? && 1 <= |reply.response.value| <= 21
              && Responded(cmd, reply.response.value, response, old(response[..]), result, len)
              && (response.Length >= MIN_RESPONSE_SIZE ==> result == Ok)
    {
      hide HandleHello, HandleErase, HandleWrite, HandleVerify, HandleSetActive, Clobbers, Wire, HostFlash.View;
      var status, data := ErrInvalidPacket, [];
      assert [ErrInvalidPacket.Code()] + [] == [ErrInvalidPacket.Code()];
      if cmd == HELLO {
        status, data := AnswerHello(payload);
      } else if cmd == ERASE_SLOT {
        status := EraseTarget(payload);
      } else if cmd == WRITE {
        status, data := WriteChunk(payload);
      } else if cmd == VERIFY {
        status, data := AnswerVerify(payload);
      } else if cmd == SET_ACTIVE {
        status := SetActiveSlot(payload);
      } else if cmd == RESET && |payload| == 0 {
        resetRequested := true;
        status := Ok;
      }
      ghost var reply := Handle(old(Now()), cmd, payload, old(PortFates()));
      assert data == [] ==> [status.Code()] + data == [status.Code()];
      assert Now() == reply.device && reply.response == Some([status.Code()] + data);
      result, len := Respond(cmd, status, data, response);
    }
  }

  /** The port refuses a booted image for its own vectors, never for where it lies. */
  lemma RefusedOnlyForVectors(f: Flash, fates: Fates)
    requires Boot(f, fates).result.JumpTo?
    ensures var b := Boot(f, fates);
            && b.result.slot < SLOT_COUNT
            && FLASH_BASE <= b.result.address && b.result.address + 8 <= FLASH_BASE + FLASH_SIZE
            && (JumpAccepted(b.flash, b.result.address) <==> VectorsPlausible(b.flash, b.result.address, b.result.slot))
  {
    hide Boot, VectorsPlausible, SlotOk, SlotHeader;
    BootNeverGivesUp(f, fates);
    OneSlot(Boot(f, fates).result.address, Boot(f, fates).result.slot);
  }

  /** The outcome of encoding a response into a buffer. */
  ghost predicate Responded(
    cmd: byte, payload: seq<byte>, response: array<byte>, before: seq<byte>, result: Status, len: nat)
    requires |payload| <= 21
    reads response
  {
    if |payload| + OVERHEAD <= response.Length then
      && result == Ok && len == |payload| + OVERHEAD && |before| == response.Length
      && response[..] == Wire(cmd, payload) + before[len..]
    else
      result == ErrUnknown && response[..] == before
  }
}
