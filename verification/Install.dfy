/**
 The slot while an image is written into it, chunk by chunk and the header last: what the device
 holds after each step, and what is left when it loses power on the way.
 */
module Install {
  import opened Bytes
  import opened Optional
  import opened Flash
  import opened Status
  import opened Image
  import opened Core
  import opened Safety
  import opened Programming
  import opened Retry
  import opened Link

  // ------------------------------------------------------------- one write lands

  /** `s` with `data` at `offset`. */
  function Overlay(s: seq<byte>, offset: nat, data: seq<byte>): seq<byte>
    requires offset + |data| <= |s|
  {
    s[..offset] + data + s[offset + |data|..]
  }

  lemma LandedEffects(d: Device, offset: nat, data: seq<byte>)
    requires offset < U32_LIMIT && WriteCheck(d.session, PutU32(offset) + data) == Ok
    ensures offset + |data| <= SLOT_SIZE
    ensures var slot, after := d.session.target, Landed(d, PutU32(offset) + data);
            && SlotBytes(after.flash, slot) == Overlay(SlotBytes(d.flash, slot), offset, data)
            && SameOutside(d.flash, after.flash, SlotAt(slot) + offset, |data|)
            && after.session == Advanced(d.session, offset, |data|)
  {
    hide Program, WriteCheck, Bytes.PutU32, Bytes.GetU32, SlotBytes, SameOutside, Overlay;
    var payload := PutU32(offset) + data;
    assert payload[..4] == PutU32(offset) && payload[4..] == data;
    U32RoundTrip(offset);
    var at := SlotAt(d.session.target) + offset;
    ProgramDone(d.flash, at, data, Done);
    ProgramFrame(d.flash, at, data, Done);
    OverlaySlot(d.flash, Program(d.flash, at, data, Done), d.session.target, offset, data);
  }

  lemma OverlaySlot(f: Flash, g: Flash, slot: nat, offset: nat, data: seq<byte>)
    requires slot < SLOT_COUNT && offset + |data| <= SLOT_SIZE
    requires SameOutside(f, g, SlotAt(slot) + offset, |data|)
    requires g.mem[SlotAt(slot) + offset..SlotAt(slot) + offset + |data|] == data
    ensures SlotBytes(g, slot) == Overlay(SlotBytes(f, slot), offset, data)
  {
    var s, t := SlotBytes(g, slot), Overlay(SlotBytes(f, slot), offset, data);
    forall i | 0 <= i < SLOT_SIZE
      ensures s[i] == t[i]
    {
      if offset <= i < offset + |data| {
        assert s[i] == g.mem[SlotAt(slot) + offset..SlotAt(slot) + offset + |data|][i - offset] == data[i - offset];
      } else {
        assert s[i] == g.mem[SlotAt(slot) + i] == f.mem[SlotAt(slot) + i] == SlotBytes(f, slot)[i];
      }
    }
  }

  /** The slot while `sent` bytes of the payload have been written. */
  function Partial(image: seq<byte>, sent: nat): (s: seq<byte>)
    requires HostValidate(image, Some(SLOT_SIZE)).Some?
    requires DecodeHeader(image).entryOffset + sent <= |image|
    ensures |s| == SLOT_SIZE
  {
    HostValidateFacts(image, SLOT_SIZE);
    var entry := DecodeHeader(image).entryOffset;
    Fill(entry, ERASED) + image[entry..entry + sent] + Fill(SLOT_SIZE - entry - sent, ERASED)
  }

  /** The state of the device while the host writes the payload: nothing else has been programmed. */
  ghost predicate Writing(d: Device, image: seq<byte>, slot: nat, sent: nat) {
    && slot < SLOT_COUNT
    && HostValidate(image, Some(SLOT_SIZE)).Some?
    && var entry := DecodeHeader(image).entryOffset;
    && HDR_REGION <= entry && entry + sent <= |image| <= SLOT_SIZE
    && d.session.erased && d.session.target == slot && !d.session.headerWritten
    && d.session.highest == (if sent == 0 then 0 else entry + sent)
    && SlotBytes(d.flash, slot) == Partial(image, sent)
    && Blank(d.flash, SlotAt(slot), entry)
    && Blank(d.flash, SlotAt(slot) + entry + sent, SLOT_SIZE - entry - sent)
  }

  lemma WritingStarts(d: Device, image: seq<byte>, slot: nat)
    requires slot < SLOT_COUNT && HostValidate(image, Some(SLOT_SIZE)).Some? && ErasedFor(d, slot)
    ensures Writing(d, image, slot, 0)
  {
    hide HostValidate, DecodeHeader, SlotBytes;
    HostValidateFacts(image, SLOT_SIZE);
    assert Partial(image, 0) == Fill(SLOT_SIZE, ERASED);
  }

  lemma WritingFacts(d: Device, image: seq<byte>, slot: nat, sent: nat)
    requires Writing(d, image, slot, sent)
    ensures slot == d.session.target < SLOT_COUNT
    ensures HDR_SIZE <= |image| <= SLOT_SIZE && HostValidate(image, Some(SLOT_SIZE)).Some?
  {
    hide DecodeHeader;
  }

  predicate NextChunk(image: seq<byte>, sent: nat, chunk: seq<byte>)
    requires |image| >= HDR_SIZE
  {
    var entry := DecodeHeader(image).entryOffset;
    && entry + sent + |chunk| <= |image| && chunk == image[entry + sent..entry + sent + |chunk|]
    && 0 < |chunk| <= MAX_WRITE && sent % UNIT == 0 && |chunk| % UNIT == 0
  }

  lemma ChunkShape(image: seq<byte>, sent: nat, chunkSize: nat, chunk: seq<byte>)
    requires HostValidate(image, Some(SLOT_SIZE)).Some?
    requires DecodeHeader(image).entryOffset + sent < |image| && sent % UNIT == 0
    requires 0 < chunkSize <= MAX_WRITE && chunkSize % UNIT == 0
    requires var payload := image[DecodeHeader(image).entryOffset..];
             chunk == payload[sent..if sent + chunkSize < |payload| then sent + chunkSize else |payload|]
    ensures NextChunk(image, sent, chunk)
    ensures 0 < |chunk| <= MAX_WRITE && (sent + |chunk|) % UNIT == 0
    ensures DecodeHeader(image).entryOffset + sent + |chunk| <= |image|
  {
    hide HostValidate, DecodeHeader;
    HostValidateFacts(image, SLOT_SIZE);
  }

  lemma ChunkReady(d: Device, image: seq<byte>, slot: nat, sent: nat, chunk: seq<byte>)
    requires Writing(d, image, slot, sent) && NextChunk(image, sent, chunk)
    ensures var payload := PutU32(DecodeHeader(image).entryOffset + sent) + chunk;
            WriteCheck(d.session, payload) == Ok && !Clobbers(d, WRITE, payload)
  {
    hide HostValidate, DecodeHeader, SlotBytes, Partial, Bytes.PutU32, Bytes.GetU32, Blank;
    HostValidateFacts(image, SLOT_SIZE);
    var entry := DecodeHeader(image).entryOffset;
    var offset := entry + sent;
    var payload := PutU32(offset) + chunk;
    assert payload[..4] == PutU32(offset);
    U32RoundTrip(offset);
    OffsetAligned(entry, sent);
    BlankWithin(d.flash, SlotAt(slot) + offset, SLOT_SIZE - offset, SlotAt(slot) + offset, |chunk|);
  }

  lemma OffsetAligned(entry: nat, sent: nat)
    requires entry % HDR_REGION == 0 && sent % UNIT == 0
    ensures (entry + sent) % UNIT == 0
  {
  }

  lemma ChunkLanded(d: Device, image: seq<byte>, slot: nat, sent: nat, chunk: seq<byte>)
    requires Writing(d, image, slot, sent) && NextChunk(image, sent, chunk)
    requires WriteCheck(d.session, PutU32(DecodeHeader(image).entryOffset + sent) + chunk) == Ok
    ensures Writing(Landed(d, PutU32(DecodeHeader(image).entryOffset + sent) + chunk), image, slot, sent + |chunk|)
  {
    hide HostValidate, DecodeHeader, SlotBytes, Landed, WriteCheck, Bytes.PutU32, Overlay, Partial;
    HostValidateFacts(image, SLOT_SIZE);
    var entry := DecodeHeader(image).entryOffset;
    LandedEffects(d, entry + sent, chunk);
    ChunkExtends(image, sent, chunk);
  }

  lemma ChunkExtends(image: seq<byte>, sent: nat, chunk: seq<byte>)
    requires HostValidate(image, Some(SLOT_SIZE)).Some? && NextChunk(image, sent, chunk)
    ensures var offset := DecodeHeader(image).entryOffset + sent;
            && offset + |chunk| <= SLOT_SIZE
            && Overlay(Partial(image, sent), offset, chunk) == Partial(image, sent + |chunk|)
  {
    hide HostValidate, DecodeHeader;
    HostValidateFacts(image, SLOT_SIZE);
  }

  lemma HeaderReady(d: Device, image: seq<byte>, slot: nat)
    requires HostValidate(image, Some(SLOT_SIZE)).Some?
    requires Writing(d, image, slot, |image| - DecodeHeader(image).entryOffset)
    ensures var payload := PutU32(0) + image[..HDR_SIZE];
            WriteCheck(d.session, payload) == Ok && !Clobbers(d, WRITE, payload)
  {
    hide HostValidate, DecodeHeader, SlotBytes, Partial, Bytes.PutU32;
    var payload := PutU32(0) + image[..HDR_SIZE];
    assert payload[..4] == PutU32(0);
    U32RoundTrip(0);
  }

  lemma HeaderLanded(d: Device, image: seq<byte>, slot: nat)
    requires HostValidate(image, Some(SLOT_SIZE)).Some?
    requires Writing(d, image, slot, |image| - DecodeHeader(image).entryOffset)
    requires WriteCheck(d.session, PutU32(0) + image[..HDR_SIZE]) == Ok
    ensures SlotBytes(Landed(d, PutU32(0) + image[..HDR_SIZE]).flash, slot) == Installed(image, SLOT_SIZE)
  {
    hide HostValidate, DecodeHeader, SlotBytes, Landed, WriteCheck, Bytes.PutU32;
    HostValidateFacts(image, SLOT_SIZE);
    var entry := DecodeHeader(image).entryOffset;
    LandedEffects(d, 0, image[..HDR_SIZE]);
    assert Overlay(Partial(image, |image| - entry), 0, image[..HDR_SIZE]) == Installed(image, SLOT_SIZE);
  }

  // ------------------------------------------------------------- power lost on the way

  /** The device has lost its session before the slot got a header. */
  predicate Adrift(d: Device, slot: nat) {
    d.session == IDLE && slot < SLOT_COUNT && NoHeader(d.flash, slot)
  }

  /** While the host writes: everything so far has landed, or the session is gone. */
  ghost predicate Sending(d: Device, image: seq<byte>, slot: nat, sent: nat) {
    Writing(d, image, slot, sent) || Adrift(d, slot)
  }

  /** Everything past the header is as the image has it. */
  predicate PayloadStored(f: Flash, image: seq<byte>, slot: nat)
    requires slot < SLOT_COUNT && HostValidate(image, Some(SLOT_SIZE)).Some?
  {
    SlotBytes(f, slot)[HDR_SIZE..] == Installed(image, SLOT_SIZE)[HDR_SIZE..]
  }

  lemma AdriftRefuses(d: Device, slot: nat, payload: seq<byte>)
    requires Adrift(d, slot)
    ensures WriteCheck(d.session, payload) != Ok && !Clobbers(d, WRITE, payload)
  {
    hide WriteCheck;
    NotReadyWhenIdle(payload);
    UnreadyClobbersNothing(d, payload);
  }

  lemma StaysAdrift(d: Device, e: Device, slot: nat)
    requires Adrift(d, slot) && Untouched(d, e)
    ensures Adrift(e, slot) && NoHeader(e.flash, slot) && SameOutside(d.flash, e.flash, SlotAt(slot), SLOT_SIZE)
  {
    hide SameOutside;
    SameOutsideReflexive(d.flash, SlotAt(slot), SLOT_SIZE);
  }

  lemma WritingHasNoHeader(d: Device, image: seq<byte>, slot: nat, sent: nat)
    requires Writing(d, image, slot, sent)
    ensures slot < SLOT_COUNT && NoHeader(d.flash, slot)
  {
    hide HostValidate, DecodeHeader, Blank;
    var s := SlotBytes(d.flash, slot);
    forall i | SlotAt(slot) <= i < SlotAt(slot) + UNIT
      ensures d.flash.mem[i] == ERASED
    {
      assert d.flash.mem[i] == s[i - SlotAt(slot)];
    }
  }

  lemma FrameKeepsNoHeader(f: Flash, g: Flash, slot: nat, at: nat, len: nat)
    requires slot < SLOT_COUNT && SlotAt(slot) + UNIT <= at && SameOutside(f, g, at, len) && NoHeader(f, slot)
    ensures NoHeader(g, slot)
  {
  }

  lemma WiderFrame(f: Flash, g: Flash, at: nat, len: nat, at': nat, len': nat)
    requires SameOutside(f, g, at', len') && at <= at' && at' + len' <= at + len
    ensures SameOutside(f, g, at, len)
  {
  }

  /** What sending one chunk makes of a device that is ready for it, whatever the power does. */
  lemma ChunkSent(d: Device, e: Device, image: seq<byte>, slot: nat, sent: nat, chunk: seq<byte>)
    requires Writing(d, image, slot, sent) && NextChunk(image, sent, chunk)
    requires WriteCheck(d.session, PutU32(DecodeHeader(image).entryOffset + sent) + chunk) == Ok
    requires var offset := DecodeHeader(image).entryOffset + sent;
             SameOutside(d.flash, e.flash, SlotAt(slot) + offset, |chunk|)
    ensures SameOutside(d.flash, e.flash, SlotAt(slot), SLOT_SIZE)
    ensures e.session == IDLE ==> Adrift(e, slot)
    ensures e == Landed(d, PutU32(DecodeHeader(image).entryOffset + sent) + chunk) ==>
              Writing(e, image, slot, sent + |chunk|)
  {
    hide HostValidate, DecodeHeader, SlotBytes, Landed, WriteCheck, Partial, Blank, SameOutside, NoHeader, Bytes.PutU32;
    HostValidateFacts(image, SLOT_SIZE);
    var offset := DecodeHeader(image).entryOffset + sent;
    WiderFrame(d.flash, e.flash, SlotAt(slot), SLOT_SIZE, SlotAt(slot) + offset, |chunk|);
    WritingHasNoHeader(d, image, slot, sent);
    FrameKeepsNoHeader(d.flash, e.flash, slot, SlotAt(slot) + offset, |chunk|);
    ChunkLanded(d, image, slot, sent, chunk);
  }

  /** What sending the header makes of a device that holds the whole payload. */
  lemma HeaderSent(d: Device, e: Device, image: seq<byte>, slot: nat)
    requires HostValidate(image, Some(SLOT_SIZE)).Some?
    requires Writing(d, image, slot, |image| - DecodeHeader(image).entryOffset)
    requires WriteCheck(d.session, PutU32(0) + image[..HDR_SIZE]) == Ok
    requires SameOutside(d.flash, e.flash, SlotAt(slot), HDR_SIZE)
    ensures SameOutside(d.flash, e.flash, SlotAt(slot), SLOT_SIZE)
    ensures PayloadStored(e.flash, image, slot)
    ensures e == Landed(d, PutU32(0) + image[..HDR_SIZE]) ==>
              SlotBytes(e.flash, slot) == Installed(image, SLOT_SIZE)
  {
    hide HostValidate, DecodeHeader, SlotBytes, Landed, WriteCheck, Blank, SameOutside, Bytes.PutU32;
    HostValidateFacts(image, SLOT_SIZE);
    var entry := DecodeHeader(image).entryOffset;
    WiderFrame(d.flash, e.flash, SlotAt(slot), SLOT_SIZE, SlotAt(slot), HDR_SIZE);
    PastHeader(d.flash, e.flash, slot);
    WholePayload(image);
    HeaderLanded(d, image, slot);
  }

  /** With the whole payload written only the header is missing. */
  lemma WholePayload(image: seq<byte>)
    requires HostValidate(image, Some(SLOT_SIZE)).Some?
    ensures var sent := |image| - DecodeHeader(image).entryOffset;
            && sent >= 0
            && Partial(image, sent)[HDR_SIZE..] == Installed(image, SLOT_SIZE)[HDR_SIZE..]
  {
    hide HostValidate, DecodeHeader;
    HostValidateFacts(image, SLOT_SIZE);
    var entry := DecodeHeader(image).entryOffset;
    var s, t := Partial(image, |image| - entry), Installed(image, SLOT_SIZE);
    forall i | HDR_SIZE <= i < SLOT_SIZE
      ensures s[i] == t[i]
    {
    }
    assert forall i :: 0 <= i < SLOT_SIZE - HDR_SIZE ==> s[HDR_SIZE..][i] == s[HDR_SIZE + i] == t[HDR_SIZE..][i];
  }

  lemma PastHeader(f: Flash, g: Flash, slot: nat)
    requires slot < SLOT_COUNT && SameOutside(f, g, SlotAt(slot), HDR_SIZE)
    ensures SlotBytes(g, slot)[HDR_SIZE..] == SlotBytes(f, slot)[HDR_SIZE..]
  {
  }
}
