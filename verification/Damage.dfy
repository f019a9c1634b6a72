/**
 Damage the checksums are certain to catch: any change confined to four consecutive bytes of
 what one of them covers, or of the checksum itself. A damaged image is not booted and a damaged record is not believed.
 */
module Damage {
  import opened Bytes
  import opened Crc32
  import opened Optional
  import opened Flash
  import opened Status
  import opened Meta
  import opened Image
  import opened Core
  import opened Safety

  /** A burst in the payload of a bootable image is reported as a payload checksum failure. */
  lemma PayloadBurstRejected(slot: seq<byte>, damaged: seq<byte>)
    requires Image.Bootable(slot)
    requires var h := DecodeHeader(slot);
             Burst(slot, damaged, h.entryOffset, h.entryOffset + h.imgSize)
    ensures |damaged| >= HDR_SIZE && Validate(damaged) == ErrImageCrc
  {
    hide CrcBytes, DecodeHeader, Burst;
    var h := DecodeHeader(slot);
    BurstChangesCrc(slot, damaged, h.entryOffset, h.entryOffset + h.imgSize);
    var e := h.entryOffset;
    assert slot[..HDR_SIZE] == slot[..e][..HDR_SIZE] == damaged[..e][..HDR_SIZE] == damaged[..HDR_SIZE];
    assert slot[..36] == slot[..HDR_SIZE][..36] == damaged[..HDR_SIZE][..36] == damaged[..36];
    HeaderPrefix(slot, damaged);
  }

  /** A burst anywhere in a header, its own checksum included, is rejected as well. */
  lemma HeaderBurstRejected(slot: seq<byte>, damaged: seq<byte>)
    requires Image.Bootable(slot) && Burst(slot, damaged, 0, HDR_SIZE)
    ensures |damaged| >= HDR_SIZE && Validate(damaged) in {ErrMagic, ErrHdrVersion, ErrHdrCrc}
  {
    hide CrcBytes, Burst, Bytes.GetU16, Bytes.GetU32;
    HeaderIntact(slot);
    BurstBreaksIntact(slot, damaged, 0, HDR_SIZE);
    HeaderIntact(damaged);
  }

  lemma HeaderIntact(slot: seq<byte>)
    requires |slot| >= HDR_SIZE
    ensures Intact(slot[0..HDR_SIZE]) <==> slot[36..40] == CrcBytes(slot[..36])
  {
    hide CrcBytes;
    assert slot[0..HDR_SIZE][36..] == slot[36..40] && slot[0..HDR_SIZE][..36] == slot[..36];
  }

  /** A burst anywhere in a valid record makes it read as absent. */
  lemma RecordBurstAbsent(s: seq<byte>, t: seq<byte>)
    requires |s| == RECORD && Parse(s).Some? && Burst(s, t, 0, RECORD)
    ensures |t| == RECORD && Parse(t) == None
  {
    hide CrcBytes, Burst, Bytes.GetU32;
    assert s[0..RECORD] == s;
    BurstBreaksIntact(s, t, 0, RECORD);
    assert t[0..RECORD] == t;
  }

  /**
   A device with one damaged image stays bootable: after a burst in the payload of the nominated
   slot, with metadata and the other slot intact, the other slot is selected.
   */
  lemma DamagedSlotFallsBack(f: Flash, g: Flash)
    requires Startable(f) && SlotOk(f, Other(Read(f).value.slot))
    requires Read(g) == Read(f)
    requires var s := Read(f).value.slot;
             && SlotBytes(g, Other(s)) == SlotBytes(f, Other(s))
             && Burst(SlotBytes(f, s), SlotBytes(g, s), SlotHeader(f, s).entryOffset,
                      SlotHeader(f, s).entryOffset + SlotHeader(f, s).imgSize)
    ensures Select(g) == Some(Other(Read(f).value.slot))
  {
    hide Read, Validate, DecodeHeader, SlotBytes, Burst;
    var s := Read(f).value.slot;
    ValidateIffBootable(SlotBytes(f, s));
    PayloadBurstRejected(SlotBytes(f, s), SlotBytes(g, s));
  }

  /** After a burst in the newest record, the previous one is authoritative again. */
  lemma DamagedRecordFallsBack(f: Flash, g: Flash)
    requires Newest(f).Some?
    requires var i := Newest(f).value.index;
             && MetaBytes(g, Other(i)) == MetaBytes(f, Other(i))
             && Burst(MetaBytes(f, i), MetaBytes(g, i), 0, RECORD)
    ensures Read(g) == Parse(MetaBytes(f, Other(Newest(f).value.index)))
  {
    hide Parse, MetaBytes, Burst;
    var i := Newest(f).value.index;
    RecordBurstAbsent(MetaBytes(f, i), MetaBytes(g, i));
  }
}
