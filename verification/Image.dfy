/**
 The firmware image: its header, the device's validation of a slot, the host's validation of an
 image file, and the tool that builds image files.
 */
module Image {
  import opened Bytes
  import opened Crc32
  import opened Optional
  import opened Status

  /** ASCII "BLIM", little-endian. */
  const MAGIC: nat := 0x4D49_4C42
  const HDR_VERSION: nat := 1
  const HDR_SIZE: nat := 40
  const HDR_REGION: nat := 512
  const GRANULARITY: nat := 8

  datatype Header = Header(
    magic: nat, version: nat, flags: nat, imgSize: nat, imgCrc: seq<byte>,
    fwVersion: nat, entryOffset: nat, reserved: seq<byte>, hdrCrc: seq<byte>)

  function DecodeHeader(s: seq<byte>): (h: Header)
    requires |s| >= HDR_SIZE
    ensures h.imgSize < U32_LIMIT && h.entryOffset < U32_LIMIT && h.fwVersion < U32_LIMIT && |h.imgCrc| == 4
  {
    Header(GetU32(s[0..4]), GetU16(s[4..6]), GetU16(s[6..8]), GetU32(s[8..12]), s[12..16],
           GetU32(s[16..20]), GetU32(s[20..24]), s[24..36], s[36..40])
  }

  // ------------------------------------------------------- device validation

  /** What a slot must hold to be booted. */
  predicate Bootable(slot: seq<byte>) {
    && |slot| >= HDR_SIZE
    && var h := DecodeHeader(slot);
    && h.magic == MAGIC && h.version == HDR_VERSION
    && h.hdrCrc == CrcBytes(slot[..36])
    && HDR_SIZE <= h.entryOffset && h.entryOffset % HDR_REGION == 0
    && 0 < h.imgSize && h.entryOffset + h.imgSize <= |slot|
    && h.imgCrc == CrcBytes(slot[h.entryOffset..h.entryOffset + h.imgSize])
  }

  /** `bl_core_validate_slot` on the contents of a slot: the first check that fails. */
  function Validate(slot: seq<byte>): Status
    requires |slot| >= HDR_SIZE
  {
    var h := DecodeHeader(slot);
    if h.magic != MAGIC then ErrMagic
    else if h.version != HDR_VERSION then ErrHdrVersion
    else if h.hdrCrc != CrcBytes(slot[..36]) then ErrHdrCrc
    else if h.entryOffset < HDR_SIZE then ErrEntryOffset
    else if h.entryOffset % HDR_REGION != 0 then ErrEntryOffset
    else if h.entryOffset >= |slot| then ErrEntryOffset
    else if h.imgSize == 0 then ErrImageSize
    else if h.imgSize > |slot| - h.entryOffset then ErrImageSize
    else if h.imgCrc != CrcBytes(slot[h.entryOffset..h.entryOffset + h.imgSize]) then ErrImageCrc
    else Ok
  }

  lemma ValidateIffBootable(slot: seq<byte>)
    requires |slot| >= HDR_SIZE
    ensures Validate(slot) == Ok <==> Bootable(slot)
    ensures Bootable(slot) ==> HDR_REGION <= DecodeHeader(slot).entryOffset < |slot|
  {
    hide CrcBytes, DecodeHeader;
  }

  /** Where each header field lies. */
  lemma HeaderLayout(s: seq<byte>)
    requires |s| >= HDR_SIZE
    ensures var h := DecodeHeader(s);
            && h.magic == Field32(s, 0) && h.version == Field16(s, 4) && h.flags == Field16(s, 6)
            && h.imgSize == Field32(s, 8) && h.imgCrc == s[12..16]
            && h.fwVersion == Field32(s, 16) && h.entryOffset == Field32(s, 20)
            && h.reserved == s[24..36] && h.hdrCrc == s[36..40]
  {
    hide Bytes.GetU16, Bytes.GetU32;
    U32Bytes(s[0..4]);
    U16Bytes(s[4..6]);
    U16Bytes(s[6..8]);
    U32Bytes(s[8..12]);
    U32Bytes(s[16..20]);
    U32Bytes(s[20..24]);
  }

  /**
   What each verdict says about the slot. The first four bytes spell "BLIM"; nothing but magic and
   version is looked at before the header checksum.
   */
  lemma ValidateVerdicts(s: seq<byte>)
    requires |s| >= HDR_SIZE
    ensures var magic := s[..4] == [0x42, 0x4C, 0x49, 0x4D];
            var version := s[4] == 1 && s[5] == 0;
            var intact := s[36..40] == CrcBytes(s[..36]);
            var entry, size := Field32(s, 20), Field32(s, 8);
            var placed := 512 <= entry < |s| && entry % 512 == 0;
            var sized := 0 < size && entry + size <= |s|;
            && (Validate(s) == ErrMagic <==> !magic)
            && (Validate(s) == ErrHdrVersion <==> magic && !version)
            && (Validate(s) == ErrHdrCrc <==> magic && version && !intact)
            && (Validate(s) == ErrEntryOffset <==> magic && version && intact && !placed)
            && (Validate(s) == ErrImageSize <==> magic && version && intact && placed && !sized)
            && (Validate(s) == ErrImageCrc <==>
                  magic && version && intact && placed && sized && s[12..16] != CrcBytes(s[entry..entry + size]))
            && (Validate(s) == Ok <==>
                  magic && version && intact && placed && sized && s[12..16] == CrcBytes(s[entry..entry + size]))
  {
    hide CrcBytes, DecodeHeader;
    HeaderLayout(s);
    MagicBytes(s);
  }

  lemma MagicBytes(s: seq<byte>)
    requires |s| >= 6
    ensures Field32(s, 0) == 0x4D49_4C42 <==> s[..4] == [0x42, 0x4C, 0x49, 0x4D]
    ensures Field16(s, 4) == 1 <==> s[4] == 1 && s[5] == 0
  {
  }

  /** A slot whose first word is still erased has no image, whatever else was written to it. */
  lemma BlankHeaderRejected(slot: seq<byte>)
    requires |slot| >= HDR_SIZE && slot[..4] == Fill(4, ERASED)
    ensures Validate(slot) == ErrMagic
  {
    hide CrcBytes;
    assert slot[0..4] == [0xFF, 0xFF, 0xFF, 0xFF];
  }

  // ---------------------------------------------------------- host validation

  /** `blimage.validate`: the header of an acceptable image, or nothing. */
  function HostValidate(image: seq<byte>, slotSize: Option<nat>): (r: Option<Header>)
    ensures r.Some? ==> |image| >= HDR_REGION && r.value == DecodeHeader(image)
  {
    if |image| < HDR_REGION then None
    else
      var h := DecodeHeader(image);
      if h.magic != MAGIC then None
      else if h.version != HDR_VERSION then None
      else if h.hdrCrc != CrcBytes(image[..HDR_SIZE - 4]) then None
      else if h.entryOffset < HDR_SIZE then None
      else if h.entryOffset % HDR_REGION != 0 then None
      else if h.imgSize == 0 then None
      else if h.imgSize % GRANULARITY != 0 then None
      else
        // A Python slice past the end is empty.
        var payload := if h.entryOffset <= |image| then image[h.entryOffset..] else [];
        if |payload| != h.imgSize then None
        else if CrcBytes(payload) != h.imgCrc then None
        else if slotSize.Some? && h.entryOffset + h.imgSize > slotSize.value then None
        else Some(h)
  }

  /**
   The host accepts exactly what the device would validate in a slot the image fills to the last
   byte, if its payload is whole granules and, where the slot size is known, it fits.
   */
  lemma HostAcceptsIff(image: seq<byte>, slotSize: Option<nat>)
    ensures HostValidate(image, slotSize).Some? <==>
              && |image| >= HDR_SIZE && Validate(image) == Ok
              && DecodeHeader(image).entryOffset + DecodeHeader(image).imgSize == |image|
              && DecodeHeader(image).imgSize % 8 == 0
              && (slotSize.Some? ==> |image| <= slotSize.value)
  {
    hide CrcBytes, DecodeHeader;
    if |image| >= HDR_SIZE {
      var h := DecodeHeader(image);
      assert h.entryOffset + h.imgSize == |image| ==>
          image[h.entryOffset..h.entryOffset + h.imgSize] == image[h.entryOffset..];
    }
  }

  /** What an accepted image looks like. */
  lemma HostValidateFacts(image: seq<byte>, slotSize: nat)
    requires HostValidate(image, Some(slotSize)).Some?
    ensures var h := DecodeHeader(image);
            && HDR_REGION <= h.entryOffset && h.entryOffset % HDR_REGION == 0
            && h.entryOffset + h.imgSize == |image| <= slotSize
            && 0 < h.imgSize && h.imgSize % GRANULARITY == 0
  {
    hide CrcBytes, DecodeHeader;
  }

  /** The slot after the host has written an image into it: header, gap, payload, remainder. */
  function Installed(image: seq<byte>, slotSize: nat): (s: seq<byte>)
    requires HostValidate(image, Some(slotSize)).Some?
    ensures |s| == slotSize
  {
    HostValidateFacts(image, slotSize);
    var entry := DecodeHeader(image).entryOffset;
    image[..HDR_SIZE] + Fill(entry - HDR_SIZE, ERASED) + image[entry..] + Fill(slotSize - |image|, ERASED)
  }

  /** Every image the host accepts for a slot is accepted by the device once stored there. */
  lemma InstalledBootable(image: seq<byte>, slotSize: nat)
    requires HostValidate(image, Some(slotSize)).Some?
    ensures Validate(Installed(image, slotSize)) == Ok
    ensures DecodeHeader(Installed(image, slotSize)) == DecodeHeader(image)
  {
    hide CrcBytes, Bytes.GetU16, Bytes.GetU32;
    HostValidateFacts(image, slotSize);
    var s := Installed(image, slotSize);
    var h := DecodeHeader(image);
    assert s[..HDR_SIZE] == image[..HDR_SIZE];
    HeaderPrefix(s, image);
    assert s[..36] == s[..HDR_SIZE][..36] == image[..HDR_SIZE][..36] == image[..36];
    assert s[h.entryOffset..h.entryOffset + h.imgSize] == image[h.entryOffset..];
  }

  lemma HeaderPrefix(s: seq<byte>, t: seq<byte>)
    requires |s| >= HDR_SIZE && |t| >= HDR_SIZE && s[..HDR_SIZE] == t[..HDR_SIZE]
    ensures DecodeHeader(s) == DecodeHeader(t)
  {
    hide Bytes.GetU16, Bytes.GetU32;
    var p, q := s[..HDR_SIZE], t[..HDR_SIZE];
    assert s[0..4] == p[0..4] == q[0..4] == t[0..4];
    assert s[4..6] == p[4..6] == q[4..6] == t[4..6];
    assert s[6..8] == p[6..8] == q[6..8] == t[6..8];
    assert s[8..12] == p[8..12] == q[8..12] == t[8..12];
    assert s[12..16] == p[12..16] == q[12..16] == t[12..16];
    assert s[16..20] == p[16..20] == q[16..20] == t[16..20];
    assert s[20..24] == p[20..24] == q[20..24] == t[20..24];
    assert s[24..36] == p[24..36] == q[24..36] == t[24..36];
    assert s[36..40] == p[36..40] == q[36..40] == t[36..40];
  }

  // ------------------------------------------------------------ building images

  /** `pad_payload`: extend the data in place to a whole number of write granules. */
  method PadPayload(data: seq<byte>) returns (padded: seq<byte>)
    ensures padded == Padded(data)
  {
    padded := data;
    var remainder := |data| % GRANULARITY;
    if remainder != 0 {
      padded := padded + Fill(GRANULARITY - remainder, ERASED);
    }
  }

  /** The shortest extension of `data` by erased bytes that fills whole granules. */
  function Padded(data: seq<byte>): (s: seq<byte>)
    ensures data <= s && |s| % GRANULARITY == 0 && |s| < |data| + GRANULARITY
    ensures forall i :: |data| <= i < |s| ==> s[i] == ERASED
  {
    data + Fill((GRANULARITY - |data| % GRANULARITY) % GRANULARITY, ERASED)
  }

  function HeaderFields(imgSize: nat, imgCrc: seq<byte>, fwVersion: nat, entryOffset: nat): (s: seq<byte>)
    requires imgSize < U32_LIMIT && fwVersion < U32_LIMIT && entryOffset < U32_LIMIT && |imgCrc| == 4
    ensures |s| == 36
  {
    PutU32(MAGIC) + PutU16(HDR_VERSION) + PutU16(0) + PutU32(imgSize) + imgCrc + PutU32(fwVersion) +
    PutU32(entryOffset) + Fill(12, 0)
  }

  function BuildHeader(imgSize: nat, imgCrc: seq<byte>, fwVersion: nat, entryOffset: nat): (s: seq<byte>)
    requires imgSize < U32_LIMIT && fwVersion < U32_LIMIT && entryOffset < U32_LIMIT && |imgCrc| == 4
    ensures |s| == HDR_SIZE
  {
    var head := HeaderFields(imgSize, imgCrc, fwVersion, entryOffset);
    head + CrcBytes(head)
  }

  /** Building and decoding a header are inverse. */
  lemma HeaderRoundTrip(imgSize: nat, imgCrc: seq<byte>, fwVersion: nat, entryOffset: nat, rest: seq<byte>)
    requires imgSize < U32_LIMIT && fwVersion < U32_LIMIT && entryOffset < U32_LIMIT && |imgCrc| == 4
    ensures var s := BuildHeader(imgSize, imgCrc, fwVersion, entryOffset) + rest;
            && DecodeHeader(s) ==
                 Header(MAGIC, HDR_VERSION, 0, imgSize, imgCrc, fwVersion, entryOffset, Fill(12, 0), CrcBytes(s[..36]))
  {
    hide CrcBytes, Bytes.GetU16, Bytes.GetU32, Bytes.PutU16, Bytes.PutU32;
    var head := HeaderFields(imgSize, imgCrc, fwVersion, entryOffset);
    var s := BuildHeader(imgSize, imgCrc, fwVersion, entryOffset) + rest;
    assert s[..36] == head;
    assert s[0..4] == PutU32(MAGIC) && s[4..6] == PutU16(HDR_VERSION) && s[6..8] == PutU16(0);
    assert s[8..12] == PutU32(imgSize) && s[12..16] == imgCrc;
    assert s[16..20] == PutU32(fwVersion) && s[20..24] == PutU32(entryOffset);
    assert s[24..36] == Fill(12, 0) && s[36..40] == CrcBytes(head);
    U32RoundTrip(MAGIC);
    U16RoundTrip(HDR_VERSION);
    U16RoundTrip(0);
    U32RoundTrip(imgSize);
    U32RoundTrip(fwVersion);
    U32RoundTrip(entryOffset);
  }

  /** The image file `mkimage` writes for a raw binary. */
  function BuildImage(data: seq<byte>, fwVersion: nat): (s: seq<byte>)
    requires |Padded(data)| < U32_LIMIT && fwVersion < U32_LIMIT
    ensures |s| == HDR_REGION + |Padded(data)|
  {
    var payload := Padded(data);
    var header := BuildHeader(|payload|, CrcBytes(payload), fwVersion, HDR_REGION);
    header + Fill(HDR_REGION - |header|, ERASED) + payload
  }

  /** Every non-empty input that fits the slot yields an image the host accepts for that slot. */
  lemma BuiltImageAccepted(data: seq<byte>, fwVersion: nat, slotSize: nat)
    requires data != [] && fwVersion < U32_LIMIT
    requires HDR_REGION + |Padded(data)| <= slotSize <= U32_LIMIT
    ensures var image := BuildImage(data, fwVersion);
            && HostValidate(image, Some(slotSize)).Some?
            && DecodeHeader(image).fwVersion == fwVersion
            && image[HDR_SIZE..HDR_REGION] == Fill(HDR_REGION - HDR_SIZE, ERASED)
            && image[HDR_REGION..] == Padded(data)
  {
    hide CrcBytes, DecodeHeader, BuildHeader;
    var payload := Padded(data);
    var image := BuildImage(data, fwVersion);
    var gap := Fill(HDR_REGION - HDR_SIZE, ERASED);
    assert image == BuildHeader(|payload|, CrcBytes(payload), fwVersion, HDR_REGION) + (gap + payload);
    HeaderRoundTrip(|payload|, CrcBytes(payload), fwVersion, HDR_REGION, gap + payload);
    assert image[HDR_REGION..] == payload;
  }

  /** From raw binary to a slot the device boots: build, accept, install, validate. */
  lemma PipelineAgrees(data: seq<byte>, fwVersion: nat, slotSize: nat)
    requires data != [] && fwVersion < U32_LIMIT
    requires HDR_REGION + |Padded(data)| <= slotSize <= U32_LIMIT
    ensures HostValidate(BuildImage(data, fwVersion), Some(slotSize)).Some?
    ensures var slot := Installed(BuildImage(data, fwVersion), slotSize);
            && Validate(slot) == Ok && DecodeHeader(slot).fwVersion == fwVersion
            && data <= slot[HDR_REGION..]
  {
    hide CrcBytes, DecodeHeader, BuildImage, HostValidate;
    var image := BuildImage(data, fwVersion);
    BuiltImageAccepted(data, fwVersion, slotSize);
    InstalledBootable(image, slotSize);
    HostValidateFacts(image, slotSize);
    BuiltEntry(data, fwVersion);
    assert Installed(image, slotSize)[HDR_REGION..] == image[HDR_REGION..] + Fill(slotSize - |image|, ERASED);
  }

  lemma BuiltEntry(data: seq<byte>, fwVersion: nat)
    requires |Padded(data)| < U32_LIMIT && fwVersion < U32_LIMIT
    ensures DecodeHeader(BuildImage(data, fwVersion)).entryOffset == HDR_REGION
  {
    hide CrcBytes, DecodeHeader, BuildHeader;
    var payload := Padded(data);
    var gap := Fill(HDR_REGION - HDR_SIZE, ERASED);
    HeaderRoundTrip(|payload|, CrcBytes(payload), fwVersion, HDR_REGION, gap + payload);
    assert BuildImage(data, fwVersion) ==
           BuildHeader(|payload|, CrcBytes(payload), fwVersion, HDR_REGION) + (gap + payload);
  }
}
