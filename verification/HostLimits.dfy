/**
 Where the host's tool does not do what it sets out to do, each at an input: it overwrites the
 slot that would boot, and it reports a write that never took place.
 */
module HostLimits {
  import opened Bytes
  import opened Crc32
  import opened Optional
  import opened Flash
  import opened Status
  import opened Meta
  import opened Image
  import opened Core
  import opened Safety
  import opened Trial
  import opened Programming
  import opened Provisioned
  import opened Damage
  import opened Link
  import opened HostTool

  // ------------------------------------------------------------- target choice

  /** The same image in both slots and no metadata: the slot that would boot is the target. */
  lemma TieTargetsBootSlot(image: seq<byte>)
    requires HostValidate(image, Some(SLOT_SIZE)).Some?
    ensures var f := BothInstalled(image); Select(f) == Some(TargetOf(f))
  {
    hide BothInstalled, HostValidate, Read, Validate, DecodeHeader, SlotBytes, Select, TargetOf;
    var f := BothInstalled(image);
    BothInstalledOk(image);
    BlankMeta(f);
    TargetPreservesBootSlotIff(f);
  }

  /** Flash with one byte read differently. */
  function Flipped(f: Flash, at: nat): Flash
    requires at < FLASH_SIZE
  {
    f.(mem := f.mem[at := 255 - f.mem[at]])
  }

  /** The first payload byte of a slot that validates. */
  function EntryAt(f: Flash, slot: nat): (at: nat)
    requires slot < SLOT_COUNT && SlotOk(f, slot)
    ensures SlotAt(slot) <= at < SlotAt(slot) + SLOT_SIZE
  {
    EntryInside(f, slot);
    SlotAt(slot) + SlotHeader(f, slot).entryOffset
  }

  lemma FlippedBurst(f: Flash, slot: nat)
    requires slot < SLOT_COUNT && SlotOk(f, slot)
    ensures var g, h := Flipped(f, EntryAt(f, slot)), SlotHeader(f, slot);
            Burst(SlotBytes(f, slot), SlotBytes(g, slot), h.entryOffset, h.entryOffset + h.imgSize)
  {
    hide Validate, DecodeHeader;
    var at, h := EntryAt(f, slot), SlotHeader(f, slot);
    var s, t := SlotBytes(f, slot), SlotBytes(Flipped(f, at), slot);
    ValidateIffBootable(s);
    var k := h.entryOffset;
    assert s[k] != t[k];
    assert SameAround(s, t, k, 1);
  }

  /**
   One bad byte in the nominated image of a device with two good ones: the other slot is the one
   that would boot, and it is the target.
   */
  lemma DamagedNominationTargetsBootSlot(f: Flash)
    requires Startable(f) && BothOk(f)
    ensures var g := Flipped(f, EntryAt(f, Read(f).value.slot));
            Select(g) == Some(TargetOf(g)) && Read(g) == Read(f)
  {
    hide Read, Validate, SlotHeader, SlotBytes, Burst, Flipped, Select, TargetOf;
    var s := Read(f).value.slot;
    var g := Flipped(f, EntryAt(f, s));
    FlippedBurst(f, s);
    FlippedOutside(f, EntryAt(f, s));
    SlotChangeKeeps(f, g, s, EntryAt(f, s), 1);
    DamagedSlotFallsBack(f, g);
    OtherIsTarget(g);
  }

  lemma FlippedOutside(f: Flash, at: nat)
    requires at < FLASH_SIZE
    ensures SameOutside(f, Flipped(f, at), at, 1)
  {
  }

  lemma OtherIsTarget(f: Flash)
    requires Read(f).Some?
    ensures TargetOf(f) == Other(Read(f).value.slot)
  {
    hide Read, SlotOk, SlotHeader, Validate, SlotBytes;
  }

  // ----------------------------------------------------------- misreported write

  function IdleDevice(): Device {
    DeviceData(FactoryFlash(), IDLE)
  }

  /**
   Eight bytes written at 512 to a device with no slot erased. The response to the first attempt is
   lost, the retry is refused as not erased, and the tool reports success; nothing was written.
   */
  method MisreportedWrite() returns (r: Result<()>, link: Link)
    ensures r.Success? && link.device == IdleDevice()
  {
    hide Bytes.PutU32, Clobbers;
    var script := (i: nat) => if i == 0 then ResponseLost(false, true, true) else Answered(false, true, true);
    link := new Link(IdleDevice(), script);
    var tool := new Bootloader(link, 3);
    ghost var payload := PutU32(512) + Fill(8, 0);
    assert WriteCheck(link.device.session, payload) == ErrNotErased;
    UnreadyClobbersNothing(link.device, payload);
    assert !link.script(0).Answered? && link.script(1).Answered?;
    assert AnsweredWithin(link.script, link.next, tool.retries);
    r := tool.Write(512, Fill(8, 0));
  }
}
