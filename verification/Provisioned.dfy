/** A concrete device that meets the premises of the run-level results. */
module Provisioned {
  import opened Bytes
  import Crc32
  import opened Optional
  import opened Flash
  import opened Meta
  import opened Image
  import opened Core
  import opened Safety
  import opened Trial

  /** The same image in both slots. */
  function BothInstalled(image: seq<byte>): Flash
    requires HostValidate(image, Some(SLOT_SIZE)).Some?
  {
    var slot := Installed(image, SLOT_SIZE);
    Program(Program(FactoryFlash(), SlotAt(0), slot, Done), SlotAt(1), slot, Done)
  }

  lemma BothInstalledOk(image: seq<byte>)
    requires HostValidate(image, Some(SLOT_SIZE)).Some?
    ensures BothOk(BothInstalled(image))
    ensures SlotBytes(BothInstalled(image), 0) == SlotBytes(BothInstalled(image), 1)
    ensures forall i :: 0 <= i < META_COUNT ==> MetaBytes(BothInstalled(image), i) == Fill(RECORD, ERASED)
  {
    hide Program, HostValidate, Installed, Validate, DecodeHeader;
    var slot := Installed(image, SLOT_SIZE);
    var one := Program(FactoryFlash(), SlotAt(0), slot, Done);
    var two := Program(one, SlotAt(1), slot, Done);
    ProgramDone(FactoryFlash(), SlotAt(0), slot, Done);
    ProgramDone(one, SlotAt(1), slot, Done);
    ProgramFrame(FactoryFlash(), SlotAt(0), slot, Done);
    ProgramFrame(one, SlotAt(1), slot, Done);
    SlotChangeFrame(FactoryFlash(), one, 0, SlotAt(0), SLOT_SIZE);
    SlotChangeFrame(one, two, 1, SlotAt(1), SLOT_SIZE);
    InstalledBootable(image, SLOT_SIZE);
  }

  /** The same with the first slot nominated on a fresh trial, at any point of the device's life. */
  lemma DeviceAt(image: seq<byte>, sequence: nat) returns (d: Device)
    requires HostValidate(image, Some(SLOT_SIZE)).Some? && sequence <= LAST_SEQ
    ensures d.session == IDLE && Startable(d.flash) && BothOk(d.flash) && OnTrial(d.flash, 0, sequence, 0)
  {
    hide BothInstalled, HostValidate, SlotOk, SlotHeader, RecordBytes, Program, Parse;
    var f, record := BothInstalled(image), Record(sequence, 0, TRIAL, 0);
    BothInstalledOk(image);
    BlankRecord(MetaBytes(f, 1));
    var g := Program(f, MetaAt(0), RecordBytes(record), Done);
    ProgramDone(f, MetaAt(0), RecordBytes(record), Done);
    ProgramFrame(f, MetaAt(0), RecordBytes(record), Done);
    ParseRecord(record);
    MetaChangeFrame(f, g, 0);
    SameVerdicts(f, g);
    d := DeviceData(g, IDLE);
  }

  lemma BlankRecord(s: seq<byte>)
    requires s == Fill(RECORD, ERASED)
    ensures Parse(s) == None
  {
    hide Crc32.CrcBytes;
    assert s[4] == ERASED;
  }

  /** Nominated on trial: both slots validate, the first is on a fresh trial, the second a fallback. */
  lemma DeviceOnTrial(image: seq<byte>, fates: Fates) returns (d: Device)
    requires HostValidate(image, Some(SLOT_SIZE)).Some? && fates.erase.Done? && fates.write.Done?
    ensures d.session == IDLE && Startable(d.flash) && BothOk(d.flash) && OnTrial(d.flash, 0, 1, 0)
  {
    hide Commit, Read, BothInstalled, HostValidate, SlotOk, SlotHeader;
    var f := BothInstalled(image);
    BothInstalledOk(image);
    BlankMeta(f);
    NextSeqOfCell(f);
    CommitAtomic(f, 0, TRIAL, 0, fates);
    CommitSlots(f, 0, TRIAL, 0, fates);
    var g := Commit(f, 0, TRIAL, 0, fates).flash;
    SameVerdicts(f, g);
    d := DeviceData(g, IDLE);
  }

  lemma BlankMeta(f: Flash)
    requires forall i :: 0 <= i < META_COUNT ==> MetaBytes(f, i) == Fill(RECORD, ERASED)
    ensures Read(f) == None
  {
    hide Parse, MetaBytes;
    BlankRecord(MetaBytes(f, 0));
    BlankRecord(MetaBytes(f, 1));
  }

  /** A device near the end of its sequence numbers, whose trial is not bounded. */
  lemma WornDeviceUnbounded() returns (d: Device)
    ensures BothOk(d.flash) && OnTrial(d.flash, 0, LAST_SEQ - MAX_ATTEMPTS, 0) && !TrialBounded(d, 0)
  {
    hide Read, SlotOk, HostValidate, BuildImage, TrialBounded;
    BuiltImageAccepted([0], 1, SLOT_SIZE);
    d := DeviceAt(BuildImage([0], 1), LAST_SEQ - MAX_ATTEMPTS);
    TrialBoundIff(d, 0, LAST_SEQ - MAX_ATTEMPTS);
  }

  /** The premises are met outright: an image built from one byte serves. */
  lemma PremisesMet(fates: Fates) returns (d: Device)
    requires fates.erase.Done? && fates.write.Done?
    ensures d.session == IDLE && Startable(d.flash) && BothOk(d.flash) && OnTrial(d.flash, 0, 1, 0)
    ensures 1 + MAX_ATTEMPTS < LAST_SEQ
  {
    hide Read, SlotOk, HostValidate, BuildImage;
    BuiltImageAccepted([0], 1, SLOT_SIZE);
    d := DeviceOnTrial(BuildImage([0], 1), fates);
  }
}
