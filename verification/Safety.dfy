/**
 What every run of the device keeps: a nominated valid image stays bootable, a slot without a
 committed header stays rejected, and booting never gives up while something is bootable.
 */
module Safety {
  import opened Bytes
  import opened Crc32
  import opened Optional
  import opened Flash
  import opened Status
  import opened Meta
  import opened Image
  import opened Core

  // ------------------------------------------------------------ boot decisions

  /** Trial bookkeeping never alters a slot, whatever becomes of its commit. */
  lemma AdvanceSlots(f: Flash, fates: Fates)
    ensures forall s :: 0 <= s < SLOT_COUNT ==> SlotBytes(Advance(f, fates).flash, s) == SlotBytes(f, s)
  {
    hide Commit, Read, SlotOk;
    match Read(f)
    case None =>
    case Some(m) =>
      if m.attempts < MAX_ATTEMPTS {
        CommitSlots(f, m.slot, TRIAL, m.attempts + 1, fates);
      }
      CommitSlots(f, Other(m.slot), CONFIRMED, 0, fates);
  }

  lemma SelectIffBootable(f: Flash)
    ensures Select(f).Some? <==> SlotOk(f, 0) || SlotOk(f, 1)
  {
    hide Read, SlotOk, SlotHeader;
  }

  /**
   Booting never gives up while something is bootable: whatever the metadata holds and whether
   or not its commit succeeds, a completed boot jumps exactly when some slot validates, to the
   entry point of a validated slot, aligned and inside it; and no slot byte changes.
   */
  lemma BootNeverGivesUp(f: Flash, fates: Fates)
    ensures var b := Boot(f, fates);
            && (!b.result.PowerLost? ==> (b.result.JumpTo? <==> SlotOk(f, 0) || SlotOk(f, 1)))
            && (forall s :: 0 <= s < SLOT_COUNT ==> SlotBytes(b.flash, s) == SlotBytes(f, s))
            && (b.result.JumpTo? ==>
                  && b.result.slot < SLOT_COUNT && SlotOk(f, b.result.slot)
                  && var base := FLASH_BASE + SlotAt(b.result.slot);
                  && b.result.address == base + SlotHeader(f, b.result.slot).entryOffset
                  && base + HDR_REGION <= b.result.address < base + SLOT_SIZE
                  && b.result.address % HDR_REGION == 0)
  {
    hide Advance, Select, SlotOk, SlotHeader, SlotBytes;
    var g := Advance(f, fates).flash;
    AdvanceSlots(f, fates);
    SelectIffBootable(g);
    SameVerdicts(f, g);
    match Select(g)
    case None =>
    case Some(s) =>
      EntryInside(f, s);
  }

  /**
   Which slot a completed boot starts: the one nominated by the metadata it leaves behind, if that
   validates, else the other; without metadata the one that validates, and of two the second exactly
   when its version is the greater.
   */
  lemma BootStartsSelected(f: Flash, fates: Fates)
    requires Boot(f, fates).result.JumpTo?
    ensures var g, slot := Boot(f, fates).flash, Boot(f, fates).result.slot;
            && slot < SLOT_COUNT
            && match Read(g)
               case Some(m) => slot == (if SlotOk(f, m.slot) then m.slot else Other(m.slot))
               case None =>
                 && (!SlotOk(f, 0) ==> slot == 1) && (!SlotOk(f, 1) ==> slot == 0)
                 && (SlotOk(f, 0) && SlotOk(f, 1) ==>
                       (slot == 1 <==> SlotHeader(f, 1).fwVersion > SlotHeader(f, 0).fwVersion))
  {
    hide Advance, Read, SlotOk, SlotHeader, SlotBytes;
    AdvanceSlots(f, fates);
    SameVerdicts(f, Advance(f, fates).flash);
  }

  lemma SameVerdicts(f: Flash, g: Flash)
    requires forall s :: 0 <= s < SLOT_COUNT ==> SlotBytes(g, s) == SlotBytes(f, s)
    ensures forall s :: 0 <= s < SLOT_COUNT ==> SlotOk(g, s) == SlotOk(f, s) && SlotHeader(g, s) == SlotHeader(f, s)
  {
    hide Validate, DecodeHeader, SlotBytes;
  }

  lemma EntryInside(f: Flash, s: nat)
    requires s < SLOT_COUNT && SlotOk(f, s)
    ensures var base := FLASH_BASE + SlotAt(s);
            var address := base + SlotHeader(f, s).entryOffset;
            base + HDR_REGION <= address < base + SLOT_SIZE && address % HDR_REGION == 0
  {
    hide CrcBytes, DecodeHeader, SlotBytes;
  }

  // -------------------------------------------------------------- never bricked

  /** Metadata nominates a slot and that slot validates. */
  predicate Startable(f: Flash) {
    Read(f).Some? && SlotOk(f, Read(f).value.slot)
  }

  /** An erase or write that reaches flash does not concern the nominated slot. */
  predicate Confined(d: Device, e: Event)
    requires Read(d.flash).Some?
  {
    match e
    case Request(cmd, payload, _) =>
      && (cmd == ERASE_SLOT && |payload| == 1 ==> payload[0] != Read(d.flash).value.slot)
      && (cmd == WRITE && WriteCheck(d.session, payload) == Ok ==> d.session.target != Read(d.flash).value.slot)
    case _ => true
  }

  ghost predicate ConfinedRun(d: Device, events: seq<Event>) {
    events == [] ||
    (var n := |events| - 1;
     && ConfinedRun(d, events[..n])
     && Read(Run(d, events[..n]).flash).Some?
     && Confined(Run(d, events[..n]), events[n]))
  }

  /** A commit nominating a valid slot keeps the device bootable at every cut point. */
  lemma CommitKeepsStartable(f: Flash, slot: nat, state: byte, attempts: byte, fates: Fates)
    requires Startable(f) && slot < SLOT_COUNT && SlotOk(f, slot) && StateValid(state)
    ensures Startable(Commit(f, slot, state, attempts, fates).flash)
  {
    hide Commit, Read, Validate;
    CommitAtomic(f, slot, state, attempts, fates);
    CommitSlots(f, slot, state, attempts, fates);
    var g := Commit(f, slot, state, attempts, fates).flash;
    assert SlotBytes(g, slot) == SlotBytes(f, slot);
    assert SlotBytes(g, Read(f).value.slot) == SlotBytes(f, Read(f).value.slot);
  }

  /** A change confined to one slot leaves the cell and the other slot as they were. */
  lemma SlotChangeKeeps(f: Flash, g: Flash, slot: nat, at: nat, len: nat)
    requires slot < SLOT_COUNT && SlotAt(slot) <= at && at + len <= SlotAt(slot) + SLOT_SIZE
    requires SameOutside(f, g, at, len)
    ensures Read(g) == Read(f)
    ensures SlotBytes(g, Other(slot)) == SlotBytes(f, Other(slot))
  {
    hide Parse;
    SlotChangeFrame(f, g, slot, at, len);
  }

  lemma EraseKeepsStartable(d: Device, payload: seq<byte>, fates: Fates)
    requires Startable(d.flash) && Confined(d, Request(ERASE_SLOT, payload, fates))
    ensures Startable(HandleErase(d, payload, fates).device.flash)
  {
    hide Read, Validate, Erase, SlotBytes;
    if |payload| == 1 && payload[0] < SLOT_COUNT {
      var slot := payload[0];
      var g := Erase(d.flash, SlotAt(slot), SLOT_SIZE, fates.erase);
      EraseFrame(d.flash, SlotAt(slot), SLOT_SIZE, fates.erase);
      SlotChangeKeeps(d.flash, g, slot, SlotAt(slot), SLOT_SIZE);
    }
  }

  lemma WriteKeepsStartable(d: Device, payload: seq<byte>, fates: Fates)
    requires Startable(d.flash) && Confined(d, Request(WRITE, payload, fates))
    ensures Startable(HandleWrite(d, payload, fates).device.flash)
  {
    hide Read, Validate, Program, SlotBytes;
    if WriteCheck(d.session, payload) == Ok {
      var at := SlotAt(d.session.target) + WriteOffset(payload);
      var g := Program(d.flash, at, payload[4..], fates.write);
      ProgramFrame(d.flash, at, payload[4..], fates.write);
      SlotChangeKeeps(d.flash, g, d.session.target, at, |payload| - 4);
    }
  }

  lemma StepKeepsStartable(d: Device, e: Event)
    requires Startable(d.flash) && Confined(d, e)
    ensures Startable(Step(d, e).flash)
  {
    hide Commit, Read, SlotOk, Advance, Select, CommitOf;
    hide HandleErase, HandleWrite, WriteCheck, HandleHello, HandleVerify, HandleSetActive;
    if IsRequest(e, ERASE_SLOT) {
      EraseKeepsStartable(d, e.payload, e.fates);
    } else if IsRequest(e, WRITE) {
      WriteKeepsStartable(d, e.payload, e.fates);
    } else {
      StepCommits(d, e);
      if CommitOf(d, e).Some? {
        var c := CommitOf(d, e).value;
        CommitKeepsStartable(d.flash, c.slot, c.state, c.attempts, c.fates);
      }
    }
  }

  /**
   Never bricked. From a device whose nominated slot validates, every run that keeps its erases
   and writes off the nominated slot, with power lost at any point of any flash operation, ends
   with a nominated slot that validates, and that slot is the one selected.
   */
  lemma {:induction false} NeverBricked(d: Device, events: seq<Event>)
    requires Startable(d.flash) && ConfinedRun(d, events)
    ensures Startable(Run(d, events).flash)
    ensures Select(Run(d, events).flash) == Some(Read(Run(d, events).flash).value.slot)
  {
    hide Step, Read, SlotOk;
    if events != [] {
      var n := |events| - 1;
      NeverBricked(d, events[..n]);
      StepKeepsStartable(Run(d, events[..n]), events[n]);
    }
  }

  // ----------------------------------------------------------- never unbootable

  /** An erase or write that reaches flash does not concern the slot that would boot now. */
  predicate SparesBootSlot(d: Device, e: Event) {
    match e
    case Request(cmd, payload, _) =>
      && (cmd == ERASE_SLOT && |payload| == 1 && payload[0] < SLOT_COUNT ==> Select(d.flash) != Some(payload[0]))
      && (cmd == WRITE && WriteCheck(d.session, payload) == Ok ==> Select(d.flash) != Some(d.session.target))
    case _ => true
  }

  ghost predicate SparingRun(d: Device, events: seq<Event>) {
    events == [] ||
    (var n := |events| - 1;
     SparingRun(d, events[..n]) && SparesBootSlot(Run(d, events[..n]), events[n]))
  }

  lemma SlotChangeSpares(f: Flash, g: Flash, slot: nat, at: nat, len: nat)
    requires slot < SLOT_COUNT && SlotAt(slot) <= at && at + len <= SlotAt(slot) + SLOT_SIZE
    requires SameOutside(f, g, at, len)
    requires Select(f).Some? && Select(f) != Some(slot)
    ensures Select(g).Some?
  {
    hide Select, Validate, SlotBytes, Read, SameOutside;
    SlotChangeKeeps(f, g, slot, at, len);
    assert SlotOk(g, Other(slot));
    SelectIffBootable(g);
  }

  lemma SameSlotsSelect(f: Flash, g: Flash)
    requires forall s :: 0 <= s < SLOT_COUNT ==> SlotBytes(g, s) == SlotBytes(f, s)
    ensures Select(g).Some? <==> Select(f).Some?
  {
    hide Select, SlotOk, SlotBytes;
    SameVerdicts(f, g);
    SelectIffBootable(f);
    SelectIffBootable(g);
  }

  lemma StepKeepsBootable(d: Device, e: Event)
    requires Select(d.flash).Some? && SparesBootSlot(d, e)
    ensures Select(Step(d, e).flash).Some?
  {
    hide Commit, Read, SlotOk, SlotHeader, Select, Advance, SlotBytes, CommitOf;
    hide Erase, Program, HandleHello, HandleVerify, HandleSetActive, WriteCheck;
    if IsRequest(e, ERASE_SLOT) {
      if |e.payload| == 1 && e.payload[0] < SLOT_COUNT {
        var slot := e.payload[0];
        EraseFrame(d.flash, SlotAt(slot), SLOT_SIZE, e.fates.erase);
        var g := Erase(d.flash, SlotAt(slot), SLOT_SIZE, e.fates.erase);
        SlotChangeSpares(d.flash, g, slot, SlotAt(slot), SLOT_SIZE);
      }
    } else if IsRequest(e, WRITE) {
      if WriteCheck(d.session, e.payload) == Ok {
        var at := SlotAt(d.session.target) + WriteOffset(e.payload);
        ProgramFrame(d.flash, at, e.payload[4..], e.fates.write);
        var g := Program(d.flash, at, e.payload[4..], e.fates.write);
        SlotChangeSpares(d.flash, g, d.session.target, at, |e.payload| - 4);
      }
    } else {
      StepCommits(d, e);
      if CommitOf(d, e).Some? {
        var c := CommitOf(d, e).value;
        CommitSlots(d.flash, c.slot, c.state, c.attempts, c.fates);
        SameSlotsSelect(d.flash, Commit(d.flash, c.slot, c.state, c.attempts, c.fates).flash);
      }
    }
  }

  /**
   With or without metadata: a device that can boot still can after every run whose erases and
   writes spare the slot that would boot at the time, whatever the power does.
   */
  lemma {:induction false} NeverUnbootable(d: Device, events: seq<Event>)
    requires Select(d.flash).Some? && SparingRun(d, events)
    ensures Select(Run(d, events).flash).Some?
  {
    hide Step, Select;
    if events != [] {
      var n := |events| - 1;
      NeverUnbootable(d, events[..n]);
      StepKeepsBootable(Run(d, events[..n]), events[n]);
    }
  }

  // ---------------------------------------------------------------- header last

  /** The first programming unit of the slot, which holds the magic, is erased. */
  predicate NoHeader(f: Flash, slot: nat)
    requires slot < SLOT_COUNT
  {
    forall i :: SlotAt(slot) <= i < SlotAt(slot) + UNIT ==> f.mem[i] == ERASED
  }

  /**
   The event programs the first unit of the slot. An accepted write at offset zero that fails, or
   that loses power before its first unit, does not.
   */
  predicate WritesHeader(d: Device, e: Event, slot: nat) {
    e.Request? && e.cmd == WRITE && WriteCheck(d.session, e.payload) == Ok &&
    WriteOffset(e.payload) == 0 && d.session.target == slot && e.fates.write.Reaches(0)
  }

  ghost predicate HeaderUntouched(d: Device, events: seq<Event>, slot: nat) {
    events == [] ||
    (var n := |events| - 1;
     HeaderUntouched(d, events[..n], slot) && !WritesHeader(Run(d, events[..n]), events[n], slot))
  }

  /** A successful ERASE_SLOT leaves no header. */
  lemma EraseLeavesNoHeader(d: Device, slot: byte, fates: Fates)
    requires slot < SLOT_COUNT
    ensures var r := Handle(d, ERASE_SLOT, [slot], fates);
            r.response == Some([Ok.Code()]) ==> NoHeader(r.device.flash, slot)
  {
    hide Erase;
    if fates.erase.Done? {
      EraseDone(d.flash, SlotAt(slot), SLOT_SIZE, fates.erase);
      var g := Erase(d.flash, SlotAt(slot), SLOT_SIZE, fates.erase);
      forall i | SlotAt(slot) <= i < SlotAt(slot) + UNIT
        ensures g.mem[i] == ERASED
      {
        assert g.mem[i] == g.mem[SlotAt(slot)..SlotAt(slot) + SLOT_SIZE][i - SlotAt(slot)];
      }
    }
  }

  lemma MetaChangeKeepsNoHeader(f: Flash, slot: nat, state: byte, attempts: byte, fates: Fates, s: nat)
    requires s < SLOT_COUNT && NoHeader(f, s)
    ensures NoHeader(Commit(f, slot, state, attempts, fates).flash, s)
  {
    hide Commit, Newest;
    CommitFrame(f, slot, state, attempts, fates);
  }

  lemma WriteKeepsNoHeader(d: Device, payload: seq<byte>, fates: Fates, slot: nat)
    requires slot < SLOT_COUNT && NoHeader(d.flash, slot)
    requires !WritesHeader(d, Request(WRITE, payload, fates), slot)
    ensures NoHeader(HandleWrite(d, payload, fates).device.flash, slot)
  {
    hide Program;
    if WriteCheck(d.session, payload) == Ok {
      var at := SlotAt(d.session.target) + WriteOffset(payload);
      ProgramFrame(d.flash, at, payload[4..], fates.write);
      if !fates.write.Reaches(0) {
        ProgramUnreached(d.flash, at, payload[4..], fates.write);
      }
    }
  }

  lemma StepKeepsNoHeader(d: Device, e: Event, slot: nat)
    requires slot < SLOT_COUNT && NoHeader(d.flash, slot) && !WritesHeader(d, e, slot)
    ensures NoHeader(Step(d, e).flash, slot)
  {
    hide Commit, Read, SlotOk, NoHeader, WriteCheck, Select, SlotHeader, CommitOf;
    hide HandleErase, HandleWrite, HandleHello, HandleVerify, HandleSetActive;
    if IsRequest(e, ERASE_SLOT) {
      EraseKeepsNoHeader(d, e.payload, e.fates, slot);
    } else if IsRequest(e, WRITE) {
      WriteKeepsNoHeader(d, e.payload, e.fates, slot);
    } else {
      StepCommits(d, e);
      if CommitOf(d, e).Some? {
        var c := CommitOf(d, e).value;
        MetaChangeKeepsNoHeader(d.flash, c.slot, c.state, c.attempts, c.fates, slot);
      }
    }
  }

  /** Erasing any slot, even an interrupted erase of this one, brings no header back. */
  lemma EraseKeepsNoHeader(d: Device, payload: seq<byte>, fates: Fates, slot: nat)
    requires slot < SLOT_COUNT && NoHeader(d.flash, slot)
    ensures NoHeader(HandleErase(d, payload, fates).device.flash, slot)
  {
  }

  /**
   The header is the commit point. From a slot without a header, every interleaving of requests,
   refused writes, flash failures, boots and power cuts leaves it rejected for its magic, until a
   write at offset zero programs its first unit. A header write that fails or is cut before that
   unit is among the events the slot survives.
   */
  lemma {:induction false} HeaderLast(d: Device, events: seq<Event>, slot: nat)
    requires slot < SLOT_COUNT && NoHeader(d.flash, slot) && HeaderUntouched(d, events, slot)
    ensures NoHeader(Run(d, events).flash, slot)
    ensures Validate(SlotBytes(Run(d, events).flash, slot)) == ErrMagic
  {
    hide Step, Validate;
    if events != [] {
      var n := |events| - 1;
      HeaderLast(d, events[..n], slot);
      StepKeepsNoHeader(Run(d, events[..n]), events[n], slot);
    }
    NoHeaderRejected(Run(d, events).flash, slot);
  }

  lemma NoHeaderRejected(f: Flash, slot: nat)
    requires slot < SLOT_COUNT && NoHeader(f, slot)
    ensures Validate(SlotBytes(f, slot)) == ErrMagic
  {
    hide Validate;
    var s := SlotBytes(f, slot);
    assert forall i :: 0 <= i < 4 ==> s[i] == f.mem[SlotAt(slot) + i];
    BlankHeaderRejected(s);
  }
}
