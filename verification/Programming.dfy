/**
 The flash contract: no byte is programmed twice between erases. The device enforces ascending
 writes; offset zero is allowed once, out of order, and that exception is where the contract can
 be broken. These results say exactly when.
 */
module Programming {
  import opened Bytes
  import opened Frame
  import opened Optional
  import opened Flash
  import opened Status
  import opened Meta
  import opened Image
  import opened Core

  /** The request reaches flash with a byte that is already programmed. */
  ghost predicate Clobbers(d: Device, cmd: byte, payload: seq<byte>) {
    cmd == WRITE && WriteCheck(d.session, payload) == Ok &&
    !Blank(d.flash, SlotAt(d.session.target) + WriteOffset(payload), |payload| - 4)
  }

  /** One programming operation: flash as it stands when it begins, the place, data and fate. */
  datatype FlashWrite = FlashWrite(before: Flash, at: nat, data: seq<byte>, fate: Fate)

  /** The programming operation an event performs; no event performs two. */
  function WriteOf(d: Device, e: Event): (w: Option<FlashWrite>)
    ensures w.Some? ==> w.value.at + |w.value.data| <= FLASH_SIZE
  {
    if IsRequest(e, WRITE) then
      if WriteCheck(d.session, e.payload) != Ok then None
      else Some(FlashWrite(d.flash, SlotAt(d.session.target) + WriteOffset(e.payload), e.payload[4..], e.fates.write))
    else
      match CommitOf(d, e)
      case None => None
      case Some(c) =>
        var at := MetaAt(Target(d.flash));
        if !WriteValid(c) || !c.fates.erase.Done? then None
        else
          var erased := Erase(d.flash, at, META_SIZE, c.fates.erase);
          Some(FlashWrite(erased, at, RecordBytes(NewRecord(d.flash, c.slot, c.state, c.attempts)), c.fates.write))
  }

  /** The event programs a byte that has been programmed since it was last erased. */
  ghost predicate ProgramsTwice(d: Device, e: Event) {
    var w := WriteOf(d, e);
    w.Some? && !Blank(w.value.before, w.value.at, |w.value.data|)
  }

  /**
   That operation is all the programming the event does: flash ends as it leaves it, it starts
   from flash with nothing newly programmed, and without one nothing is newly programmed at all.
   */
  lemma WriteOfExact(d: Device, e: Event)
    ensures var w, after := WriteOf(d, e), Step(d, e).flash;
            && (w.Some? ==> after == Program(w.value.before, w.value.at, w.value.data, w.value.fate))
            && NothingAdded(d.flash, if w.Some? then w.value.before else after)
  {
    hide CommitOf, WriteCheck, NewRecord, RecordBytes, Commit, Program, NothingAdded, Erase, Target;
    hide HandleErase, HandleHello, HandleVerify, HandleSetActive, Boot, Confirm;
    SameAddsNothing(d.flash);
    if IsRequest(e, ERASE_SLOT) {
      EraseProgramsNothing(d, e);
    } else if !IsRequest(e, WRITE) {
      StepCommits(d, e);
      if CommitOf(d, e).Some? {
        CommitFlash(d.flash, CommitOf(d, e).value);
        EraseAddsNothing(d.flash, MetaAt(Target(d.flash)), META_SIZE, CommitOf(d, e).value.fates.erase);
      }
    }
  }

  /** A commit erases, and programs only after a completed erase. */
  lemma CommitFlash(f: Flash, c: CellWrite)
    requires WriteValid(c)
    ensures var at := MetaAt(Target(f));
            var erased := Erase(f, at, META_SIZE, c.fates.erase);
            Commit(f, c.slot, c.state, c.attempts, c.fates).flash ==
            if !c.fates.erase.Done? then erased
            else Program(erased, at, RecordBytes(NewRecord(f, c.slot, c.state, c.attempts)), c.fates.write)
  {
    hide Parse, RecordBytes, Erase, Program, NewRecord, Target;
  }

  lemma EraseProgramsNothing(d: Device, e: Event)
    requires IsRequest(e, ERASE_SLOT)
    ensures WriteOf(d, e).None? && NothingAdded(d.flash, Step(d, e).flash)
  {
    hide NothingAdded, Erase;
    SameAddsNothing(d.flash);
    if |e.payload| == 1 && e.payload[0] < SLOT_COUNT {
      EraseAddsNothing(d.flash, SlotAt(e.payload[0]), SLOT_SIZE, e.fates.erase);
    }
  }

  predicate NothingAdded(f: Flash, g: Flash) {
    forall i :: 0 <= i < FLASH_SIZE && g.programmed[i] ==> f.programmed[i]
  }

  lemma SameAddsNothing(f: Flash)
    ensures NothingAdded(f, f)
  {
  }

  lemma EraseAddsNothing(f: Flash, at: nat, len: nat, fate: Fate)
    requires at + len <= FLASH_SIZE
    ensures NothingAdded(f, Erase(f, at, len, fate))
  {
  }

  /** Of requests only a WRITE can; its fate does not matter, since the port looks before it programs. */
  lemma ProgramsTwiceIsClobbering(d: Device, cmd: byte, payload: seq<byte>, fates: Fates)
    ensures ProgramsTwice(d, Request(cmd, payload, fates)) <==> Clobbers(d, cmd, payload)
  {
    hide WriteCheck, Blank, Erase;
    if cmd != WRITE {
      CommitNeverClobbers(d, Request(cmd, payload, fates));
    }
  }

  /** A metadata commit programs a region it has just erased, whichever event makes it. */
  lemma CommitNeverClobbers(d: Device, e: Event)
    requires !IsRequest(e, WRITE)
    ensures !ProgramsTwice(d, e)
  {
    hide CommitOf, Target, NewRecord, RecordBytes, Erase;
    if WriteOf(d, e).Some? {
      EraseDone(d.flash, MetaAt(Target(d.flash)), META_SIZE, CommitOf(d, e).value.fates.erase);
    }
  }

  // ----------------------------------------------------------- session history

  /** The event programs a non-zero offset of the session's slot. */
  predicate Programs(d: Device, e: Event) {
    e.Request? && e.cmd == WRITE && WriteCheck(d.session, e.payload) == Ok && e.fates.write.Done? &&
    WriteOffset(e.payload) != 0
  }

  predicate Opens(e: Event) {
    e.Request? && e.cmd == ERASE_SLOT && |e.payload| == 1 && e.payload[0] < SLOT_COUNT && e.fates.erase.Done?
  }

  /** The lowest non-zero offset programmed since the session's slot was erased; its size if none. */
  function Lowest(d: Device, events: seq<Event>): nat {
    if events == [] then SLOT_SIZE
    else
      var n := |events| - 1;
      var before, e := Run(d, events[..n]), events[n];
      if Opens(e) then SLOT_SIZE
      else if Programs(before, e) then Min(Lowest(d, events[..n]), WriteOffset(e.payload))
      else Lowest(d, events[..n])
  }

  function Min(a: nat, b: nat): nat {
    if a < b then a else b
  }

  /** What the session knows about the bits of its slot. */
  ghost predicate Tracked(d: Device, low: nat) {
    d.session.erased ==>
      var at := SlotAt(d.session.target);
      && 0 < low <= SLOT_SIZE
      && Blank(d.flash, at + d.session.highest, SLOT_SIZE - d.session.highest)
      && (!d.session.headerWritten ==> Blank(d.flash, at, low))
      && (low < SLOT_SIZE ==> d.flash.programmed[at + low] && low < d.session.highest)
  }

  // ------------------------------------------------------------------- steps

  lemma EraseTracked(d: Device, payload: seq<byte>, fates: Fates, low: nat)
    requires Tracked(d, low)
    ensures var e := Request(ERASE_SLOT, payload, fates);
            Tracked(HandleErase(d, payload, fates).device, if Opens(e) then SLOT_SIZE else low)
  {
    if |payload| == 1 && payload[0] < SLOT_COUNT {
      var slot := payload[0];
      if fates.erase.Done? {
        EraseDone(d.flash, SlotAt(slot), SLOT_SIZE, fates.erase);
      } else if fates.erase.Failed? {
        EraseFailed(d.flash, SlotAt(slot), SLOT_SIZE, fates.erase);
      }
    }
  }

  lemma WriteTracked(d: Device, payload: seq<byte>, fates: Fates, low: nat)
    requires Tracked(d, low)
    ensures var e := Request(WRITE, payload, fates);
            Tracked(HandleWrite(d, payload, fates).device,
                    if Programs(d, e) then Min(low, WriteOffset(payload)) else low)
  {
    hide Program;
    if WriteCheck(d.session, payload) == Ok {
      var offset, data := WriteOffset(payload), payload[4..];
      var at := SlotAt(d.session.target) + offset;
      var g := Program(d.flash, at, data, fates.write);
      ProgramFrame(d.flash, at, data, fates.write);
      if fates.write.Done? {
        ProgramMarks(d.flash, at, data, fates.write);
      } else if fates.write.Failed? {
        ProgramFailed(d.flash, at, data, fates.write);
      }
    }
  }

  lemma ProgramMarks(f: Flash, at: nat, data: seq<byte>, fate: Fate)
    requires at + |data| <= FLASH_SIZE && fate.Done?
    ensures forall i :: at <= i < at + |data| ==> Program(f, at, data, fate).programmed[i]
  {
    var g := Program(f, at, data, fate);
    forall i | at <= i < at + |data|
      ensures g.programmed[i]
    {
      assert fate.Reaches((i - at) / UNIT);
    }
  }

  predicate SameSlotBits(f: Flash, g: Flash) {
    forall i :: SlotAt(0) <= i < FLASH_SIZE ==> g.programmed[i] == f.programmed[i]
  }

  lemma CommitSlotBits(f: Flash, c: CellWrite)
    ensures SameSlotBits(f, Commit(f, c.slot, c.state, c.attempts, c.fates).flash)
  {
    hide Commit, Target;
    CommitFrame(f, c.slot, c.state, c.attempts, c.fates);
  }

  /** What is tracked depends on the slots and the session only. */
  lemma StillTracked(d: Device, after: Device, low: nat)
    requires Tracked(d, low) && SameSlotBits(d.flash, after.flash)
    requires after.session == IDLE || after.session.(resetRequested := d.session.resetRequested) == d.session
    ensures Tracked(after, low)
  {
  }

  lemma StepTracked(d: Device, e: Event, low: nat)
    requires Tracked(d, low)
    ensures Tracked(Step(d, e),
                    if Opens(e) then SLOT_SIZE else if Programs(d, e) then Min(low, WriteOffset(e.payload)) else low)
  {
    hide Commit, WriteCheck, CommitOf, Boot, Confirm, Tracked;
    hide HandleWrite, HandleErase, HandleHello, HandleVerify, HandleSetActive;
    if IsRequest(e, ERASE_SLOT) {
      EraseTracked(d, e.payload, e.fates, low);
    } else if IsRequest(e, WRITE) {
      WriteTracked(d, e.payload, e.fates, low);
    } else {
      StepCommits(d, e);
      if CommitOf(d, e).Some? {
        CommitSlotBits(d.flash, CommitOf(d, e).value);
      }
      StillTracked(d, Step(d, e), low);
    }
  }

  lemma {:induction false} RunTracked(d: Device, events: seq<Event>)
    requires d.session == IDLE
    ensures Tracked(Run(d, events), Lowest(d, events))
  {
    hide Step, Tracked, Opens, Programs;
    if events == [] {
      IdleTracked(d);
    } else {
      var n := |events| - 1;
      RunTracked(d, events[..n]);
      StepTracked(Run(d, events[..n]), events[n], Lowest(d, events[..n]));
    }
  }

  lemma IdleTracked(d: Device)
    requires d.session == IDLE
    ensures Tracked(d, SLOT_SIZE)
  {
  }

  // ------------------------------------------------------------ main results

  /**
   Exactly when a request would program a byte twice, in any state any run can reach: it is an
   accepted write at offset zero, longer than the lowest non-zero offset programmed since the
   slot was erased. Writes at other offsets never do.
   */
  lemma ClobbersIff(d: Device, events: seq<Event>, cmd: byte, payload: seq<byte>)
    requires d.session == IDLE
    ensures var now := Run(d, events);
            Clobbers(now, cmd, payload) <==>
              && cmd == WRITE && WriteCheck(now.session, payload) == Ok
              && WriteOffset(payload) == 0 && Lowest(d, events) < |payload| - 4
  {
    hide Run, Lowest;
    RunTracked(d, events);
    var now, low := Run(d, events), Lowest(d, events);
    if cmd == WRITE && WriteCheck(now.session, payload) == Ok {
      var at := SlotAt(now.session.target);
      if WriteOffset(payload) == 0 && low < |payload| - 4 {
        assert now.flash.programmed[at + low];
      }
    }
  }

  /** The same over events: no boot, confirmation, nomination or erase programs a byte twice. */
  lemma ProgramsTwiceIff(d: Device, events: seq<Event>, e: Event)
    requires d.session == IDLE
    ensures var now := Run(d, events);
            ProgramsTwice(now, e) <==>
              && IsRequest(e, WRITE) && WriteCheck(now.session, e.payload) == Ok
              && WriteOffset(e.payload) == 0 && Lowest(d, events) < |e.payload| - 4
  {
    hide Run, Lowest, Clobbers, ProgramsTwice;
    if IsRequest(e, WRITE) {
      ProgramsTwiceIsClobbering(Run(d, events), e.cmd, e.payload, e.fates);
      ClobbersIff(d, events, e.cmd, e.payload);
    } else {
      CommitNeverClobbers(Run(d, events), e);
    }
  }

  /** A request came in a frame. */
  predicate Framed(e: Event) {
    e.Request? ==> |e.payload| <= MAX_PAYLOAD
  }

  /** The event is not a WRITE at a non-zero offset inside the header region. */
  predicate OffHeaderRegion(e: Event) {
    IsRequest(e, WRITE) && |e.payload| >= 5 && WriteOffset(e.payload) != 0 ==> WriteOffset(e.payload) >= HDR_REGION
  }

  lemma {:induction false} LowestOffHeader(d: Device, events: seq<Event>)
    requires forall e :: e in events ==> OffHeaderRegion(e)
    ensures Lowest(d, events) >= HDR_REGION
  {
    hide Run, Opens;
    if events != [] {
      var n := |events| - 1;
      assert events[n] in events;
      LowestOffHeader(d, events[..n]);
    }
  }

  /**
   No flash byte is programmed twice between erases, by any event of any run of requests, boots,
   confirmations, failures and power cuts whose non-zero write offsets keep off the header region:
   a frame carries at most 504 aligned bytes, so the header write cannot reach what follows it.
   */
  lemma NeverProgrammedTwice(d: Device, events: seq<Event>)
    requires d.session == IDLE && forall e :: e in events ==> Framed(e) && OffHeaderRegion(e)
    ensures forall n :: 0 <= n < |events| ==> !ProgramsTwice(Run(d, events[..n]), events[n])
  {
    hide Run, Lowest, ProgramsTwice;
    forall n | 0 <= n < |events|
      ensures !ProgramsTwice(Run(d, events[..n]), events[n])
    {
      assert events[n] in events;
      ProgramsTwiceIff(d, events[..n], events[n]);
      LowestOffHeader(d, events[..n]);
    }
  }

  lemma OpenThenProgram(d: Device, a: Event, b: Event)
    requires Opens(a) && Programs(Step(d, a), b)
    ensures Run(d, [a, b]) == Step(Step(d, a), b)
    ensures Lowest(d, [a, b]) == Min(SLOT_SIZE, WriteOffset(b.payload))
  {
    hide Step, WriteCheck;
    assert [a, b][..1] == [a] && [a][..0] == [];
    assert Run(d, []) == d && Run(d, [a]) == Step(d, a);
    assert Lowest(d, [a]) == SLOT_SIZE;
  }

  /** The offset condition is needed: erase, write eight bytes at 8, then sixteen at 0. */
  lemma LowOffsetClobbers(d: Device, fates: Fates) returns (events: seq<Event>, payload: seq<byte>)
    requires d.session == IDLE && fates.erase.Done? && fates.write.Done?
    ensures |payload| <= MAX_PAYLOAD && Clobbers(Run(d, events), WRITE, payload)
  {
    hide Erase, Program, Clobbers, Run, Lowest, Bytes.PutU32;
    var erase := Request(ERASE_SLOT, [0], fates);
    var low := Request(WRITE, PutU32(8) + Fill(8, 0), fates);
    payload := PutU32(0) + Fill(16, 0);
    events := [erase, low];
    U32RoundTrip(8);
    U32RoundTrip(0);
    assert low.payload[..4] == PutU32(8) && payload[..4] == PutU32(0);
    var first := Step(d, erase);
    assert first.session == Session(0, true, 0, false, false);
    assert WriteCheck(first.session, low.payload) == Ok;
    OpenThenProgram(d, erase, low);
    assert Run(d, events).session == Session(0, true, 16, false, false);
    ClobbersIff(d, events, WRITE, payload);
  }
}
