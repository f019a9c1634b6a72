/**
 Trial boot and rollback over whole runs: how often an unconfirmed image may be started, when
 the device reverts, and what every reachable metadata record satisfies.
 */
module Trial {
  import opened Bytes
  import Crc32
  import opened Optional
  import opened Flash
  import opened Status
  import opened Meta
  import opened Image
  import opened Core
  import opened Safety
  import opened Answers

  // --------------------------------------------------------------- trial bound

  /** The events of an unattended trial: boots and power cycles, power cuts the only faults. */
  predicate Unattended(e: Event) {
    match e
    case Request(cmd, _, _) => cmd != ERASE_SLOT && cmd != WRITE && cmd != SET_ACTIVE
    case BootUp(fates) => !fates.erase.Failed? && !fates.write.Failed?
    case ConfirmImage(_) => false
    case PowerCycle => true
  }

  predicate HandsOver(d: Device, e: Event, slot: nat) {
    e.BootUp? && Boot(d.flash, e.fates).result.JumpTo? && Boot(d.flash, e.fates).result.slot == slot
  }

  predicate Completes(d: Device, e: Event) {
    e.BootUp? && !Boot(d.flash, e.fates).result.PowerLost?
  }

  /** How often the run handed control to the slot. */
  function HandOvers(d: Device, events: seq<Event>, slot: nat): nat {
    if events == [] then 0
    else
      var n := |events| - 1;
      HandOvers(d, events[..n], slot) + if HandsOver(Run(d, events[..n]), events[n], slot) then 1 else 0
  }

  /** How many boots of the run were not cut short. */
  function CompletedBoots(d: Device, events: seq<Event>): nat {
    if events == [] then 0
    else
      var n := |events| - 1;
      CompletedBoots(d, events[..n]) + if Completes(Run(d, events[..n]), events[n]) then 1 else 0
  }

  /** Still on trial: so many attempts recorded, the sequence number advanced by as many. */
  predicate OnTrial(f: Flash, slot: nat, sequence: nat, attempts: nat) {
    attempts <= MAX_ATTEMPTS && Read(f) == Some(Record(sequence + attempts, slot, TRIAL, attempts))
  }

  /** Reverted: the other slot is nominated, confirmed. */
  predicate Reverted(f: Flash, slot: nat, sequence: nat) {
    slot < SLOT_COUNT && Read(f) == Some(Record(sequence + MAX_ATTEMPTS + 1, Other(slot), CONFIRMED, 0))
  }

  predicate BothOk(f: Flash) {
    SlotOk(f, 0) && SlotOk(f, 1)
  }

  /**
   A successful SET_ACTIVE puts a validated slot on trial with no attempt used, exactly unless the
   sequence counter wraps; then it leaves the nomination as it was.
   */
  lemma SetActiveStartsTrial(d: Device, slot: byte, fates: Fates)
    ensures var r := Handle(d, SET_ACTIVE, [slot], fates);
            r.response == Some([Ok.Code()]) ==>
              && slot < SLOT_COUNT && SlotOk(d.flash, slot)
              && (OnTrial(r.device.flash, slot, NextSeq(d.flash), 0) <==> !Exhausted(Read(d.flash)))
              && (Exhausted(Read(d.flash)) ==> Read(r.device.flash) == Read(d.flash))
              && forall s :: 0 <= s < SLOT_COUNT ==> SlotBytes(r.device.flash, s) == SlotBytes(d.flash, s)
  {
    hide Commit, Read, Validate, NextSeq;
    if slot < SLOT_COUNT && SlotOk(d.flash, slot) {
      CommitAtomic(d.flash, slot, TRIAL, 0, fates);
      CommitSlots(d.flash, slot, TRIAL, 0, fates);
    }
  }

  /** One boot of a trial image with attempts left: counted first, then handed over. */
  lemma TrialBoot(f: Flash, fates: Fates, slot: nat, sequence: nat, attempts: nat)
    requires slot < SLOT_COUNT && BothOk(f) && OnTrial(f, slot, sequence, attempts)
    requires attempts < MAX_ATTEMPTS && sequence + attempts < LAST_SEQ
    requires !fates.erase.Failed? && !fates.write.Failed?
    ensures var b := Boot(f, fates);
            && BothOk(b.flash)
            && (|| OnTrial(b.flash, slot, sequence, attempts + 1)
                || (b.result.PowerLost? && OnTrial(b.flash, slot, sequence, attempts)))
            && (!b.result.PowerLost? ==> b.result.JumpTo? && b.result.slot == slot)
  {
    hide Commit, Read, SlotOk, SlotHeader, NextSeq;
    CommitAtomic(f, slot, TRIAL, attempts + 1, fates);
    CommitEnds(f, slot, TRIAL, attempts + 1, fates);
    NextSeqOfCell(f);
    AdvanceSlots(f, fates);
    SameVerdicts(f, Advance(f, fates).flash);
  }

  /** One boot of an exhausted trial image: the other slot is confirmed, then handed over to. */
  lemma RevertingBoot(f: Flash, fates: Fates, slot: nat, sequence: nat)
    requires slot < SLOT_COUNT && BothOk(f) && OnTrial(f, slot, sequence, MAX_ATTEMPTS)
    requires sequence + MAX_ATTEMPTS < LAST_SEQ
    requires !fates.erase.Failed? && !fates.write.Failed?
    ensures var b := Boot(f, fates);
            && BothOk(b.flash)
            && (|| Reverted(b.flash, slot, sequence)
                || (b.result.PowerLost? && OnTrial(b.flash, slot, sequence, MAX_ATTEMPTS)))
            && (!b.result.PowerLost? ==> b.result.JumpTo? && b.result.slot == Other(slot))
  {
    hide Commit, Read, SlotOk, SlotHeader, NextSeq;
    CommitAtomic(f, Other(slot), CONFIRMED, 0, fates);
    CommitEnds(f, Other(slot), CONFIRMED, 0, fates);
    NextSeqOfCell(f);
    AdvanceSlots(f, fates);
    SameVerdicts(f, Advance(f, fates).flash);
  }

  /** Without failures, a commit that keeps power succeeds. */
  lemma CommitEnds(f: Flash, slot: nat, state: byte, attempts: byte, fates: Fates)
    requires slot < SLOT_COUNT && StateValid(state)
    requires !fates.erase.Failed? && !fates.write.Failed?
    ensures Commit(f, slot, state, attempts, fates).status in {None, Some(Ok)}
  {
    hide Erase, Program, Parse, RecordBytes, Newest;
    CommitTarget(f, slot, state, attempts, fates);
  }

  /** A confirmed image boots without counting: flash is left exactly as it was. */
  lemma ConfirmedBootsFreely(f: Flash, fates: Fates)
    requires Startable(f) && Read(f).value.state == CONFIRMED
    ensures Boot(f, fates).flash == f
    ensures Boot(f, fates).result.JumpTo? && Boot(f, fates).result.slot == Read(f).value.slot
  {
    hide Read, SlotOk, SlotHeader;
  }

  lemma UnattendedOther(d: Device, e: Event)
    requires Unattended(e) && !e.BootUp?
    ensures Step(d, e).flash == d.flash
  {
    hide Handle, Boot, Confirm;
    StepCommits(d, e);
  }

  /**
   The trial bound over whole runs. After a nomination, whatever boots, resets and power cuts
   follow, the unconfirmed slot has been handed control no more often than attempts are recorded,
   which is never more than three, or the device has reverted; and in either case the hand-overs
   total at most three. Every completed boot counts, so a fourth one finds the device reverted.
   */
  lemma {:induction false} TrialBound(d: Device, events: seq<Event>, slot: nat, sequence: nat) returns (attempts: nat)
    requires slot < SLOT_COUNT && BothOk(d.flash) && OnTrial(d.flash, slot, sequence, 0)
    requires sequence + MAX_ATTEMPTS < LAST_SEQ
    requires forall e :: e in events ==> Unattended(e)
    ensures attempts <= MAX_ATTEMPTS && BothOk(Run(d, events).flash)
    ensures OnTrial(Run(d, events).flash, slot, sequence, attempts) || Reverted(Run(d, events).flash, slot, sequence)
    ensures HandOvers(d, events, slot) <= attempts
    ensures OnTrial(Run(d, events).flash, slot, sequence, attempts) ==> CompletedBoots(d, events) <= attempts
    ensures CompletedBoots(d, events) > MAX_ATTEMPTS ==> Reverted(Run(d, events).flash, slot, sequence)
  {
    hide Read, SlotOk, Boot, Handle;
    if events == [] {
      return 0;
    }
    var n := |events| - 1;
    assert events[n] in events;
    attempts := TrialBound(d, events[..n], slot, sequence);
    var before, e := Run(d, events[..n]), events[n];
    if !e.BootUp? {
      UnattendedOther(before, e);
    } else if Reverted(before.flash, slot, sequence) {
      StayReverted(before.flash, e.fates, slot, sequence);
    } else if attempts < MAX_ATTEMPTS {
      TrialBoot(before.flash, e.fates, slot, sequence, attempts);
      if OnTrial(Run(d, events).flash, slot, sequence, attempts + 1) {
        attempts := attempts + 1;
      }
    } else {
      RevertingBoot(before.flash, e.fates, slot, sequence);
    }
  }

  lemma StayReverted(f: Flash, fates: Fates, slot: nat, sequence: nat)
    requires BothOk(f) && Reverted(f, slot, sequence)
    ensures Boot(f, fates).flash == f
    ensures Boot(f, fates).result.JumpTo? && Boot(f, fates).result.slot == Other(slot)
  {
    hide Read, SlotOk, Boot;
    ConfirmedBootsFreely(f, fates);
  }

  /**
   The bound rests on the metadata being writable: when erasing or programming fails, the boot
   goes ahead without counting, by design, and the same slot is handed control again.
   */
  lemma FailingFlashDoesNotCount(f: Flash, fates: Fates, slot: nat, sequence: nat, attempts: nat)
    requires slot < SLOT_COUNT && SlotOk(f, slot) && OnTrial(f, slot, sequence, attempts) && attempts < MAX_ATTEMPTS
    requires Fails(fates)
    ensures var b := Boot(f, fates);
            b.result.JumpTo? && b.result.slot == slot && OnTrial(b.flash, slot, sequence, attempts)
  {
    hide Commit, Read, SlotOk, SlotHeader, NextSeq;
    FailedCommit(f, slot, TRIAL, attempts + 1, fates);
    AdvanceSlots(f, fates);
    SameVerdicts(f, Advance(f, fates).flash);
  }

  /** One of the two flash operations of a commit reports failure. */
  predicate Fails(fates: Fates) {
    fates.erase.Failed? || (fates.erase.Done? && fates.write.Failed?)
  }

  lemma FailedCommit(f: Flash, slot: nat, state: byte, attempts: byte, fates: Fates)
    requires slot < SLOT_COUNT && StateValid(state) && Fails(fates)
    ensures var out := Commit(f, slot, state, attempts, fates);
            && out.status == Some(if fates.erase.Failed? then ErrFlashErase else ErrFlashProgram)
            && Read(out.flash) == Read(f)
  {
    hide Parse, RecordBytes, Erase, Program;
    var t := Target(f);
    var at := MetaAt(t);
    if fates.erase.Failed? {
      EraseFailed(f, at, META_SIZE, fates.erase);
      return;
    }
    var erased := Erase(f, at, META_SIZE, fates.erase);
    var out := Commit(f, slot, state, attempts, fates);
    CommitFrame(f, slot, state, attempts, fates);
    MetaChangeFrame(f, out.flash, t);
    ProgramFailed(erased, at, RecordBytes(NewRecord(f, slot, state, attempts)), fates.write);
    ErasedReadsAbsent(f, t, fates.erase);
  }

  lemma ErasedReadsAbsent(f: Flash, t: nat, fate: Fate)
    requires t < META_COUNT && fate.Done?
    ensures Parse(MetaBytes(Erase(f, MetaAt(t), META_SIZE, fate), t)) == None
  {
    hide Erase, Crc32.CrcBytes;
    EraseDone(f, MetaAt(t), META_SIZE, fate);
    var g := Erase(f, MetaAt(t), META_SIZE, fate);
    assert MetaBytes(g, t)[4] == g.mem[MetaAt(t)..MetaAt(t) + META_SIZE][4] == ERASED;
  }

  /** With the counter used up, a completed boot neither counts nor reverts. */
  lemma StuckBoot(f: Flash, fates: Fates, slot: nat, sequence: nat, attempts: nat)
    requires slot < SLOT_COUNT && BothOk(f) && OnTrial(f, slot, sequence, attempts)
    requires sequence + attempts == LAST_SEQ && Powered(fates)
    ensures var b := Boot(f, fates);
            BothOk(b.flash) && OnTrial(b.flash, slot, sequence, attempts) && b.result.JumpTo? && b.result.slot == slot
  {
    hide Commit, Read, SlotOk, SlotHeader, NextSeq;
    if attempts < MAX_ATTEMPTS {
      CommitAtomic(f, slot, TRIAL, attempts + 1, fates);
      CommitAnswers(f, slot, TRIAL, attempts + 1, fates);
    } else {
      CommitAtomic(f, Other(slot), CONFIRMED, 0, fates);
      CommitAnswers(f, Other(slot), CONFIRMED, 0, fates);
    }
    AdvanceSlots(f, fates);
    SameVerdicts(f, Advance(f, fates).flash);
  }

  predicate FlawlessBoot(e: Event) {
    e.BootUp? && e.fates == Fates(Done, Done)
  }

  /**
   The room left in the sequence counter is needed. A trial that would use it up counts until the
   last sequence number and then stands still: the unconfirmed slot is handed control at every
   boot, however many there are.
   */
  lemma {:induction false} UsedUpCounterNeverReverts(d: Device, events: seq<Event>, slot: nat, sequence: nat)
    returns (attempts: nat)
    requires slot < SLOT_COUNT && BothOk(d.flash) && OnTrial(d.flash, slot, sequence, 0)
    requires sequence + MAX_ATTEMPTS >= LAST_SEQ
    requires forall e :: e in events ==> FlawlessBoot(e)
    ensures sequence + attempts <= LAST_SEQ
    ensures BothOk(Run(d, events).flash) && OnTrial(Run(d, events).flash, slot, sequence, attempts)
    ensures HandOvers(d, events, slot) == |events|
  {
    hide Boot, Read, SlotOk;
    if events == [] {
      return 0;
    }
    var n := |events| - 1;
    assert events[n] in events;
    attempts := UsedUpCounterNeverReverts(d, events[..n], slot, sequence);
    var before, fates := Run(d, events[..n]).flash, events[n].fates;
    if sequence + attempts == LAST_SEQ {
      StuckBoot(before, fates, slot, sequence, attempts);
    } else {
      TrialBoot(before, fates, slot, sequence, attempts);
      FlawlessBootCompletes(before, fates);
      attempts := attempts + 1;
    }
  }

  lemma FlawlessBootCompletes(f: Flash, fates: Fates)
    requires Powered(fates)
    ensures !Boot(f, fates).result.PowerLost?
  {
    hide Commit, Read, SlotOk, SlotHeader, Select;
    match Read(f)
    case None =>
    case Some(m) =>
      if m.attempts < MAX_ATTEMPTS {
        CommitAnswers(f, m.slot, TRIAL, m.attempts + 1, fates);
      }
      CommitAnswers(f, Other(m.slot), CONFIRMED, 0, fates);
  }

  /** No unattended run from `d` hands control to the slot more than three times. */
  ghost predicate TrialBounded(d: Device, slot: nat) {
    forall events :: (forall e :: e in events ==> Unattended(e)) ==> HandOvers(d, events, slot) <= 3
  }

  /**
   The trial bound holds of a freshly nominated slot exactly when the sequence counter has room
   for the three attempts and the revert.
   */
  lemma TrialBoundIff(d: Device, slot: nat, sequence: nat)
    requires slot < SLOT_COUNT && BothOk(d.flash) && OnTrial(d.flash, slot, sequence, 0)
    ensures TrialBounded(d, slot) <==> sequence + 3 < LAST_SEQ
  {
    hide Run, HandOvers, CompletedBoots, BothOk, OnTrial, Reverted;
    if sequence + MAX_ATTEMPTS < LAST_SEQ {
      forall events: seq<Event> | forall e :: e in events ==> Unattended(e)
        ensures HandOvers(d, events, slot) <= 3
      {
        var _ := TrialBound(d, events, slot, sequence);
      }
    } else {
      var boot := BootUp(Fates(Done, Done));
      var events := [boot, boot, boot, boot];
      assert forall e :: e in events ==> FlawlessBoot(e) && Unattended(e);
      var _ := UsedUpCounterNeverReverts(d, events, slot, sequence);
    }
  }

  // --------------------------------------------------------------- bookkeeping

  /** The record a boot means to commit, from the one it finds; none if it has nothing to record. */
  function Bookkept(f: Flash): Option<Record> {
    match Read(f)
    case None => None
    case Some(m) =>
      var n := (m.sequence + 1) % U32_LIMIT;
      if m.state == CONFIRMED then None
      else if m.attempts <= 2 then Some(Record(n, m.slot, 0x02, m.attempts + 1))
      else if SlotOk(f, Other(m.slot)) then Some(Record(n, Other(m.slot), 0x01, 0))
      else None
  }

  /**
   What every boot records, for every metadata content. Confirmed images, missing metadata and a
   used-up trial without a fallback leave flash alone; otherwise the boot counts up to three or
   reverts, and does exactly when its commit completes and the counter does not wrap. A failing
   commit is ignored; only lost power keeps the boot from completing.
   */
  lemma BootBookkeeping(f: Flash, fates: Fates)
    ensures var b := Boot(f, fates);
            match Bookkept(f)
            case None => b.flash == f && !b.result.PowerLost?
            case Some(r) =>
              && (Read(b.flash) == Read(f) || Read(b.flash) == Some(r))
              && (fates.erase.Done? && fates.write.Done? ==>
                    (Read(b.flash) == Some(r) <==> !Exhausted(Read(f))))
              && (Fails(fates) ==> Read(b.flash) == Read(f))
              && (b.result.PowerLost? <==> fates.erase.Cut? || (fates.erase.Done? && fates.write.Cut?))
  {
    hide Commit, Read, SlotOk, SlotHeader, Select, NextSeq;
    NextSeqFollows(f);
    match Bookkept(f)
    case None =>
    case Some(r) =>
      CommitAtomic(f, r.slot, r.state, r.attempts, fates);
      CommitStatus(f, r.slot, r.state, r.attempts, fates);
      if Fails(fates) {
        FailedCommit(f, r.slot, r.state, r.attempts, fates);
      }
  }

  // -------------------------------------------------------------- confirmation

  /** What a confirmation reports tells exactly how its commit ended. */
  lemma ConfirmStatus(f: Flash, fates: Fates)
    ensures var out := Confirm(f, fates);
            match Read(f)
            case None => out == Outcome(f, Some(ErrNoMetadata))
            case Some(m) =>
              if m.state == CONFIRMED then out == Outcome(f, Some(Ok))
              else
                && (out.status == Some(Ok) <==> fates.erase.Done? && fates.write.Done?)
                && (out.status == Some(ErrFlashErase) <==> fates.erase.Failed?)
                && (out.status == Some(ErrFlashProgram) <==> fates.erase.Done? && fates.write.Failed?)
                && (out.status == None <==> fates.erase.Cut? || (fates.erase.Done? && fates.write.Cut?))
                && (out.status == Some(Ok) && m.sequence < LAST_SEQ ==>
                      Read(out.flash) == Some(Record(m.sequence + 1, m.slot, 0x01, 0)))
                && (out.status != Some(Ok) && out.status != None ==> Read(out.flash) == Read(f))
  {
    hide Commit, Read, NextSeq;
    if Read(f).Some? {
      var m := Read(f).value;
      CommitStatus(f, m.slot, CONFIRMED, 0, fates);
      CommitAtomic(f, m.slot, CONFIRMED, 0, fates);
      NextSeqFollows(f);
      if Fails(fates) {
        FailedCommit(f, m.slot, CONFIRMED, 0, fates);
      }
    }
  }

  /** What a nomination of a valid slot answers tells exactly how its commit ended. */
  lemma NominationStatus(d: Device, slot: byte, fates: Fates)
    requires slot < SLOT_COUNT && SlotOk(d.flash, slot)
    ensures var answer := Handle(d, SET_ACTIVE, [slot], fates).response;
            && (answer == Some([Ok.Code()]) <==> fates.erase.Done? && fates.write.Done?)
            && (answer == Some([ErrFlashErase.Code()]) <==> fates.erase.Failed?)
            && (answer == Some([ErrFlashProgram.Code()]) <==> fates.erase.Done? && fates.write.Failed?)
            && (answer == None <==> fates.erase.Cut? || (fates.erase.Done? && fates.write.Cut?))
  {
    hide Commit, Validate, SlotBytes;
    CommitStatus(d.flash, slot, TRIAL, 0, fates);
  }

  /** A successful confirmation ends the trial of the nominated slot, and nothing else changes. */
  lemma ConfirmEndsTrial(f: Flash, fates: Fates)
    ensures var out := Confirm(f, fates);
            && (Read(f).None? ==> out == Outcome(f, Some(ErrNoMetadata)))
            && (Read(f).Some? && Read(f).value.state == CONFIRMED ==> out == Outcome(f, Some(Ok)))
            && (out.status == Some(Ok) ==>
                  && Read(f).Some? && Read(out.flash).Some?
                  && Read(out.flash).value.slot == Read(f).value.slot
                  && (Read(out.flash).value.state == CONFIRMED <==>
                        !Exhausted(Read(f)) || Read(f).value.state == CONFIRMED))
            && (Startable(f) ==> Startable(out.flash))
            && (forall s :: 0 <= s < SLOT_COUNT ==> SlotBytes(out.flash, s) == SlotBytes(f, s))
  {
    hide Commit, Read, SlotOk;
    if Read(f).Some? {
      var m := Read(f).value;
      CommitAtomic(f, m.slot, CONFIRMED, 0, fates);
      CommitSlots(f, m.slot, CONFIRMED, 0, fates);
      if Startable(f) {
        CommitKeepsStartable(f, m.slot, CONFIRMED, 0, fates);
      }
    }
  }

  /** A confirmed image stays: no run of boots and power cuts changes flash or starts another slot. */
  lemma {:induction false} ConfirmedForever(d: Device, events: seq<Event>)
    requires Startable(d.flash) && Read(d.flash).value.state == CONFIRMED
    requires forall e :: e in events ==> Unattended(e)
    ensures Run(d, events).flash == d.flash
    ensures HandOvers(d, events, Other(Read(d.flash).value.slot)) == 0
    ensures HandOvers(d, events, Read(d.flash).value.slot) == CompletedBoots(d, events)
  {
    hide Boot, Read, SlotOk, Handle;
    if events != [] {
      var n := |events| - 1;
      assert events[n] in events;
      ConfirmedForever(d, events[..n]);
      if events[n].BootUp? {
        ConfirmedBootsFreely(d.flash, events[n].fates);
      } else {
        UnattendedOther(Run(d, events[..n]), events[n]);
      }
    }
  }

  // -------------------------------------------------------- reachable metadata

  /** What a record the core wrote satisfies. */
  predicate Sound(r: Record) {
    && (r.state == CONFIRMED ==> r.attempts == 0)
    && (r.state == TRIAL ==> r.attempts <= MAX_ATTEMPTS)
  }

  function RegionRecord(f: Flash, index: nat): Option<Record>
    requires index < META_COUNT
  {
    Parse(MetaBytes(f, index))
  }

  /** The sequence number after `a` in 32-bit arithmetic. */
  function Successor(a: nat): nat {
    (a + 1) % U32_LIMIT
  }

  /** Both regions hold sound records, and two valid records are consecutive in 32-bit arithmetic. */
  predicate MetaSound(f: Flash) {
    && (forall i :: 0 <= i < META_COUNT && RegionRecord(f, i).Some? ==> Sound(RegionRecord(f, i).value))
    && (RegionRecord(f, 0).Some? && RegionRecord(f, 1).Some? ==>
          var a, b := RegionRecord(f, 0).value.sequence, RegionRecord(f, 1).value.sequence;
          a == Successor(b) || b == Successor(a))
  }

  /** Two valid records differ in sequence number by exactly one. */
  predicate OneApart(f: Flash) {
    RegionRecord(f, 0).Some? && RegionRecord(f, 1).Some? ==>
      var a, b := RegionRecord(f, 0).value.sequence, RegionRecord(f, 1).value.sequence;
      a == b + 1 || b == a + 1
  }

  /** Consecutive records are one apart exactly unless the older-looking one was written on a wrap. */
  lemma OneApartIff(f: Flash)
    requires MetaSound(f)
    ensures OneApart(f) <==>
              var stale := RegionRecord(f, Target(f));
              !(Exhausted(Read(f)) && stale.Some? && stale.value.sequence == 0)
  {
    hide Parse, MetaBytes;
  }

  /** The region a commit spares is the one the cell is read from. */
  lemma SparedRegion(f: Flash)
    ensures RegionRecord(f, Other(Target(f))) == Read(f)
  {
    hide Parse, MetaBytes;
  }

  lemma NextSeqFollows(f: Flash)
    ensures NextSeq(f) == (if Read(f).Some? then Successor(Read(f).value.sequence) else 1)
  {
    hide Newest;
  }

  lemma CommitKeepsMetaSound(f: Flash, slot: nat, state: byte, attempts: byte, fates: Fates)
    requires MetaSound(f) && slot < SLOT_COUNT && StateValid(state)
    requires Sound(Record(0, slot, state, attempts))
    ensures MetaSound(Commit(f, slot, state, attempts, fates).flash)
    ensures Used(Read(Commit(f, slot, state, attempts, fates).flash)) <= Used(Read(f)) + 1
  {
    hide Commit, Parse, MetaBytes, Target, Read, NextSeq;
    var g, t := Commit(f, slot, state, attempts, fates).flash, Target(f);
    CommitTarget(f, slot, state, attempts, fates);
    CommitAtomic(f, slot, state, attempts, fates);
    CommitFrame(f, slot, state, attempts, fates);
    MetaChangeFrame(f, g, t);
    SparedRegion(f);
    NextSeqFollows(f);
    var spared, renewed := RegionRecord(g, Other(t)), RegionRecord(g, t);
    assert spared == Read(f) && spared == RegionRecord(f, Other(t));
    if renewed == Some(NewRecord(f, slot, state, attempts)) {
      assert Sound(renewed.value);
      assert spared.Some? ==> renewed.value.sequence == Successor(spared.value.sequence);
    } else {
      assert renewed == None || renewed == RegionRecord(f, t);
    }
  }

  /** The record a step commits is sound. */
  lemma CommitOfSound(d: Device, e: Event)
    requires MetaSound(d.flash) && CommitOf(d, e).Some?
    ensures var c := CommitOf(d, e).value; Sound(Record(0, c.slot, c.state, c.attempts))
  {
    hide SlotOk, Parse;
  }

  /** A step that commits nothing leaves both regions as they were. */
  lemma UncommittedMeta(d: Device, e: Event)
    requires CommitOf(d, e).None?
    ensures forall i :: 0 <= i < META_COUNT ==> MetaBytes(Step(d, e).flash, i) == MetaBytes(d.flash, i)
  {
    hide CommitOf, HandleErase, HandleWrite, HandleHello, HandleVerify, HandleSetActive, Boot, Confirm, MetaBytes;
    if IsRequest(e, ERASE_SLOT) {
      EraseKeepsMeta(d, e.payload, e.fates);
    } else if IsRequest(e, WRITE) {
      WriteKeepsMeta(d, e.payload, e.fates);
    } else {
      StepCommits(d, e);
    }
  }

  lemma EraseKeepsMeta(d: Device, payload: seq<byte>, fates: Fates)
    ensures var g := HandleErase(d, payload, fates).device.flash;
            forall i :: 0 <= i < META_COUNT ==> MetaBytes(g, i) == MetaBytes(d.flash, i)
  {
    hide Erase;
    if |payload| == 1 && payload[0] < SLOT_COUNT {
      var slot := payload[0];
      EraseFrame(d.flash, SlotAt(slot), SLOT_SIZE, fates.erase);
      SlotChangeFrame(d.flash, Erase(d.flash, SlotAt(slot), SLOT_SIZE, fates.erase), slot, SlotAt(slot), SLOT_SIZE);
    }
  }

  lemma WriteKeepsMeta(d: Device, payload: seq<byte>, fates: Fates)
    ensures var g := HandleWrite(d, payload, fates).device.flash;
            forall i :: 0 <= i < META_COUNT ==> MetaBytes(g, i) == MetaBytes(d.flash, i)
  {
    hide Program;
    if WriteCheck(d.session, payload) == Ok {
      var at := SlotAt(d.session.target) + WriteOffset(payload);
      ProgramFrame(d.flash, at, payload[4..], fates.write);
      SlotChangeFrame(d.flash, Program(d.flash, at, payload[4..], fates.write), d.session.target, at, |payload| - 4);
    }
  }

  lemma SameMeta(f: Flash, g: Flash)
    requires forall i :: 0 <= i < META_COUNT ==> MetaBytes(g, i) == MetaBytes(f, i)
    ensures Read(g) == Read(f) && (MetaSound(f) ==> MetaSound(g))
  {
    hide Parse, MetaBytes;
    assert RegionRecord(g, 0) == RegionRecord(f, 0) && RegionRecord(g, 1) == RegionRecord(f, 1);
  }

  /** One step keeps the metadata sound, and moves the nomination only to a slot that validates. */
  lemma StepKeepsMetaSound(d: Device, e: Event)
    requires MetaSound(d.flash)
    ensures MetaSound(Step(d, e).flash)
    ensures Used(Read(Step(d, e).flash)) <= Used(Read(d.flash)) + 1
    ensures var before, after := Read(d.flash), Read(Step(d, e).flash);
            before != after ==>
              && after.Some?
              && ((before.Some? && before.value.slot == after.value.slot) || SlotOk(d.flash, after.value.slot))
  {
    hide Commit, Read, SlotOk, Step, MetaSound;
    match CommitOf(d, e)
    case None =>
      UncommittedMeta(d, e);
      SameMeta(d.flash, Step(d, e).flash);
    case Some(c) =>
      StepCommits(d, e);
      CommitOfSound(d, e);
      CommitKeepsMetaSound(d.flash, c.slot, c.state, c.attempts, c.fates);
      CommitAtomic(d.flash, c.slot, c.state, c.attempts, c.fates);
  }

  predicate Erased(f: Flash) {
    forall i :: 0 <= i < FLASH_SIZE ==> f.mem[i] == ERASED
  }

  lemma ErasedMetaSound(f: Flash)
    requires Erased(f)
    ensures MetaSound(f) && Read(f) == None
  {
    hide Crc32.CrcBytes;
    assert MetaBytes(f, 0)[4] == ERASED && MetaBytes(f, 1)[4] == ERASED;
  }

  /**
   Every device reachable from erased flash, by a run of any length, holds sound metadata: a
   confirmed record carries no attempts, a trial record at most three, and two valid records are
   consecutive in 32-bit arithmetic; they differ by exactly one until the last sequence number is
   the one read.
   */
  lemma {:induction false} ReachableMetaSound(d: Device, events: seq<Event>)
    requires Erased(d.flash)
    ensures MetaSound(Run(d, events).flash)
    ensures !Exhausted(Read(Run(d, events).flash)) ==> OneApart(Run(d, events).flash)
    ensures Used(Read(Run(d, events).flash)) <= |events|
  {
    hide Step, MetaSound, OneApart, Read;
    if events == [] {
      ErasedMetaSound(d.flash);
    } else {
      var n := |events| - 1;
      ReachableMetaSound(d, events[..n]);
      StepKeepsMetaSound(Run(d, events[..n]), events[n]);
    }
    OneApartIff(Run(d, events).flash);
  }
}
