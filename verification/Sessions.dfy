/**
 Which writes an update session accepts, told from its history alone. The device keeps a high-water
 mark and a flag; what they amount to is a list of the writes programmed since the erase that opened
 the session.
 */
module Sessions {
  import opened Bytes
  import opened Optional
  import opened Flash
  import opened Status
  import opened Meta
  import opened Core
  import opened Programming
  import opened Retry

  datatype Span = Span(at: nat, len: nat)

  /** An open session: the slot that was erased and what has been programmed in it since. */
  datatype Log = Log(slot: nat, spans: seq<Span>)

  /** Offset and data of a write, in whole units and inside the slot. */
  predicate Fits(payload: seq<byte>) {
    |payload| >= 5 && Aligned(payload) && Field32(payload, 0) + |payload| - 4 <= SLOT_SIZE
  }

  predicate Aligned(payload: seq<byte>)
    requires |payload| >= 5
  {
    Field32(payload, 0) % 8 == 0 && (|payload| - 4) % 8 == 0
  }

  /** A write at the slot's start comes once; any other must not begin before the end of an earlier one. */
  predicate Overtaken(spans: seq<Span>, offset: nat) {
    if offset == 0 then exists i :: 0 <= i < |spans| && spans[i].at == 0
    else exists i :: 0 <= i < |spans| && spans[i].at + spans[i].len > offset
  }

  predicate Accepted(log: Option<Log>, payload: seq<byte>) {
    log.Some? && Fits(payload) && !Overtaken(log.value.spans, Field32(payload, 0))
  }

  /** Power is lost in the event: in an erase, in an accepted write or in a commit. */
  predicate PowerFails(log: Option<Log>, d: Device, e: Event) {
    if IsRequest(e, ERASE_SLOT) then |e.payload| == 1 && e.payload[0] < SLOT_COUNT && e.fates.erase.Cut?
    else if IsRequest(e, WRITE) then Accepted(log, e.payload) && e.fates.write.Cut?
    else if e.PowerCycle? then true
    else CommitOf(d, e).Some? && (e.fates.erase.Cut? || (e.fates.erase.Done? && e.fates.write.Cut?))
  }

  /** What an event adds to the history. */
  function Logged(log: Option<Log>, d: Device, e: Event): Option<Log> {
    if PowerFails(log, d, e) then None
    else if Opens(e) then Some(Log(e.payload[0], []))
    else if IsRequest(e, WRITE) && Accepted(log, e.payload) && e.fates.write.Done? then
      Some(Log(log.value.slot, log.value.spans + [Span(Field32(e.payload, 0), |e.payload| - 4)]))
    else log
  }

  /** The open session after a run, if there is one. */
  function LogOf(d: Device, events: seq<Event>): Option<Log> {
    if events == [] then None
    else
      var n := |events| - 1;
      Logged(LogOf(d, events[..n]), Run(d, events[..n]), events[n])
  }

  // ------------------------------------------------- what the session remembers

  /** The high-water mark is the furthest end of a write, the flag whether one began the slot. */
  predicate Remembers(s: Session, log: Option<Log>) {
    && (s.erased <==> log.Some?)
    && (log.Some? ==>
          var spans := log.value.spans;
          && s.target == log.value.slot < SLOT_COUNT
          && (s.headerWritten <==> exists i :: 0 <= i < |spans| && spans[i].at == 0)
          && (forall i :: 0 <= i < |spans| ==> spans[i].at + spans[i].len <= s.highest)
          && (s.highest > 0 ==> exists i :: 0 <= i < |spans| && spans[i].at + spans[i].len == s.highest))
  }

  lemma RemembersOvertaken(s: Session, log: Option<Log>, offset: nat)
    requires Remembers(s, log) && log.Some?
    ensures Overtaken(log.value.spans, offset) <==> if offset == 0 then s.headerWritten else offset < s.highest
  {
    var spans := log.value.spans;
    if offset != 0 && offset < s.highest {
      var i :| 0 <= i < |spans| && spans[i].at + spans[i].len == s.highest;
      assert spans[i].at + spans[i].len > offset;
    }
  }

  /** The checks of the device, in their order, say what the history does. */
  lemma CheckFromHistory(s: Session, log: Option<Log>, payload: seq<byte>)
    requires Remembers(s, log)
    ensures WriteCheck(s, payload) ==
            if |payload| < 5 then ErrInvalidPacket
            else if log.None? then ErrNotErased
            else if !Aligned(payload) then ErrInvalidArgument
            else if Overtaken(log.value.spans, Field32(payload, 0)) then ErrNotErased
            else if !Fits(payload) then ErrImageSize
            else Ok
  {
    hide Remembers, Overtaken, Bytes.GetU32;
    RemembersErased(s, log);
    if |payload| >= 5 {
      U32Bytes(payload[..4]);
      if log.Some? {
        RemembersOvertaken(s, log, Field32(payload, 0));
      }
    }
  }

  lemma RemembersErased(s: Session, log: Option<Log>)
    requires Remembers(s, log)
    ensures s.erased <==> log.Some?
    ensures log.Some? ==> s.target == log.value.slot
  {
  }

  lemma SpanAdded(s: Session, log: Log, offset: nat, len: nat)
    requires Remembers(s, Some(log))
    ensures Remembers(Advanced(s, offset, len), Some(Log(log.slot, log.spans + [Span(offset, len)])))
  {
    var before, after := log.spans, log.spans + [Span(offset, len)];
    var t := Advanced(s, offset, len);
    assert after[|before|] == Span(offset, len);
    assert forall i :: 0 <= i < |before| ==> after[i] == before[i];
    if t.highest > 0 && t.highest != offset + len {
      var i :| 0 <= i < |before| && before[i].at + before[i].len == s.highest;
      assert after[i].at + after[i].len == t.highest;
    }
    if t.headerWritten && offset != 0 {
      var i :| 0 <= i < |before| && before[i].at == 0;
      assert after[i].at == 0;
    }
  }

  lemma SessionAfterCommit(d: Device, e: Event)
    requires !IsRequest(e, ERASE_SLOT) && !IsRequest(e, WRITE)
    ensures var cut := e.PowerCycle? ||
                       (CommitOf(d, e).Some? && (e.fates.erase.Cut? || (e.fates.erase.Done? && e.fates.write.Cut?)));
            if cut then Step(d, e).session == IDLE
            else Step(d, e).session.(resetRequested := d.session.resetRequested) == d.session
  {
    hide Commit, Read, SlotOk, SlotHeader, Select, HandleHello, HandleVerify;
    if e.Request? && (e.cmd == HELLO || e.cmd == VERIFY) {
      QueryStep(d, e.cmd, e.payload, e.fates);
    }
    if CommitOf(d, e).Some? {
      var c := CommitOf(d, e).value;
      CommitStatus(d.flash, c.slot, c.state, c.attempts, c.fates);
    }
  }

  lemma StepRemembers(d: Device, e: Event, log: Option<Log>)
    requires Remembers(d.session, log)
    ensures Remembers(Step(d, e).session, Logged(log, d, e))
  {
    hide CommitOf, WriteCheck, Program, Erase, Boot, Confirm, HandleHello, HandleVerify, HandleSetActive, Bytes.GetU32;
    hide Remembers, Overtaken;
    NothingRemembered();
    if IsRequest(e, WRITE) {
      CheckFromHistory(d.session, log, e.payload);
      if |e.payload| >= 5 {
        U32Bytes(e.payload[..4]);
      }
      if Accepted(log, e.payload) {
        SpanAdded(d.session, log.value, Field32(e.payload, 0), |e.payload| - 4);
      }
    } else if IsRequest(e, ERASE_SLOT) {
      if Opens(e) {
        FreshlyErased(e.payload[0], d.session.resetRequested);
      }
    } else {
      SessionAfterCommit(d, e);
      ResetForgotten(d.session, Step(d, e).session, log);
    }
  }

  lemma NothingRemembered()
    ensures Remembers(IDLE, None)
  {
  }

  lemma FreshlyErased(slot: nat, reset: bool)
    requires slot < SLOT_COUNT
    ensures Remembers(Session(slot, true, 0, false, reset), Some(Log(slot, [])))
  {
  }

  lemma ResetForgotten(s: Session, t: Session, log: Option<Log>)
    ensures t.(resetRequested := s.resetRequested) == s && Remembers(s, log) ==> Remembers(t, log)
  {
  }

  lemma {:induction false} RunRemembers(d: Device, events: seq<Event>)
    requires d.session == IDLE
    ensures Remembers(Run(d, events).session, LogOf(d, events))
  {
    hide Step, Remembers, Logged;
    if events == [] {
      NothingRemembered();
    } else {
      var n := |events| - 1;
      RunRemembers(d, events[..n]);
      StepRemembers(Run(d, events[..n]), events[n], LogOf(d, events[..n]));
    }
  }

  // ------------------------------------------------------------- main results

  predicate Refuses(r: Reply, d: Device, status: Status) {
    r.device == d && AnsweredWith(r.response, status)
  }

  /**
   Every WRITE after every run is decided by the history: what it is refused for, and that it is
   otherwise accepted.
   */
  lemma WriteDecided(d: Device, events: seq<Event>, payload: seq<byte>, fates: Fates)
    requires d.session == IDLE
    ensures var now, log := Run(d, events), LogOf(d, events);
            var r := Handle(now, WRITE, payload, fates);
            && (|payload| < 5 ==> Refuses(r, now, ErrInvalidPacket))
            && (|payload| >= 5 && log.None? ==> Refuses(r, now, ErrNotErased))
            && (|payload| >= 5 && log.Some? ==>
                  var overtaken := Overtaken(log.value.spans, Field32(payload, 0));
                  && (!Aligned(payload) ==> Refuses(r, now, ErrInvalidArgument))
                  && (Aligned(payload) && overtaken ==> Refuses(r, now, ErrNotErased))
                  && (Aligned(payload) && !overtaken && !Fits(payload) ==> Refuses(r, now, ErrImageSize)))
            && (Accepted(log, payload) && fates.write.Failed? ==> Refuses(r, now, ErrFlashProgram))
            && (Accepted(log, payload) && fates.write.Done? ==> r.response == Some([Ok.Code()] + payload[..4]))
            && (Accepted(log, payload) && fates.write.Cut? ==> r.response == None && r.device.session == IDLE)
  {
    hide Run, LogOf, WriteCheck, Program, Overtaken, Remembers, Bytes.GetU32;
    var now, log := Run(d, events), LogOf(d, events);
    RunRemembers(d, events);
    CheckFromHistory(now.session, log, payload);
    if WriteCheck(now.session, payload) == Ok && fates.write.Failed? {
      ProgramFailed(now.flash, SlotAt(now.session.target) + WriteOffset(payload), payload[4..], fates.write);
    }
  }

  /** An accepted write that completes puts its data at its offset in the erased slot, and nowhere else. */
  lemma WriteLands(d: Device, events: seq<Event>, payload: seq<byte>, fates: Fates)
    requires d.session == IDLE && Accepted(LogOf(d, events), payload) && fates.write.Done?
    ensures var before, after := Run(d, events).flash, Handle(Run(d, events), WRITE, payload, fates).device.flash;
            var slot := LogOf(d, events).value.slot;
            && slot < SLOT_COUNT
            && var at := SlotAt(slot) + Field32(payload, 0);
            && SameOutside(before, after, at, |payload| - 4)
            && after.mem[at..at + |payload| - 4] == payload[4..]
  {
    hide Run, LogOf, WriteCheck, Program, Overtaken, SameOutside, Bytes.GetU32;
    var now, log := Run(d, events), LogOf(d, events);
    RunRemembers(d, events);
    CheckFromHistory(now.session, log, payload);
    U32Bytes(payload[..4]);
    var at := SlotAt(now.session.target) + Field32(payload, 0);
    ProgramDone(now.flash, at, payload[4..], fates.write);
    ProgramFrame(now.flash, at, payload[4..], fates.write);
  }

  /**
   An aligned write with data inside the slot is refused as not erased exactly when no session is
   open, when it is at offset zero and one has been there, or when an earlier one ended beyond it;
   otherwise it is acknowledged, flash permitting.
   */
  lemma RefusedIff(d: Device, events: seq<Event>, payload: seq<byte>, fates: Fates)
    requires d.session == IDLE && Fits(payload) && fates.write.Done?
    ensures var log, offset := LogOf(d, events), Field32(payload, 0);
            var answer := Handle(Run(d, events), WRITE, payload, fates).response;
            var refused :=
              || log == None
              || (offset == 0 && exists i :: 0 <= i < |log.value.spans| && log.value.spans[i].at == 0)
              || (offset != 0 && exists i :: 0 <= i < |log.value.spans| &&
                                             log.value.spans[i].at + log.value.spans[i].len > offset);
            && (AnsweredWith(answer, ErrNotErased) <==> refused)
            && (answer == Some([Ok.Code()] + payload[..4]) <==> !refused)
  {
    hide Run, LogOf, Handle, Fits;
    WriteDecided(d, events, payload, fates);
    FitsAligned(payload);
  }

  lemma FitsAligned(payload: seq<byte>)
    ensures Fits(payload) ==> |payload| >= 5 && Aligned(payload)
  {
  }
}
