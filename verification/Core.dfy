/**
 The bootloader core on values: slot selection, trial boot and rollback, the update session and
 the command handlers, each as a function of the device state and of the fates of the flash
 operations it performs.
 */
module Core {
  import opened Bytes
  import opened Optional
  import opened Flash
  import opened Status
  import opened Meta
  import opened Image

  // ------------------------------------------------------------ boot selection

  predicate SlotOk(f: Flash, slot: nat)
    requires slot < SLOT_COUNT
  {
    Validate(SlotBytes(f, slot)) == Ok
  }

  function SlotHeader(f: Flash, slot: nat): Header
    requires slot < SLOT_COUNT
  {
    DecodeHeader(SlotBytes(f, slot))
  }

  /** With no metadata: the higher version, slot A on a tie. */
  function SelectByVersion(f: Flash): (r: Option<nat>)
    ensures r.Some? ==> r.value < SLOT_COUNT && SlotOk(f, r.value)
  {
    if SlotOk(f, 0) && SlotOk(f, 1) then
      if SlotHeader(f, 1).fwVersion > SlotHeader(f, 0).fwVersion then Some(1) else Some(0)
    else if SlotOk(f, 0) then Some(0)
    else if SlotOk(f, 1) then Some(1)
    else None
  }

  /** `bl_core_select_slot`: the nominated slot while it validates, otherwise the other. */
  function Select(f: Flash): (r: Option<nat>)
    ensures r.Some? ==> r.value < SLOT_COUNT && SlotOk(f, r.value)
  {
    match Read(f)
    case None => SelectByVersion(f)
    case Some(m) =>
      if SlotOk(f, m.slot) then Some(m.slot)
      else if SlotOk(f, Other(m.slot)) then Some(Other(m.slot))
      else None
  }

  // ------------------------------------------------------- trial boot, rollback

  /** `advance_trial_state`: count the attempt, or revert once three are used up. */
  function Advance(f: Flash, fates: Fates): Outcome {
    match Read(f)
    case None => Outcome(f, Some(Ok))
    case Some(m) =>
      if m.state != TRIAL then Outcome(f, Some(Ok))
      else if m.attempts < MAX_ATTEMPTS then Commit(f, m.slot, TRIAL, m.attempts + 1, fates)
      else if SlotOk(f, Other(m.slot)) then Commit(f, Other(m.slot), CONFIRMED, 0, fates)
      else Outcome(f, Some(Ok))
  }

  datatype BootResult = JumpTo(slot: nat, address: nat) | NoImage | PowerLost

  datatype Booted = Booted(flash: Flash, result: BootResult)

  /** `bl_core_boot`: a failed commit does not stop it, a lost supply does. */
  function Boot(f: Flash, fates: Fates): Booted {
    var out := Advance(f, fates);
    if out.status.None? then Booted(out.flash, PowerLost)
    else
      match Select(out.flash)
      case None => Booted(out.flash, NoImage)
      case Some(slot) =>
        Booted(out.flash, JumpTo(slot, FLASH_BASE + SlotAt(slot) + SlotHeader(out.flash, slot).entryOffset))
  }

  /** `bl_core_mark_pending` */
  function MarkPending(f: Flash, slot: byte, fates: Fates): Outcome {
    if slot >= SLOT_COUNT then Outcome(f, Some(ErrInvalidArgument))
    else if !SlotOk(f, slot) then Outcome(f, Some(Validate(SlotBytes(f, slot))))
    else Commit(f, slot, TRIAL, 0, fates)
  }

  /** `bl_core_confirm` */
  function Confirm(f: Flash, fates: Fates): Outcome {
    match Read(f)
    case None => Outcome(f, Some(ErrNoMetadata))
    case Some(m) =>
      if m.state == CONFIRMED then Outcome(f, Some(Ok))
      else Commit(f, m.slot, CONFIRMED, 0, fates)
  }

  // ----------------------------------------------------------- update session

  datatype Session = Session(target: nat, erased: bool, highest: nat, headerWritten: bool, resetRequested: bool)

  const IDLE := Session(0, false, 0, false, false)

  predicate SessionValid(s: Session) {
    s.target < SLOT_COUNT && s.highest <= SLOT_SIZE
  }

  datatype DeviceData = DeviceData(flash: Flash, session: Session)

  type Device = d: DeviceData | SessionValid(d.session)
    witness DeviceData(FlashData(seq(FLASH_SIZE, _ => ERASED), seq(FLASH_SIZE, _ => false)), IDLE)

  const PROTO_VERSION: byte := 1
  const MAX_WRITE: nat := 504
  const NONE: byte := 0xFF

  const HELLO: byte := 0x01
  const ERASE_SLOT: byte := 0x02
  const WRITE: byte := 0x03
  const VERIFY: byte := 0x04
  const SET_ACTIVE: byte := 0x05
  const RESET: byte := 0x06

  /** The device after a request and the payload of its response; none when power was lost. */
  datatype Reply = Reply(device: Device, response: Option<seq<byte>>)

  function Refuse(d: Device, status: Status): Reply {
    Reply(d, Some([status.Code()]))
  }

  function Answer(d: Device, data: seq<byte>): Reply {
    Reply(d, Some([Ok.Code()] + data))
  }

  /** Power was lost inside the request: flash stays as it is, everything else starts over. */
  function Lost(f: Flash): Reply {
    Reply(DeviceData(f, IDLE), None)
  }

  function HelloData(f: Flash): (s: seq<byte>)
    ensures |s| == 20
  {
    Geometry() + BootBytes(Read(f))
  }

  /** The versions and sizes HELLO reports. */
  function Geometry(): (s: seq<byte>)
    ensures |s| == 17
  {
    [PROTO_VERSION, HDR_VERSION, SLOT_COUNT] + PutU32(SLOT_SIZE) + PutU32(UNIT) + PutU32(PAGE) + PutU16(MAX_WRITE)
  }

  /** The boot state HELLO reports: the authoritative record, or that there is none. */
  function BootBytes(cell: Option<Record>): (s: seq<byte>)
    requires cell.Some? ==> Storable(cell.value)
    ensures |s| == 3
  {
    match cell
    case Some(m) => [m.slot, m.state, m.attempts]
    case None => [NONE, NONE, 0]
  }

  function HandleHello(d: Device, payload: seq<byte>): Reply {
    if |payload| != 0 then Refuse(d, ErrInvalidPacket) else Answer(d, HelloData(d.flash))
  }

  function HandleErase(d: Device, payload: seq<byte>, fates: Fates): Reply {
    if |payload| != 1 then Refuse(d, ErrInvalidPacket)
    else if payload[0] >= SLOT_COUNT then Refuse(d, ErrInvalidArgument)
    else
      var slot := payload[0];
      var erased := Erase(d.flash, SlotAt(slot), SLOT_SIZE, fates.erase);
      match fates.erase
      case Cut(_) => Lost(erased)
      case Failed => Refuse(DeviceData(erased, d.session), ErrFlashErase)
      case Done => Answer(DeviceData(erased, Session(slot, true, 0, false, d.session.resetRequested)), [])
  }

  function WriteOffset(payload: seq<byte>): nat
    requires |payload| >= 5
  {
    GetU32(payload[..4])
  }

  /** The checks a WRITE passes before it touches flash. */
  function WriteCheck(s: Session, payload: seq<byte>): (r: Status)
    ensures r == Ok ==>
              && |payload| >= 5 && s.erased
              && WriteOffset(payload) + |payload| - 4 <= SLOT_SIZE
              && WriteOffset(payload) % UNIT == 0 && (|payload| - 4) % UNIT == 0
              && (WriteOffset(payload) == 0 ==> !s.headerWritten)
              && (WriteOffset(payload) != 0 ==> WriteOffset(payload) >= s.highest)
  {
    if |payload| < 5 then ErrInvalidPacket
    else if !s.erased then ErrNotErased
    else
      var offset := WriteOffset(payload);
      var len := |payload| - 4;
      if offset % UNIT != 0 || len % UNIT != 0 then ErrInvalidArgument
      else if offset == 0 && s.headerWritten then ErrNotErased
      else if offset != 0 && offset < s.highest then ErrNotErased
      else if offset > SLOT_SIZE || len > SLOT_SIZE - offset then ErrImageSize
      else Ok
  }

  /** The session once a WRITE has been programmed. */
  function Advanced(s: Session, offset: nat, len: nat): Session {
    s.(headerWritten := s.headerWritten || offset == 0,
       highest := if offset + len > s.highest then offset + len else s.highest)
  }

  function HandleWrite(d: Device, payload: seq<byte>, fates: Fates): Reply {
    var check := WriteCheck(d.session, payload);
    if check != Ok then Refuse(d, check)
    else
      var offset := WriteOffset(payload);
      var data := payload[4..];
      var written := Program(d.flash, SlotAt(d.session.target) + offset, data, fates.write);
      match fates.write
      case Cut(_) => Lost(written)
      case Failed => Refuse(DeviceData(written, d.session), ErrFlashProgram)
      case Done => Answer(DeviceData(written, Advanced(d.session, offset, |data|)), payload[..4])
  }

  function VerifyData(h: Header): (s: seq<byte>)
    requires h.imgSize < U32_LIMIT && h.fwVersion < U32_LIMIT && |h.imgCrc| == 4
    ensures |s| == 12
  {
    PutU32(h.imgSize) + h.imgCrc + PutU32(h.fwVersion)
  }

  function HandleVerify(d: Device, payload: seq<byte>): Reply {
    if |payload| != 1 then Refuse(d, ErrInvalidPacket)
    else if payload[0] >= SLOT_COUNT then Refuse(d, ErrInvalidArgument)
    else if !SlotOk(d.flash, payload[0]) then Refuse(d, Validate(SlotBytes(d.flash, payload[0])))
    else Answer(d, VerifyData(SlotHeader(d.flash, payload[0])))
  }

  function HandleSetActive(d: Device, payload: seq<byte>, fates: Fates): Reply {
    if |payload| != 1 then Refuse(d, ErrInvalidPacket)
    else
      var out := MarkPending(d.flash, payload[0], fates);
      match out.status
      case None => Lost(out.flash)
      case Some(status) => Refuse(DeviceData(out.flash, d.session), status)
  }

  function HandleReset(d: Device, payload: seq<byte>): Reply {
    if |payload| != 0 then Refuse(d, ErrInvalidPacket)
    else Answer(DeviceData(d.flash, d.session.(resetRequested := true)), [])
  }

  /** `bl_core_handle_frame` */
  function Handle(d: Device, cmd: byte, payload: seq<byte>, fates: Fates): Reply {
    if cmd == HELLO then HandleHello(d, payload)
    else if cmd == ERASE_SLOT then HandleErase(d, payload, fates)
    else if cmd == WRITE then HandleWrite(d, payload, fates)
    else if cmd == VERIFY then HandleVerify(d, payload)
    else if cmd == SET_ACTIVE then HandleSetActive(d, payload, fates)
    else if cmd == RESET then HandleReset(d, payload)
    else Refuse(d, ErrInvalidPacket)
  }

  // --------------------------------------------------------------------- runs

  datatype Event =
    | Request(cmd: byte, payload: seq<byte>, fates: Fates)
    | BootUp(fates: Fates)
    | ConfirmImage(fates: Fates)
    | PowerCycle

  /** What remains after power returns: flash persists, the session does not. */
  function Rebooted(d: Device): Device {
    DeviceData(d.flash, IDLE)
  }

  function Step(d: Device, e: Event): Device {
    match e
    case Request(cmd, payload, fates) => Handle(d, cmd, payload, fates).device
    case BootUp(fates) =>
      var booted := Boot(d.flash, fates);
      DeviceData(booted.flash, if booted.result.PowerLost? then IDLE else d.session)
    case ConfirmImage(fates) =>
      var out := Confirm(d.flash, fates);
      DeviceData(out.flash, if out.status.None? then IDLE else d.session)
    case PowerCycle => Rebooted(d)
  }

  predicate IsRequest(e: Event, cmd: byte) {
    e.Request? && e.cmd == cmd
  }

  /** The record the event commits to the metadata, if it gets as far as committing one. */
  function CommitOf(d: Device, e: Event): Option<CellWrite> {
    match e
    case Request(cmd, payload, fates) =>
      if cmd == SET_ACTIVE && |payload| == 1 && payload[0] < SLOT_COUNT && SlotOk(d.flash, payload[0]) then
        Some(CellWrite(payload[0], TRIAL, 0, fates))
      else None
    case BootUp(fates) =>
      (match Read(d.flash)
       case None => None
       case Some(m) =>
         if m.state != TRIAL then None
         else if m.attempts < MAX_ATTEMPTS then Some(CellWrite(m.slot, TRIAL, m.attempts + 1, fates))
         else if SlotOk(d.flash, Other(m.slot)) then Some(CellWrite(Other(m.slot), CONFIRMED, 0, fates))
         else None)
    case ConfirmImage(fates) =>
      (match Read(d.flash)
       case None => None
       case Some(m) => if m.state == CONFIRMED then None else Some(CellWrite(m.slot, CONFIRMED, 0, fates)))
    case PowerCycle => None
  }

  /**
   Apart from ERASE_SLOT and WRITE, a step changes flash by one commit or not at all. A commit
   keeps the nominated slot or nominates one that validates. The session survives or starts over.
   */
  lemma StepCommits(d: Device, e: Event)
    requires !IsRequest(e, ERASE_SLOT) && !IsRequest(e, WRITE)
    ensures Step(d, e).flash == (match CommitOf(d, e)
                                 case None => d.flash
                                 case Some(c) => Commit(d.flash, c.slot, c.state, c.attempts, c.fates).flash)
    ensures CommitOf(d, e).Some? ==>
              var c := CommitOf(d, e).value;
              WriteValid(c) && (SlotOk(d.flash, c.slot) || (Read(d.flash).Some? && Read(d.flash).value.slot == c.slot))
    ensures Step(d, e).session == IDLE
         || Step(d, e).session.(resetRequested := d.session.resetRequested) == d.session
  {
    hide Commit, Read, SlotOk, Select, SlotHeader, HandleHello, HandleVerify;
    if e.Request? && (e.cmd == HELLO || e.cmd == VERIFY) {
      QueryStep(d, e.cmd, e.payload, e.fates);
    }
  }

  lemma QueryStep(d: Device, cmd: byte, payload: seq<byte>, fates: Fates)
    requires cmd == HELLO || cmd == VERIFY
    ensures Handle(d, cmd, payload, fates).device == d
  {
    hide Read, SlotOk, SlotHeader, Validate, HelloData, VerifyData;
  }

  function Run(d: Device, events: seq<Event>): Device {
    if events == [] then d else Step(Run(d, events[..|events| - 1]), events[|events| - 1])
  }
}
