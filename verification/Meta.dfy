/**
 Persistent boot metadata: two interchangeable regions written alternately, behaving as one
 cell that an interrupted commit leaves either unchanged or replaced.
 */
module Meta {
  import opened Bytes
  import opened Crc32
  import opened Flash
  import opened Status
  import opened Optional

  const CONFIRMED: byte := 0x01
  const TRIAL: byte := 0x02
  const MAX_ATTEMPTS: nat := 3

  /** The last sequence number; the counter wraps to zero after it. */
  const LAST_SEQ: nat := U32_LIMIT - 1

  datatype Record = Record(sequence: nat, slot: nat, state: byte, attempts: byte)

  predicate StateValid(state: byte) {
    state == CONFIRMED || state == TRIAL
  }

  predicate Storable(r: Record) {
    r.sequence <= LAST_SEQ && r.slot < SLOT_COUNT && StateValid(r.state)
  }

  /** The fields the checksum covers. */
  function Fields(r: Record): (s: seq<byte>)
    requires Storable(r)
    ensures |s| == 12
  {
    PutU32(r.sequence) + [r.slot, r.state, r.attempts] + Fill(5, 0)
  }

  function RecordBytes(r: Record): (s: seq<byte>)
    requires Storable(r)
    ensures |s| == RECORD
  {
    Fields(r) + CrcBytes(Fields(r))
  }

  /** The record a region holds, if its checksum matches and its fields are in range. */
  function Parse(s: seq<byte>): (r: Option<Record>)
    requires |s| == RECORD
    ensures r.Some? ==> Storable(r.value)
  {
    if s[12..] != CrcBytes(s[..12]) then None
    else if s[4] >= SLOT_COUNT then None
    else if !StateValid(s[5]) then None
    else Some(Record(GetU32(s[..4]), s[4], s[5], s[6]))
  }

  datatype Located = Located(record: Record, index: nat)

  /** The authoritative record: the valid one with the highest sequence number, and its region. */
  function Newest(f: Flash): (r: Option<Located>)
    ensures r.Some? ==> r.value.index < META_COUNT && Parse(MetaBytes(f, r.value.index)) == Some(r.value.record)
  {
    NewestOf(Parse(MetaBytes(f, 0)), Parse(MetaBytes(f, 1)))
  }

  function NewestOf(first: Option<Record>, second: Option<Record>): (r: Option<Located>)
    ensures r.Some? ==> r.value.index < META_COUNT
    ensures r.Some? ==> Some(r.value.record) == if r.value.index == 0 then first else second
  {
    match (first, second)
    case (Some(a), Some(b)) => if b.sequence > a.sequence then Some(Located(b, 1)) else Some(Located(a, 0))
    case (Some(a), None) => Some(Located(a, 0))
    case (None, Some(b)) => Some(Located(b, 1))
    case (None, None) => None
  }

  /** `bl_meta_read`: the abstract cell the two regions implement. */
  function Read(f: Flash): (r: Option<Record>)
    ensures r.Some? ==> Storable(r.value)
  {
    match Newest(f)
    case Some(l) => Some(l.record)
    case None => None
  }

  /** The sequence number the next record gets; 32-bit addition. */
  function NextSeq(f: Flash): (n: nat)
    ensures n <= LAST_SEQ
  {
    match Newest(f)
    case Some(l) => (l.record.sequence + 1) % U32_LIMIT
    case None => 1
  }

  /** The region the next record goes to: never the authoritative one. */
  function Target(f: Flash): (i: nat)
    ensures i < META_COUNT
  {
    match Newest(f)
    case Some(l) => Other(l.index)
    case None => 0
  }

  /** The fates of the two flash operations of one core operation. */
  datatype Fates = Fates(erase: Fate, write: Fate)

  /** What an operation left in flash and what it returned; nothing when power was lost in it. */
  datatype Outcome = Outcome(flash: Flash, status: Option<Status>)

  function NewRecord(f: Flash, slot: nat, state: byte, attempts: byte): Record {
    Record(NextSeq(f), slot, state, attempts)
  }

  /** `bl_meta_commit`: erase the other region, program the record, read it back. */
  function Commit(f: Flash, slot: nat, state: byte, attempts: byte, fates: Fates): Outcome {
    if slot >= SLOT_COUNT || !StateValid(state) then Outcome(f, Some(ErrInvalidArgument))
    else
      var record := NewRecord(f, slot, state, attempts);
      var at := MetaAt(Target(f));
      var erased := Erase(f, at, META_SIZE, fates.erase);
      match fates.erase
      case Failed => Outcome(erased, Some(ErrFlashErase))
      case Cut(_) => Outcome(erased, None)
      case Done =>
        var written := Program(erased, at, RecordBytes(record), fates.write);
        match fates.write
        case Failed => Outcome(written, Some(ErrFlashProgram))
        case Cut(_) => Outcome(written, None)
        case Done =>
          if Parse(MetaBytes(written, Target(f))) == Some(record) then Outcome(written, Some(Ok))
          else Outcome(written, Some(ErrFlashVerify))
  }

  // -------------------------------------------------------------- one region

  lemma ParseRecord(r: Record)
    requires Storable(r)
    ensures Parse(RecordBytes(r)) == Some(r)
    ensures RecordBytes(r)[7..12] == [0, 0, 0, 0, 0]
  {
    hide CrcBytes, Bytes.GetU32, Bytes.PutU32;
    var s := RecordBytes(r);
    assert s[..12] == Fields(r);
    assert s[..4] == PutU32(r.sequence);
    U32RoundTrip(r.sequence);
  }

  /**
   What a region holds, byte by byte: a sequence number, least significant byte first, slot, state
   and attempts, then five bytes that do not matter, and the checksum of all that.
   */
  lemma ParseIff(s: seq<byte>, r: Record)
    requires |s| == RECORD
    ensures Parse(s) == Some(r) <==>
              && s[12..16] == CrcBytes(s[..12])
              && r.sequence == Field32(s, 0)
              && r.slot == s[4] < 2
              && r.state == s[5] && (s[5] == 1 || s[5] == 2)
              && r.attempts == s[6]
  {
    hide CrcBytes, Bytes.GetU32;
    U32Bytes(s[..4]);
  }

  /** The record's bytes when only some of its two programming units took effect. */
  predicate Torn(s: seq<byte>, r: Record, fate: Fate)
    requires |s| == RECORD && Storable(r)
  {
    forall i :: 0 <= i < RECORD ==> s[i] == if fate.Reaches(i / UNIT) then RecordBytes(r)[i] else ERASED
  }

  /**
   Whatever subset of the record's two programming units took effect, the region reads as the
   whole record or as absent. Every field that matters lies in the first unit, so this needs no
   assumption about checksum collisions.
   */
  lemma ParseTorn(s: seq<byte>, r: Record, fate: Fate)
    requires |s| == RECORD && Storable(r) && Torn(s, r, fate)
    ensures Parse(s) == None || Parse(s) == Some(r)
  {
    hide CrcBytes, Bytes.GetU32, Bytes.PutU32;
    if fate.Reaches(0) {
      assert forall i :: 0 <= i < 8 ==> i / UNIT == 0;
      assert s[..8] == RecordBytes(r)[..8];
      assert s[..4] == PutU32(r.sequence);
      U32RoundTrip(r.sequence);
    } else {
      assert 4 / UNIT == 0;
    }
  }

  // ------------------------------------------------------------------ commits

  /** A commit, however it ends, touches its target region only. */
  lemma CommitFrame(f: Flash, slot: nat, state: byte, attempts: byte, fates: Fates)
    ensures SameOutside(f, Commit(f, slot, state, attempts, fates).flash, MetaAt(Target(f)), META_SIZE)
  {
    hide RecordBytes, Parse, Erase, Program;
    if slot < SLOT_COUNT && StateValid(state) {
      var at := MetaAt(Target(f));
      var erased := Erase(f, at, META_SIZE, fates.erase);
      var data := RecordBytes(NewRecord(f, slot, state, attempts));
      EraseFrame(f, at, META_SIZE, fates.erase);
      ProgramFrame(erased, at, data, fates.write);
      SameOutsideTransitive(f, erased, Program(erased, at, data, fates.write), at, META_SIZE, at, RECORD);
    }
  }

  lemma CommitSlots(f: Flash, slot: nat, state: byte, attempts: byte, fates: Fates)
    ensures var out := Commit(f, slot, state, attempts, fates);
            forall s :: 0 <= s < SLOT_COUNT ==> SlotBytes(out.flash, s) == SlotBytes(f, s)
  {
    hide Commit;
    CommitFrame(f, slot, state, attempts, fates);
    MetaChangeFrame(f, Commit(f, slot, state, attempts, fates).flash, Target(f));
  }

  /** Programming a record into a region just erased leaves it torn as the cut says. */
  lemma TornByCut(f: Flash, t: nat, record: Record, fates: Fates)
    requires t < META_COUNT && Storable(record) && fates.erase.Done?
    ensures var erased := Erase(f, MetaAt(t), META_SIZE, fates.erase);
            Torn(MetaBytes(Program(erased, MetaAt(t), RecordBytes(record), fates.write), t), record, fates.write)
  {
    hide RecordBytes, Erase;
    var at, data := MetaAt(t), RecordBytes(record);
    var erased := Erase(f, at, META_SIZE, fates.erase);
    EraseDone(f, at, META_SIZE, fates.erase);
    var written := Program(erased, at, data, fates.write);
    var s := MetaBytes(written, t);
    forall i | 0 <= i < RECORD
      ensures s[i] == if fates.write.Reaches(i / UNIT) then data[i] else ERASED
    {
      assert s[i] == written.mem[at + i];
      assert erased.mem[at + i] == erased.mem[at..at + META_SIZE][i] == ERASED;
      assert (at + i - at) / UNIT == i / UNIT;
    }
  }

  /** What the target region reads as afterwards. */
  lemma CommitTarget(f: Flash, slot: nat, state: byte, attempts: byte, fates: Fates)
    requires slot < SLOT_COUNT && StateValid(state)
    ensures var out := Commit(f, slot, state, attempts, fates);
            var record := NewRecord(f, slot, state, attempts);
            var region := Parse(MetaBytes(out.flash, Target(f)));
            && (region == Parse(MetaBytes(f, Target(f))) || region == None || region == Some(record))
            && (fates.erase.Done? ==> region == None || region == Some(record))
            && (out.status == Some(Ok) <==> fates.erase.Done? && fates.write.Done?)
            && (out.status == Some(Ok) ==> region == Some(record))
  {
    hide Parse, RecordBytes, Newest, Erase, Program, Torn;
    var record := NewRecord(f, slot, state, attempts);
    var t := Target(f);
    var at := MetaAt(t);
    var erased := Erase(f, at, META_SIZE, fates.erase);
    if fates.erase.Done? {
      var written := Program(erased, at, RecordBytes(record), fates.write);
      var s := MetaBytes(written, t);
      TornByCut(f, t, record, fates);
      ParseTorn(s, record, fates.write);
      if fates.write.Done? {
        ProgramDone(erased, at, RecordBytes(record), fates.write);
        ParseRecord(record);
      }
    } else {
      EraseReadsOldOrAbsent(f, t, fates.erase);
    }
  }

  /** A metadata region is one page, so an interrupted erase takes all of it or nothing. */
  lemma EraseReadsOldOrAbsent(f: Flash, t: nat, fate: Fate)
    requires t < META_COUNT
    ensures var g := Erase(f, MetaAt(t), META_SIZE, fate);
            Parse(MetaBytes(g, t)) == Parse(MetaBytes(f, t)) || Parse(MetaBytes(g, t)) == None
  {
    hide CrcBytes, Bytes.GetU32;
    var g := Erase(f, MetaAt(t), META_SIZE, fate);
    var s := MetaBytes(g, t);
    forall i | 0 <= i < RECORD
      ensures s[i] == if fate.Reaches(0) then ERASED else MetaBytes(f, t)[i]
    {
      assert s[i] == g.mem[MetaAt(t) + i];
      assert (MetaAt(t) + i - MetaAt(t)) / PAGE == 0;
    }
    if fate.Reaches(0) {
      assert s[4] == ERASED;
    } else {
      assert s == MetaBytes(f, t);
    }
  }

  /** What a commit reports tells exactly how its erase and its write ended. */
  lemma CommitStatus(f: Flash, slot: nat, state: byte, attempts: byte, fates: Fates)
    ensures var out := Commit(f, slot, state, attempts, fates);
            if slot >= SLOT_COUNT || !StateValid(state) then out == Outcome(f, Some(ErrInvalidArgument))
            else
              && (out.status == Some(Ok) <==> fates.erase.Done? && fates.write.Done?)
              && (out.status == Some(ErrFlashErase) <==> fates.erase.Failed?)
              && (out.status == Some(ErrFlashProgram) <==> fates.erase.Done? && fates.write.Failed?)
              && (out.status == None <==> fates.erase.Cut? || (fates.erase.Done? && fates.write.Cut?))
              && (out.status == Some(ErrFlashErase) ==> out.flash == f)
  {
    hide Parse, RecordBytes, Newest, Erase, Program;
    if slot < SLOT_COUNT && StateValid(state) {
      CommitTarget(f, slot, state, attempts, fates);
      if fates.erase.Failed? {
        EraseFailed(f, MetaAt(Target(f)), META_SIZE, fates.erase);
      }
    }
  }

  /** The record read is a valid one with the highest sequence number; region 0 on a tie. */
  lemma ReadIsNewest(f: Flash)
    ensures var a, b := Parse(MetaBytes(f, 0)), Parse(MetaBytes(f, 1));
            && (Read(f) == None <==> a == None && b == None)
            && (Read(f) == a || Read(f) == b)
            && (a.Some? ==> a.value.sequence <= Read(f).value.sequence)
            && (b.Some? ==> b.value.sequence <= Read(f).value.sequence)
            && (a.Some? && b.Some? && a.value.sequence == b.value.sequence ==> Read(f) == a)
  {
    hide Parse, MetaBytes;
  }

  /**
   A completed commit leaves the record it supersedes where it was and puts the new one beside it;
   the first record of a device goes to region 0 under sequence number 1.
   */
  lemma CommitAlternates(f: Flash, slot: nat, state: byte, attempts: byte, fates: Fates)
    requires slot < SLOT_COUNT && StateValid(state) && fates.erase.Done? && fates.write.Done?
    ensures var g := Commit(f, slot, state, attempts, fates).flash;
            var a, b := Parse(MetaBytes(g, 0)), Parse(MetaBytes(g, 1));
            match Read(f)
            case None => a == Some(Record(1, slot, state, attempts)) && MetaBytes(g, 1) == MetaBytes(f, 1)
            case Some(m) =>
              var next := Some(Record((m.sequence + 1) % 0x1_0000_0000, slot, state, attempts));
              (a == Some(m) && b == next) || (a == next && b == Some(m))
  {
    hide Parse, MetaBytes, Commit;
    var g := Commit(f, slot, state, attempts, fates).flash;
    CommitTarget(f, slot, state, attempts, fates);
    CommitFrame(f, slot, state, attempts, fates);
    MetaChangeFrame(f, g, Target(f));
  }

  /** The counter is about to wrap: the next record would look older than the current one. */
  predicate Exhausted(cell: Option<Record>) {
    cell.Some? && cell.value.sequence == LAST_SEQ
  }

  /**
   A commit is atomic. Cut anywhere, with any subset of its flash operations taking effect, it
   leaves the cell as it was or holding the new record. A reported success means the new record
   exactly while the sequence counter does not wrap; on the wrap it never takes effect.
   */
  lemma CommitAtomic(f: Flash, slot: nat, state: byte, attempts: byte, fates: Fates)
    requires slot < SLOT_COUNT && StateValid(state)
    ensures var out := Commit(f, slot, state, attempts, fates);
            var record := NewRecord(f, slot, state, attempts);
            && (Read(out.flash) == Read(f) || Read(out.flash) == Some(record))
            && (out.status == Some(Ok) <==> fates.erase.Done? && fates.write.Done?)
            && (out.status == Some(Ok) ==> (Read(out.flash) == Some(record) <==> !Exhausted(Read(f))))
            && (Exhausted(Read(f)) ==> Read(out.flash) == Read(f))
  {
    hide Commit, Parse;
    CommitTarget(f, slot, state, attempts, fates);
    CommitFrame(f, slot, state, attempts, fates);
    MetaChangeFrame(f, Commit(f, slot, state, attempts, fates).flash, Target(f));
  }

  /** Erased flash holding one confirmed record that carries the last sequence number. */
  function WornFlash(): Flash {
    Program(FactoryFlash(), MetaAt(0), RecordBytes(Record(LAST_SEQ, 0, CONFIRMED, 0)), Done)
  }

  /** On the wrap a commit reports success and the old record is still the one read. */
  lemma WrapIgnoresCommit()
    ensures var out := Commit(WornFlash(), 1, TRIAL, 0, Fates(Done, Done));
            && out.status == Some(Ok)
            && Read(out.flash) == Read(WornFlash()) == Some(Record(LAST_SEQ, 0, CONFIRMED, 0))
  {
    hide Commit, RecordBytes, CrcBytes;
    var worn := Record(LAST_SEQ, 0, CONFIRMED, 0);
    var f := WornFlash();
    var blank := FactoryFlash();
    ProgramDone(blank, MetaAt(0), RecordBytes(worn), Done);
    ProgramFrame(blank, MetaAt(0), RecordBytes(worn), Done);
    ParseRecord(worn);
    assert MetaBytes(f, 1)[4] == ERASED;
    CommitAtomic(f, 1, TRIAL, 0, Fates(Done, Done));
  }

  // --------------------------------------------------------------- refinement

  datatype CellWrite = CellWrite(slot: nat, state: byte, attempts: byte, fates: Fates)

  predicate WriteValid(r: CellWrite) {
    r.slot < SLOT_COUNT && StateValid(r.state)
  }

  /** The concrete store after a series of commits, each ending as its fates say. */
  function CommitAll(f: Flash, requests: seq<CellWrite>): Flash {
    if requests == [] then f
    else
      var n := |requests| - 1;
      var r := requests[n];
      Commit(CommitAll(f, requests[..n]), r.slot, r.state, r.attempts, r.fates).flash
  }

  /** The record a request would put in the cell. */
  function Replacement(cell: Option<Record>, r: CellWrite): Record {
    Record(if cell.Some? then cell.value.sequence + 1 else 1, r.slot, r.state, r.attempts)
  }

  /** The abstract cell: a request that takes effect replaces it, one that does not leaves it. */
  function CellAfter(cell: Option<Record>, requests: seq<CellWrite>, taken: seq<bool>): Option<Record>
    requires |requests| == |taken|
  {
    if requests == [] then cell
    else
      var n := |requests| - 1;
      var before := CellAfter(cell, requests[..n], taken[..n]);
      if taken[n] then Some(Replacement(before, requests[n])) else before
  }

  lemma NextSeqOfCell(f: Flash)
    requires !Exhausted(Read(f))
    ensures NextSeq(f) == Used(Read(f)) + 1
  {
    hide Newest, Parse;
    if Newest(f).Some? {
      assert Read(f) == Some(Newest(f).value.record);
    }
  }

  lemma CommitRefinesCell(f: Flash, r: CellWrite)
    requires WriteValid(r)
    ensures var after := Read(Commit(f, r.slot, r.state, r.attempts, r.fates).flash);
            && (after == Read(f) || after == Some(Replacement(Read(f), r)))
            && (r.fates == Fates(Done, Done) && !Exhausted(Read(f)) ==> after == Some(Replacement(Read(f), r)))
            && (Exhausted(Read(f)) ==> after == Read(f))
  {
    hide Commit, Read, NextSeq;
    CommitAtomic(f, r.slot, r.state, r.attempts, r.fates);
    if !Exhausted(Read(f)) {
      NextSeqOfCell(f);
    }
  }

  function Used(cell: Option<Record>): nat {
    if cell.Some? then cell.value.sequence else 0
  }

  /**
   The ping-pong store refines one cell over any series of commits: there is a choice of which
   commits took effect under which the cell goes through the same values. Until the last sequence
   number is used that includes every commit that reported success; from then on it includes none.
   */
  lemma {:induction false} StoreRefinesCell(f: Flash, requests: seq<CellWrite>) returns (taken: seq<bool>)
    requires forall i :: 0 <= i < |requests| ==> WriteValid(requests[i])
    ensures |taken| == |requests|
    ensures Read(CommitAll(f, requests)) == CellAfter(Read(f), requests, taken)
    ensures forall i :: 0 <= i < |requests| ==>
              var before := CellAfter(Read(f), requests[..i], taken[..i]);
              && (requests[i].fates == Fates(Done, Done) && !Exhausted(before) ==> taken[i])
              && (Exhausted(before) ==> !taken[i])
  {
    hide Commit, Read;
    if requests == [] {
      return [];
    }
    var n := |requests| - 1;
    var rest := StoreRefinesCell(f, requests[..n]);
    var g := CommitAll(f, requests[..n]);
    CommitRefinesCell(g, requests[n]);
    var took := Read(CommitAll(f, requests)) == Some(Replacement(Read(g), requests[n]));
    taken := rest + [took];
    assert taken[..n] == rest;
    forall i | 0 <= i < n
      ensures requests[..i] == requests[..n][..i] && taken[..i] == rest[..i]
    {
    }
  }
}
