/**
 The simulated flash: what it holds, which bytes have been programmed since their last erase,
 the layout of its regions, and what an operation leaves behind when it fails or loses power.
 */
module Flash {
  import opened Bytes

  const FLASH_BASE: nat := 0x0800_0000
  const FLASH_SIZE: nat := 0x4_0000

  /** Erase granularity. */
  const PAGE: nat := 2048

  /** Write granularity: one 64-bit programming operation. */
  const UNIT: nat := 8

  const SLOT_COUNT: nat := 2
  const SLOT_SIZE: nat := 0x1_B000
  const META_COUNT: nat := 2
  const META_SIZE: nat := 0x800

  /** Size of one metadata record. */
  const RECORD: nat := 16

  /** Flash offset of a firmware slot. */
  function SlotAt(slot: nat): (at: nat)
    requires slot < SLOT_COUNT
    ensures at % PAGE == 0 && at + SLOT_SIZE <= FLASH_SIZE
  {
    0x9000 + SLOT_SIZE * slot
  }

  /** Flash offset of a metadata region. */
  function MetaAt(index: nat): (at: nat)
    requires index < META_COUNT
    ensures at % PAGE == 0 && at + META_SIZE <= SlotAt(0)
  {
    0x8000 + META_SIZE * index
  }

  datatype FlashData = FlashData(mem: seq<byte>, programmed: seq<bool>)

  type Flash = f: FlashData | |f.mem| == FLASH_SIZE && |f.programmed| == FLASH_SIZE
    witness FlashData(seq(FLASH_SIZE, _ => ERASED), seq(FLASH_SIZE, _ => false))

  /** Flash as the port initialises it. */
  function FactoryFlash(): Flash {
    FlashData(Fill(FLASH_SIZE, ERASED), seq(FLASH_SIZE, _ => false))
  }

  /**
   What becomes of one erase or write: it completes; it reports failure and leaves flash
   unmodified; or power is lost, and only the listed pages or programming units took effect.
   */
  datatype Fate = Done | Failed | Cut(granules: set<int>) {
    predicate Reaches(granule: int) {
      match this
      case Done => true
      case Failed => false
      case Cut(gs) => granule in gs
    }
  }

  function Erase(f: Flash, at: nat, len: nat, fate: Fate): Flash
    requires at + len <= FLASH_SIZE
  {
    FlashData(
      seq(FLASH_SIZE, i requires 0 <= i < FLASH_SIZE =>
        if at <= i < at + len && fate.Reaches((i - at) / PAGE) then ERASED else f.mem[i]),
      seq(FLASH_SIZE, i requires 0 <= i < FLASH_SIZE =>
        if at <= i < at + len && fate.Reaches((i - at) / PAGE) then false else f.programmed[i]))
  }

  function Program(f: Flash, at: nat, data: seq<byte>, fate: Fate): Flash
    requires at + |data| <= FLASH_SIZE
  {
    FlashData(
      seq(FLASH_SIZE, i requires 0 <= i < FLASH_SIZE =>
        if at <= i < at + |data| && fate.Reaches((i - at) / UNIT) then data[i - at] else f.mem[i]),
      seq(FLASH_SIZE, i requires 0 <= i < FLASH_SIZE =>
        if at <= i < at + |data| && fate.Reaches((i - at) / UNIT) then true else f.programmed[i]))
  }

  /** No byte of the range has been programmed since its last erase. */
  predicate Blank(f: Flash, at: nat, len: nat)
    requires at + len <= FLASH_SIZE
  {
    forall i :: at <= i < at + len ==> !f.programmed[i]
  }

  function SlotBytes(f: Flash, slot: nat): (s: seq<byte>)
    requires slot < SLOT_COUNT
    ensures |s| == SLOT_SIZE
  {
    f.mem[SlotAt(slot)..SlotAt(slot) + SLOT_SIZE]
  }

  /** The bytes of a metadata region that hold its record. */
  function MetaBytes(f: Flash, index: nat): (s: seq<byte>)
    requires index < META_COUNT
    ensures |s| == RECORD
  {
    f.mem[MetaAt(index)..MetaAt(index) + RECORD]
  }

  lemma BlankWithin(f: Flash, at: nat, len: nat, at': nat, len': nat)
    requires at + len <= FLASH_SIZE && at <= at' && at' + len' <= at + len && Blank(f, at, len)
    ensures Blank(f, at', len')
  {
  }

  /** Reading inside a slot is slicing its bytes. */
  lemma SlotRange(f: Flash, slot: nat, lo: nat, hi: nat)
    requires slot < SLOT_COUNT && lo <= hi <= SLOT_SIZE
    ensures f.mem[SlotAt(slot) + lo..SlotAt(slot) + hi] == SlotBytes(f, slot)[lo..hi]
  {
  }

  function Other(i: nat): nat {
    (i + 1) % 2
  }

  // ------------------------------------------------------------------ framing

  /** `g` differs from `f` at most inside the given range. */
  predicate SameOutside(f: Flash, g: Flash, at: nat, len: nat) {
    forall i :: 0 <= i < FLASH_SIZE && !(at <= i < at + len) ==>
      g.mem[i] == f.mem[i] && g.programmed[i] == f.programmed[i]
  }

  lemma EraseFrame(f: Flash, at: nat, len: nat, fate: Fate)
    requires at + len <= FLASH_SIZE
    ensures SameOutside(f, Erase(f, at, len, fate), at, len)
  {
  }

  lemma ProgramFrame(f: Flash, at: nat, data: seq<byte>, fate: Fate)
    requires at + |data| <= FLASH_SIZE
    ensures SameOutside(f, Program(f, at, data, fate), at, |data|)
  {
  }

  lemma ProgramDone(f: Flash, at: nat, data: seq<byte>, fate: Fate)
    requires at + |data| <= FLASH_SIZE && fate.Done?
    ensures Program(f, at, data, fate).mem[at..at + |data|] == data
  {
    var g := Program(f, at, data, fate);
    forall i | at <= i < at + |data|
      ensures g.mem[i] == data[i - at]
    {
      assert fate.Reaches((i - at) / UNIT);
    }
  }

  lemma EraseDone(f: Flash, at: nat, len: nat, fate: Fate)
    requires at + len <= FLASH_SIZE && fate.Done?
    ensures Erase(f, at, len, fate).mem[at..at + len] == Fill(len, ERASED)
    ensures Blank(Erase(f, at, len, fate), at, len)
  {
    var g := Erase(f, at, len, fate);
    forall i | at <= i < at + len
      ensures g.mem[i] == ERASED && !g.programmed[i]
    {
      assert fate.Reaches((i - at) / PAGE);
    }
  }

  lemma ProgramFailed(f: Flash, at: nat, data: seq<byte>, fate: Fate)
    requires at + |data| <= FLASH_SIZE && fate.Failed?
    ensures Program(f, at, data, fate) == f
  {
    var g := Program(f, at, data, fate);
    forall i | 0 <= i < FLASH_SIZE
      ensures g.mem[i] == f.mem[i] && g.programmed[i] == f.programmed[i]
    {
      assert !fate.Reaches((i - at) / UNIT);
    }
  }

  /** While the first unit is not reached, it stays as it was. */
  lemma ProgramUnreached(f: Flash, at: nat, data: seq<byte>, fate: Fate)
    requires at + |data| <= FLASH_SIZE && !fate.Reaches(0)
    ensures forall i :: at <= i < at + UNIT && i < FLASH_SIZE ==> Program(f, at, data, fate).mem[i] == f.mem[i]
  {
    var g := Program(f, at, data, fate);
    forall i | at <= i < at + UNIT && i < FLASH_SIZE
      ensures g.mem[i] == f.mem[i]
    {
      assert (i - at) / UNIT == 0;
    }
  }

  lemma EraseFailed(f: Flash, at: nat, len: nat, fate: Fate)
    requires at + len <= FLASH_SIZE && fate.Failed?
    ensures Erase(f, at, len, fate) == f
  {
    var g := Erase(f, at, len, fate);
    forall i | 0 <= i < FLASH_SIZE
      ensures g.mem[i] == f.mem[i] && g.programmed[i] == f.programmed[i]
    {
      assert !fate.Reaches((i - at) / PAGE);
    }
  }

  /** A change inside one slot is seen by nothing but that slot. */
  lemma SlotChangeFrame(f: Flash, g: Flash, slot: nat, at: nat, len: nat)
    requires slot < SLOT_COUNT && SlotAt(slot) <= at && at + len <= SlotAt(slot) + SLOT_SIZE
    requires SameOutside(f, g, at, len)
    ensures forall i :: 0 <= i < META_COUNT ==> MetaBytes(g, i) == MetaBytes(f, i)
    ensures SlotBytes(g, Other(slot)) == SlotBytes(f, Other(slot))
  {
  }

  /** A change inside one metadata region is seen by nothing but that region. */
  lemma MetaChangeFrame(f: Flash, g: Flash, index: nat)
    requires index < META_COUNT && SameOutside(f, g, MetaAt(index), META_SIZE)
    ensures MetaBytes(g, Other(index)) == MetaBytes(f, Other(index))
    ensures forall s :: 0 <= s < SLOT_COUNT ==> SlotBytes(g, s) == SlotBytes(f, s)
  {
  }

  lemma SameOutsideReflexive(f: Flash, at: nat, len: nat)
    ensures SameOutside(f, f, at, len)
  {
  }

  lemma SameOutsideTransitive(f: Flash, g: Flash, h: Flash, at: nat, len: nat, at': nat, len': nat)
    requires SameOutside(f, g, at, len) && SameOutside(g, h, at', len')
    requires at <= at' && at' + len' <= at + len
    ensures SameOutside(f, h, at, len)
  {
  }
}
