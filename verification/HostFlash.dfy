/**
 The simulated flash device itself: a byte array, a packed bitmap of programmed bytes, and
 write-failure injection. The conditions its host assertions abort on are preconditions here.
 */
module HostFlash {
  import opened Bytes
  import opened Flash
  import opened Status

  // -------------------------------------------------------------- range checks

  /** `flash_range_valid` in 32-bit arithmetic. */
  predicate RangeValid(addr: nat, len: nat)
    requires addr < U32_LIMIT && len < U32_LIMIT
  {
    var end := (FLASH_BASE + FLASH_SIZE) % U32_LIMIT;
    if len == 0 then FLASH_BASE <= addr <= end
    else if addr < FLASH_BASE || addr >= end then false
    else
      var offset := (addr - FLASH_BASE) % U32_LIMIT;
      len <= (FLASH_SIZE - offset) % U32_LIMIT
  }

  /** The 32-bit test is the plain one: nothing in it wraps. */
  lemma RangeValidExact(addr: nat, len: nat)
    requires addr < U32_LIMIT && len < U32_LIMIT
    ensures RangeValid(addr, len) <==> FLASH_BASE <= addr && addr + len <= FLASH_BASE + FLASH_SIZE
  {
  }

  // ----------------------------------------------------------------- bit masks

  function Mask(bit: nat): bv8
    requires bit < 8
  {
    match bit
    case 0 => 0x01
    case 1 => 0x02
    case 2 => 0x04
    case 3 => 0x08
    case 4 => 0x10
    case 5 => 0x20
    case 6 => 0x40
    case 7 => 0x80
  }

  predicate TestBit(w: bv8, bit: nat)
    requires bit < 8
  {
    w & Mask(bit) != 0
  }

  function SetBit(w: bv8, bit: nat): bv8
    requires bit < 8
  {
    w | Mask(bit)
  }

  function ClearBit(w: bv8, bit: nat): bv8
    requires bit < 8
  {
    w & !Mask(bit)
  }

  lemma SetBitEffect(w: bv8, bit: nat, other: nat)
    requires bit < 8 && other < 8
    ensures TestBit(SetBit(w, bit), other) == (other == bit || TestBit(w, other))
  {
    assert Mask(bit) & Mask(other) == if bit == other then Mask(bit) else 0;
    assert (w | Mask(bit)) & Mask(other) == (w & Mask(other)) | (Mask(bit) & Mask(other));
  }

  lemma ClearBitEffect(w: bv8, bit: nat, other: nat)
    requires bit < 8 && other < 8
    ensures TestBit(ClearBit(w, bit), other) == (other != bit && TestBit(w, other))
  {
    assert !Mask(bit) & Mask(other) == if bit == other then 0 else Mask(other);
    assert (w & !Mask(bit)) & Mask(other) == w & (!Mask(bit) & Mask(other));
  }

  // ---------------------------------------------------------------- hand-over

  const SRAM_BASE: nat := 0x2000_0000
  const SRAM_END: nat := 0x2001_0000

  /** Required alignment of an application vector table. */
  const VTOR_ALIGNMENT: nat := 512

  predicate InSlot(addr: nat, slot: nat)
    requires slot < SLOT_COUNT
  {
    FLASH_BASE + SlotAt(slot) <= addr < FLASH_BASE + SlotAt(slot) + SLOT_SIZE
  }

  /** The initial stack pointer and reset vector at `addr` suit an image of that slot. */
  predicate VectorsPlausible(f: Flash, addr: nat, slot: nat)
    requires slot < SLOT_COUNT && FLASH_BASE <= addr && addr + 8 <= FLASH_BASE + FLASH_SIZE
  {
    var at := addr - FLASH_BASE;
    var msp, reset := GetU32(f.mem[at..at + 4]), GetU32(f.mem[at + 4..at + 8]);
    && SRAM_BASE <= msp <= SRAM_END && msp % 4 == 0
    && reset % 2 == 1 && InSlot(reset - 1, slot)
  }

  /** When `bl_jump_to_app` transfers control. */
  predicate JumpAccepted(f: Flash, addr: nat) {
    addr % VTOR_ALIGNMENT == 0 &&
    exists slot: nat :: slot < SLOT_COUNT && InSlot(addr, slot) && VectorsPlausible(f, addr, slot)
  }

  // -------------------------------------------------------------- whole bitmap

  const BITMAP_SIZE: nat := FLASH_SIZE / 8

  /** Whether the bitmap marks the byte at `offset` as programmed. */
  predicate Marked(bits: seq<bv8>, offset: nat)
    requires |bits| == BITMAP_SIZE && offset < FLASH_SIZE
  {
    TestBit(bits[offset / 8], offset % 8)
  }

  function MarkWritten(bits: seq<bv8>, offset: nat): (r: seq<bv8>)
    requires |bits| == BITMAP_SIZE && offset < FLASH_SIZE
    ensures |r| == BITMAP_SIZE
  {
    bits[offset / 8 := SetBit(bits[offset / 8], offset % 8)]
  }

  function MarkErased(bits: seq<bv8>, offset: nat): (r: seq<bv8>)
    requires |bits| == BITMAP_SIZE && offset < FLASH_SIZE
    ensures |r| == BITMAP_SIZE
  {
    bits[offset / 8 := ClearBit(bits[offset / 8], offset % 8)]
  }

  lemma MarkWrittenEffect(bits: seq<bv8>, offset: nat, other: nat)
    requires |bits| == BITMAP_SIZE && offset < FLASH_SIZE && other < FLASH_SIZE
    ensures Marked(MarkWritten(bits, offset), other) == (other == offset || Marked(bits, other))
  {
    hide TestBit, SetBit;
    SetBitEffect(bits[offset / 8], offset % 8, other % 8);
  }

  lemma MarkErasedEffect(bits: seq<bv8>, offset: nat, other: nat)
    requires |bits| == BITMAP_SIZE && offset < FLASH_SIZE && other < FLASH_SIZE
    ensures Marked(MarkErased(bits, offset), other) == (other != offset && Marked(bits, other))
  {
    hide TestBit, ClearBit;
    ClearBitEffect(bits[offset / 8], offset % 8, other % 8);
  }

  /** The set of programmed bytes a bitmap stands for. */
  function Unpacked(bits: seq<bv8>): (s: seq<bool>)
    requires |bits| == BITMAP_SIZE
    ensures |s| == FLASH_SIZE
    ensures forall o :: 0 <= o < FLASH_SIZE ==> s[o] == Marked(bits, o)
  {
    seq(FLASH_SIZE, o requires 0 <= o < FLASH_SIZE => Marked(bits, o))
  }

  // --------------------------------------------------------------- the device

  class HostFlash {
    const flash: array<byte>
    const written: array<bv8>
    var writeCalls: nat
    var failFrom: nat
    var jumped: bool
    var jumpTarget: nat

    ghost predicate Valid() {
      flash.Length == FLASH_SIZE && written.Length == BITMAP_SIZE
    }

    /** What the device holds, as a value. */
    ghost function View(): Flash
      requires Valid()
      reads flash, written
    {
      FlashData(flash[..], Unpacked(written[..]))
    }

    /** Whether the next write is one that injection makes fail. */
    predicate WriteFails()
      reads this
    {
      writeCalls >= failFrom
    }

    ghost function WriteFate(): Fate
      reads this
    {
      if WriteFails() then Failed else Done
    }

    /** `bl_port_init`: erased flash, nothing programmed, no injected failures. */
    constructor ()
      ensures Valid() && fresh(flash) && fresh(written)
      ensures writeCalls == 0 && failFrom == U32_LIMIT - 1 && !WriteFails()
      ensures !jumped && jumpTarget == 0
      ensures View().mem == Fill(FLASH_SIZE, ERASED) && Blank(View(), 0, FLASH_SIZE)
    {
      flash := new byte[FLASH_SIZE](_ => ERASED);
      written := new bv8[BITMAP_SIZE](_ => 0);
      writeCalls := 0;
      failFrom := U32_LIMIT - 1;
      jumped, jumpTarget := false, 0;
      new;
      assert flash[..] == Fill(FLASH_SIZE, ERASED);
      forall o | 0 <= o < FLASH_SIZE
        ensures !Marked(written[..], o)
      {
        assert written[..][o / 8] == 0;
      }
    }

    /** `bl_flash_read` */
    method ReadRange(addr: nat, len: nat) returns (data: seq<byte>)
      requires Valid() && addr < U32_LIMIT && len < U32_LIMIT && RangeValid(addr, len)
      ensures addr - FLASH_BASE >= 0 && addr - FLASH_BASE + len <= FLASH_SIZE
      ensures data == View().mem[addr - FLASH_BASE..addr - FLASH_BASE + len]
    {
      RangeValidExact(addr, len);
      data := flash[addr - FLASH_BASE..addr - FLASH_BASE + len];
    }

    /** `flash_mark_erased` over a range. */
    method MarkErasedRange(at: nat, len: nat)
      requires Valid() && at + len <= FLASH_SIZE
      modifies written
      ensures forall o :: 0 <= o < FLASH_SIZE ==>
                Marked(written[..], o) == (!(at <= o < at + len) && Marked(old(written[..]), o))
    {
      ghost var bits := written[..];
      for i := 0 to len
        invariant forall o :: 0 <= o < FLASH_SIZE ==> Marked(written[..], o) == (!(at <= o < at + i) && Marked(bits, o))
      {
        ghost var before := written[..];
        written[(at + i) / 8] := ClearBit(written[(at + i) / 8], (at + i) % 8);
        assert written[..] == MarkErased(before, at + i);
        forall o | 0 <= o < FLASH_SIZE
          ensures Marked(written[..], o) == (o != at + i && Marked(before, o))
        {
          MarkErasedEffect(before, at + i, o);
        }
      }
    }

    /** `flash_mark_written` over a range. */
    method MarkWrittenRange(at: nat, len: nat)
      requires Valid() && at + len <= FLASH_SIZE
      modifies written
      ensures forall o :: 0 <= o < FLASH_SIZE ==>
                Marked(written[..], o) == (at <= o < at + len || Marked(old(written[..]), o))
    {
      ghost var bits := written[..];
      for i := 0 to len
        invariant forall o :: 0 <= o < FLASH_SIZE ==> Marked(written[..], o) == (at <= o < at + i || Marked(bits, o))
      {
        ghost var before := written[..];
        written[(at + i) / 8] := SetBit(written[(at + i) / 8], (at + i) % 8);
        assert written[..] == MarkWritten(before, at + i);
        forall o | 0 <= o < FLASH_SIZE
          ensures Marked(written[..], o) == (o == at + i || Marked(before, o))
        {
          MarkWrittenEffect(before, at + i, o);
        }
      }
    }

    /** `bl_flash_erase`: exactly the addressed range reads erased and is no longer programmed. */
    method EraseRange(addr: nat, len: nat) returns (status: Status)
      requires Valid() && addr < U32_LIMIT && len < U32_LIMIT && RangeValid(addr, len)
      requires len != 0 ==> (addr - FLASH_BASE) % PAGE == 0 && len % PAGE == 0
      modifies flash, written
      ensures Valid() && status == Ok && FLASH_BASE <= addr && addr - FLASH_BASE + len <= FLASH_SIZE
      ensures View() == Erase(old(View()), addr - FLASH_BASE, len, Done)
    {
      hide TestBit, RangeValid;
      RangeValidExact(addr, len);
      var at := addr - FLASH_BASE;
      forall i | at <= i < at + len {
        flash[i] := ERASED;
      }
      MarkErasedRange(at, len);
      EraseView(old(View()), View(), at, len);
      status := Ok;
    }

    /**
     `bl_flash_write`: exactly the addressed range takes the data and becomes programmed, or,
     when injection makes it fail, nothing changes.
     */
    method WriteRange(addr: nat, data: seq<byte>) returns (status: Status)
      requires Valid() && addr < U32_LIMIT && |data| < U32_LIMIT && RangeValid(addr, |data|)
      requires |data| != 0 ==> (addr - FLASH_BASE) % UNIT == 0 && |data| % UNIT == 0
      requires FLASH_BASE <= addr && addr - FLASH_BASE + |data| <= FLASH_SIZE
      requires Blank(View(), addr - FLASH_BASE, |data|)
      modifies this`writeCalls, flash, written
      ensures Valid()
      ensures data == [] ==> status == Ok && View() == old(View()) && writeCalls == old(writeCalls)
      ensures data != [] ==>
                && writeCalls == old(writeCalls) + 1
                && status == (if old(writeCalls) >= old(failFrom) then ErrFlashProgram else Ok)
                && View() == Program(old(View()), addr - FLASH_BASE, data, old(WriteFate()))
    {
      hide TestBit, RangeValid;
      var at := addr - FLASH_BASE;
      if |data| == 0 {
        return Ok;
      }
      var blank := CheckBlank(at, |data|);
      assert blank;
      ghost var fate := WriteFate();
      var call := writeCalls;
      writeCalls := writeCalls + 1;
      if call >= failFrom {
        ProgramFailed(old(View()), at, data, fate);
        assert View() == old(View());
        return ErrFlashProgram;
      }
      forall i | 0 <= i < |data| {
        flash[at + i] := data[i];
      }
      MarkWrittenRange(at, |data|);
      ProgramView(old(View()), View(), at, data, fate);
      status := Ok;
    }

    /** `find_slot_for_address` */
    method FindSlot(addr: nat) returns (r: nat)
      ensures r <= SLOT_COUNT
      ensures r < SLOT_COUNT ==> InSlot(addr, r)
      ensures r == SLOT_COUNT ==> forall s :: 0 <= s < SLOT_COUNT ==> !InSlot(addr, s)
    {
      for i := 0 to SLOT_COUNT
        invariant forall s :: 0 <= s < i ==> !InSlot(addr, s)
      {
        if InSlot(addr, i) {
          return i;
        }
      }
      return SLOT_COUNT;
    }

    /**
     `bl_jump_to_app`: recorded exactly when every check on the address and its vectors holds. Of the
     two words stored there, the first must be a word-aligned address in RAM or just past its end,
     the second an odd number whose even predecessor lies in the same slot.
     */
    method JumpToApp(addr: nat)
      requires Valid() && addr < U32_LIMIT
      modifies this`jumped, this`jumpTarget
      ensures forall slot: nat, sp: nat, reset: nat :: HoldsVectors(View(), addr, slot, sp, reset) ==>
                var base := 0x0800_9000 + 0x1_B000 * slot;
                if && addr % 512 == 0 && 0x2000_0000 <= sp <= 0x2001_0000 && sp % 4 == 0
                   && reset % 2 == 1 && base <= reset - 1 < base + 0x1_B000
                then jumped && jumpTarget == addr
                else jumped == old(jumped) && jumpTarget == old(jumpTarget)
      ensures addr < 0x0800_9000 || addr >= 0x0803_F000 ==> jumped == old(jumped) && jumpTarget == old(jumpTarget)
      ensures if JumpAccepted(View(), addr) then jumped && jumpTarget == addr
              else jumped == old(jumped) && jumpTarget == old(jumpTarget)
    {
      hide Bytes.GetU32;
      var slot := FindSlot(addr);
      VectorsDecide(View(), addr);
      if slot == SLOT_COUNT || addr % VTOR_ALIGNMENT != 0 {
        return;
      }
      RangeValidExact(addr, 8);
      if !RangeValid(addr, 8) {
        return;
      }
      var vectors := ReadRange(addr, 8);
      assert vectors[..4] == View().mem[addr - FLASH_BASE..addr - FLASH_BASE + 4];
      assert vectors[4..] == View().mem[addr - FLASH_BASE + 4..addr - FLASH_BASE + 8];
      var msp, reset := GetU32(vectors[..4]), GetU32(vectors[4..]);
      if msp < SRAM_BASE || msp > SRAM_END || msp % 4 != 0 || reset % 2 == 0 || !InSlot(reset - 1, slot) {
        OneSlot(addr, slot);
        VectorsDecide(View(), addr);
        return;
      }
      assert VectorsPlausible(View(), addr, slot);
      VectorsDecide(View(), addr);
      jumpTarget := addr;
      jumped := true;
    }

    /** The double-programming check of `bl_flash_write`: it fires exactly on an overlap. */
    method CheckBlank(at: nat, len: nat) returns (blank: bool)
      requires Valid() && at + len <= FLASH_SIZE
      ensures blank == Blank(View(), at, len)
    {
      for i := 0 to len
        invariant forall o :: at <= o < at + i ==> !View().programmed[o]
      {
        if TestBit(written[(at + i) / 8], (at + i) % 8) {
          assert Marked(written[..], at + i);
          return false;
        }
        assert !Marked(written[..], at + i);
      }
      return true;
    }
  }

  /** The first eight bytes at `addr`, an address in that slot, are the two words. */
  predicate HoldsVectors(f: Flash, addr: nat, slot: nat, sp: nat, reset: nat) {
    && slot < SLOT_COUNT && sp < U32_LIMIT && reset < U32_LIMIT
    && 0x0800_9000 + 0x1_B000 * slot <= addr < 0x0800_9000 + 0x1_B000 * (slot + 1)
    && addr - FLASH_BASE + 8 <= FLASH_SIZE
    && f.mem[addr - FLASH_BASE..addr - FLASH_BASE + 8] == PutU32(sp) + PutU32(reset)
  }

  /** What the stored words say about a jump. */
  lemma VectorsDecide(f: Flash, addr: nat)
    ensures forall slot: nat, sp: nat, reset: nat :: HoldsVectors(f, addr, slot, sp, reset) ==>
              (JumpAccepted(f, addr) <==>
                 && addr % 512 == 0 && 0x2000_0000 <= sp <= 0x2001_0000 && sp % 4 == 0 && reset % 2 == 1
                 && 0x0800_9000 + 0x1_B000 * slot <= reset - 1 < 0x0800_9000 + 0x1_B000 * (slot + 1))
  {
    hide HoldsVectors, JumpAccepted;
    forall slot: nat, sp: nat, reset: nat | HoldsVectors(f, addr, slot, sp, reset)
      ensures JumpAccepted(f, addr) <==>
                && addr % 512 == 0 && 0x2000_0000 <= sp <= 0x2001_0000 && sp % 4 == 0 && reset % 2 == 1
                && 0x0800_9000 + 0x1_B000 * slot <= reset - 1 < 0x0800_9000 + 0x1_B000 * (slot + 1)
    {
      VectorsDecideOne(f, addr, slot, sp, reset);
    }
  }

  lemma VectorsDecideOne(f: Flash, addr: nat, slot: nat, sp: nat, reset: nat)
    requires HoldsVectors(f, addr, slot, sp, reset)
    ensures JumpAccepted(f, addr) <==>
              && addr % 512 == 0 && 0x2000_0000 <= sp <= 0x2001_0000 && sp % 4 == 0 && reset % 2 == 1
              && 0x0800_9000 + 0x1_B000 * slot <= reset - 1 < 0x0800_9000 + 0x1_B000 * (slot + 1)
  {
    hide Bytes.GetU32, Bytes.PutU32;
    var at := addr - FLASH_BASE;
    var words := f.mem[at..at + 8];
    assert words[..4] == f.mem[at..at + 4] == PutU32(sp) && words[4..] == f.mem[at + 4..at + 8] == PutU32(reset);
    U32RoundTrip(sp);
    U32RoundTrip(reset);
    OneSlot(addr, slot);
    assert InSlot(addr, slot);
    assert VectorsPlausible(f, addr, slot) <==>
        && 0x2000_0000 <= sp <= 0x2001_0000 && sp % 4 == 0 && reset % 2 == 1
        && 0x0800_9000 + 0x1_B000 * slot <= reset - 1 < 0x0800_9000 + 0x1_B000 * (slot + 1);
  }

  lemma OneSlot(addr: nat, slot: nat)
    requires slot < SLOT_COUNT && InSlot(addr, slot)
    ensures forall s :: 0 <= s < SLOT_COUNT && s != slot ==> !InSlot(addr, s)
  {
  }

  lemma EraseView(before: Flash, after: Flash, at: nat, len: nat)
    requires at + len <= FLASH_SIZE
    requires forall i :: 0 <= i < FLASH_SIZE ==> after.mem[i] == if at <= i < at + len then ERASED else before.mem[i]
    requires forall i :: 0 <= i < FLASH_SIZE ==> after.programmed[i] == (!(at <= i < at + len) && before.programmed[i])
    ensures after == Erase(before, at, len, Done)
  {
    var spec, fate := Erase(before, at, len, Done), Done;
    forall i | 0 <= i < FLASH_SIZE
      ensures spec.mem[i] == after.mem[i] && spec.programmed[i] == after.programmed[i]
    {
      assert fate.Reaches((i - at) / PAGE);
    }
  }

  lemma ProgramView(before: Flash, after: Flash, at: nat, data: seq<byte>, fate: Fate)
    requires at + |data| <= FLASH_SIZE && fate.Done?
    requires forall i :: 0 <= i < FLASH_SIZE ==>
               after.mem[i] == if at <= i < at + |data| then data[i - at] else before.mem[i]
    requires forall i :: 0 <= i < FLASH_SIZE ==> after.programmed[i] == (at <= i < at + |data| || before.programmed[i])
    ensures after == Program(before, at, data, fate)
  {
    var spec := Program(before, at, data, fate);
    forall i | 0 <= i < FLASH_SIZE
      ensures spec.mem[i] == after.mem[i] && spec.programmed[i] == after.programmed[i]
    {
      assert fate.Reaches((i - at) / UNIT);
    }
  }
}
