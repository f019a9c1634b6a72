/**
 CRC-32/ISO-HDLC as `bl_crc32` computes it: reflected, bit at a time, with a running value
 that is complemented on the way in and on the way out.

 Only this module sees 32-bit words. Everything else handles a checksum as the four
 little-endian bytes it is stored and transmitted as (`CrcBytes`).
 */
module Crc32 {
  import opened Bytes

  type word = bv32

  /** The reflected polynomial. */
  const POLYNOMIAL: word := 0xEDB88320

  // ---------------------------------------------------------------- definition

  function Xor(a: word, b: word): word {
    a ^ b
  }

  function Not(a: word): word {
    !a
  }

  predicate Odd(a: word) {
    a & 1 == 1
  }

  function Half(a: word): word {
    a >> 1
  }

  function BitStep(c: word): word {
    if Odd(c) then Xor(Half(c), POLYNOMIAL) else Half(c)
  }

  function BitSteps(c: word, n: nat): word
    decreases n, c
  {
    if n == 0 then c else BitSteps(BitStep(c), n - 1)
  }

  /** `w` moved up one place, with `bit` below it. */
  function Append(w: word, bit: bool): word {
    if bit then (w << 1) | 1 else w << 1
  }

  /** The low `k` binary digits of `n`, as a word. */
  function Widened(n: nat, k: nat): word
    decreases k, n
  {
    if k == 0 then 0 else Append(Widened(n / 2, k - 1), n % 2 == 1)
  }

  function Widen(b: byte): word {
    Widened(b, 8)
  }

  /** The register `k` bit steps into the last byte of `data`, starting from register `c`. */
  function Stage(c: word, data: seq<byte>, k: nat): word
    decreases |data|, k
  {
    if data == [] then c
    else if k == 0 then Xor(Stage(c, data[..|data| - 1], 8), Widen(data[|data| - 1]))
    else BitStep(Stage(c, data, k - 1))
  }

  /** The register after the bytes of `data`, starting from register `c`. */
  function Register(c: word, data: seq<byte>): word {
    Stage(c, data, 8)
  }

  /** The running checksum `bl_crc32(crc, data, len)` returns. */
  function Crc(crc: word, data: seq<byte>): word {
    Not(Register(Not(crc), data))
  }

  /** The program: two nested loops over one accumulator. */
  method Compute(running: word, data: seq<byte>) returns (crc: word)
    ensures crc == Crc(running, data)
  {
    crc := Not(running);
    for i := 0 to |data|
      invariant crc == Register(Not(running), data[..i])
    {
      hide Xor, Widen, Half, Odd;
      ghost var done := data[..i + 1];
      assert done[..i] == data[..i];
      crc := Xor(crc, Widen(data[i]));
      for j := 0 to 8
        invariant crc == Stage(Not(running), done, j)
      {
        if Odd(crc) {
          crc := Xor(Half(crc), POLYNOMIAL);
        } else {
          crc := Half(crc);
        }
      }
    }
    assert data[..|data|] == data;
    crc := Not(crc);
  }

  // ------------------------------------------------------------------- algebra

  lemma {:induction false} StageSteps(c: word, data: seq<byte>, k: nat)
    requires data != []
    ensures Stage(c, data, k) == BitSteps(Xor(Register(c, data[..|data| - 1]), Widen(data[|data| - 1])), k)
    decreases k
  {
    hide BitStep, Xor, Widen;
    if k > 0 {
      StageSteps(c, data, k - 1);
      var x := Xor(Register(c, data[..|data| - 1]), Widen(data[|data| - 1]));
      BitStepsAdd(x, k - 1, 1);
      assert BitSteps(BitSteps(x, k - 1), 1) == BitStep(BitSteps(x, k - 1));
    }
  }

  /** One byte: an exclusive or and eight bit steps. */
  lemma RegisterUnfold(c: word, data: seq<byte>)
    requires data != []
    ensures Register(c, data) == BitSteps(Xor(Register(c, data[..|data| - 1]), Widen(data[|data| - 1])), 8)
  {
    hide Stage, BitSteps, Xor, Widen;
    StageSteps(c, data, 8);
  }

  lemma RegisterEmpty(c: word)
    ensures Register(c, []) == c
  {
  }

  lemma {:induction false} RegisterConcat(c: word, a: seq<byte>, b: seq<byte>)
    ensures Register(c, a + b) == Register(Register(c, a), b)
    decreases |b|
  {
    hide Register, BitSteps, Xor, Widen;
    if b == [] {
      assert a + b == a;
      RegisterEmpty(Register(c, a));
    } else {
      RegisterConcat(c, a, b[..|b| - 1]);
      RegisterUnfold(Register(c, a), b);
      RegisterUnfold(c, a + b);
      assert (a + b)[..|a + b| - 1] == a + b[..|b| - 1];
    }
  }

  lemma ComplementTwice(c: word)
    ensures Not(Not(c)) == c
  {
  }

  /** Feeding consecutive blocks yields the checksum of their concatenation. */
  lemma CrcConcat(crc: word, a: seq<byte>, b: seq<byte>)
    ensures Crc(Crc(crc, a), b) == Crc(crc, a + b)
  {
    hide Register, Not;
    RegisterConcat(Not(crc), a, b);
    ComplementTwice(Register(Not(crc), a));
  }

  lemma XorAssociates(a: word, b: word, c: word)
    ensures Xor(Xor(a, b), c) == Xor(a, Xor(b, c))
  {
  }

  lemma XorCommutes(a: word, b: word)
    ensures Xor(a, b) == Xor(b, a)
  {
  }

  lemma XorUndoes(a: word, b: word)
    ensures Xor(Xor(a, b), b) == a
  {
  }

  lemma HalfLinear(a: word, b: word)
    ensures Half(Xor(a, b)) == Xor(Half(a), Half(b))
  {
  }

  lemma OddXor(a: word, b: word)
    ensures Odd(Xor(a, b)) <==> Odd(a) != Odd(b)
  {
    assert Xor(a, b) & 1 == Xor(a & 1, b & 1);
    assert a & 1 == 0 || a & 1 == 1;
  }

  lemma BitStepLinear(a: word, b: word)
    ensures BitStep(Xor(a, b)) == Xor(BitStep(a), BitStep(b))
  {
    hide Xor, Half, Odd;
    HalfLinear(a, b);
    OddXor(a, b);
    var u, v, p := Half(a), Half(b), POLYNOMIAL;
    XorAssociates(u, p, v);
    XorAssociates(u, v, p);
    XorCommutes(v, p);
    XorAssociates(u, p, Xor(v, p));
    XorUndoes(v, p);
    XorCommutes(p, Xor(v, p));
  }

  /** Any number of bit steps is linear over exclusive or. */
  lemma {:induction false} BitStepsLinear(a: word, b: word, n: nat)
    ensures BitSteps(Xor(a, b), n) == Xor(BitSteps(a, n), BitSteps(b, n))
    decreases n
  {
    hide BitStep, Xor;
    if n > 0 {
      BitStepLinear(a, b);
      BitStepsLinear(BitStep(a), BitStep(b), n - 1);
    }
  }

  lemma BitStepInjective(a: word, b: word)
    requires BitStep(a) == BitStep(b)
    ensures a == b
  {
  }

  /** No two registers are merged by any number of bit steps. */
  lemma {:induction false} BitStepsInjective(a: word, b: word, n: nat)
    requires BitSteps(a, n) == BitSteps(b, n)
    ensures a == b
    decreases n
  {
    hide BitStep;
    if n > 0 {
      BitStepsInjective(BitStep(a), BitStep(b), n - 1);
      BitStepInjective(a, b);
    }
  }

  lemma {:induction false} BitStepsAdd(c: word, m: nat, n: nat)
    ensures BitSteps(BitSteps(c, m), n) == BitSteps(c, m + n)
    decreases m
  {
    hide BitStep;
    if m > 0 {
      BitStepsAdd(BitStep(c), m - 1, n);
    }
  }

  lemma XorCancels(a: word, b: word, p: word)
    requires Xor(a, p) == Xor(b, p)
    ensures a == b
  {
    hide Xor;
    XorUndoes(a, p);
    XorUndoes(b, p);
  }

  lemma {:induction false} RegisterInjective(c: word, d: word, data: seq<byte>)
    requires Register(c, data) == Register(d, data)
    ensures c == d
    decreases |data|
  {
    hide Register, BitSteps, Xor, Widen;
    if data == [] {
      RegisterEmpty(c);
      RegisterEmpty(d);
    } else {
      RegisterUnfold(c, data);
      RegisterUnfold(d, data);
      var rest, b := data[..|data| - 1], Widen(data[|data| - 1]);
      BitStepsInjective(Xor(Register(c, rest), b), Xor(Register(d, rest), b), 8);
      XorCancels(Register(c, rest), Register(d, rest), b);
      RegisterInjective(c, d, rest);
    }
  }

  // ------------------------------------------------------------ burst detection

  function Double(x: word): word {
    x << 1
  }

  /** `y` moved up `k` places. */
  function Shifted(y: word, k: nat): word
    decreases k, y
  {
    if k == 0 then y else Double(Shifted(y, k - 1))
  }

  lemma StepDown(x: word)
    requires x < 0x8000_0000
    ensures BitStep(Double(x)) == x && Half(Double(x)) == x && !Odd(Double(x))
  {
  }

  lemma EightShifts(y: word)
    requires y < 0x100_0000
    ensures Shifted(y, 8) == y << 8
    ensures Shifted(y, 0) < 0x8000_0000
    ensures Shifted(y, 1) < 0x8000_0000
    ensures Shifted(y, 2) < 0x8000_0000
    ensures Shifted(y, 3) < 0x8000_0000
    ensures Shifted(y, 4) < 0x8000_0000
    ensures Shifted(y, 5) < 0x8000_0000
    ensures Shifted(y, 6) < 0x8000_0000
    ensures Shifted(y, 7) < 0x8000_0000
  {
    assert Shifted(y, 1) == y << 1;
    assert Shifted(y, 2) == y << 2;
    assert Shifted(y, 3) == y << 3;
    assert Shifted(y, 4) == y << 4;
    assert Shifted(y, 5) == y << 5;
    assert Shifted(y, 6) == y << 6;
    assert Shifted(y, 7) == y << 7;
  }

  lemma ShiftedBound(y: word, k: nat)
    requires y < 0x100_0000 && k < 8
    ensures Shifted(y, k) < 0x8000_0000
  {
    hide Double;
    EightShifts(y);
  }

  /** A value above the low bits reaches the bottom of the register unchanged. */
  lemma {:induction false} ShiftedDown(y: word, k: nat)
    requires y < 0x100_0000 && k <= 8
    ensures BitSteps(Shifted(y, k), k) == y
    decreases k
  {
    if k > 0 {
      hide Double, BitStep;
      ShiftedBound(y, k - 1);
      StepDown(Shifted(y, k - 1));
      ShiftedDown(y, k - 1);
    }
  }

  /** Xoring after eight bit steps is xoring eight places higher before them. */
  lemma AbsorbEarlier(x: word, y: word, n: nat)
    requires y < 0x100_0000
    ensures BitSteps(Xor(BitSteps(x, 8), y), n) == BitSteps(Xor(x, y << 8), n + 8)
  {
    hide BitSteps, Xor;
    EightShifts(y);
    ShiftedDown(y, 8);
    BitStepsLinear(x, y << 8, 8);
    BitStepsAdd(Xor(x, y << 8), 8, n);
  }

  /** `low` in the low byte, `high` above it. */
  function Pack(low: word, high: word): word {
    Xor(low, high << 8)
  }

  function LittleEndian(w: seq<byte>): word
    requires |w| == 4
  {
    Pack(Widen(w[0]), Pack(Widen(w[1]), Pack(Widen(w[2]), Widen(w[3]))))
  }

  lemma PackBound(low: word, high: word, bound: word)
    requires low < 0x100 && high < bound && (bound == 0x100 || bound == 0x1_0000)
    ensures Pack(low, high) < bound << 8
  {
  }

  function Shift8(w: word): word {
    w >> 8
  }

  function Halves(w: word, k: nat): word
    decreases k, w
  {
    if k == 0 then w else Halves(Half(w), k - 1)
  }

  lemma EightHalves(w: word)
    ensures Halves(w, 8) == Shift8(w)
  {
    assert Halves(w, 8) == Halves(w >> 1, 7) == Halves(w >> 2, 6) == Halves(w >> 3, 5);
    assert Halves(w >> 3, 5) == Halves(w >> 4, 4) == Halves(w >> 5, 3) == Halves(w >> 6, 2);
    assert Halves(w >> 6, 2) == Halves(w >> 7, 1) == Halves(w >> 8, 0);
  }

  lemma {:induction false} HalvesOfZero(k: nat)
    ensures Halves(0, k) == 0
  {
    if k > 0 {
      HalvesOfZero(k - 1);
    }
  }

  lemma {:induction false} HalvesAdd(w: word, j: nat, k: nat)
    ensures Halves(Halves(w, j), k) == Halves(w, j + k)
    decreases j
  {
    hide Half;
    if j > 0 {
      HalvesAdd(Half(w), j - 1, k);
    }
  }

  lemma BelowShift(w: word)
    requires Shift8(w) == 0
    ensures w < 0x100
  {
  }

  lemma AppendInverse(w: word, bit: bool)
    requires w < 0x8000_0000
    ensures Odd(Append(w, bit)) == bit && Half(Append(w, bit)) == w
  {
  }

  lemma {:induction false} WidenedBound(n: nat, k: nat)
    requires k <= 8
    ensures Halves(Widened(n, k), k) == 0 && Widened(n, k) < 0x100
    decreases k
  {
    hide Append, Half, Odd, Shift8;
    if k > 0 {
      WidenedBound(n / 2, k - 1);
      AppendInverse(Widened(n / 2, k - 1), n % 2 == 1);
    }
    HalvesAdd(Widened(n, k), k, 8 - k);
    HalvesOfZero(8 - k);
    EightHalves(Widened(n, k));
    BelowShift(Widened(n, k));
  }

  lemma WidenBound(b: byte)
    ensures Widen(b) < 0x100
  {
    hide Widened;
    WidenedBound(b, 8);
  }

  lemma AbsorbByte(r: word, low: word, high: word, n: nat)
    requires low < 0x100 && high < 0x100_0000
    ensures BitSteps(Xor(BitSteps(Xor(r, low), 8), high), n) == BitSteps(Xor(r, Pack(low, high)), n + 8)
  {
    hide BitSteps, Xor;
    AbsorbEarlier(Xor(r, low), high, n);
    XorAssociates(r, low, high << 8);
  }

  /** Four bytes enter the register as one little-endian word, followed by 32 bit steps. */
  lemma RegisterWord(c: word, w: seq<byte>)
    requires |w| == 4
    ensures Register(c, w) == BitSteps(Xor(c, LittleEndian(w)), 32)
  {
    hide Register, BitSteps, Xor, Widen, Pack;
    var b0, b1, b2, b3 := Widen(w[0]), Widen(w[1]), Widen(w[2]), Widen(w[3]);
    WidenBound(w[0]);
    WidenBound(w[1]);
    WidenBound(w[2]);
    WidenBound(w[3]);
    PackBound(b2, b3, 0x100);
    PackBound(b1, Pack(b2, b3), 0x1_0000);
    var r0 := BitSteps(Xor(c, b0), 8);
    var r1 := BitSteps(Xor(r0, b1), 8);
    AbsorbByte(r1, b2, b3, 8);
    AbsorbByte(r0, b1, Pack(b2, b3), 16);
    AbsorbByte(c, b0, Pack(b1, Pack(b2, b3)), 24);
    assert w[..3][..2] == w[..2] && w[..2][..1] == w[..1] && w[..1][..0] == [];
    RegisterEmpty(c);
    RegisterUnfold(c, w[..1]);
    RegisterUnfold(c, w[..2]);
    RegisterUnfold(c, w[..3]);
    RegisterUnfold(c, w);
    assert Register(c, w[..1]) == r0;
    assert Register(c, w[..2]) == r1;
    assert Register(c, w[..3]) == BitSteps(Xor(r1, b2), 8);
  }

  lemma PackHigh(low: word, high: word)
    requires low < 0x100 && high < 0x100_0000
    ensures Shift8(Pack(low, high)) == high
  {
  }

  function Power2(k: nat): nat {
    if k == 0 then 1 else 2 * Power2(k - 1)
  }

  /** The low `k` binary digits of `w`, as a number. */
  function Narrowed(w: word, k: nat): nat
    decreases k, w
  {
    if k == 0 then 0 else (if Odd(w) then 1 else 0) + 2 * Narrowed(Half(w), k - 1)
  }

  lemma {:induction false} NarrowedBound(w: word, k: nat)
    ensures Narrowed(w, k) < Power2(k)
    decreases k
  {
    hide Odd, Half;
    if k > 0 {
      NarrowedBound(Half(w), k - 1);
    }
  }

  function Narrow(w: word): byte {
    NarrowedBound(w, 8);
    Narrowed(w, 8)
  }

  lemma {:induction false} NarrowedWidened(n: nat, k: nat)
    requires k <= 8 && n < Power2(k)
    ensures Narrowed(Widened(n, k), k) == n
    decreases k
  {
    hide Append, Odd, Half;
    if k > 0 {
      WidenedBound(n / 2, k - 1);
      AppendInverse(Widened(n / 2, k - 1), n % 2 == 1);
      NarrowedWidened(n / 2, k - 1);
    }
  }

  lemma NarrowWiden(b: byte)
    ensures Narrow(Widen(b)) == b
  {
    hide Widened, Narrowed;
    NarrowedWidened(b, 8);
  }

  /** From one register, different windows of up to four bytes lead to different registers. */
  lemma WindowInjective(c: word, v: seq<byte>, w: seq<byte>)
    requires |v| == |w| <= 4 && Register(c, v) == Register(c, w)
    ensures v == w
  {
    hide Register, BitSteps, Xor, LittleEndian, PutWord;
    var tail := Fill(4 - |v|, 0);
    RegisterConcat(c, v, tail);
    RegisterConcat(c, w, tail);
    RegisterWord(c, v + tail);
    RegisterWord(c, w + tail);
    BitStepsInjective(Xor(c, LittleEndian(v + tail)), Xor(c, LittleEndian(w + tail)), 32);
    XorCommutes(c, LittleEndian(v + tail));
    XorCommutes(c, LittleEndian(w + tail));
    XorCancels(LittleEndian(v + tail), LittleEndian(w + tail), c);
    PutLittleEndian(v + tail);
    PutLittleEndian(w + tail);
    assert v == (v + tail)[..|v|] && w == (w + tail)[..|v|];
  }

  lemma BurstDetectedInRegister(c: word, before: seq<byte>, v: seq<byte>, w: seq<byte>, after: seq<byte>)
    requires |v| == |w| <= 4 && v != w
    ensures Register(c, before + v + after) != Register(c, before + w + after)
  {
    hide Register;
    if Register(c, before + v + after) == Register(c, before + w + after) {
      RegisterConcat(c, before + v, after);
      RegisterConcat(c, before + w, after);
      RegisterInjective(Register(c, before + v), Register(c, before + w), after);
      RegisterConcat(c, before, v);
      RegisterConcat(c, before, w);
      WindowInjective(Register(c, before), v, w);
    }
  }

  /**
   Any change confined to four consecutive bytes of a message of unchanged length changes its
   checksum, whatever surrounds the window and whatever the running value was.
   */
  lemma BurstDetected(crc: word, before: seq<byte>, v: seq<byte>, w: seq<byte>, after: seq<byte>)
    requires |v| == |w| <= 4 && v != w
    ensures Crc(crc, before + v + after) != Crc(crc, before + w + after)
  {
    hide Register, Not;
    BurstDetectedInRegister(Not(crc), before, v, w, after);
    ComplementTwice(Register(Not(crc), before + v + after));
    ComplementTwice(Register(Not(crc), before + w + after));
  }

  // ------------------------------------------------------- stored representation

  /** The low `n` bytes of `w`, least significant first. */
  function WordBytes(w: word, n: nat): (s: seq<byte>)
    ensures |s| == n
    decreases n, w
  {
    if n == 0 then [] else [Narrow(w)] + WordBytes(Shift8(w), n - 1)
  }

  /** A checksum as it is stored: four bytes, least significant first. */
  function PutWord(w: word): (s: seq<byte>)
    ensures |s| == 4
  {
    WordBytes(w, 4)
  }

  lemma PutWordParts(w: word)
    ensures PutWord(w) == [Narrow(w), Narrow(Shift8(w)), Narrow(Shift8(Shift8(w))), Narrow(Shift8(Shift8(Shift8(w))))]
  {
    hide Narrow, Shift8;
    var w1 := Shift8(w);
    var w2 := Shift8(w1);
    var w3 := Shift8(w2);
    assert WordBytes(w3, 1) == [Narrow(w3)] + WordBytes(Shift8(w3), 0) == [Narrow(w3)];
    assert WordBytes(w2, 2) == [Narrow(w2)] + WordBytes(w3, 1) == [Narrow(w2), Narrow(w3)];
    assert WordBytes(w1, 3) == [Narrow(w1)] + WordBytes(w2, 2);
  }

  /** The checksum of `data` from a zero running value, as four stored bytes. */
  function CrcBytes(data: seq<byte>): (s: seq<byte>)
    ensures |s| == 4
  {
    PutWord(Crc(0, data))
  }

  lemma HalfInjective(v: word, w: word)
    requires Odd(v) == Odd(w) && Half(v) == Half(w)
    ensures v == w
  {
  }

  lemma {:induction false} NarrowedInjective(v: word, w: word, k: nat)
    requires Narrowed(v, k) == Narrowed(w, k) && Halves(v, k) == Halves(w, k)
    ensures v == w
    decreases k
  {
    hide Odd, Half;
    if k > 0 {
      NarrowedInjective(Half(v), Half(w), k - 1);
      HalfInjective(v, w);
    }
  }

  lemma SplitInjective(v: word, w: word)
    requires Narrow(v) == Narrow(w) && Shift8(v) == Shift8(w)
    ensures v == w
  {
    hide Narrowed, Shift8;
    EightHalves(v);
    EightHalves(w);
    NarrowedInjective(v, w, 8);
  }

  lemma FourShifts(w: word)
    ensures Shift8(Shift8(Shift8(Shift8(w)))) == 0
  {
  }

  /** Comparing stored bytes is comparing words. */
  lemma PutWordInjective(v: word, w: word)
    requires PutWord(v) == PutWord(w)
    ensures v == w
  {
    hide Narrow, Shift8, PutWord;
    PutWordParts(v);
    PutWordParts(w);
    var s, t := PutWord(v), PutWord(w);
    assert s[0] == t[0] && s[1] == t[1] && s[2] == t[2] && s[3] == t[3];
    var v1, w1 := Shift8(v), Shift8(w);
    var v2, w2 := Shift8(v1), Shift8(w1);
    FourShifts(v);
    FourShifts(w);
    SplitInjective(Shift8(v2), Shift8(w2));
    SplitInjective(v2, w2);
    SplitInjective(v1, w1);
    SplitInjective(v, w);
  }

  /** The low `k` binary digits coincide. */
  predicate Agree(v: word, w: word, k: nat)
    decreases k, v
  {
    k == 0 || (Odd(v) == Odd(w) && Agree(Half(v), Half(w), k - 1))
  }

  lemma {:induction false} AgreeNarrowed(v: word, w: word, k: nat)
    requires Agree(v, w, k)
    ensures Narrowed(v, k) == Narrowed(w, k)
    decreases k
  {
    hide Odd, Half;
    if k > 0 {
      AgreeNarrowed(Half(v), Half(w), k - 1);
    }
  }

  lemma HalfOfZero()
    ensures Half(0) == 0 && !Odd(0)
  {
  }

  lemma {:induction false} XorAgrees(a: word, z: word, k: nat)
    requires Agree(z, 0, k)
    ensures Agree(Xor(a, z), a, k)
    decreases k
  {
    hide Odd, Half, Xor;
    if k > 0 {
      HalfOfZero();
      OddXor(a, z);
      HalfLinear(a, z);
      XorAgrees(Half(a), Half(z), k - 1);
    }
  }

  lemma {:induction false} ShiftedUp(y: word, k: nat)
    requires y < 0x100_0000 && k <= 8
    ensures Agree(Shifted(y, k), 0, k)
    decreases k
  {
    if k > 0 {
      hide Double, Half, Odd;
      HalfOfZero();
      ShiftedBound(y, k - 1);
      StepDown(Shifted(y, k - 1));
      ShiftedUp(y, k - 1);
    }
  }

  lemma PackAgrees(low: word, high: word)
    requires high < 0x100_0000
    ensures Agree(Pack(low, high), low, 8)
  {
    hide Agree, Xor, Shifted;
    EightShifts(high);
    ShiftedUp(high, 8);
    XorAgrees(low, high << 8, 8);
  }

  lemma PackParts(b: byte, high: word)
    requires high < 0x100_0000
    ensures Narrow(Pack(Widen(b), high)) == b && Shift8(Pack(Widen(b), high)) == high
  {
    hide Pack, Widen, Narrowed, Agree, Shift8;
    WidenBound(b);
    PackHigh(Widen(b), high);
    PackAgrees(Widen(b), high);
    AgreeNarrowed(Pack(Widen(b), high), Widen(b), 8);
    NarrowWiden(b);
  }

  lemma PutLittleEndian(s: seq<byte>)
    requires |s| == 4
    ensures PutWord(LittleEndian(s)) == s
  {
    hide Pack, Widen, Narrow, Shift8, PutWord;
    PutWordParts(LittleEndian(s));
    WidenBound(s[1]);
    WidenBound(s[2]);
    WidenBound(s[3]);
    var w2 := Pack(Widen(s[2]), Widen(s[3]));
    PackBound(Widen(s[2]), Widen(s[3]), 0x100);
    PackBound(Widen(s[1]), w2, 0x1_0000);
    PackParts(s[0], Pack(Widen(s[1]), w2));
    PackParts(s[1], w2);
    PackParts(s[2], Widen(s[3]));
    NarrowWiden(s[3]);
  }

  /** The word received so far, when the bytes of `s` arrived least significant first. */
  function Assembled(s: seq<byte>): word
    requires |s| <= 4
  {
    if s == [] then 0
    else Merge(Assembled(s[..|s| - 1]), s[|s| - 1], |s| - 1)
  }

  /** `received | (b << (8 * count))` */
  function Merge(received: word, b: byte, count: nat): word
    requires count < 4
  {
    match count
    case 0 => received | Widen(b)
    case 1 => received | (Widen(b) << 8)
    case 2 => received | (Widen(b) << 16)
    case 3 => received | (Widen(b) << 24)
  }

  lemma AssembledAppend(s: seq<byte>, b: byte)
    requires |s| < 4
    ensures Assembled(s + [b]) == Merge(Assembled(s), b, |s|)
  {
    hide Merge;
    assert (s + [b])[..|s|] == s;
  }

  lemma ShiftsMeet(a: word, b: word, c: word, d: word)
    requires a < 0x100 && b < 0x100 && c < 0x100 && d < 0x100
    ensures 0 | a | (b << 8) | (c << 16) | (d << 24) == Pack(a, Pack(b, Pack(c, d)))
  {
  }

  lemma FourMerges(s: seq<byte>)
    requires |s| == 4
    ensures Merge(Merge(Merge(Merge(0, s[0], 0), s[1], 1), s[2], 2), s[3], 3) == LittleEndian(s)
  {
    hide Widen, Pack;
    WidenBound(s[0]);
    WidenBound(s[1]);
    WidenBound(s[2]);
    WidenBound(s[3]);
    ShiftsMeet(Widen(s[0]), Widen(s[1]), Widen(s[2]), Widen(s[3]));
  }

  lemma AssembledWord(s: seq<byte>)
    requires |s| == 4
    ensures Assembled(s) == LittleEndian(s)
  {
    hide Merge, LittleEndian;
    FourMerges(s);
    assert s[..3][..2] == s[..2] && s[..2][..1] == s[..1] && s[..1][..0] == [];
    assert Assembled(s[..1]) == Merge(0, s[0], 0);
    assert Assembled(s[..2]) == Merge(Assembled(s[..1]), s[1], 1);
    assert Assembled(s[..3]) == Merge(Assembled(s[..2]), s[2], 2);
  }

  /** The received word equals a checksum exactly when the received bytes are its stored form. */
  lemma ReceivedMatches(w: word, s: seq<byte>)
    requires |s| == 4
    ensures w == Assembled(s) <==> PutWord(w) == s
  {
    hide PutWord, LittleEndian;
    AssembledWord(s);
    PutLittleEndian(s);
    if PutWord(w) == s {
      PutWordInjective(w, LittleEndian(s));
    }
  }

  // --------------------------------------------------- bursts in stored messages

  /** `t` differs from `s`, and only within four consecutive bytes inside `[lo, hi)`. */
  ghost predicate Burst(s: seq<byte>, t: seq<byte>, lo: nat, hi: nat) {
    && |s| == |t| && lo <= hi <= |s| && s != t
    && exists k: nat, n: nat :: n <= 4 && lo <= k && k + n <= hi && SameAround(s, t, k, n)
  }

  predicate SameAround(s: seq<byte>, t: seq<byte>, k: nat, n: nat) {
    |s| == |t| && k + n <= |s| && s[..k] == t[..k] && s[k + n..] == t[k + n..]
  }

  lemma CutAt(s: seq<byte>, k: nat, n: nat)
    requires k + n <= |s|
    ensures s == s[..k] + s[k..k + n] + s[k + n..]
  {
  }

  lemma CutRange(s: seq<byte>, lo: nat, k: nat, n: nat, hi: nat)
    requires lo <= k && k + n <= hi <= |s|
    ensures s[lo..hi] == s[lo..k] + s[k..k + n] + s[k + n..hi]
  {
  }

  lemma SamePrefix(s: seq<byte>, t: seq<byte>, lo: nat, k: nat)
    requires lo <= k <= |s| && k <= |t| && s[..k] == t[..k]
    ensures s[..lo] == t[..lo] && s[lo..k] == t[lo..k]
  {
    assert s[..lo] == s[..k][..lo] && t[..lo] == t[..k][..lo];
    assert s[lo..k] == s[..k][lo..] && t[lo..k] == t[..k][lo..];
  }

  lemma SameSuffix(s: seq<byte>, t: seq<byte>, k: nat, hi: nat)
    requires |s| == |t| && k <= hi <= |s| && s[k..] == t[k..]
    ensures s[hi..] == t[hi..] && s[k..hi] == t[k..hi]
  {
    assert s[hi..] == s[k..][hi - k..] && t[hi..] == t[k..][hi - k..];
    assert s[k..hi] == s[k..][..hi - k] && t[k..hi] == t[k..][..hi - k];
  }

  /** A burst as a replaced window of the range it lies in. */
  lemma BurstWindow(s: seq<byte>, t: seq<byte>, lo: nat, hi: nat)
    returns (before: seq<byte>, v: seq<byte>, w: seq<byte>, after: seq<byte>)
    requires Burst(s, t, lo, hi)
    ensures lo <= hi <= |s| == |t|
    ensures |v| == |w| <= 4 && v != w
    ensures s[lo..hi] == before + v + after && t[lo..hi] == before + w + after
    ensures s[..lo] == t[..lo] && s[hi..] == t[hi..]
  {
    var k: nat, n: nat :| n <= 4 && lo <= k && k + n <= hi && SameAround(s, t, k, n);
    before, v, w, after := s[lo..k], s[k..k + n], t[k..k + n], s[k + n..hi];
    CutAt(s, k, n);
    CutAt(t, k, n);
    CutRange(s, lo, k, n, hi);
    CutRange(t, lo, k, n, hi);
    SamePrefix(s, t, lo, k);
    SameSuffix(s, t, k + n, hi);
  }

  /** A burst inside a checksummed range changes the stored checksum of that range. */
  lemma BurstChangesCrc(s: seq<byte>, t: seq<byte>, lo: nat, hi: nat)
    requires Burst(s, t, lo, hi)
    ensures lo <= hi <= |s| == |t|
    ensures CrcBytes(s[lo..hi]) != CrcBytes(t[lo..hi])
    ensures s[..lo] == t[..lo] && s[hi..] == t[hi..]
  {
    hide Crc, PutWord, Burst;
    var before, v, w, after := BurstWindow(s, t, lo, hi);
    BurstDetected(0, before, v, w, after);
    if CrcBytes(s[lo..hi]) == CrcBytes(t[lo..hi]) {
      PutWordInjective(Crc(0, s[lo..hi]), Crc(0, t[lo..hi]));
    }
  }

  /** A message followed by its own stored checksum. */
  predicate Intact(s: seq<byte>)
    requires |s| >= 4
  {
    s[|s| - 4..] == CrcBytes(s[..|s| - 4])
  }

  lemma LittleEndianPut(w: word)
    ensures LittleEndian(PutWord(w)) == w
  {
    hide LittleEndian, PutWord;
    PutLittleEndian(PutWord(w));
    PutWordInjective(LittleEndian(PutWord(w)), w);
  }

  lemma XorNot(w: word)
    ensures Xor(w, Not(w)) == 0xFFFF_FFFF
  {
  }

  /** Eight bit steps, written out. */
  lemma EightSteps(c: word)
    ensures BitSteps(c, 8) == BitStep(BitStep(BitStep(BitStep(BitStep(BitStep(BitStep(BitStep(c))))))))
  {
    hide BitStep;
    var c1 := BitStep(c);
    var c2 := BitStep(c1);
    var c3 := BitStep(c2);
    var c4 := BitStep(c3);
    var c5 := BitStep(c4);
    var c6 := BitStep(c5);
    var c7 := BitStep(c6);
    assert BitSteps(c, 8) == BitSteps(c1, 7) == BitSteps(c2, 6) == BitSteps(c3, 5) == BitSteps(c4, 4);
    assert BitSteps(c4, 4) == BitSteps(c5, 3) == BitSteps(c6, 2) == BitSteps(c7, 1) == BitSteps(BitStep(c7), 0);
  }

  /** Thirty-two bit steps from the register with every bit set: the residue of CRC-32/ISO-HDLC. */
  lemma ResidueSteps()
    ensures BitSteps(0xFFFF_FFFF, 32) == 0xDEBB_20E3
  {
    EightSteps(0xFFFF_FFFF);
    EightSteps(0x2DFD_1072);
    EightSteps(0xBE26_ED00);
    EightSteps(0x00BE_26ED);
    BitStepsAdd(0xFFFF_FFFF, 8, 24);
    BitStepsAdd(0x2DFD_1072, 8, 16);
    BitStepsAdd(0xBE26_ED00, 8, 8);
  }

  /** Every intact message leaves the register at the published residue. */
  lemma IntactResidue(s: seq<byte>)
    requires |s| >= 4 && Intact(s)
    ensures Register(Not(0), s) == 0xDEBB_20E3
  {
    hide Register, BitSteps, Xor, LittleEndian, PutWord, Not;
    var n := |s| - 4;
    var r := Register(Not(0), s[..n]);
    assert s == s[..n] + s[n..];
    RegisterConcat(Not(0), s[..n], s[n..]);
    RegisterWord(r, s[n..]);
    LittleEndianPut(Not(r));
    XorNot(r);
    ResidueSteps();
  }

  /**
   A burst anywhere in a message stored with its checksum breaks it, be it in the message, in the
   checksum or across the boundary between them.
   */
  lemma BurstBreaksIntact(s: seq<byte>, t: seq<byte>, lo: nat, hi: nat)
    requires Burst(s, t, lo, hi) && hi - lo >= 4 && Intact(s[lo..hi])
    ensures hi <= |s| == |t| && !Intact(t[lo..hi])
    ensures s[..lo] == t[..lo] && s[hi..] == t[hi..]
  {
    hide Crc, PutWord, Register, BitSteps, Burst, Intact, Not;
    var before, v, w, after := BurstWindow(s, t, lo, hi);
    IntactResidue(s[lo..hi]);
    if Intact(t[lo..hi]) {
      IntactResidue(t[lo..hi]);
      BurstDetectedInRegister(Not(0), before, v, w, after);
    }
  }
}
