/** Bytes and the little-endian fields every on-flash and on-wire format is made of. */
module Bytes {

  type byte = b: int | 0 <= b < 256

  /** The value flash reads as after an erase. */
  const ERASED: byte := 0xFF

  const U32_LIMIT: nat := 0x1_0000_0000

  /** `n` copies of `b`. */
  function Fill(n: nat, b: byte): (s: seq<byte>)
    ensures |s| == n
    ensures forall i :: 0 <= i < n ==> s[i] == b
  {
    seq(n, _ => b)
  }

  // ---------------------------------------------------- little-endian numbers

  function Limit(size: nat): (n: nat)
    ensures n > 0
  {
    if size == 0 then 1 else 256 * Limit(size - 1)
  }

  /** The number whose bytes, least significant first, are `s`. */
  function Value(s: seq<byte>): nat {
    if s == [] then 0 else s[0] + 256 * Value(s[1..])
  }

  lemma {:induction false} ValueBound(s: seq<byte>)
    ensures Value(s) < Limit(|s|)
  {
    if s != [] {
      ValueBound(s[1..]);
    }
  }

  /** The low `size` bytes of `n`, least significant first. */
  function Digits(n: nat, size: nat): (s: seq<byte>)
    ensures |s| == size
    decreases size, n
  {
    if size == 0 then [] else [n % 256] + Digits(n / 256, size - 1)
  }

  lemma {:induction false} ValueDigits(n: nat, size: nat)
    requires n < Limit(size)
    ensures Value(Digits(n, size)) == n
    decreases size
  {
    if size > 0 {
      var rest := Digits(n / 256, size - 1);
      ValueDigits(n / 256, size - 1);
      assert Digits(n, size)[1..] == rest;
    }
  }

  lemma {:induction false} DigitsValue(s: seq<byte>)
    ensures Digits(Value(s), |s|) == s
  {
    if s != [] {
      DigitsValue(s[1..]);
      assert Value(s) / 256 == Value(s[1..]);
      assert s == [s[0]] + s[1..];
    }
  }

  // ------------------------------------------------------------------- fields

  lemma Limits()
    ensures Limit(2) == 0x1_0000 && Limit(4) == U32_LIMIT
  {
    assert Limit(1) == 256 && Limit(3) == 256 * Limit(2);
  }

  function PutU16(n: nat): (s: seq<byte>)
    requires n < 0x1_0000
    ensures |s| == 2
  {
    Digits(n, 2)
  }

  function GetU16(s: seq<byte>): (n: nat)
    requires |s| == 2
    ensures n < 0x1_0000
  {
    Limits();
    ValueBound(s);
    Value(s)
  }

  function PutU32(n: nat): (s: seq<byte>)
    requires n < U32_LIMIT
    ensures |s| == 4
  {
    Digits(n, 4)
  }

  function GetU32(s: seq<byte>): (n: nat)
    requires |s| == 4
    ensures n < U32_LIMIT
  {
    Limits();
    ValueBound(s);
    Value(s)
  }

  /** The 16-bit field at an offset, least significant byte first. */
  function Field16(s: seq<byte>, at: nat): nat
    requires at + 2 <= |s|
  {
    (s[at] as int) + 0x100 * (s[at + 1] as int)
  }

  /** The 32-bit field at an offset, least significant byte first. */
  function Field32(s: seq<byte>, at: nat): nat
    requires at + 4 <= |s|
  {
    (s[at] as int) + 0x100 * (s[at + 1] as int) + 0x1_0000 * (s[at + 2] as int) + 0x100_0000 * (s[at + 3] as int)
  }

  lemma U16Bytes(s: seq<byte>)
    requires |s| == 2
    ensures GetU16(s) == Field16(s, 0) == (s[0] as int) + 256 * (s[1] as int)
  {
    assert Value(s[1..]) == s[1];
  }

  lemma U32Bytes(s: seq<byte>)
    requires |s| == 4
    ensures GetU32(s) == Field32(s, 0)
  {
    var s1 := s[1..];
    var s2 := s1[1..];
    assert s2[1..] == [s[3]] && Value(s2[1..]) == s[3];
    assert Value(s2) == s[2] + 256 * Value(s2[1..]);
    assert Value(s1) == s[1] + 256 * Value(s2);
  }

  lemma U16Digits(n: nat)
    requires n < 0x1_0000
    ensures PutU16(n) == [n % 256, n / 256]
  {
    assert Digits(n / 256, 1) == [n / 256 % 256] + Digits(n / 256 / 256, 0);
  }

  lemma U32Digits(n: nat)
    requires n < U32_LIMIT
    ensures PutU32(n) == [n % 256, n / 256 % 256, n / 256 / 256 % 256, n / 256 / 256 / 256 % 256]
  {
    var n1 := n / 256;
    var n2 := n1 / 256;
    var n3 := n2 / 256;
    assert Digits(n3, 1) == [n3 % 256] + Digits(n3 / 256, 0) == [n3 % 256];
    assert Digits(n2, 2) == [n2 % 256] + Digits(n3, 1);
    assert Digits(n1, 3) == [n1 % 256] + Digits(n2, 2);
    assert Digits(n, 4) == [n % 256] + Digits(n1, 3);
  }

  lemma U16RoundTrip(n: nat)
    requires n < 0x1_0000
    ensures GetU16(PutU16(n)) == n
  {
    hide Value, Digits;
    Limits();
    ValueDigits(n, 2);
  }

  lemma U32RoundTrip(n: nat)
    requires n < U32_LIMIT
    ensures GetU32(PutU32(n)) == n
  {
    hide Value, Digits;
    Limits();
    ValueDigits(n, 4);
  }

  lemma U16Injective(s: seq<byte>)
    requires |s| == 2
    ensures PutU16(GetU16(s)) == s
  {
    hide Value, Digits;
    DigitsValue(s);
  }
}
