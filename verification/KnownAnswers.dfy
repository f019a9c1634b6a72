/** Published values and literal messages, which fix the constants the other results are about. */
module KnownAnswers {
  import opened Bytes
  import opened Crc32
  import opened Frame
  import opened Optional
  import opened Meta
  import opened Core

  /** One more byte of a message whose register so far is known. */
  lemma ByteIn(s: seq<byte>, i: nat, before: word, mixed: word, after: word)
    requires i < |s| && Register(Not(0), s[..i]) == before
    requires Xor(before, Widen(s[i])) == mixed && BitSteps(mixed, 8) == after
    ensures Register(Not(0), s[..i + 1]) == after
  {
    hide Register, BitSteps, Xor, Widen, Not;
    RegisterUnfold(Not(0), s[..i + 1]);
    assert s[..i + 1][..i] == s[..i];
  }

  lemma WidenDigits()
    ensures Widen(0x31) == 0x31 && Widen(0x32) == 0x32 && Widen(0x33) == 0x33 && Widen(0x34) == 0x34
    ensures Widen(0x35) == 0x35 && Widen(0x36) == 0x36 && Widen(0x37) == 0x37 && Widen(0x38) == 0x38
    ensures Widen(0x39) == 0x39
  {
    assert Widened(0, 2) == 0;
    assert Widened(1, 3) == 1;
    assert Widened(3, 4) == 3;
    assert Widened(6, 5) == 6 && Widened(7, 5) == 7;
    assert Widened(12, 6) == 12 && Widened(13, 6) == 13 && Widened(14, 6) == 14;
    assert Widened(24, 7) == 24 && Widened(25, 7) == 25 && Widened(26, 7) == 26 && Widened(27, 7) == 27;
    assert Widened(28, 7) == 28;
  }

  lemma CheckBytes()
    ensures BitSteps(0xFFFF_FFCE, 8) == 0x7C23_1048
    ensures BitSteps(0x7C23_107A, 8) == 0xB0AC_BB32
    ensures BitSteps(0xB0AC_BB01, 8) == 0x77B7_9C2D
    ensures BitSteps(0x77B7_9C19, 8) == 0x641C_1F5C
    ensures BitSteps(0x641C_1F69, 8) == 0x340A_C5E3
    ensures BitSteps(0x340A_C5D5, 8) == 0xF68D_2C9E
    ensures BitSteps(0xF68D_2CA9, 8) == 0xAFFC_9660
    ensures BitSteps(0xAFFC_9658, 8) == 0x651F_2550
    ensures BitSteps(0x651F_2569, 8) == 0x340B_C6D9
  {
    EightSteps(0xFFFF_FFCE);
    EightSteps(0x7C23_107A);
    EightSteps(0xB0AC_BB01);
    EightSteps(0x77B7_9C19);
    EightSteps(0x641C_1F69);
    EightSteps(0x340A_C5D5);
    EightSteps(0xF68D_2CA9);
    EightSteps(0xAFFC_9658);
    EightSteps(0x651F_2569);
  }

  /** The published check value of CRC-32/ISO-HDLC. */
  lemma CheckValue()
    ensures Crc32.Crc(0, [0x31, 0x32, 0x33, 0x34, 0x35, 0x36, 0x37, 0x38, 0x39]) == 0xCBF4_3926
  {
    hide Register, BitSteps, Widen;
    var s: seq<byte> := [0x31, 0x32, 0x33, 0x34, 0x35, 0x36, 0x37, 0x38, 0x39];
    WidenDigits();
    CheckBytes();
    RegisterEmpty(Not(0));
    ByteIn(s, 0, 0xFFFF_FFFF, 0xFFFF_FFCE, 0x7C23_1048);
    ByteIn(s, 1, 0x7C23_1048, 0x7C23_107A, 0xB0AC_BB32);
    ByteIn(s, 2, 0xB0AC_BB32, 0xB0AC_BB01, 0x77B7_9C2D);
    ByteIn(s, 3, 0x77B7_9C2D, 0x77B7_9C19, 0x641C_1F5C);
    ByteIn(s, 4, 0x641C_1F5C, 0x641C_1F69, 0x340A_C5E3);
    ByteIn(s, 5, 0x340A_C5E3, 0x340A_C5D5, 0xF68D_2C9E);
    ByteIn(s, 6, 0xF68D_2C9E, 0xF68D_2CA9, 0xAFFC_9660);
    ByteIn(s, 7, 0xAFFC_9660, 0xAFFC_9658, 0x651F_2550);
    ByteIn(s, 8, 0x651F_2550, 0x651F_2569, 0x340B_C6D9);
    assert s[..9] == s;
  }

  // ------------------------------------------------------------------- messages

  lemma HelloBits()
    ensures BitSteps(0xFFFF_FFFE, 8) == 0x5AFA_20E4
    ensures BitSteps(0x5AFA_20E4, 8) == 0xA73D_DC41
    ensures BitSteps(0xA73D_DC41, 8) == 0x017C_4CDA
  {
    EightSteps(0xFFFF_FFFE);
    EightSteps(0x5AFA_20E4);
    EightSteps(0xA73D_DC41);
  }

  lemma WidenSmall()
    ensures Widen(0) == 0 && Widen(1) == 1
  {
    assert Widened(0, 2) == 0;
    assert Widened(0, 5) == 0;
    assert Widened(0, 7) == 0;
  }

  lemma StoredHello()
    ensures PutWord(0xFE83_B325) == [0x25, 0xB3, 0x83, 0xFE]
  {
    PutWordParts(0xFE83_B325);
  }

  /** The bytes of a HELLO request on the wire. */
  lemma HelloRequest()
    ensures Wire(HELLO, []) == [0x7E, 0x01, 0x00, 0x00, 0x25, 0xB3, 0x83, 0xFE]
  {
    hide Register, BitSteps, Widen, PutWord;
    var s: seq<byte> := [0x01, 0x00, 0x00];
    U16Digits(0);
    WidenSmall();
    HelloBits();
    RegisterEmpty(Not(0));
    ByteIn(s, 0, 0xFFFF_FFFF, 0xFFFF_FFFE, 0x5AFA_20E4);
    ByteIn(s, 1, 0x5AFA_20E4, 0x5AFA_20E4, 0xA73D_DC41);
    ByteIn(s, 2, 0xA73D_DC41, 0xA73D_DC41, 0x017C_4CDA);
    assert s[..3] == s;
    assert Body(HELLO, []) == s;
    StoredHello();
  }

  /**
   What a device without metadata answers to HELLO: protocol and header version 1, two slots of
   0x1B000 bytes, writes of 8 bytes, pages of 2048, at most 504 bytes a write, nothing nominated.
   */
  lemma HelloAnswerBlank(d: Device, fates: Fates)
    requires Read(d.flash) == None
    ensures Handle(d, 0x01, [], fates).response ==
            Some([0x00, 0x01, 0x01, 0x02, 0x00, 0xB0, 0x01, 0x00, 0x08, 0x00, 0x00, 0x00,
                  0x00, 0x08, 0x00, 0x00, 0xF8, 0x01, 0xFF, 0xFF, 0x00])
  {
    hide Read, Bytes.PutU32, Bytes.PutU16;
    FieldBytes();
    assert Geometry() == [0x01, 0x01, 0x02, 0x00, 0xB0, 0x01, 0x00, 0x08, 0x00, 0x00, 0x00,
                          0x00, 0x08, 0x00, 0x00, 0xF8, 0x01];
    assert BootBytes(Read(d.flash)) == [0xFF, 0xFF, 0x00];
    assert [0x00] + (Geometry() + BootBytes(Read(d.flash))) ==
           [0x00, 0x01, 0x01, 0x02, 0x00, 0xB0, 0x01, 0x00, 0x08, 0x00, 0x00, 0x00,
            0x00, 0x08, 0x00, 0x00, 0xF8, 0x01, 0xFF, 0xFF, 0x00];
  }

  lemma FieldBytes()
    ensures PutU32(0x1_B000) == [0x00, 0xB0, 0x01, 0x00]
    ensures PutU32(8) == [0x08, 0x00, 0x00, 0x00]
    ensures PutU32(2048) == [0x00, 0x08, 0x00, 0x00]
    ensures PutU16(504) == [0xF8, 0x01]
  {
    hide Bytes.PutU32, Bytes.PutU16;
    U16Digits(504);
    U32Digits(0x1_B000);
    U32Digits(8);
    U32Digits(2048);
    assert 504 % 256 == 0xF8 && 504 / 256 == 1;
    assert 0x1_B000 / 256 == 0x1B0 && 0x1B0 / 256 == 1;
    assert 2048 / 256 == 8;
  }
}
