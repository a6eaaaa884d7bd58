/** Known answers: values that fix the constants of the checksum and of the PKZIP cipher. */
module KnownAnswers {
  import opened Bytes
  import opened Words
  import opened Crc32
  import opened ZipCrypto

  // ---------- CRC-32 ----------

  /** The check value of CRC-32: the checksum of the digits 1 to 9. */
  lemma CheckValue()
    ensures Checksum([0x31, 0x32, 0x33, 0x34, 0x35, 0x36, 0x37, 0x38, 0x39]) == 0xCBF43926
  {
    hide CrcByte, Update, Finalize;
    FirstDigits();
    MiddleDigits();
    LastDigits();
    NoBytes(0x340bc6d9);
    Flipped();
    OneMoreByte(0x651f2550, 0x39, []);
    assert [0x39 as byte] + [] == [0x39];
    OneMoreByte(0xaffc9660, 0x38, [0x39]);
    assert [0x38 as byte] + [0x39] == [0x38, 0x39];
    OneMoreByte(0xf68d2c9e, 0x37, [0x38, 0x39]);
    assert [0x37 as byte] + [0x38, 0x39] == [0x37, 0x38, 0x39];
    OneMoreByte(0x340ac5e3, 0x36, [0x37, 0x38, 0x39]);
    assert [0x36 as byte] + [0x37, 0x38, 0x39] == [0x36, 0x37, 0x38, 0x39];
    OneMoreByte(0x641c1f5c, 0x35, [0x36, 0x37, 0x38, 0x39]);
    assert [0x35 as byte] + [0x36, 0x37, 0x38, 0x39] == [0x35, 0x36, 0x37, 0x38, 0x39];
    OneMoreByte(0x77b79c2d, 0x34, [0x35, 0x36, 0x37, 0x38, 0x39]);
    assert [0x34 as byte] + [0x35, 0x36, 0x37, 0x38, 0x39] == [0x34, 0x35, 0x36, 0x37, 0x38, 0x39];
    OneMoreByte(0xb0acbb32, 0x33, [0x34, 0x35, 0x36, 0x37, 0x38, 0x39]);
    assert [0x33 as byte] + [0x34, 0x35, 0x36, 0x37, 0x38, 0x39] == [0x33, 0x34, 0x35, 0x36, 0x37, 0x38, 0x39];
    OneMoreByte(0x7c231048, 0x32, [0x33, 0x34, 0x35, 0x36, 0x37, 0x38, 0x39]);
    assert [0x32 as byte] + [0x33, 0x34, 0x35, 0x36, 0x37, 0x38, 0x39]
        == [0x32, 0x33, 0x34, 0x35, 0x36, 0x37, 0x38, 0x39];
    OneMoreByte(0xffffffff, 0x31, [0x32, 0x33, 0x34, 0x35, 0x36, 0x37, 0x38, 0x39]);
    assert [0x31 as byte] + [0x32, 0x33, 0x34, 0x35, 0x36, 0x37, 0x38, 0x39]
        == [0x31, 0x32, 0x33, 0x34, 0x35, 0x36, 0x37, 0x38, 0x39];
  }

  lemma Flipped()
    ensures Finalize(0x340bc6d9) == 0xCBF43926
  {
  }

  lemma NoBytes(crc: bv32)
    ensures Update(crc, []) == crc
  {
  }

  lemma OneMoreByte(crc: bv32, b: byte, rest: bytes)
    ensures Update(crc, [b] + rest) == Update(CrcByte(crc, b), rest)
  {
    hide CrcByte;
    assert ([b] + rest)[1..] == rest;
  }

  lemma FirstDigits()
    ensures CrcByte(0xffffffff, 0x31) == 0x7c231048
    ensures CrcByte(0x7c231048, 0x32) == 0xb0acbb32
    ensures CrcByte(0xb0acbb32, 0x33) == 0x77b79c2d
  {
    hide CrcByte;
    TableStepIsEightShifts(0xffffffff, 0x31);
    TableStepIsEightShifts(0x7c231048, 0x32);
    TableStepIsEightShifts(0xb0acbb32, 0x33);
  }

  lemma MiddleDigits()
    ensures CrcByte(0x77b79c2d, 0x34) == 0x641c1f5c
    ensures CrcByte(0x641c1f5c, 0x35) == 0x340ac5e3
    ensures CrcByte(0x340ac5e3, 0x36) == 0xf68d2c9e
  {
    hide CrcByte;
    TableStepIsEightShifts(0x77b79c2d, 0x34);
    TableStepIsEightShifts(0x641c1f5c, 0x35);
    TableStepIsEightShifts(0x340ac5e3, 0x36);
  }

  lemma LastDigits()
    ensures CrcByte(0xf68d2c9e, 0x37) == 0xaffc9660
    ensures CrcByte(0xaffc9660, 0x38) == 0x651f2550
    ensures CrcByte(0x651f2550, 0x39) == 0x340bc6d9
  {
    hide CrcByte;
    TableStepIsEightShifts(0xf68d2c9e, 0x37);
    TableStepIsEightShifts(0xaffc9660, 0x38);
    TableStepIsEightShifts(0x651f2550, 0x39);
  }

  // ---------- the PKZIP cipher ----------

  /** The keys after the password "egg", and two bytes encrypted under it. */
  lemma ZipValue()
    ensures Absorb(INITIAL_KEYS, [0x65, 0x67, 0x67]) == Keys(0x20c137cd, 0xf780299a, 0x071635d9)
    ensures Encrypted(Absorb(INITIAL_KEYS, [0x65, 0x67, 0x67]), [0x48, 0x69]) == [0x7b, 0x02]
  {
    hide UpdateKeys, KeystreamByte, XorByte;
    ZipStep0();
    ZipStep1();
    ZipStep2();
    ZipStep3();
    ZipBytes();
    var k, m := Keys(0x20c137cd, 0xf780299a, 0x071635d9), Keys(0x9df2b698, 0xccd29afb, 0x6ddaf2de);
    assert [0x67 as byte][1..] == [] && [0x67 as byte, 0x67][1..] == [0x67];
    assert [0x65 as byte, 0x67, 0x67][1..] == [0x67, 0x67];
    assert [0x48 as byte, 0x69][1..] == [0x69] && [0x69 as byte][1..] == [];
    assert Encrypted(m, [0x69]) == [0x02] + Encrypted(UpdateKeys(m, 0x69), []);
    assert Encrypted(k, [0x48, 0x69]) == [0x7b] + Encrypted(m, [0x69]);
  }

  lemma ZipBytes()
    ensures XorByte(0x48, KeystreamByte(Keys(0x20c137cd, 0xf780299a, 0x071635d9))) == 0x7b
    ensures XorByte(0x69, KeystreamByte(Keys(0x9df2b698, 0xccd29afb, 0x6ddaf2de))) == 0x02
  {
  }

  lemma ZipStep0()
    ensures UpdateKeys(INITIAL_KEYS, 0x65)
         == Keys(0x6314588f, 0x7ac76879, 0x40eb5d1e)
  {
    hide CrcByte;
    TableStepIsEightShifts(0x12345678, 0x65);
    TableStepIsEightShifts(0x34567890, 0x7a);
  }

  lemma ZipStep1()
    ensures UpdateKeys(Keys(0x6314588f, 0x7ac76879, 0x40eb5d1e), 0x67)
         == Keys(0xaeb27e12, 0xd424b6b8, 0x7bf1c0f3)
  {
    hide CrcByte;
    TableStepIsEightShifts(0x6314588f, 0x67);
    TableStepIsEightShifts(0x40eb5d1e, 0xd4);
  }

  lemma ZipStep2()
    ensures UpdateKeys(Keys(0xaeb27e12, 0xd424b6b8, 0x7bf1c0f3), 0x67)
         == Keys(0x20c137cd, 0xf780299a, 0x071635d9)
  {
    hide CrcByte;
    TableStepIsEightShifts(0xaeb27e12, 0x67);
    TableStepIsEightShifts(0x7bf1c0f3, 0xf7);
  }

  lemma ZipStep3()
    ensures UpdateKeys(Keys(0x20c137cd, 0xf780299a, 0x071635d9), 0x48)
         == Keys(0x9df2b698, 0xccd29afb, 0x6ddaf2de)
  {
    hide CrcByte;
    TableStepIsEightShifts(0x20c137cd, 0x48);
    TableStepIsEightShifts(0x071635d9, 0xcc);
  }
}
