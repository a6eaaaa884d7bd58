/** The records byte by byte: literal bytes for the signatures and for one record of each kind. */
module Layout {
  import opened Bytes
  import opened Errors
  import opened ArchiveFormat
  import opened ArchiveWriter
  import Words

  // ---------- numbers ----------

  lemma OneByte(n: nat, b: byte)
    requires n == Val(b)
    ensures LeBytes(n, 1) == [b]
  {
    hide Val, ByteOf;
    assert LeValue([]) == 0 && [b][1..] == [];
    LeBytesOfValue([b]);
  }

  lemma MoreBytes(n: nat, b: byte, rest: bytes)
    requires n == Val(b) + 256 * LeValue(rest)
    ensures LeBytes(n, 1 + |rest|) == [b] + rest && LeValue([b] + rest) == n
  {
    hide Val, ByteOf;
    assert ([b] + rest)[1..] == rest;
    LeBytesOfValue([b] + rest);
  }

  lemma TwoBytes(n: nat, b0: byte, b1: byte)
    requires n == Val(b0) + 256 * Val(b1)
    ensures LeBytes(n, 2) == [b0, b1] && LeValue([b0, b1]) == n
  {
    hide Val, LeBytes, LeValue;
    NoBytes();
    MoreBytes(Val(b1), b1, []);
    assert [b1] + [] == [b1] && [b0] + [b1] == [b0, b1];
    MoreBytes(n, b0, [b1]);
  }

  lemma NoBytes()
    ensures LeValue([]) == 0
  {
  }

  lemma FourBytes(n: nat, b0: byte, b1: byte, b2: byte, b3: byte)
    requires n == Val(b0) + 256 * (Val(b1) + 256 * (Val(b2) + 256 * Val(b3)))
    ensures LeBytes(n, 4) == [b0, b1, b2, b3] && LeValue([b0, b1, b2, b3]) == n
  {
    hide Val, LeBytes, LeValue;
    TwoBytes(Val(b2) + 256 * Val(b3), b2, b3);
    MoreBytes(Val(b1) + 256 * (Val(b2) + 256 * Val(b3)), b1, [b2, b3]);
    assert [b1] + [b2, b3] == [b1, b2, b3] && [b0] + [b1, b2, b3] == [b0, b1, b2, b3];
    MoreBytes(n, b0, [b1, b2, b3]);
  }

  lemma EightBytes(n: nat, low: nat, high: nat, a: bytes, b: bytes)
    requires |a| == |b| == 4 && LeValue(a) == low && LeValue(b) == high && n == low + 0x1_0000_0000 * high
    ensures LeBytes(n, 8) == a + b
  {
    hide Val, LeBytes, LeValue;
    FourOf(a);
    var v1 := Val(a[3]) + 256 * high;
    var v2 := Val(a[2]) + 256 * v1;
    var v3 := Val(a[1]) + 256 * v2;
    MoreBytes(v1, a[3], b);
    MoreBytes(v2, a[2], [a[3]] + b);
    MoreBytes(v3, a[1], [a[2]] + ([a[3]] + b));
    assert n == Val(a[0]) + 256 * v3;
    MoreBytes(n, a[0], [a[1]] + ([a[2]] + ([a[3]] + b)));
    assert a + b == [a[0]] + ([a[1]] + ([a[2]] + ([a[3]] + b)));
  }

  lemma FourOf(a: bytes)
    requires |a| == 4
    ensures LeValue(a) == Val(a[0]) + 256 * (Val(a[1]) + 256 * (Val(a[2]) + 256 * Val(a[3])))
  {
    hide Val;
    assert a[1..][1..] == a[2..] && a[2..][1..] == a[3..] && a[3..][1..] == [];
    assert LeValue(a[3..]) == Val(a[3]) && LeValue(a[2..]) == Val(a[2]) + 256 * Val(a[3]);
    assert LeValue(a[1..]) == Val(a[1]) + 256 * (Val(a[2]) + 256 * Val(a[3]));
  }

  // ---------- signatures ----------

  /** The signatures as they stand in a file: the first seven ... */
  lemma FirstSignatures()
    ensures Sig(SIG_EGG_HEADER) == [0x45, 0x47, 0x47, 0x41]
    ensures Sig(SIG_SPLIT_INFO) == [0x62, 0xA2, 0xF5, 0x24]
    ensures Sig(SIG_SOLID_INFO) == [0x60, 0xA0, 0xE5, 0x24]
    ensures Sig(SIG_FILE_HEADER) == [0xE3, 0x90, 0x85, 0x0A]
    ensures Sig(SIG_FILENAME) == [0xAC, 0x91, 0x85, 0x0A]
    ensures Sig(SIG_COMMENT) == [0x72, 0x36, 0xC6, 0x04]
    ensures Sig(SIG_WINDOWS_FILE_INFO) == [0x0B, 0x95, 0x86, 0x2C]
  {
    hide Val, LeBytes;
    SignatureValues();
    FourBytes(SIG_EGG_HEADER, 0x45, 0x47, 0x47, 0x41);
    FourBytes(SIG_SPLIT_INFO, 0x62, 0xA2, 0xF5, 0x24);
    FourBytes(SIG_SOLID_INFO, 0x60, 0xA0, 0xE5, 0x24);
    FourBytes(SIG_FILE_HEADER, 0xE3, 0x90, 0x85, 0x0A);
    FourBytes(SIG_FILENAME, 0xAC, 0x91, 0x85, 0x0A);
    FourBytes(SIG_COMMENT, 0x72, 0x36, 0xC6, 0x04);
    FourBytes(SIG_WINDOWS_FILE_INFO, 0x0B, 0x95, 0x86, 0x2C);
  }

  /** ... and the other seven. */
  lemma OtherSignatures()
    ensures Sig(SIG_ENCRYPT_INFO) == [0x0F, 0x47, 0xD1, 0x08]
    ensures Sig(SIG_BLOCK_HEADER) == [0x13, 0x0C, 0xB5, 0x02]
    ensures Sig(SIG_DUMMY) == [0x07, 0x33, 0x46, 0x07]
    ensures Sig(SIG_END_MARKER) == [0x22, 0x82, 0xE2, 0x08]
    ensures Sig(SIG_SKIP) == [0x00, 0x00, 0xFF, 0xFF]
    ensures Sig(SIG_GLOBAL_ENCRYPT) == [0xA8, 0x44, 0xD1, 0x08]
    ensures Sig(SIG_POSIX_FILE_INFO) == [0xE5, 0x22, 0xE9, 0x1E]
  {
    hide Val, LeBytes;
    SignatureValues();
    FourBytes(SIG_ENCRYPT_INFO, 0x0F, 0x47, 0xD1, 0x08);
    FourBytes(SIG_BLOCK_HEADER, 0x13, 0x0C, 0xB5, 0x02);
    FourBytes(SIG_DUMMY, 0x07, 0x33, 0x46, 0x07);
    FourBytes(SIG_END_MARKER, 0x22, 0x82, 0xE2, 0x08);
    FourBytes(SIG_SKIP, 0x00, 0x00, 0xFF, 0xFF);
    FourBytes(SIG_GLOBAL_ENCRYPT, 0xA8, 0x44, 0xD1, 0x08);
    FourBytes(SIG_POSIX_FILE_INFO, 0xE5, 0x22, 0xE9, 0x1E);
  }

  // ---------- records ----------

  lemma Flags()
    ensures HasFlag(0x01, 1) && !HasFlag(0x00, 1) && !HasFlag(0x18, 1) && !HasFlag(0x08, 1) && !HasFlag(0x10, 1)
    ensures HasFlag(0x18, 0x08) && HasFlag(0x08, 0x08) && !HasFlag(0x10, 0x08) && !HasFlag(0x01, 0x08)
    ensures HasFlag(0x18, 0x10) && !HasFlag(0x08, 0x10) && HasFlag(0x10, 0x10) && !HasFlag(0x01, 0x10)
  {
  }

  /** The header of a volume, its fields in this order and least significant byte first. */
  lemma KnownHeader(a: ArchiveValue)
    requires a.version == 0x0100 && a.headerId == 0x12345678 && a.reserved == 0
    ensures HeaderBytes(a)
         == [0x45, 0x47, 0x47, 0x41, 0x00, 0x01, 0x78, 0x56, 0x34, 0x12, 0x00, 0x00, 0x00, 0x00]
  {
    hide Val, LeBytes;
    SignatureValues();
    MoreValues();
    FirstSignatures();
    TwoBytes(0x0100, 0x00, 0x01);
    FourBytes(0x12345678, 0x78, 0x56, 0x34, 0x12);
    FourBytes(0, 0x00, 0x00, 0x00, 0x00);
  }

  /** A split record: the previous ID before the next one. */
  lemma KnownSplit()
    ensures PrefixBytes(SplitRecord(0x00, 8, 0x11223344, 0x55667788, []))
         == [0x62, 0xA2, 0xF5, 0x24, 0x00, 0x08, 0x00, 0x44, 0x33, 0x22, 0x11, 0x88, 0x77, 0x66, 0x55]
  {
    hide Val, LeBytes, HasFlag;
    SignatureValues();
    MoreValues();
    Flags();
    FirstSignatures();
    TwoBytes(8, 0x08, 0x00);
    FourBytes(0x11223344, 0x44, 0x33, 0x22, 0x11);
    FourBytes(0x55667788, 0x88, 0x77, 0x66, 0x55);
  }

  /** Bit 0 of the flags makes the size four bytes wide. */
  lemma KnownSolid()
    ensures PrefixBytes(SolidRecord(0x01, [0x22])) == [0x60, 0xA0, 0xE5, 0x24, 0x01, 0x01, 0x00, 0x00, 0x00, 0x22]
    ensures PrefixBytes(SolidRecord(0x00, [0x22])) == [0x60, 0xA0, 0xE5, 0x24, 0x00, 0x01, 0x00, 0x22]
  {
    hide Val, LeBytes, HasFlag;
    SignatureValues();
    MoreValues();
    Flags();
    FirstSignatures();
    TwoBytes(1, 0x01, 0x00);
    FourBytes(1, 0x01, 0x00, 0x00, 0x00);
  }

  /** Bit 3 of a name's flags is the locale, bit 4 the parent, and the declared size covers both. */
  lemma KnownNames()
    ensures SubRecordBytes(NameRecord(0x18, 0x1122, 0x55667788, [0x41]))
         == [0xAC, 0x91, 0x85, 0x0A] + (([0x18] + [0x07, 0x00])
            + ([0x22, 0x11] + ([0x88, 0x77, 0x66, 0x55] + [0x41])))
    ensures SubRecordBytes(NameRecord(0x08, 0x1122, 0, [0x41]))
         == [0xAC, 0x91, 0x85, 0x0A] + (([0x08] + [0x03, 0x00]) + ([0x22, 0x11] + ([] + [0x41])))
    ensures SubRecordBytes(NameRecord(0x10, 0, 0x55667788, [0x41]))
         == [0xAC, 0x91, 0x85, 0x0A] + (([0x10] + [0x05, 0x00]) + ([] + ([0x88, 0x77, 0x66, 0x55] + [0x41])))
  {
    hide Val, LeBytes, HasFlag;
    SignatureValues();
    MoreValues();
    Flags();
    FirstSignatures();
    TwoBytes(7, 0x07, 0x00);
    TwoBytes(3, 0x03, 0x00);
    TwoBytes(5, 0x05, 0x00);
    TwoBytes(0x1122, 0x22, 0x11);
    FourBytes(0x55667788, 0x88, 0x77, 0x66, 0x55);
  }

  /** Windows times and attributes. */
  lemma KnownWindows()
    ensures SubRecordBytes(WindowsRecord(0x00, 0x1122334455667788, 0x80, []))
         == [0x0B, 0x95, 0x86, 0x2C] + (([0x00] + [0x09, 0x00])
            + (([0x88, 0x77, 0x66, 0x55] + [0x44, 0x33, 0x22, 0x11]) + ([0x80] + [])))
  {
    hide Val, LeBytes, HasFlag;
    SignatureValues();
    MoreValues();
    Flags();
    FirstSignatures();
    TwoBytes(9, 0x09, 0x00);
    FourBytes(0x55667788, 0x88, 0x77, 0x66, 0x55);
    FourBytes(0x11223344, 0x44, 0x33, 0x22, 0x11);
    EightBytes(
      0x1122334455667788, 0x55667788, 0x11223344, [0x88, 0x77, 0x66, 0x55], [0x44, 0x33, 0x22, 0x11]);
  }

  /** POSIX mode, owner, group and time. */
  lemma KnownPosix()
    ensures SubRecordBytes(PosixRecord(0x00, 0x11223344, 1, 0, 0x55667788, []))
         == [0xE5, 0x22, 0xE9, 0x1E] + (([0x00] + [0x14, 0x00])
            + ([0x44, 0x33, 0x22, 0x11] + ([0x01, 0x00, 0x00, 0x00] + ([0x00, 0x00, 0x00, 0x00]
            + (([0x88, 0x77, 0x66, 0x55] + [0x00, 0x00, 0x00, 0x00]) + [])))))
  {
    hide Val, LeBytes, HasFlag;
    SignatureValues();
    MoreValues();
    Flags();
    OtherSignatures();
    TwoBytes(20, 0x14, 0x00);
    FourBytes(0x11223344, 0x44, 0x33, 0x22, 0x11);
    FourBytes(1, 0x01, 0x00, 0x00, 0x00);
    FourBytes(0, 0x00, 0x00, 0x00, 0x00);
    FourBytes(0x55667788, 0x88, 0x77, 0x66, 0x55);
    EightBytes(0x55667788, 0x55667788, 0, [0x88, 0x77, 0x66, 0x55], [0x00, 0x00, 0x00, 0x00]);
  }

  /** The record of a cipher, whose declared size covers the cipher's byte. */
  lemma KnownCipher(payload: bytes)
    requires |payload| == 20
    ensures EncryptBytes(EncryptRecord(0x00, Lea128, 20, payload))
         == [0x0F, 0x47, 0xD1, 0x08, 0x00, 0x15, 0x00, 0x05] + payload
  {
    hide Val, LeBytes, HasFlag;
    SignatureValues();
    MoreValues();
    Flags();
    OtherSignatures();
    TwoBytes(21, 0x15, 0x00);
    OneByte(5, 0x05);
  }

  /** A deflate block: method, hint, both sizes, checksum, end marker, data. */
  lemma KnownBlock()
    ensures BlockBytes(BlockRecord(Deflate, 0x00, 3, 0x11223344, [0x41]))
         == [0x13, 0x0C, 0xB5, 0x02] + (([0x01] + ([0x00] + ([0x03, 0x00, 0x00, 0x00] + ([0x01, 0x00, 0x00, 0x00]
            + ([0x44, 0x33, 0x22, 0x11] + [0x22, 0x82, 0xE2, 0x08]))))) + [0x41])
  {
    hide Val, LeBytes, Words.BytesOf, Words.WordOf;
    SignatureValues();
    MoreValues();
    OtherSignatures();
    OneByte(1, 0x01);
    FourBytes(3, 0x03, 0x00, 0x00, 0x00);
    FourBytes(1, 0x01, 0x00, 0x00, 0x00);
    KnownWord();
    Words.BytesOfWordOf(0x44, 0x33, 0x22, 0x11);
  }

  lemma KnownWord()
    ensures Words.WordOf(0x44, 0x33, 0x22, 0x11) == 0x11223344
  {
  }

  /** A file: its ID, its size in eight bytes, its records, their end, its blocks. */
  lemma KnownFile()
    ensures BodyBytes(FileBody(FileRecord(1, 3, [], None, [])))
         == [0xE3, 0x90, 0x85, 0x0A] + ([0x01, 0x00, 0x00, 0x00]
            + (([0x03, 0x00, 0x00, 0x00] + [0x00, 0x00, 0x00, 0x00]) + (([] + [0x22, 0x82, 0xE2, 0x08]) + [])))
  {
    hide Val, LeBytes;
    SignatureValues();
    MoreValues();
    FirstSignatures();
    OtherSignatures();
    FourBytes(1, 0x01, 0x00, 0x00, 0x00);
    FourBytes(3, 0x03, 0x00, 0x00, 0x00);
    FourBytes(0, 0x00, 0x00, 0x00, 0x00);
    EightBytes(3, 3, 0, [0x03, 0x00, 0x00, 0x00], [0x00, 0x00, 0x00, 0x00]);
  }

  /** A file that is too short for a signature, or has another one, is no archive. */
  lemma NotAnArchive(decode: NameDecoder, s: bytes)
    ensures |s| < 4 ==> Open(decode, s) == Err(Io)
    ensures |s| >= 4 && s[..4] != [0x45, 0x47, 0x47, 0x41] ==> Open(decode, s) == Err(NotEggFile)
  {
    hide LeBytes, LeValue, ParsePrefix, ParseBody;
    if |s| >= 4 {
      FirstSignatures();
      LeBytesOfValue(s[0..4]);
    }
  }

  // ---------- the bytes used above ----------

  lemma MoreValues()
    ensures Val(0x01) == 1 && Val(0x03) == 3 && Val(0x05) == 5 && Val(0x09) == 9 && Val(0x11) == 17
    ensures Val(0x12) == 18 && Val(0x14) == 20 && Val(0x15) == 21 && Val(0x34) == 52 && Val(0x55) == 85
    ensures Val(0x56) == 86 && Val(0x66) == 102 && Val(0x77) == 119 && Val(0x78) == 120 && Val(0x88) == 136
  {
  }

  lemma SignatureValues()
    ensures Val(0x00) == 0 && Val(0x02) == 2 && Val(0x04) == 4 && Val(0x07) == 7
    ensures Val(0x08) == 8 && Val(0x0A) == 10 && Val(0x0B) == 11 && Val(0x0C) == 12
    ensures Val(0x0F) == 15 && Val(0x13) == 19 && Val(0x1E) == 30 && Val(0x22) == 34
    ensures Val(0x24) == 36 && Val(0x2C) == 44 && Val(0x33) == 51 && Val(0x36) == 54
    ensures Val(0x41) == 65 && Val(0x44) == 68 && Val(0x45) == 69 && Val(0x46) == 70
    ensures Val(0x47) == 71 && Val(0x60) == 96 && Val(0x62) == 98 && Val(0x72) == 114
    ensures Val(0x82) == 130 && Val(0x85) == 133 && Val(0x86) == 134 && Val(0x90) == 144
    ensures Val(0x91) == 145 && Val(0x95) == 149 && Val(0xA0) == 160 && Val(0xA2) == 162
    ensures Val(0xA8) == 168 && Val(0xAC) == 172 && Val(0xB5) == 181 && Val(0xC6) == 198
    ensures Val(0xD1) == 209 && Val(0xE2) == 226 && Val(0xE3) == 227 && Val(0xE5) == 229
    ensures Val(0xE9) == 233 && Val(0xF5) == 245 && Val(0xFF) == 255
  {
  }
}
