/**
 CRC-32 as the table-driven byte step of src/crypto.rs computes it, and as the shift register it stands for.
 `Checksum` of a whole byte string is what every block of an archive carries.
 */
module Crc32 {
  import opened Bytes
  import opened Words

  // ---------- the word operations, and the bit facts about them ----------

  predicate IsOdd(c: bv32) {
    c & 1 != 0
  }

  function Half(c: bv32): bv32 {
    c >> 1
  }

  function LowByte(c: bv32): byte {
    (c & 0xFF) as byte
  }

  function HighBytes(c: bv32): bv32 {
    c & 0xFFFF_FF00
  }

  function Word(b: byte): bv32 {
    b as bv32
  }

  function DropByte(c: bv32): bv32 {
    c >> 8
  }

  lemma HalfOfXor(a: bv32, b: bv32)
    ensures Half(Xor(a, b)) == Xor(Half(a), Half(b))
  {
  }

  lemma OddXor(a: bv32, b: bv32)
    ensures IsOdd(Xor(a, b)) == (IsOdd(a) != IsOdd(b))
  {
  }

  // ---------- the shift register and the table ----------

  /** One step of the reflected shift register. */
  function Shift(c: bv32): bv32 {
    if IsOdd(c) then Xor(0xEDB88320, Half(c)) else Half(c)
  }

  function Shifts(c: bv32, n: nat): bv32
    decreases n
  {
    if n == 0 then c else Shifts(Shift(c), n - 1)
  }

  /** The entry of the 256-word table for a byte. */
  function TableEntry(b: byte): bv32 {
    Shifts(Word(b), 8)
  }

  /** `crc32_byte`: one table look-up per byte. */
  function CrcByte(crc: bv32, b: byte): bv32 {
    Xor(TableEntry(LowByte(Xor(crc, Word(b)))), DropByte(crc))
  }

  /** The table step is eight steps of the shift register fed with the byte. */
  lemma TableStepIsEightShifts(crc: bv32, b: byte)
    ensures CrcByte(crc, b) == Shifts(Xor(crc, Word(b)), 8)
  {
    var x := Xor(crc, Word(b));
    SplitWord(x);
    DropByteOfXor(crc, b);
    hide Shifts, Xor, LowByte, Word, DropByte, HighBytes;
    ShiftsLinear(Word(LowByte(x)), HighBytes(x), 8);
    EightHighShifts(x);
  }

  lemma SplitWord(x: bv32)
    ensures Xor(Word(LowByte(x)), HighBytes(x)) == x
  {
  }

  lemma DropByteOfXor(crc: bv32, b: byte)
    ensures DropByte(Xor(crc, Word(b))) == DropByte(crc)
  {
  }

  lemma ShiftLinear(a: bv32, b: bv32)
    ensures Shift(Xor(a, b)) == Xor(Shift(a), Shift(b))
  {
    hide Xor, IsOdd, Half;
    var p: bv32 := 0xEDB88320;
    var x, y := Half(a), Half(b);
    OddXor(a, b);
    HalfOfXor(a, b);
    XorGroup(p, x, y);
    XorGroup(x, p, y);
    XorGroup(Xor(p, x), p, y);
    XorCommutes(p, x);
    XorTwice(x, p);
  }

  lemma {:induction false} ShiftsLinear(a: bv32, b: bv32, n: nat)
    ensures Shifts(Xor(a, b), n) == Xor(Shifts(a, n), Shifts(b, n))
    decreases n
  {
    hide Xor, Shift;
    if n > 0 {
      ShiftLinear(a, b);
      ShiftsLinear(Shift(a), Shift(b), n - 1);
    }
  }

  /** n halvings. */
  function Halves(c: bv32, n: nat): bv32
    decreases n
  {
    if n == 0 then c else Halves(Half(c), n - 1)
  }

  /** The n lowest bits are clear. */
  predicate LowClear(c: bv32, n: nat)
    decreases n
  {
    n == 0 || (!IsOdd(c) && LowClear(Half(c), n - 1))
  }

  /** Bits above the n lowest pass through n steps as a plain shift. */
  lemma {:induction false} ShiftsOfClear(c: bv32, n: nat)
    requires LowClear(c, n)
    ensures Shifts(c, n) == Halves(c, n)
    decreases n
  {
    hide IsOdd, Half, Xor;
    if n > 0 {
      ShiftsOfClear(Half(c), n - 1);
    }
  }

  lemma EightHighShifts(x: bv32)
    ensures Shifts(HighBytes(x), 8) == DropByte(x)
  {
    var c := HighBytes(x);
    EightBitsClear(x);
    EightHalves(x);
    hide IsOdd, Half, Shift, HighBytes, DropByte;
    assert LowClear(c, 8) by {
      var d := Half(Half(Half(Half(c))));
      assert LowClear(d, 4) by { assert LowClear(Half(Half(d)), 2); }
      assert LowClear(Half(Half(c)), 6);
    }
    assert Halves(c, 8) == DropByte(x) by {
      var d := Half(Half(Half(Half(c))));
      assert Halves(Half(Half(c)), 6) == Halves(d, 4);
      assert Halves(d, 4) == Halves(Half(Half(d)), 2);
    }
    ShiftsOfClear(c, 8);
  }

  lemma EightBitsClear(x: bv32)
    ensures var c := HighBytes(x);
      !IsOdd(c) && !IsOdd(Half(c)) && !IsOdd(Half(Half(c))) && !IsOdd(Half(Half(Half(c))))
      && !IsOdd(Half(Half(Half(Half(c))))) && !IsOdd(Half(Half(Half(Half(Half(c))))))
      && !IsOdd(Half(Half(Half(Half(Half(Half(c)))))))
      && !IsOdd(Half(Half(Half(Half(Half(Half(Half(c))))))))
  {
  }

  lemma EightHalves(x: bv32)
    ensures Half(Half(Half(Half(Half(Half(Half(Half(HighBytes(x))))))))) == DropByte(x)
  {
  }

  /** Builds the table the way the constant initialiser does: nested counting loops. */
  method BuildTable() returns (table: array<bv32>)
    ensures fresh(table) && table.Length == 256
    ensures forall b: byte :: table[Val(b)] == TableEntry(b)
  {
    hide Val, ByteOf, TableEntry;
    table := new bv32[256];
    var i := 0;
    while i < 256
      invariant 0 <= i <= 256
      invariant forall k :: 0 <= k < i ==> table[k] == TableEntry(ByteOf(k))
    {
      var c := BuildEntry(ByteOf(i));
      table[i] := c;
      i := i + 1;
    }
    forall b: byte ensures table[Val(b)] == TableEntry(b) {
      ByteOfVal(b);
    }
  }

  /** The inner loop: eight steps from the byte. */
  method BuildEntry(b: byte) returns (c: bv32)
    ensures c == TableEntry(b)
  {
    hide IsOdd, Half, Xor, Word;
    c := Word(b);
    var j := 0;
    while j < 8
      invariant 0 <= j <= 8
      invariant Shifts(c, 8 - j) == TableEntry(b)
    {
      if IsOdd(c) {
        c := Xor(0xEDB88320, Half(c));
      } else {
        c := Half(c);
      }
      j := j + 1;
    }
  }

  predicate TopBit(c: bv32) {
    c & 0x8000_0000 != 0
  }

  function Double(c: bv32): bv32 {
    c << 1
  }

  /** The shift register run backwards: the polynomial's top bit tells which branch was taken. */
  function Unshift(c: bv32): bv32 {
    if TopBit(c) then Xor(Double(Xor(c, 0xEDB88320)), 1) else Double(c)
  }

  lemma TopBits(c: bv32)
    ensures !TopBit(Half(c)) && TopBit(Xor(0xEDB88320, Half(c)))
  {
  }

  lemma DoubleHalf(c: bv32)
    ensures IsOdd(c) ==> Xor(Double(Half(c)), 1) == c
    ensures !IsOdd(c) ==> Double(Half(c)) == c
  {
  }

  lemma HalfDouble(c: bv32)
    ensures !TopBit(c) ==> Half(Double(c)) == c && Half(Xor(Double(c), 1)) == c
    ensures !IsOdd(Double(c)) && IsOdd(Xor(Double(c), 1))
    ensures TopBit(c) ==> !TopBit(Xor(c, 0xEDB88320))
  {
  }

  lemma UnshiftShift(c: bv32)
    ensures Unshift(Shift(c)) == c
  {
    hide Xor, Half, IsOdd, Double, TopBit;
    TopBits(c);
    DoubleHalf(c);
    XorCommutes(0xEDB88320, Half(c));
    XorTwice(Half(c), 0xEDB88320);
  }

  lemma ShiftUnshift(c: bv32)
    ensures Shift(Unshift(c)) == c
  {
    hide Xor, Half, IsOdd, Double, TopBit;
    var d := Xor(c, 0xEDB88320);
    HalfDouble(c);
    HalfDouble(d);
    XorCommutes(0xEDB88320, d);
    XorTwice(c, 0xEDB88320);
  }

  function Unshifts(c: bv32, n: nat): bv32
    decreases n
  {
    if n == 0 then c else Unshift(Unshifts(c, n - 1))
  }

  lemma {:induction false} UnshiftsShifts(c: bv32, n: nat)
    ensures Unshifts(Shifts(c, n), n) == c && Shifts(Unshifts(c, n), n) == c
    decreases n
  {
    hide Shift, Unshift;
    if n > 0 {
      UnshiftsShifts(Shift(c), n - 1);
      UnshiftShift(c);
      ShiftUnshift(Unshifts(c, n - 1));
      UnshiftsShifts(c, n - 1);
    }
  }

  /** The CRC before byte b was absorbed. */
  function CrcByteInverse(crc: bv32, b: byte): bv32 {
    Xor(Unshifts(crc, 8), Word(b))
  }

  /** For a fixed byte the step is a bijection of the 2^32 register values. */
  lemma CrcByteBijective(crc: bv32, b: byte)
    ensures CrcByteInverse(CrcByte(crc, b), b) == crc && CrcByte(CrcByteInverse(crc, b), b) == crc
  {
    hide CrcByte, Shifts, Unshifts, Xor, Word;
    var before := CrcByteInverse(crc, b);
    TableStepIsEightShifts(crc, b);
    TableStepIsEightShifts(before, b);
    UnshiftsShifts(Xor(crc, Word(b)), 8);
    UnshiftsShifts(crc, 8);
    XorTwice(crc, Word(b));
    XorTwice(Unshifts(crc, 8), Word(b));
  }

  // ---------- the checksum of a byte string ----------

  /** The register after absorbing `data` (`Hasher::update`). */
  function Update(crc: bv32, data: bytes): bv32
    decreases |data|
  {
    if data == [] then crc else Update(CrcByte(crc, data[0]), data[1..])
  }

  const INITIAL: bv32 := 0xFFFF_FFFF

  /** `Hasher::finalize`. */
  function Finalize(crc: bv32): bv32 {
    crc ^ 0xFFFF_FFFF
  }

  function Checksum(data: bytes): bv32 {
    Finalize(Update(INITIAL, data))
  }

  lemma {:induction false} UpdateAppend(crc: bv32, a: bytes, b: bytes)
    ensures Update(crc, a + b) == Update(Update(crc, a), b)
    decreases |a|
  {
    hide CrcByte;
    if a == [] {
      assert a + b == b;
    } else {
      assert (a + b)[0] == a[0] && (a + b)[1..] == a[1..] + b;
      UpdateAppend(CrcByte(crc, a[0]), a[1..], b);
    }
  }
}
