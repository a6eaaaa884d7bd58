/** 32-bit word arithmetic, each operation a function so that proofs can set its bits aside. */
module Words {

  function Xor(a: bv32, b: bv32): bv32 {
    a ^ b
  }

  /** `wrapping_add`. */
  function Plus(x: bv32, y: bv32): bv32 {
    x + y
  }

  function Minus(x: bv32, y: bv32): bv32 {
    x - y
  }

  function RolOne(x: bv32): bv32 {
    x.RotateLeft(1)
  }

  function RorOne(x: bv32): bv32 {
    x.RotateRight(1)
  }

  /** `rotate_left`: n rotations by one bit. */
  function Rol(x: bv32, n: nat): bv32 {
    if n == 0 then x else RolOne(Rol(x, n - 1))
  }

  /** `rotate_right`. */
  function Ror(x: bv32, n: nat): bv32
    decreases n
  {
    if n == 0 then x else Ror(RorOne(x), n - 1)
  }

  lemma XorGroup(a: bv32, b: bv32, c: bv32)
    ensures Xor(Xor(a, b), c) == Xor(a, Xor(b, c))
  {
  }

  lemma XorCommutes(a: bv32, b: bv32)
    ensures Xor(a, b) == Xor(b, a)
  {
  }

  lemma XorTwice(a: bv32, b: bv32)
    ensures Xor(Xor(a, b), b) == a
  {
  }

  lemma PlusCommutes(x: bv32, y: bv32)
    ensures Plus(x, y) == Plus(y, x)
  {
  }

  /** `u32::from_le_bytes`. */
  function WordOf(b0: bv8, b1: bv8, b2: bv8, b3: bv8): bv32 {
    b0 as bv32 | (b1 as bv32 << 8) | (b2 as bv32 << 16) | (b3 as bv32 << 24)
  }

  /** `u32::to_le_bytes`. */
  function BytesOf(w: bv32): (s: seq<bv8>)
    ensures |s| == 4
  {
    [(w & 0xFF) as bv8, ((w >> 8) & 0xFF) as bv8, ((w >> 16) & 0xFF) as bv8, (w >> 24) as bv8]
  }

  lemma WordOfBytesOf(w: bv32)
    ensures var s := BytesOf(w); WordOf(s[0], s[1], s[2], s[3]) == w
  {
  }

  lemma BytesOfWordOf(b0: bv8, b1: bv8, b2: bv8, b3: bv8)
    ensures BytesOf(WordOf(b0, b1, b2, b3)) == [b0, b1, b2, b3]
  {
  }

  /** A byte string read as little-endian words, and back. */
  function WordsOf(s: seq<bv8>): (w: seq<bv32>)
    requires |s| % 4 == 0
    ensures |w| == |s| / 4
  {
    if s == [] then [] else [WordOf(s[0], s[1], s[2], s[3])] + WordsOf(s[4..])
  }

  function AllBytesOf(w: seq<bv32>): (s: seq<bv8>)
    ensures |s| == 4 * |w|
  {
    if w == [] then [] else BytesOf(w[0]) + AllBytesOf(w[1..])
  }

  lemma {:induction false} AllBytesOfWordsOf(s: seq<bv8>)
    requires |s| % 4 == 0
    ensures AllBytesOf(WordsOf(s)) == s
  {
    hide BytesOf, WordOf;
    if s != [] {
      BytesOfWordOf(s[0], s[1], s[2], s[3]);
      assert WordsOf(s)[1..] == WordsOf(s[4..]);
      AllBytesOfWordsOf(s[4..]);
      assert s == s[..4] + s[4..];
    }
  }

  lemma {:induction false} WordsOfAllBytesOf(w: seq<bv32>)
    ensures WordsOf(AllBytesOf(w)) == w
  {
    hide BytesOf, WordOf;
    if w != [] {
      WordOfBytesOf(w[0]);
      var s := AllBytesOf(w);
      assert s[..4] == BytesOf(w[0]) && s[4..] == AllBytesOf(w[1..]);
      assert s[0] == s[..4][0] && s[1] == s[..4][1] && s[2] == s[..4][2] && s[3] == s[..4][3];
      WordsOfAllBytesOf(w[1..]);
    }
  }

  /** Word i stands at byte 4i. */
  lemma {:induction false} WordAt(s: seq<bv8>, i: nat)
    requires |s| % 4 == 0 && 4 * i + 4 <= |s|
    ensures WordsOf(s)[i] == WordOf(s[4 * i], s[4 * i + 1], s[4 * i + 2], s[4 * i + 3])
  {
    hide WordOf;
    if i > 0 {
      WordAt(s[4..], i - 1);
    }
  }

  lemma {:induction false} ByteAt(w: seq<bv32>, i: nat)
    requires i < |w|
    ensures AllBytesOf(w)[4 * i..4 * i + 4] == BytesOf(w[i])
  {
    hide BytesOf;
    var s := AllBytesOf(w);
    assert s[4..] == AllBytesOf(w[1..]);
    if i > 0 {
      ByteAt(w[1..], i - 1);
      assert s[4 * i..4 * i + 4] == s[4..][4 * (i - 1)..4 * (i - 1) + 4];
    } else {
      assert s[..4] == BytesOf(w[0]);
    }
  }

  /** Addition of a word can be undone. */
  lemma MinusPlus(x: bv32, y: bv32)
    ensures Minus(Plus(x, y), y) == x && Plus(Minus(x, y), y) == x
  {
    hide Plus, Minus;
    SumsAre(x, y);
    MinusOfSum(x, y);
    PlusOfDifference(x, y);
  }

  lemma SumsAre(x: bv32, y: bv32)
    ensures Plus(x, y) == x + y && Minus(x, y) == x - y
  {
  }

  lemma MinusOfSum(x: bv32, y: bv32)
    ensures Minus(x + y, y) == x
  {
  }

  lemma PlusOfDifference(x: bv32, y: bv32)
    ensures Plus(x - y, y) == x
  {
  }

  lemma RotateOneBack(x: bv32)
    ensures RorOne(RolOne(x)) == x && RolOne(RorOne(x)) == x
  {
  }

  /** Rotations undo each other. */
  lemma {:induction false} RotateBack(x: bv32, n: nat)
    ensures Ror(Rol(x, n), n) == x && Rol(Ror(x, n), n) == x
    decreases n
  {
    hide RolOne, RorOne;
    if n > 0 {
      RotateOneBack(Rol(x, n - 1));
      RotateOneBack(x);
      RotateBack(x, n - 1);
      RotateBack(RorOne(x), n - 1);
    }
  }

  lemma {:induction false} RolAdd(x: bv32, m: nat, n: nat)
    ensures Rol(x, m + n) == Rol(Rol(x, m), n)
  {
    hide RolOne;
    if n > 0 {
      RolAdd(x, m, n - 1);
    }
  }

  /** A count counts modulo the width: 32 more make no difference. */
  lemma RolPeriod(x: bv32, n: nat)
    ensures Rol(x, 32 + n) == Rol(x, n)
  {
    hide RolOne;
    RolAdd(x, 32, n);
    RolAdd(x, 16, 16);
    RolSixteen(x);
    RolSixteen(Rol(x, 16));
    SwapTwice(x);
  }

  function SwapHalves(x: bv32): bv32 {
    (x << 16) | (x >> 16)
  }

  lemma SwapTwice(x: bv32)
    ensures SwapHalves(SwapHalves(x)) == x
  {
  }

  lemma RolSixteen(x: bv32)
    ensures Rol(x, 16) == SwapHalves(x)
  {
    hide RolOne;
    var a := RolFour(x);
    var b := RolFour(a);
    var c := RolFour(b);
    var d := RolFour(c);
    RolAdd(x, 4, 4);
    RolAdd(x, 8, 4);
    RolAdd(x, 12, 4);
    hide Rol;
    FourQuarterTurns(x);
  }

  lemma RolFour(x: bv32) returns (y: bv32)
    ensures y == Rol(x, 4) == RolByFour(x)
  {
    y := Rol(x, 4);
    hide RolOne;
    assert Rol(x, 1) == RolOne(x);
    assert Rol(x, 2) == RolOne(RolOne(x));
    assert Rol(x, 3) == RolOne(Rol(x, 2));
    hide Rol;
    FourTurns(x);
  }

  function RolByFour(x: bv32): bv32 {
    x.RotateLeft(4)
  }

  lemma FourTurns(x: bv32)
    ensures RolOne(RolOne(RolOne(RolOne(x)))) == RolByFour(x)
  {
  }

  lemma FourQuarterTurns(x: bv32)
    ensures RolByFour(RolByFour(RolByFour(RolByFour(x)))) == SwapHalves(x)
  {
  }
}
