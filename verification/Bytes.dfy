/** Bytes, their little-endian readings, and the few sequence facts every other module uses. */
module Bytes {

  type byte = bv8
  type bytes = seq<byte>

  const TWO_16 := 0x1_0000
  const TWO_32 := 0x1_0000_0000
  const TWO_63 := 0x8000_0000_0000_0000
  const TWO_64 := 0x1_0000_0000_0000_0000

  function XorByte(a: byte, b: byte): byte {
    a ^ b
  }

  lemma XorByteTwice(a: byte, b: byte)
    ensures XorByte(XorByte(a, b), b) == a
  {
  }

  /** The byte with the given bits, least significant first. */
  function FromBits(b0: bool, b1: bool, b2: bool, b3: bool, b4: bool, b5: bool, b6: bool, b7: bool): byte {
    (if b0 then 1 else 0) | (if b1 then 2 else 0) | (if b2 then 4 else 0) | (if b3 then 8 else 0)
    | (if b4 then 16 else 0) | (if b5 then 32 else 0) | (if b6 then 64 else 0) | (if b7 then 128 else 0)
  }

  function Digit(b: bool): nat {
    if b then 1 else 0
  }

  /** The number a byte stands for. */
  function Val(b: byte): (n: nat)
    ensures n < 256
  {
    Binary(b & 1 != 0, b & 2 != 0, b & 4 != 0, b & 8 != 0, b & 16 != 0, b & 32 != 0, b & 64 != 0, b & 128 != 0)
  }

  function Binary(b0: bool, b1: bool, b2: bool, b3: bool, b4: bool, b5: bool, b6: bool, b7: bool): (n: nat)
    ensures n < 256
  {
    Digit(b0) + 2 * (Digit(b1) + 2 * (Digit(b2) + 2 * (Digit(b3)
    + 2 * (Digit(b4) + 2 * (Digit(b5) + 2 * (Digit(b6) + 2 * Digit(b7)))))))
  }

  predicate Odd(n: nat) {
    n % 2 == 1
  }

  function Half(n: nat): nat {
    n / 2
  }

  /** The low byte of a number (`n as u8`). */
  function ByteOf(n: nat): byte {
    FromBits(Odd(n), Odd(Half(n)), Odd(Half(Half(n))), Odd(Half(Half(Half(n)))), Odd(Half(Half(Half(Half(n))))),
             Odd(Half(Half(Half(Half(Half(n)))))), Odd(Half(Half(Half(Half(Half(Half(n))))))),
             Odd(Half(Half(Half(Half(Half(Half(Half(n)))))))))
  }

  lemma BitsOfByte(b0: bool, b1: bool, b2: bool, b3: bool, b4: bool, b5: bool, b6: bool, b7: bool)
    ensures var b := FromBits(b0, b1, b2, b3, b4, b5, b6, b7);
      (b & 1 != 0) == b0 && (b & 2 != 0) == b1 && (b & 4 != 0) == b2 && (b & 8 != 0) == b3
      && (b & 16 != 0) == b4 && (b & 32 != 0) == b5 && (b & 64 != 0) == b6 && (b & 128 != 0) == b7
  {
  }

  lemma BytesOfBits(b: byte)
    ensures FromBits(b & 1 != 0, b & 2 != 0, b & 4 != 0, b & 8 != 0,
                     b & 16 != 0, b & 32 != 0, b & 64 != 0, b & 128 != 0) == b
  {
  }

  lemma ValOfByteOf(n: nat)
    ensures Val(ByteOf(n)) == n % 256
  {
    hide FromBits, Odd, Half, Binary;
    BitsOfByte(Odd(n), Odd(Half(n)), Odd(Half(Half(n))), Odd(Half(Half(Half(n)))), Odd(Half(Half(Half(Half(n))))),
               Odd(Half(Half(Half(Half(Half(n)))))), Odd(Half(Half(Half(Half(Half(Half(n))))))),
               Odd(Half(Half(Half(Half(Half(Half(Half(n)))))))));
    BinaryDigits(n);
  }

  lemma BinaryDigits(n: nat)
    ensures Binary(Odd(n), Odd(Half(n)), Odd(Half(Half(n))), Odd(Half(Half(Half(n)))), Odd(Half(Half(Half(Half(n))))),
                   Odd(Half(Half(Half(Half(Half(n)))))), Odd(Half(Half(Half(Half(Half(Half(n))))))),
                   Odd(Half(Half(Half(Half(Half(Half(Half(n)))))))))
         == n % 256
  {
    hide Odd, Half;
    var n1 := Halve(n);
    var n2 := Halve(n1);
    var n3 := Halve(n2);
    var n4 := Halve(n3);
    var n5 := Halve(n4);
    var n6 := Halve(n5);
    var n7 := Halve(n6);
    var n8 := Halve(n7);
    LowEight(n, n8, Binary(Odd(n), Odd(n1), Odd(n2), Odd(n3), Odd(n4), Odd(n5), Odd(n6), Odd(n7)));
  }

  lemma LowEight(n: nat, high: nat, low: nat)
    requires n == 256 * high + low && low < 256
    ensures n % 256 == low
  {
  }

  lemma Halve(n: nat) returns (h: nat)
    ensures h == Half(n) && n == 2 * h + Digit(Odd(n))
  {
    h := Half(n);
  }

  lemma HalfOf(d: bool, m: nat)
    ensures Half(Digit(d) + 2 * m) == m && Odd(Digit(d) + 2 * m) == d
  {
  }

  lemma ByteOfVal(b: byte)
    ensures ByteOf(Val(b)) == b
  {
    hide FromBits, Odd, Half, Binary;
    BytesOfBits(b);
    BinarySum(b & 1 != 0, b & 2 != 0, b & 4 != 0, b & 8 != 0, b & 16 != 0, b & 32 != 0, b & 64 != 0, b & 128 != 0);
  }

  lemma LowByte(n: nat)
    ensures ByteOf(n % 256) == ByteOf(n)
  {
    hide ByteOf, Val;
    ValOfByteOf(n);
    ByteOfVal(ByteOf(n));
  }

  lemma BinarySum(b0: bool, b1: bool, b2: bool, b3: bool, b4: bool, b5: bool, b6: bool, b7: bool)
    ensures var n := Binary(b0, b1, b2, b3, b4, b5, b6, b7);
      Odd(n) == b0 && Odd(Half(n)) == b1 && Odd(Half(Half(n))) == b2 && Odd(Half(Half(Half(n)))) == b3
      && Odd(Half(Half(Half(Half(n))))) == b4 && Odd(Half(Half(Half(Half(Half(n)))))) == b5
      && Odd(Half(Half(Half(Half(Half(Half(n))))))) == b6 && Odd(Half(Half(Half(Half(Half(Half(Half(n)))))))) == b7
  {
    hide Odd, Half, Digit;
    FourBits(b4, b5, b6, b7, 0);
    FourBits(b0, b1, b2, b3, Digit(b4) + 2 * (Digit(b5) + 2 * (Digit(b6) + 2 * (Digit(b7) + 2 * 0))));
  }

  lemma FourBits(b0: bool, b1: bool, b2: bool, b3: bool, high: nat)
    ensures var n := Digit(b0) + 2 * (Digit(b1) + 2 * (Digit(b2) + 2 * (Digit(b3) + 2 * high)));
      && Odd(n) == b0 && Odd(Half(n)) == b1 && Odd(Half(Half(n))) == b2 && Odd(Half(Half(Half(n)))) == b3
      && Half(Half(Half(Half(n)))) == high
  {
    var n3 := Digit(b3) + 2 * high;
    var n2 := Digit(b2) + 2 * n3;
    var n1 := Digit(b1) + 2 * n2;
    hide Odd, Half;
    HalfOf(b3, high);
    HalfOf(b2, n3);
    HalfOf(b1, n2);
    HalfOf(b0, n1);
  }

  function Min(a: nat, b: nat): nat {
    if a <= b then a else b
  }

  /** 256 to the power k, the number of values of a k-byte field. */
  function Pow256(k: nat): (r: nat)
    ensures r > 0
  {
    if k == 0 then 1 else 256 * Pow256(k - 1)
  }

  /** The number a little-endian field holds (`from_le_bytes`). */
  function LeValue(s: bytes): nat {
    if s == [] then 0 else Val(s[0]) + 256 * LeValue(s[1..])
  }

  /** The k low-order bytes of n, least significant first (`to_le_bytes`). */
  function LeBytes(n: nat, k: nat): (s: bytes)
    ensures |s| == k
  {
    if k == 0 then [] else [ByteOf(n)] + LeBytes(n / 256, k - 1)
  }

  lemma {:induction false} LeValueBound(s: bytes)
    ensures LeValue(s) < Pow256(|s|)
  {
    if s != [] {
      LeValueBound(s[1..]);
    }
  }

  lemma {:induction false} LeValueOfBytes(n: nat, k: nat)
    ensures LeValue(LeBytes(n, k)) == n % Pow256(k)
  {
    hide Val, ByteOf;
    if k > 0 {
      var s := LeBytes(n, k);
      assert s[1..] == LeBytes(n / 256, k - 1);
      LeValueOfBytes(n / 256, k - 1);
      ValOfByteOf(n);
      ModStep(n, Pow256(k - 1));
    }
  }

  lemma ModStep(n: nat, m: nat)
    requires m > 0
    ensures n % (256 * m) == n % 256 + 256 * ((n / 256) % m)
  {
    var q, r := n / 256, n % 256;
    var a, b := q / m, q % m;
    assert q == a * m + b;
    assert n == a * (256 * m) + (256 * b + r);
    DivModUnique(n, 256 * m, a, 256 * b + r);
  }

  lemma DivModUnique(n: nat, m: nat, q: nat, r: nat)
    requires m > 0 && r < m && n == q * m + r
    ensures n / m == q && n % m == r
  {
    var q', r' := n / m, n % m;
    var d := q - q';
    assert d * m == r' - r;
    if d >= 1 {
      MulAtLeast(d, m);
    }
  }

  lemma MulAtLeast(d: nat, m: nat)
    requires d >= 1
    ensures d * m >= m
  {
  }

  lemma {:induction false} LeBytesOfValue(s: bytes)
    ensures LeBytes(LeValue(s), |s|) == s
  {
    hide Val, ByteOf;
    if s != [] {
      LeBytesOfValue(s[1..]);
      var b, v := Val(s[0]), LeValue(s[1..]);
      assert (b + 256 * v) / 256 == v;
      LowByte(b + 256 * v);
      assert (b + 256 * v) % 256 == b;
      ByteOfVal(s[0]);
    }
  }

  /** A field wide enough for n reads back as n. */
  lemma LeRoundTrip(n: nat, k: nat)
    requires n < Pow256(k)
    ensures LeValue(LeBytes(n, k)) == n
  {
    LeValueOfBytes(n, k);
    SmallMod(n, Pow256(k));
  }

  lemma SmallMod(n: nat, m: nat)
    requires n < m
    ensures n % m == n && n / m == 0
  {
    DivModUnique(n, m, 0, n);
  }

  /** The sizes of the fixed-width fields of the format. */
  lemma FieldSizes()
    ensures Pow256(1) == 256 && Pow256(2) == TWO_16 && Pow256(4) == TWO_32 && Pow256(8) == TWO_64
  {
    assert Pow256(3) == 0x100_0000;
    assert Pow256(5) == 0x100_0000_0000;
    assert Pow256(6) == 0x1_0000_0000_0000;
    assert Pow256(7) == 0x100_0000_0000_0000;
  }

  /** Concatenation of all the pieces. */
  function Flatten<T>(pieces: seq<seq<T>>): seq<T> {
    if pieces == [] then [] else pieces[0] + Flatten(pieces[1..])
  }

  lemma FlattenFrom<T>(pieces: seq<seq<T>>, i: nat)
    requires i < |pieces|
    ensures Flatten(pieces[i..]) == pieces[i] + Flatten(pieces[i + 1..])
  {
    assert pieces[i..][0] == pieces[i] && pieces[i..][1..] == pieces[i + 1..];
  }

  lemma FlattenEnd<T>(pieces: seq<seq<T>>)
    ensures Flatten(pieces[|pieces|..]) == []
  {
  }

  lemma {:induction false} FlattenAppend<T>(a: seq<seq<T>>, b: seq<seq<T>>)
    ensures Flatten(a + b) == Flatten(a) + Flatten(b)
  {
    if a == [] {
      assert a + b == b;
    } else {
      assert (a + b)[0] == a[0] && (a + b)[1..] == a[1..] + b;
      FlattenAppend(a[1..], b);
    }
  }

  /** `part` stands in `s` at position `p`. */
  predicate HasAt<T(==)>(s: seq<T>, p: nat, part: seq<T>) {
    p + |part| <= |s| && s[p..p + |part|] == part
  }

  lemma HasAtSplit<T>(s: seq<T>, p: nat, a: seq<T>, b: seq<T>)
    requires HasAt(s, p, a + b)
    ensures HasAt(s, p, a) && HasAt(s, p + |a|, b)
  {
    var w := s[p..p + |a + b|];
    assert s[p..p + |a|] == w[..|a|] == a;
    assert s[p + |a|..p + |a| + |b|] == w[|a|..] == b;
  }

  lemma HasAtInSum<T>(a: seq<T>, b: seq<T>, p: nat, part: seq<T>)
    ensures HasAt(a, p, part) ==> HasAt(a + b, p, part)
    ensures HasAt(a + b, |a|, b)
  {
    if HasAt(a, p, part) {
      assert (a + b)[p..p + |part|] == a[p..p + |part|];
    }
  }

  /** Overwrites the next byte of a buffer whose tail is still as in `was`. */
  method SetNext(data: array<byte>, ghost was: bytes, i: nat, b: byte)
    requires i < data.Length == |was| && data[i..] == was[i..]
    modifies data
    ensures data[..i + 1] == old(data[..i]) + [b] && data[i + 1..] == was[i + 1..]
  {
    assert data[i + 1..] == data[i..][1..] == was[i + 1..];
    data[i] := b;
  }
}
