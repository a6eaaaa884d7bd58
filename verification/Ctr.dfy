/** The two counter-mode decryptors, src/aes_ctr.rs and src/lea.rs, against one keystream (NIST SP 800-38A, 6.5). */
module Ctr {
  import opened Bytes
  import Lea

  // ---------- counters ----------

  /** `wrapping_add(1)` on a byte. */
  function NextByte(b: byte): byte {
    ByteOf(Val(b) + 1)
  }

  /** The carry loop of `ctr128_inc_le`. */
  function IncLe(s: bytes): (r: bytes)
    ensures |r| == |s|
  {
    if s == [] then []
    else if NextByte(s[0]) != 0 then [NextByte(s[0])] + s[1..]
    else [NextByte(s[0])] + IncLe(s[1..])
  }

  lemma NextByteValue(b: byte)
    ensures Val(NextByte(b)) == (Val(b) + 1) % 256
    ensures NextByte(b) == 0 <==> Val(b) == 255
  {
    hide Val, ByteOf;
    ValOfByteOf(Val(b) + 1);
    ByteOfVal(NextByte(b));
    ByteOfVal(0);
    ZeroByte();
  }

  lemma ZeroByte()
    ensures Val(0) == 0
  {
  }

  /** The carry loop adds one, modulo the width of the counter. */
  lemma {:induction false} IncLeAddsOne(s: bytes)
    ensures IncLe(s) == LeBytes(LeValue(s) + 1, |s|)
  {
    hide Val, ByteOf, NextByte;
    if s != [] {
      var v := LeValue(s[1..]);
      NextByteValue(s[0]);
      NextByteOfSum(s[0], v);
      if NextByte(s[0]) != 0 {
        assert (Val(s[0]) + 256 * v + 1) / 256 == v;
        LeBytesOfValue(s[1..]);
      } else {
        assert (Val(s[0]) + 256 * v + 1) / 256 == v + 1;
        IncLeAddsOne(s[1..]);
      }
    }
  }

  lemma NextByteOfSum(b: byte, v: nat)
    ensures ByteOf(Val(b) + 256 * v + 1) == NextByte(b)
  {
    hide Val, ByteOf;
    LowByte(Val(b) + 256 * v + 1);
    LowByte(Val(b) + 1);
    assert (Val(b) + 256 * v + 1) % 256 == (Val(b) + 1) % 256;
  }

  /** Big-endian reading of a counter. */
  function BeBytes(n: nat, k: nat): (s: bytes)
    ensures |s| == k
  {
    if k == 0 then [] else BeBytes(n / 256, k - 1) + [ByteOf(n)]
  }

  function Reversed(s: bytes): (r: bytes)
    ensures |r| == |s|
  {
    if s == [] then [] else Reversed(s[1..]) + [s[0]]
  }

  lemma {:induction false} BeIsReversedLe(n: nat, k: nat)
    ensures BeBytes(n, k) == Reversed(LeBytes(n, k))
  {
    hide ByteOf;
    if k > 0 {
      BeIsReversedLe(n / 256, k - 1);
      assert LeBytes(n, k)[1..] == LeBytes(n / 256, k - 1);
    }
  }

  /** The carry loop of `ctr128_inc`, from the last byte backwards. */
  function IncBe(s: bytes): (r: bytes)
    ensures |r| == |s|
  {
    if s == [] then []
    else
      var last := NextByte(s[|s| - 1]);
      if last != 0 then s[..|s| - 1] + [last] else IncBe(s[..|s| - 1]) + [last]
  }

  lemma {:induction false} ReversedDrop(s: bytes)
    requires s != []
    ensures Reversed(s)[..|s| - 1] == Reversed(s[1..]) && Reversed(s)[|s| - 1] == s[0]
  {
  }

  lemma {:induction false} IncBeReversed(s: bytes)
    ensures IncBe(Reversed(s)) == Reversed(IncLe(s))
  {
    hide NextByte;
    if s != [] {
      ReversedDrop(s);
      IncBeReversed(s[1..]);
      assert IncLe(s)[1..] == if NextByte(s[0]) != 0 then s[1..] else IncLe(s[1..]);
    }
  }

  lemma IncBeAddsOne(n: nat, k: nat)
    ensures IncBe(BeBytes(n, k)) == BeBytes(n + 1, k)
  {
    hide IncBe, IncLe, Reversed, BeBytes, LeBytes;
    BeIsReversedLe(n, k);
    BeIsReversedLe(n + 1, k);
    IncBeReversed(LeBytes(n, k));
    IncLeOfBytes(n, k);
  }

  lemma {:induction false} IncLeOfBytes(n: nat, k: nat)
    ensures IncLe(LeBytes(n, k)) == LeBytes(n + 1, k)
  {
    hide IncLe, LeBytes, LeValue, Pow256;
    LeValueOfBytes(n, k);
    IncLeAddsOne(LeBytes(n, k));
    LeBytesModulo(n, k);
  }

  lemma {:induction false} LeBytesModulo(n: nat, k: nat)
    ensures LeBytes(n % Pow256(k) + 1, k) == LeBytes(n + 1, k)
  {
    hide ByteOf;
    var m := Pow256(k);
    LeValueOfBytes(n % m + 1, k);
    LeValueOfBytes(n + 1, k);
    ModPlusOne(n, m);
    LeBytesOfValue(LeBytes(n % m + 1, k));
    LeBytesOfValue(LeBytes(n + 1, k));
  }

  lemma ModPlusOne(n: nat, m: nat)
    requires m > 0
    ensures (n % m + 1) % m == (n + 1) % m
  {
    var q, r := n / m, n % m;
    assert n == q * m + r;
    if r + 1 < m {
      DivModUnique(n + 1, m, q, r + 1);
      DivModUnique(r + 1, m, 0, r + 1);
    } else {
      assert (q + 1) * m == q * m + m;
      DivModUnique(n + 1, m, q + 1, 0);
      DivModUnique(r + 1, m, 1, 0);
    }
  }

  /** The little-endian carry has passed the first i bytes of `was`. */
  predicate CarriedLe(was: bytes, now: bytes, i: nat) {
    i <= |was| == |now| && now[i..] == was[i..] && now[..i] + IncLe(was[i..]) == IncLe(was)
  }

  lemma CarryLe(was: bytes, now: bytes, i: nat)
    requires CarriedLe(was, now, i) && i < |was|
    ensures var b := NextByte(now[i]);
      if b != 0 then now[i := b] == IncLe(was) else CarriedLe(was, now[i := b], i + 1)
  {
    var b := NextByte(now[i]);
    assert now[i] == was[i] by { assert now[i..][0] == was[i..][0]; }
    IncLeAt(was, i);
    ByteReplaced(was, now, i, b);
    hide NextByte, IncLe;
    Associative(now[..i], [b], IncLe(was[i + 1..]));
  }

  lemma ByteReplaced(was: bytes, now: bytes, i: nat, b: byte)
    requires i < |was| == |now| && now[i..] == was[i..]
    ensures now[i := b] == now[..i] + ([b] + was[i + 1..])
    ensures now[i := b][..i + 1] == now[..i] + [b] && now[i := b][i + 1..] == was[i + 1..]
  {
    assert now[i := b][i + 1..] == now[i..][1..] == was[i + 1..];
  }

  lemma Associative(a: bytes, b: bytes, c: bytes)
    ensures a + b + c == a + (b + c)
  {
  }

  lemma IncLeAt(was: bytes, i: nat)
    requires i < |was|
    ensures var b := NextByte(was[i]);
      IncLe(was[i..]) == [b] + (if b != 0 then was[i + 1..] else IncLe(was[i + 1..]))
  {
    hide NextByte;
    assert was[i..][0] == was[i] && was[i..][1..] == was[i + 1..];
  }

  /** `ctr128_inc_le`: increments in place and stops at the first byte that does not wrap. */
  method IncrementLe(counter: array<byte>)
    modifies counter
    ensures counter[..] == IncLe(old(counter[..]))
  {
    hide NextByte, CarriedLe, IncLe;
    ghost var was := counter[..];
    CarryLeStarts(was);
    for i := 0 to counter.Length
      invariant CarriedLe(was, counter[..], i)
    {
      CarryLe(was, counter[..], i);
      SetByte(counter, i, NextByte(counter[i]));
      if counter[i] != 0 {
        return;
      }
    }
    CarryLeEnds(was, counter[..]);
  }

  lemma CarryLeStarts(was: bytes)
    ensures CarriedLe(was, was, 0)
  {
    assert was[0..] == was;
  }

  lemma CarryLeEnds(was: bytes, now: bytes)
    requires CarriedLe(was, now, |was|)
    ensures now == IncLe(was)
  {
    assert now[..|was|] == now;
  }

  /** The big-endian carry has passed the bytes of `was` from i on. */
  predicate CarriedBe(was: bytes, now: bytes, i: nat) {
    i <= |was| == |now| && now[..i] == was[..i] && IncBe(was[..i]) + now[i..] == IncBe(was)
  }

  lemma CarryBe(was: bytes, now: bytes, i: nat)
    requires CarriedBe(was, now, i + 1)
    ensures var b := NextByte(now[i]);
      if b != 0 then now[i := b] == IncBe(was) else CarriedBe(was, now[i := b], i)
  {
    hide NextByte;
    var b, head, next := NextByte(now[i]), was[..i + 1], now[i := NextByte(now[i])];
    assert now[i] == head[i] by { assert now[..i + 1][i] == was[..i + 1][i]; }
    assert head[..i] == was[..i] == next[..i] by { assert now[..i + 1][..i] == next[..i]; }
    assert next[i..] == [b] + now[i + 1..];
    assert next == next[..i] + next[i..];
  }

  /** `ctr128_inc`: the same from the last byte backwards. */
  method IncrementBe(counter: array<byte>)
    modifies counter
    ensures counter[..] == IncBe(old(counter[..]))
  {
    hide NextByte, CarriedBe, IncBe;
    ghost var was := counter[..];
    CarryBeStarts(was);
    for i := counter.Length downto 0
      invariant CarriedBe(was, counter[..], i)
    {
      CarryBe(was, counter[..], i);
      SetByte(counter, i, NextByte(counter[i]));
      if counter[i] != 0 {
        return;
      }
    }
    CarryBeEnds(was, counter[..]);
  }

  lemma CarryBeStarts(was: bytes)
    ensures CarriedBe(was, was, |was|)
  {
    assert was[..|was|] == was && was[|was|..] == [];
  }

  lemma CarryBeEnds(was: bytes, now: bytes)
    requires CarriedBe(was, now, 0)
    ensures now == IncBe(was)
  {
    assert now[0..] == now;
  }

  method SetByte(a: array<byte>, i: nat, b: byte)
    requires i < a.Length
    modifies a
    ensures a[..] == old(a[..])[i := b] && a[i] == b
  {
    a[i] := b;
  }

  // ---------- the keystream ----------

  type BlockCipher = e: bytes -> bytes | forall s: bytes :: |s| == 16 ==> |e(s)| == 16 witness (s: bytes) => s

  /** A cipher in counter mode: which way the counter is written, and where it starts. */
  datatype Mode = Mode(cipher: BlockCipher, bigEndian: bool, start: nat)

  /** The counter of keystream block k, modulo 2^128. */
  function CounterBlock(m: Mode, k: nat): (s: bytes)
    ensures |s| == 16
  {
    if m.bigEndian then BeBytes(m.start + k, 16) else LeBytes(m.start + k, 16)
  }

  /** Byte p of the keystream. */
  function StreamByte(m: Mode, p: nat): byte {
    m.cipher(CounterBlock(m, p / 16))[p % 16]
  }

  /** The data that stands at stream position p, decrypted (or encrypted: the operation is the same). */
  function Crypted(m: Mode, p: nat, data: bytes): (r: bytes)
    ensures |r| == |data|
  {
    seq(|data|, i requires 0 <= i < |data| => XorByte(data[i], StreamByte(m, p + i)))
  }

  /** However the data is cut into calls, every byte meets the same keystream byte. */
  lemma CryptedAppend(m: Mode, p: nat, a: bytes, b: bytes)
    ensures Crypted(m, p, a + b) == Crypted(m, p, a) + Crypted(m, p + |a|, b)
  {
    hide XorByte, StreamByte;
    var l, r := Crypted(m, p, a + b), Crypted(m, p, a) + Crypted(m, p + |a|, b);
    forall i | 0 <= i < |l| ensures l[i] == r[i] {
      if i >= |a| {
        assert (a + b)[i] == b[i - |a|];
      }
    }
  }

  /** Two fresh decryptors in a row are the identity. */
  lemma CryptedTwice(m: Mode, p: nat, data: bytes)
    ensures Crypted(m, p, Crypted(m, p, data)) == data
  {
    hide XorByte, StreamByte;
    var once := Crypted(m, p, data);
    forall i | 0 <= i < |data| ensures Crypted(m, p, once)[i] == data[i] {
      XorByteTwice(data[i], StreamByte(m, p + i));
    }
  }

  function CryptedInChunks(m: Mode, p: nat, chunks: seq<bytes>): bytes
    decreases |chunks|
  {
    if chunks == [] then []
    else Crypted(m, p, chunks[0]) + CryptedInChunks(m, p + |chunks[0]|, chunks[1..])
  }

  lemma {:induction false} ChunkingIsInvisible(m: Mode, p: nat, chunks: seq<bytes>)
    ensures CryptedInChunks(m, p, chunks) == Crypted(m, p, Flatten(chunks))
    decreases |chunks|
  {
    hide Crypted;
    if chunks != [] {
      CryptedAppend(m, p, chunks[0], Flatten(chunks[1..]));
      ChunkingIsInvisible(m, p + |chunks[0]|, chunks[1..]);
    } else {
      assert Crypted(m, p, []) == [];
    }
  }

  /** No counter value comes twice within 2^128 blocks. */
  lemma CountersDistinct(m: Mode, a: nat, b: nat)
    requires a < b < a + Pow256(16)
    ensures CounterBlock(m, a) != CounterBlock(m, b)
  {
    hide Pow256, LeBytes, BeBytes, LeValue, Reversed;
    var n := Pow256(16);
    LeValueOfBytes(m.start + a, 16);
    LeValueOfBytes(m.start + b, 16);
    ResiduesDistinct(m.start + a, m.start + b, n);
    BeIsReversedLe(m.start + a, 16);
    BeIsReversedLe(m.start + b, 16);
    ReversedInjective(LeBytes(m.start + a, 16), LeBytes(m.start + b, 16));
  }

  lemma ResiduesDistinct(a: nat, b: nat, n: nat)
    requires n > 0 && a < b < a + n
    ensures a % n != b % n
  {
    var qa, qb := a / n, b / n;
    if a % n == b % n {
      assert b - a == qb * n - qa * n == (qb - qa) * n;
      if qb > qa {
        MulAtLeast(qb - qa, n);
      } else if qb < qa {
        MulAtLeast(qa - qb, n);
      }
    }
  }

  lemma {:induction false} ReversedInjective(a: bytes, b: bytes)
    requires |a| == |b| && a != b
    ensures Reversed(a) != Reversed(b)
  {
    ReversedDrop(a);
    ReversedDrop(b);
    if a[0] == b[0] {
      ReversedInjective(a[1..], b[1..]);
    }
  }

  lemma NextCounter(m: Mode, k: nat)
    ensures (if m.bigEndian then IncBe(CounterBlock(m, k)) else IncLe(CounterBlock(m, k))) == CounterBlock(m, k + 1)
  {
    hide IncBe, IncLe, BeBytes, LeBytes;
    IncBeAddsOne(m.start + k, 16);
    IncLeOfBytes(m.start + k, 16);
  }

  lemma CryptedOneMore(m: Mode, p: nat, data: bytes, i: nat)
    requires i < |data|
    ensures Crypted(m, p, data[..i + 1]) == Crypted(m, p, data[..i]) + [XorByte(data[i], StreamByte(m, p + i))]
  {
    hide XorByte, StreamByte;
  }

  // ---------- the decryptor objects ----------

  /** Where a decryptor is in its keystream, and what its two buffers then hold. */
  ghost predicate AtPosition(m: Mode, p: nat, counter: bytes, keystream: bytes, ksOffset: nat) {
    && |keystream| == 16
    && ksOffset == (if p % 16 == 0 then 16 else p % 16)
    && counter == CounterBlock(m, (p + 15) / 16)
    && (p % 16 != 0 ==> keystream == m.cipher(CounterBlock(m, p / 16)))
  }

  lemma OffsetAt(m: Mode, p: nat, counter: bytes, keystream: bytes, ksOffset: nat)
    requires AtPosition(m, p, counter, keystream, ksOffset)
    ensures |keystream| == 16 && ksOffset <= 16
    ensures ksOffset == 16 ==> p % 16 == 0 && counter == CounterBlock(m, p / 16)
  {
    hide CounterBlock;
  }

  lemma Started(m: Mode, counter: bytes, keystream: bytes)
    requires counter == CounterBlock(m, 0) && |keystream| == 16
    ensures AtPosition(m, 0, counter, keystream, 16)
  {
    hide CounterBlock;
  }

  lemma AfterRefill(m: Mode, p: nat, counter: bytes, keystream: bytes)
    requires p % 16 == 0
    requires counter == CounterBlock(m, p / 16 + 1) && keystream == m.cipher(CounterBlock(m, p / 16))
    ensures |keystream| == 16 && keystream[0] == StreamByte(m, p)
    ensures AtPosition(m, p + 1, counter, keystream, 1)
  {
    hide CounterBlock;
  }

  lemma AfterByte(m: Mode, p: nat, counter: bytes, keystream: bytes, ksOffset: nat)
    requires AtPosition(m, p, counter, keystream, ksOffset) && ksOffset < 16
    ensures keystream[ksOffset] == StreamByte(m, p)
    ensures AtPosition(m, p + 1, counter, keystream, ksOffset + 1)
  {
    hide CounterBlock;
    assert (p + 15) / 16 == p / 16 + 1 == (p + 16) / 16;
  }

  /** src/aes_ctr.rs: AES as a 16-byte function, the counter little-endian from 1. */
  class AesCtrDecryptor {
    const cipher: BlockCipher
    const counter: array<byte>
    const keystream: array<byte>
    var ksOffset: nat
    ghost var position: nat

    ghost function StreamMode(): Mode {
      Mode(cipher, false, 1)
    }

    ghost predicate Valid()
      reads this, counter, keystream
    {
      && counter != keystream
      && AtPosition(StreamMode(), position, counter[..], keystream[..], ksOffset)
    }

    constructor (aes: BlockCipher)
      ensures Valid() && cipher == aes && position == 0
      ensures fresh(counter) && fresh(keystream)
    {
      hide CounterBlock, AtPosition;
      cipher := aes;
      counter := new byte[16](_ => 0);
      keystream := new byte[16](_ => 0);
      ksOffset := 16;
      position := 0;
      new;
      counter[0] := 1;
      assert counter[..] == FirstAesCounter();
      FirstCounters(StreamMode());
      Started(StreamMode(), counter[..], keystream[..]);
    }

    method NextKeystreamBlock(ghost k: nat)
      requires counter != keystream && keystream.Length == 16 && counter[..] == CounterBlock(StreamMode(), k)
      modifies counter, keystream, `ksOffset
      ensures ksOffset == 0
      ensures counter[..] == CounterBlock(StreamMode(), k + 1)
      ensures keystream[..] == StreamMode().cipher(CounterBlock(StreamMode(), k))
    {
      hide CounterBlock, IncLe;
      var block := cipher(counter[..]);
      Copy(block, keystream);
      NextCounter(StreamMode(), k);
      IncrementLe(counter);
      ksOffset := 0;
    }

    /** `decrypt`, in place. */
    method Decrypt(data: array<byte>)
      requires Valid() && data != counter && data != keystream
      modifies this, counter, keystream, data
      ensures Valid()
      ensures position == old(position) + data.Length
      ensures data[..] == Crypted(StreamMode(), old(position), old(data[..]))
    {
      hide CounterBlock, StreamByte, XorByte, Crypted, AtPosition, StreamMode;
      ghost var was := data[..];
      var i := 0;
      CryptedNothing(StreamMode(), position, was);
      while i < data.Length
        invariant 0 <= i <= data.Length && Valid()
        invariant position == old(position) + i
        invariant data[..i] == Crypted(StreamMode(), old(position), was[..i]) && data[i..] == was[i..]
      {
        OffsetAt(StreamMode(), position, counter[..], keystream[..], ksOffset);
        if ksOffset >= 16 {
          NextKeystreamBlock(position / 16);
          AfterRefill(StreamMode(), position, counter[..], keystream[..]);
        } else {
          AfterByte(StreamMode(), position, counter[..], keystream[..], ksOffset);
        }
        assert data[i] == was[i] by { assert data[i..][0] == was[i..][0]; }
        CryptedOneMore(StreamMode(), old(position), was, i);
        SetNext(data, was, i, XorByte(data[i], keystream[ksOffset]));
        ksOffset := ksOffset + 1;
        position := position + 1;
        i := i + 1;
      }
      assert was[..i] == was && data[..i] == data[..];
    }
  }

  lemma CryptedNothing(m: Mode, p: nat, data: bytes)
    ensures Crypted(m, p, data[..0]) == []
  {
  }

  function FirstAesCounter(): bytes {
    [1] + seq(15, _ => 0)
  }

  /** The first counters: 1 little-endian for AES, 0 for LEA. */
  lemma FirstCounters(m: Mode)
    ensures m.start == 1 && !m.bigEndian ==> CounterBlock(m, 0) == FirstAesCounter()
    ensures m.start == 0 && m.bigEndian ==> CounterBlock(m, 0) == seq(16, _ => 0)
  {
    hide ByteOf;
    SmallBytes();
    Zeros(15);
    Zeros(16);
    BeIsReversedLe(0, 16);
    assert LeBytes(1, 16) == [ByteOf(1)] + LeBytes(0, 15);
  }

  lemma SmallBytes()
    ensures ByteOf(0) == 0 && ByteOf(1) == 1
  {
    ZeroByte();
    OneByte();
    hide Val, ByteOf;
    ByteOfVal(0);
    ByteOfVal(1);
  }

  lemma OneByte()
    ensures Val(1) == 1
  {
  }

  lemma {:induction false} Zeros(k: nat)
    ensures LeBytes(0, k) == seq(k, _ => 0) && Reversed(LeBytes(0, k)) == seq(k, _ => 0)
  {
    hide ByteOf;
    SmallBytes();
    if k > 0 {
      Zeros(k - 1);
      assert LeBytes(0, k)[1..] == LeBytes(0, k - 1);
    }
  }

  /** `copy_from_slice`. */
  method Copy(from: bytes, to: array<byte>)
    requires |from| == to.Length
    modifies to
    ensures to[..] == from
  {
    forall i | 0 <= i < |from| {
      to[i] := from[i];
    }
  }

  /** src/lea.rs: LEA under its round keys, the counter big-endian from 0. */
  class LeaCtrDecryptor {
    const cipher: Lea.LeaCipher
    const counter: array<byte>
    const keystream: array<byte>
    var ksOffset: nat
    ghost var position: nat

    ghost function StreamMode(): Mode {
      LeaMode(cipher.roundKeys)
    }

    ghost predicate Valid()
      reads this, counter, keystream
    {
      && counter != keystream
      && AtPosition(StreamMode(), position, counter[..], keystream[..], ksOffset)
    }

    constructor (lea: Lea.LeaCipher)
      ensures Valid() && cipher == lea && position == 0
      ensures fresh(counter) && fresh(keystream)
    {
      hide CounterBlock, AtPosition;
      cipher := lea;
      counter := new byte[16](_ => 0);
      keystream := new byte[16](_ => 0);
      ksOffset := 16;
      position := 0;
      new;
      assert counter[..] == seq(16, _ => 0);
      FirstCounters(StreamMode());
      Started(StreamMode(), counter[..], keystream[..]);
    }

    method NextKeystreamBlock(ghost k: nat)
      requires counter != keystream && keystream.Length == 16 && counter[..] == CounterBlock(StreamMode(), k)
      modifies counter, keystream, `ksOffset
      ensures ksOffset == 0
      ensures counter[..] == CounterBlock(StreamMode(), k + 1)
      ensures keystream[..] == StreamMode().cipher(CounterBlock(StreamMode(), k))
    {
      hide CounterBlock, IncBe, IncLe, Lea.EncryptBlock;
      Copy(counter[..], keystream);
      cipher.Encrypt(keystream);
      NextCounter(StreamMode(), k);
      IncrementBe(counter);
      ksOffset := 0;
    }

    /** `decrypt`, in place. */
    method Decrypt(data: array<byte>)
      requires Valid() && data != counter && data != keystream
      modifies this, counter, keystream, data
      ensures Valid()
      ensures position == old(position) + data.Length
      ensures data[..] == Crypted(StreamMode(), old(position), old(data[..]))
    {
      hide CounterBlock, StreamByte, XorByte, Crypted, AtPosition, StreamMode;
      ghost var was := data[..];
      var i := 0;
      CryptedNothing(StreamMode(), position, was);
      while i < data.Length
        invariant 0 <= i <= data.Length && Valid()
        invariant position == old(position) + i
        invariant data[..i] == Crypted(StreamMode(), old(position), was[..i]) && data[i..] == was[i..]
      {
        OffsetAt(StreamMode(), position, counter[..], keystream[..], ksOffset);
        if ksOffset >= 16 {
          NextKeystreamBlock(position / 16);
          AfterRefill(StreamMode(), position, counter[..], keystream[..]);
        } else {
          AfterByte(StreamMode(), position, counter[..], keystream[..], ksOffset);
        }
        assert data[i] == was[i] by { assert data[i..][0] == was[i..][0]; }
        CryptedOneMore(StreamMode(), old(position), was, i);
        SetNext(data, was, i, XorByte(data[i], keystream[ksOffset]));
        ksOffset := ksOffset + 1;
        position := position + 1;
        i := i + 1;
      }
      assert was[..i] == was && data[..i] == data[..];
    }
  }

  /** LEA in counter mode under given round keys. */
  function LeaMode(keys: seq<Lea.RoundKey>): Mode {
    Mode((s: bytes) => if |s| == 16 then Lea.EncryptBlock(keys, s) else [], true, 0)
  }
}
