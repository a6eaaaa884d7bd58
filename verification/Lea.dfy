/** The LEA block cipher of src/lea.rs (KS X 3246): key schedules, encryption, and what they never lose. */
module Lea {
  import opened Bytes
  import opened Words

  const DELTA: seq<bv32> :=
    [0xc3efe9db, 0x44626b02, 0x79e27c8a, 0x78df30ec, 0x715ea49e, 0xc785da0a, 0xe04ef22a, 0xe5c40957]

  // ---------- encryption ----------

  datatype Block = Block(x0: bv32, x1: bv32, x2: bv32, x3: bv32)
  datatype RoundKey = RoundKey(k0: bv32, k1: bv32, k2: bv32, k3: bv32, k4: bv32, k5: bv32)

  function Round(x: Block, k: RoundKey): Block {
    Block(Rol(Plus(Xor(x.x0, k.k0), Xor(x.x1, k.k1)), 9),
          Ror(Plus(Xor(x.x1, k.k2), Xor(x.x2, k.k3)), 5),
          Ror(Plus(Xor(x.x2, k.k4), Xor(x.x3, k.k5)), 3),
          x.x0)
  }

  /** The round undone: each word is found from the one before it. */
  function Unround(y: Block, k: RoundKey): Block {
    var x0 := y.x3;
    var x1 := Xor(Minus(Ror(y.x0, 9), Xor(x0, k.k0)), k.k1);
    var x2 := Xor(Minus(Rol(y.x1, 5), Xor(x1, k.k2)), k.k3);
    var x3 := Xor(Minus(Rol(y.x2, 3), Xor(x2, k.k4)), k.k5);
    Block(x0, x1, x2, x3)
  }

  lemma MinusPlusLeft(x: bv32, y: bv32)
    ensures Minus(Plus(x, y), x) == y && Plus(x, Minus(y, x)) == y
  {
    hide *;
    PlusCommutes(x, y);
    MinusPlus(y, x);
    PlusCommutes(x, Minus(y, x));
  }

  lemma UnroundRound(x: Block, k: RoundKey)
    ensures Unround(Round(x, k), k) == x
  {
    hide Xor, Plus, Minus, Rol, Ror;
    var a0, a1, a2 := Xor(x.x0, k.k0), Xor(x.x1, k.k2), Xor(x.x2, k.k4);
    var b0, b1, b2 := Xor(x.x1, k.k1), Xor(x.x2, k.k3), Xor(x.x3, k.k5);
    RotateBack(Plus(a0, b0), 9);
    RotateBack(Plus(a1, b1), 5);
    RotateBack(Plus(a2, b2), 3);
    MinusPlusLeft(a0, b0);
    MinusPlusLeft(a1, b1);
    MinusPlusLeft(a2, b2);
    XorTwice(x.x1, k.k1);
    XorTwice(x.x2, k.k3);
    XorTwice(x.x3, k.k5);
  }

  lemma RoundUnround(y: Block, k: RoundKey)
    ensures Round(Unround(y, k), k) == y
  {
    hide Xor, Plus, Minus, Rol, Ror;
    var x := Unround(y, k);
    var a0, a1, a2 := Xor(x.x0, k.k0), Xor(x.x1, k.k2), Xor(x.x2, k.k4);
    XorTwice(Minus(Ror(y.x0, 9), a0), k.k1);
    XorTwice(Minus(Rol(y.x1, 5), a1), k.k3);
    XorTwice(Minus(Rol(y.x2, 3), a2), k.k5);
    MinusPlusLeft(a0, Ror(y.x0, 9));
    MinusPlusLeft(a1, Rol(y.x1, 5));
    MinusPlusLeft(a2, Rol(y.x2, 3));
    RotateBack(y.x0, 9);
    RotateBack(y.x1, 5);
    RotateBack(y.x2, 3);
  }

  /** All rounds, first key first. */
  function Rounds(x: Block, keys: seq<RoundKey>): Block {
    if keys == [] then x else Round(Rounds(x, keys[..|keys| - 1]), keys[|keys| - 1])
  }

  /** All rounds undone, last key first. */
  function Unrounds(y: Block, keys: seq<RoundKey>): Block
    decreases |keys|
  {
    if keys == [] then y else Unrounds(Unround(y, keys[|keys| - 1]), keys[..|keys| - 1])
  }

  lemma {:induction false} RoundsInvertible(x: Block, keys: seq<RoundKey>)
    ensures Unrounds(Rounds(x, keys), keys) == x && Rounds(Unrounds(x, keys), keys) == x
    decreases |keys|
  {
    hide Round, Unround;
    if keys != [] {
      var k, rest := keys[|keys| - 1], keys[..|keys| - 1];
      UnroundRound(Rounds(x, rest), k);
      RoundsInvertible(x, rest);
      RoundsInvertible(Unround(x, k), rest);
      RoundUnround(x, k);
    }
  }

  function LoadBlock(s: bytes): Block
    requires |s| == 16
  {
    var w := WordsOf(s);
    Block(w[0], w[1], w[2], w[3])
  }

  function StoreBlock(x: Block): (s: bytes)
    ensures |s| == 16
  {
    AllBytesOf([x.x0, x.x1, x.x2, x.x3])
  }

  lemma BlockBytes(s: bytes, x: Block)
    requires |s| == 16
    ensures StoreBlock(LoadBlock(s)) == s && LoadBlock(StoreBlock(x)) == x
  {
    hide WordsOf, AllBytesOf;
    var w := WordsOf(s);
    assert w == [w[0], w[1], w[2], w[3]];
    AllBytesOfWordsOf(s);
    WordsOfAllBytesOf([x.x0, x.x1, x.x2, x.x3]);
  }

  /** `encrypt_block` as a function of the block's bytes. */
  function EncryptBlock(keys: seq<RoundKey>, s: bytes): (r: bytes)
    requires |s| == 16
    ensures |r| == 16
  {
    StoreBlock(Rounds(LoadBlock(s), keys))
  }

  function DecryptBlock(keys: seq<RoundKey>, s: bytes): (r: bytes)
    requires |s| == 16
    ensures |r| == 16
  {
    StoreBlock(Unrounds(LoadBlock(s), keys))
  }

  /** For round keys of any number, encryption permutes the 16-byte blocks. */
  lemma EncryptionIsPermutation(keys: seq<RoundKey>, s: bytes)
    requires |s| == 16
    ensures DecryptBlock(keys, EncryptBlock(keys, s)) == s
    ensures EncryptBlock(keys, DecryptBlock(keys, s)) == s
  {
    hide LoadBlock, StoreBlock, Rounds, Unrounds;
    var x := LoadBlock(s);
    BlockBytes(s, Rounds(x, keys));
    BlockBytes(s, Unrounds(x, keys));
    RoundsInvertible(x, keys);
  }

  // ---------- key schedules ----------

  /** One schedule word: add the turned constant, turn the sum. */
  function Mix(t: bv32, delta: bv32, turn: nat, amount: nat): bv32 {
    Rol(Plus(t, Rol(delta, turn)), amount)
  }

  function Unmix(t: bv32, delta: bv32, turn: nat, amount: nat): bv32 {
    Minus(Ror(t, amount), Rol(delta, turn))
  }

  lemma UnmixMix(t: bv32, delta: bv32, turn: nat, amount: nat)
    ensures Unmix(Mix(t, delta, turn, amount), delta, turn, amount) == t
  {
    hide Rol, Ror, Plus, Minus;
    RotateBack(Plus(t, Rol(delta, turn)), amount);
    MinusPlus(t, Rol(delta, turn));
  }

  /** The turns of the constants run past 32 in the last rounds; there they count modulo 32. */
  lemma MixTurnsModulo32(t: bv32, delta: bv32, turn: nat, amount: nat)
    requires turn >= 32
    ensures Mix(t, delta, turn, amount) == Mix(t, delta, turn - 32, amount)
  {
    hide Rol, Plus;
    RolPeriod(delta, turn - 32);
  }

  const AMOUNT: seq<nat> := [1, 3, 6, 11, 13, 17]

  /** LEA-128 and LEA-192: round i mixes every word of the state t. */
  function MixAll(t: seq<bv32>, i: nat): (r: seq<bv32>)
    requires 0 < |t| <= 6
    ensures |r| == |t|
  {
    seq(|t|, j requires 0 <= j < |t| => Mix(t[j], DELTA[i % |t|], i + j, AMOUNT[j]))
  }

  function UnmixAll(t: seq<bv32>, i: nat): (r: seq<bv32>)
    requires 0 < |t| <= 6
    ensures |r| == |t|
  {
    seq(|t|, j requires 0 <= j < |t| => Unmix(t[j], DELTA[i % |t|], i + j, AMOUNT[j]))
  }

  /** The state after n rounds. */
  function Scheduled(t: seq<bv32>, n: nat): (r: seq<bv32>)
    requires 0 < |t| <= 6
    ensures |r| == |t|
  {
    if n == 0 then t else MixAll(Scheduled(t, n - 1), n - 1)
  }

  function Rewound(t: seq<bv32>, n: nat): (r: seq<bv32>)
    requires 0 < |t| <= 6
    ensures |r| == |t|
    decreases n
  {
    if n == 0 then t else Rewound(UnmixAll(t, n - 1), n - 1)
  }

  lemma {:induction false} RewoundScheduled(t: seq<bv32>, n: nat)
    requires 0 < |t| <= 6
    ensures Rewound(Scheduled(t, n), n) == t
  {
    hide Mix, Unmix;
    if n > 0 {
      UnmixAllMixAll(Scheduled(t, n - 1), n - 1);
      hide MixAll, UnmixAll;
      RewoundScheduled(t, n - 1);
    }
  }

  lemma UnmixAllMixAll(t: seq<bv32>, i: nat)
    requires 0 < |t| <= 6
    ensures UnmixAll(MixAll(t, i), i) == t
  {
    hide Mix, Unmix;
    forall j | 0 <= j < |t| ensures UnmixAll(MixAll(t, i), i)[j] == t[j] {
      UnmixMix(t[j], DELTA[i % |t|], i + j, AMOUNT[j]);
    }
  }

  /** The round key LEA-128 pushes: word 1 is used three times. */
  function RoundKey128(t: seq<bv32>): RoundKey
    requires |t| == 4
  {
    RoundKey(t[0], t[1], t[2], t[1], t[3], t[1])
  }

  function RoundKey192(t: seq<bv32>): RoundKey
    requires |t| == 6
  {
    RoundKey(t[0], t[1], t[2], t[3], t[4], t[5])
  }

  function Schedule128(key: bytes, n: nat): (keys: seq<RoundKey>)
    requires |key| == 16
    ensures |keys| == n
  {
    seq(n, i requires 0 <= i => RoundKey128(Scheduled(WordsOf(key), i + 1)))
  }

  function Schedule192(key: bytes, n: nat): (keys: seq<RoundKey>)
    requires |key| == 24
    ensures |keys| == n
  {
    seq(n, i requires 0 <= i => RoundKey192(Scheduled(WordsOf(key), i + 1)))
  }

  /** Any single round key of LEA-128 gives the master key back. */
  lemma AnyRoundKeyRecovers128(key: bytes, n: nat, i: nat)
    requires |key| == 16 && i < n
    ensures var k := Schedule128(key, n)[i];
      AllBytesOf(Rewound([k.k0, k.k1, k.k2, k.k4], i + 1)) == key
  {
    hide WordsOf, AllBytesOf, Scheduled, Rewound;
    var t := Scheduled(WordsOf(key), i + 1);
    assert Schedule128(key, n)[i] == RoundKey128(t);
    assert |t| == 4 && [t[0], t[1], t[2], t[3]] == t;
    RewoundScheduled(WordsOf(key), i + 1);
    AllBytesOfWordsOf(key);
  }

  lemma AnyRoundKeyRecovers192(key: bytes, n: nat, i: nat)
    requires |key| == 24 && i < n
    ensures var k := Schedule192(key, n)[i];
      AllBytesOf(Rewound([k.k0, k.k1, k.k2, k.k3, k.k4, k.k5], i + 1)) == key
  {
    hide WordsOf, AllBytesOf, Scheduled, Rewound;
    var t := Scheduled(WordsOf(key), i + 1);
    assert Schedule192(key, n)[i] == RoundKey192(t);
    assert |t| == 6 && [t[0], t[1], t[2], t[3], t[4], t[5]] == t;
    RewoundScheduled(WordsOf(key), i + 1);
    AllBytesOfWordsOf(key);
  }

  // ---------- LEA-256: six of eight words a round ----------

  /** The word round i updates in its step j. */
  function Slot(i: nat, j: nat): (k: nat)
    ensures k < 8
  {
    (6 * i + j) % 8
  }

  /** The six steps of a round touch six different words. */
  lemma SlotsDistinct(i: nat, j: nat, j': nat)
    requires j < j' < 6
    ensures Slot(i, j) != Slot(i, j')
  {
    assert (6 * i + j') - (6 * i + j) == j' - j;
  }

  /** The state after the first `steps` steps of round i. */
  function MixSlots(t: seq<bv32>, i: nat, steps: nat): (r: seq<bv32>)
    requires |t| == 8 && steps <= 6
    ensures |r| == 8
  {
    if steps == 0 then t
    else
      var s := MixSlots(t, i, steps - 1);
      var k := Slot(i, steps - 1);
      s[k := Mix(s[k], DELTA[i % 8], i + steps - 1, AMOUNT[steps - 1])]
  }

  /** The in-place walk is a parallel update: each word is mixed from its value before the round. */
  lemma {:induction false} MixSlotsParallel(t: seq<bv32>, i: nat, steps: nat, j: nat)
    requires |t| == 8 && steps <= 6 && j < 6
    ensures MixSlots(t, i, steps)[Slot(i, j)]
         == if j < steps then Mix(t[Slot(i, j)], DELTA[i % 8], i + j, AMOUNT[j]) else t[Slot(i, j)]
  {
    hide Mix, Slot;
    if steps > 0 {
      MixSlotsParallel(t, i, steps - 1, j);
      if j < steps - 1 {
        SlotsDistinct(i, j, steps - 1);
      } else if j > steps - 1 {
        SlotsDistinct(i, steps - 1, j);
      }
    }
  }

  /** The two words outside the walk keep their values. */
  lemma {:induction false} MixSlotsElsewhere(t: seq<bv32>, i: nat, steps: nat, k: nat)
    requires |t| == 8 && steps <= 6 && k < 8
    requires forall j :: 0 <= j < steps ==> Slot(i, j) != k
    ensures MixSlots(t, i, steps)[k] == t[k]
  {
    hide Mix, Slot;
    if steps > 0 {
      MixSlotsElsewhere(t, i, steps - 1, k);
    }
  }

  function Scheduled256(t: seq<bv32>, n: nat): (r: seq<bv32>)
    requires |t| == 8
    ensures |r| == 8
  {
    if n == 0 then t else MixSlots(Scheduled256(t, n - 1), n - 1, 6)
  }

  function RoundKey256(t: seq<bv32>, i: nat): RoundKey
    requires |t| == 8
  {
    RoundKey(t[Slot(i, 0)], t[Slot(i, 1)], t[Slot(i, 2)], t[Slot(i, 3)], t[Slot(i, 4)], t[Slot(i, 5)])
  }

  function Schedule256(key: bytes, n: nat): (keys: seq<RoundKey>)
    requires |key| == 32
    ensures |keys| == n
  {
    seq(n, i requires 0 <= i => RoundKey256(Scheduled256(WordsOf(key), i + 1), i))
  }

  /** The master words the first two round keys determine. */
  function Recovered256(a: RoundKey, b: RoundKey): seq<bv32> {
    [Unmix(a.k0, DELTA[0], 0, 1), Unmix(a.k1, DELTA[0], 1, 3), Unmix(a.k2, DELTA[0], 2, 6),
     Unmix(a.k3, DELTA[0], 3, 11), Unmix(a.k4, DELTA[0], 4, 13), Unmix(a.k5, DELTA[0], 5, 17),
     Unmix(b.k0, DELTA[1], 1, 1), Unmix(b.k1, DELTA[1], 2, 3)]
  }

  /** The first two round keys of LEA-256 give the master key back. */
  lemma TwoRoundKeysRecover256(key: bytes, n: nat)
    requires |key| == 32 && n >= 2
    ensures var keys := Schedule256(key, n); AllBytesOf(Recovered256(keys[0], keys[1])) == key
  {
    hide WordsOf, AllBytesOf, MixSlots, Recovered256;
    var t := WordsOf(key);
    var t1, t2 := Scheduled256(t, 1), Scheduled256(t, 2);
    assert t1 == MixSlots(Scheduled256(t, 0), 0, 6) == MixSlots(t, 0, 6);
    assert t2 == MixSlots(t1, 1, 6);
    hide Scheduled256, RoundKey256;
    var keys := Schedule256(key, n);
    assert keys[0] == RoundKey256(t1, 0) && keys[1] == RoundKey256(t2, 1);
    RecoveredWords(t, t1, t2);
    AllBytesOfWordsOf(key);
  }

  lemma RecoveredWords(t: seq<bv32>, t1: seq<bv32>, t2: seq<bv32>)
    requires |t| == 8 && t1 == MixSlots(t, 0, 6) && t2 == MixSlots(t1, 1, 6)
    ensures Recovered256(RoundKey256(t1, 0), RoundKey256(t2, 1)) == t
  {
    hide Mix, Unmix, MixSlots, Slot;
    FirstSlot(0, 0);
    FirstSlot(0, 1);
    FirstSlot(0, 2);
    FirstSlot(0, 3);
    FirstSlot(0, 4);
    FirstSlot(0, 5);
    FirstSlot(1, 0);
    FirstSlot(1, 1);
    FirstRoundWords(t, t1);
    FirstRoundWord(t1, t2, 1, 0);
    FirstRoundWord(t1, t2, 1, 1);
    UnmixMix(t[6], DELTA[1], 1, 1);
    UnmixMix(t[7], DELTA[1], 2, 3);
    assert |Recovered256(RoundKey256(t1, 0), RoundKey256(t2, 1))| == 8;
  }

  lemma FirstSlot(i: nat, j: nat)
    requires 6 * i + j < 8
    ensures Slot(i, j) == 6 * i + j
  {
  }

  lemma FirstRoundWord(t: seq<bv32>, t1: seq<bv32>, i: nat, j: nat)
    requires |t| == 8 && t1 == MixSlots(t, i, 6) && j < 6
    ensures t1[Slot(i, j)] == Mix(t[Slot(i, j)], DELTA[i % 8], i + j, AMOUNT[j])
  {
    hide Mix, Slot, MixSlots;
    MixSlotsParallel(t, i, 6, j);
  }

  lemma FirstRoundWords(t: seq<bv32>, t1: seq<bv32>)
    requires |t| == 8 && t1 == MixSlots(t, 0, 6)
    ensures Unmix(t1[0], DELTA[0], 0, 1) == t[0] && Unmix(t1[1], DELTA[0], 1, 3) == t[1]
    ensures Unmix(t1[2], DELTA[0], 2, 6) == t[2] && Unmix(t1[3], DELTA[0], 3, 11) == t[3]
    ensures Unmix(t1[4], DELTA[0], 4, 13) == t[4] && Unmix(t1[5], DELTA[0], 5, 17) == t[5]
    ensures t1[6] == t[6] && t1[7] == t[7]
  {
    hide Mix, Unmix, MixSlots, Slot;
    forall j | 0 <= j < 6 ensures Slot(0, j) == j {
      FirstSlot(0, j);
    }
    MixSlotsElsewhere(t, 0, 6, 6);
    MixSlotsElsewhere(t, 0, 6, 7);
    FirstRoundUnmixed(t, t1, 0);
    FirstRoundUnmixed(t, t1, 1);
    FirstRoundUnmixed(t, t1, 2);
    FirstRoundUnmixed(t, t1, 3);
    FirstRoundUnmixed(t, t1, 4);
    FirstRoundUnmixed(t, t1, 5);
  }

  lemma FirstRoundUnmixed(t: seq<bv32>, t1: seq<bv32>, j: nat)
    requires |t| == 8 && t1 == MixSlots(t, 0, 6) && j < 6
    ensures Unmix(t1[j], DELTA[0], j, AMOUNT[j]) == t[j]
  {
    hide Mix, Unmix, MixSlots;
    FirstRoundMixed(t, t1, j);
    UnmixMix(t[j], DELTA[0], j, AMOUNT[j]);
  }

  lemma FirstRoundMixed(t: seq<bv32>, t1: seq<bv32>, j: nat)
    requires |t| == 8 && t1 == MixSlots(t, 0, 6) && j < 6
    ensures t1[j] == Mix(t[j], DELTA[0], j, AMOUNT[j])
  {
    hide Mix, MixSlots, Slot, SlotMixed;
    FirstSlot(0, j);
    SlotMixedFirst(t, j);
    AllSlotsMixed(t, 0, j);
  }

  /** What round i makes of the word it updates in its step j. */
  function SlotMixed(t: seq<bv32>, i: nat, j: nat): bv32
    requires |t| == 8 && j < 6
  {
    Mix(t[Slot(i, j)], DELTA[i % 8], i + j, AMOUNT[j])
  }

  lemma AllSlotsMixed(t: seq<bv32>, i: nat, j: nat)
    requires |t| == 8 && j < 6
    ensures MixSlots(t, i, 6)[Slot(i, j)] == SlotMixed(t, i, j)
  {
    hide Mix, MixSlots, Slot;
    MixSlotsParallel(t, i, 6, j);
  }

  lemma SlotMixedFirst(t: seq<bv32>, j: nat)
    requires |t| == 8 && j < 6
    ensures SlotMixed(t, 0, j) == Mix(t[j], DELTA[0], j, AMOUNT[j])
  {
    hide Mix, Slot;
    FirstSlot(0, j);
  }

  // ---------- the cipher object ----------

  /** `from_le_bytes` for each word of the key, into the schedule's array. */
  method LoadWords(s: bytes) returns (t: array<bv32>)
    requires |s| % 4 == 0
    ensures fresh(t) && t[..] == WordsOf(s)
  {
    hide WordsOf, WordOf;
    t := new bv32[|s| / 4];
    var i := 0;
    while i < t.Length
      invariant 0 <= i <= t.Length
      invariant forall k :: 0 <= k < i ==> t[k] == WordsOf(s)[k]
    {
      WordAt(s, i);
      t[i] := WordOf(s[4 * i], s[4 * i + 1], s[4 * i + 2], s[4 * i + 3]);
      i := i + 1;
    }
    assert t[..] == WordsOf(s);
  }

  /** One round of the LEA-128 and LEA-192 schedules, word by word in place. */
  method MixInPlace(t: array<bv32>, i: nat)
    requires 0 < t.Length <= 6
    modifies t
    ensures t[..] == MixAll(old(t[..]), i)
  {
    hide Mix;
    ghost var was := t[..];
    var j := 0;
    while j < t.Length
      invariant 0 <= j <= t.Length
      invariant forall k :: 0 <= k < j ==> t[k] == MixAll(was, i)[k]
      invariant forall k :: j <= k < t.Length ==> t[k] == was[k]
    {
      t[j] := Mix(t[j], DELTA[i % t.Length], i + j, AMOUNT[j]);
      j := j + 1;
    }
    assert t[..] == MixAll(was, i);
  }

  /** One round of the LEA-256 schedule: six words, one after the other, in place. */
  method MixSlotsInPlace(t: array<bv32>, i: nat)
    requires t.Length == 8
    modifies t
    ensures t[..] == MixSlots(old(t[..]), i, 6)
  {
    hide Mix, Slot;
    ghost var was := t[..];
    for j := 0 to 6
      invariant t[..] == MixSlots(was, i, j)
    {
      var k := Slot(i, j);
      t[k] := Mix(t[k], DELTA[i % 8], i + j, AMOUNT[j]);
    }
  }

  lemma ScheduledStep(t: seq<bv32>, n: nat)
    requires 0 < |t| <= 6
    ensures Scheduled(t, 0) == t && Scheduled(t, n + 1) == MixAll(Scheduled(t, n), n)
  {
    hide MixAll;
  }

  lemma Scheduled256Step(t: seq<bv32>, n: nat)
    requires |t| == 8
    ensures Scheduled256(t, 0) == t && Scheduled256(t, n + 1) == MixSlots(Scheduled256(t, n), n, 6)
  {
    hide MixSlots;
  }

  lemma Schedule128Grows(key: bytes, n: nat)
    requires |key| == 16
    ensures Schedule128(key, 0) == []
    ensures Schedule128(key, n + 1) == Schedule128(key, n) + [RoundKey128(Scheduled(WordsOf(key), n + 1))]
  {
    hide WordsOf, Scheduled, RoundKey128;
  }

  lemma Schedule192Grows(key: bytes, n: nat)
    requires |key| == 24
    ensures Schedule192(key, 0) == []
    ensures Schedule192(key, n + 1) == Schedule192(key, n) + [RoundKey192(Scheduled(WordsOf(key), n + 1))]
  {
    hide WordsOf, Scheduled, RoundKey192;
  }

  lemma Schedule256Grows(key: bytes, n: nat)
    requires |key| == 32
    ensures Schedule256(key, 0) == []
    ensures Schedule256(key, n + 1) == Schedule256(key, n) + [RoundKey256(Scheduled256(WordsOf(key), n + 1), n)]
  {
    hide WordsOf, Scheduled256, RoundKey256;
  }

  class LeaCipher {
    const roundKeys: seq<RoundKey>

    /** `new_128`: 24 rounds. */
    constructor New128(key: bytes)
      requires |key| == 16
      ensures roundKeys == Schedule128(key, 24)
    {
      hide WordsOf, Mix, MixAll, Scheduled, Schedule128, Schedule192;
      var t := LoadWords(key);
      var rk: seq<RoundKey> := [];
      Schedule128Grows(key, 0);
      ScheduledStep(WordsOf(key), 0);
      for i := 0 to 24
        invariant fresh(t) && t.Length == 4 && t[..] == Scheduled(WordsOf(key), i)
        invariant rk == Schedule128(key, i)
      {
        MixInPlace(t, i);
        rk := rk + [RoundKey(t[0], t[1], t[2], t[1], t[3], t[1])];
        Schedule128Grows(key, i);
        ScheduledStep(WordsOf(key), i);
      }
      roundKeys := rk;
    }

    /** `new_192`: 28 rounds. */
    constructor New192(key: bytes)
      requires |key| == 24
      ensures roundKeys == Schedule192(key, 28)
    {
      hide WordsOf, Mix, MixAll, Scheduled, Schedule128, Schedule192;
      var t := LoadWords(key);
      var rk: seq<RoundKey> := [];
      Schedule192Grows(key, 0);
      ScheduledStep(WordsOf(key), 0);
      for i := 0 to 28
        invariant fresh(t) && t.Length == 6 && t[..] == Scheduled(WordsOf(key), i)
        invariant rk == Schedule192(key, i)
      {
        MixInPlace(t, i);
        rk := rk + [RoundKey(t[0], t[1], t[2], t[3], t[4], t[5])];
        Schedule192Grows(key, i);
        ScheduledStep(WordsOf(key), i);
      }
      roundKeys := rk;
    }

    /** `new_256`: 32 rounds, six of the eight words in each. */
    constructor New256(key: bytes)
      requires |key| == 32
      ensures roundKeys == Schedule256(key, 32)
    {
      hide WordsOf, Slot, Scheduled256, Schedule256, MixSlots;
      var t := LoadWords(key);
      var rk: seq<RoundKey> := [];
      Schedule256Grows(key, 0);
      Scheduled256Step(WordsOf(key), 0);
      for i := 0 to 32
        invariant fresh(t) && t.Length == 8 && t[..] == Scheduled256(WordsOf(key), i)
        invariant rk == Schedule256(key, i)
      {
        MixSlotsInPlace(t, i);
        rk := rk + [RoundKey(t[Slot(i, 0)], t[Slot(i, 1)], t[Slot(i, 2)],
                             t[Slot(i, 3)], t[Slot(i, 4)], t[Slot(i, 5)])];
        Schedule256Grows(key, i);
        Scheduled256Step(WordsOf(key), i);
      }
      roundKeys := rk;
    }

    /** `encrypt_block`, in place. */
    method Encrypt(block: array<byte>)
      requires block.Length == 16
      modifies block
      ensures block[..] == EncryptBlock(roundKeys, old(block[..]))
    {
      hide WordsOf, Round, AllBytesOf, BytesOf;
      ghost var was := block[..];
      var w := LoadWords(block[..]);
      var x := Block(w[0], w[1], w[2], w[3]);
      var r := 0;
      while r < |roundKeys|
        invariant 0 <= r <= |roundKeys|
        invariant x == Rounds(LoadBlock(was), roundKeys[..r])
      {
        assert roundKeys[..r + 1][..r] == roundKeys[..r];
        x := Round(x, roundKeys[r]);
        r := r + 1;
      }
      assert roundKeys[..r] == roundKeys;
      var words := [x.x0, x.x1, x.x2, x.x3];
      var i := 0;
      while i < 4
        invariant 0 <= i <= 4
        invariant block[..4 * i] == AllBytesOf(words)[..4 * i]
      {
        StoreWord(block, 4 * i, words[i]);
        ByteAt(words, i);
        assert block[..4 * i + 4] == block[..4 * i] + block[4 * i..4 * i + 4];
        i := i + 1;
      }
      assert block[..] == block[..16] && AllBytesOf(words)[..16] == AllBytesOf(words);
    }
  }

  /** `copy_from_slice(&w.to_le_bytes())`. */
  method StoreWord(block: array<byte>, p: nat, w: bv32)
    requires p + 4 <= block.Length
    modifies block
    ensures block[p..p + 4] == BytesOf(w)
    ensures block[..p] == old(block[..p]) && block[p + 4..] == old(block[p + 4..])
  {
    var s := BytesOf(w);
    hide BytesOf;
    block[p], block[p + 1], block[p + 2], block[p + 3] := s[0], s[1], s[2], s[3];
  }
}
