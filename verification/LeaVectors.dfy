/** LEA computes the test vectors of KS X 3246, Appendix A: every key state and every block, round by round. */
module LeaVectors {
  import opened Bytes
  import opened Words
  import opened Lea

  // The key is the concatenation of four parts; the shorter keys are its beginnings.
  const KEY_A: bytes := [0x0f, 0x1e, 0x2d, 0x3c, 0x4b, 0x5a, 0x69, 0x78]
  const KEY_B: bytes := [0x87, 0x96, 0xa5, 0xb4, 0xc3, 0xd2, 0xe1, 0xf0]
  const KEY_C: bytes := [0xf0, 0xe1, 0xd2, 0xc3, 0xb4, 0xa5, 0x96, 0x87]
  const KEY_D: bytes := [0x78, 0x69, 0x5a, 0x4b, 0x3c, 0x2d, 0x1e, 0x0f]
  const KEY128: bytes := KEY_A + KEY_B
  const KEY192: bytes := KEY128 + KEY_C
  const KEY256: bytes := KEY192 + KEY_D

  lemma KeyWords()
    ensures WordsOf(KEY_A) == [0x3c2d1e0f, 0x78695a4b] && WordsOf(KEY_B) == [0xb4a59687, 0xf0e1d2c3]
    ensures WordsOf(KEY_C) == [0xc3d2e1f0, 0x8796a5b4] && WordsOf(KEY_D) == [0x4b5a6978, 0x0f1e2d3c]
  {
    hide WordOf, WordsOf;
    KeyWordValues();
    WordAt(KEY_A, 0);
    WordAt(KEY_A, 1);
    WordAt(KEY_B, 0);
    WordAt(KEY_B, 1);
    WordAt(KEY_C, 0);
    WordAt(KEY_C, 1);
    WordAt(KEY_D, 0);
    WordAt(KEY_D, 1);
  }

  lemma {:induction false} WordsJoin(a: bytes, b: bytes)
    requires |a| % 4 == 0 && |b| % 4 == 0
    ensures WordsOf(a + b) == WordsOf(a) + WordsOf(b)
  {
    hide WordOf;
    if a == [] {
      assert a + b == b;
    } else {
      WordsJoin(a[4..], b);
      assert (a + b)[4..] == a[4..] + b;
    }
  }

  lemma RoundsMore(x: Block, keys: seq<RoundKey>, i: nat)
    requires i < |keys|
    ensures Rounds(x, keys[..i + 1]) == Round(Rounds(x, keys[..i]), keys[i])
  {
    hide Round;
    assert keys[..i + 1][..i] == keys[..i];
  }

  lemma OneMoreWord(w: bv32, rest: seq<bv32>)
    ensures AllBytesOf([w] + rest) == BytesOf(w) + AllBytesOf(rest)
  {
    hide BytesOf;
    assert ([w] + rest)[1..] == rest;
  }

  lemma NoWords()
    ensures AllBytesOf([]) == []
  {
  }

  /** The bytes of a block, word by word. */
  lemma StoredBytes(x: Block)
    ensures StoreBlock(x) == BytesOf(x.x0) + BytesOf(x.x1) + BytesOf(x.x2) + BytesOf(x.x3)
  {
    hide BytesOf;
    hide AllBytesOf;
    OneMoreWord(x.x3, []);
    OneMoreWord(x.x2, [x.x3]);
    OneMoreWord(x.x1, [x.x2, x.x3]);
    OneMoreWord(x.x0, [x.x1, x.x2, x.x3]);
    NoWords();
    assert [x.x3] + [] == [x.x3] && [x.x2] + [x.x3] == [x.x2, x.x3] && [x.x1] + [x.x2, x.x3] == [x.x1, x.x2, x.x3];
    assert [x.x0] + [x.x1, x.x2, x.x3] == [x.x0, x.x1, x.x2, x.x3];
  }

  lemma KeyWordValues()
    ensures WordOf(0x0f, 0x1e, 0x2d, 0x3c) == 0x3c2d1e0f && WordOf(0x4b, 0x5a, 0x69, 0x78) == 0x78695a4b
    ensures WordOf(0x87, 0x96, 0xa5, 0xb4) == 0xb4a59687 && WordOf(0xc3, 0xd2, 0xe1, 0xf0) == 0xf0e1d2c3
    ensures WordOf(0xf0, 0xe1, 0xd2, 0xc3) == 0xc3d2e1f0 && WordOf(0xb4, 0xa5, 0x96, 0x87) == 0x8796a5b4
    ensures WordOf(0x78, 0x69, 0x5a, 0x4b) == 0x4b5a6978 && WordOf(0x3c, 0x2d, 0x1e, 0x0f) == 0x0f1e2d3c
  {
  }

  function Constant(i: nat): bv32 {
    match i
    case 0 => 0xc3efe9db
    case 1 => 0x44626b02
    case 2 => 0x79e27c8a
    case 3 => 0x78df30ec
    case 4 => 0x715ea49e
    case 5 => 0xc785da0a
    case 6 => 0xe04ef22a
    case _ => 0xe5c40957
  }

  lemma Again(i: nat, w: nat)
    requires (w == 4 || w == 6 || w == 8) && i >= w
    ensures (i - w) % w == i % w
  {
  }

  lemma {:induction false} WordAt(s: bytes, k: nat)
    requires |s| % 4 == 0 && 4 * k < |s|
    ensures WordsOf(s)[k] == WordOf(s[4 * k], s[4 * k + 1], s[4 * k + 2], s[4 * k + 3])
  {
    hide WordOf;
    if k > 0 {
      WordAt(s[4..], k - 1);
    }
  }

  /** The constant of one of the first rounds. */
  lemma Soon(i: nat, w: nat, u: bv32)
    requires i < w <= 8 && u == Rol(Constant(i), i)
    ensures u == Rol(DELTA[i % w], i)
  {
    hide Rol;
  }

  lemma LoadedFrom(s: bytes)
    requires |s| == 16
    ensures var x := LoadBlock(s);
      && x.x0 == WordOf(s[0], s[1], s[2], s[3]) && x.x1 == WordOf(s[4], s[5], s[6], s[7])
      && x.x2 == WordOf(s[8], s[9], s[10], s[11]) && x.x3 == WordOf(s[12], s[13], s[14], s[15])
  {
    hide WordOf, WordsOf;
    WordAt(s, 0);
    WordAt(s, 1);
    WordAt(s, 2);
    WordAt(s, 3);
  }

  /** A row of a table: the schedule before a round, the round's constant turned, the block before the round. */
  datatype Row = Row(t: seq<bv32>, u: bv32, x: Block)

  // ---------- one round from its turned constant ----------

  function Turn3(x: bv32): bv32 {
    RolOne(RolOne(RolOne(x)))
  }

  function Turn5(x: bv32): bv32 {
    RolOne(RolByFour(x))
  }

  function Turn6(x: bv32): bv32 {
    RolOne(RolOne(RolByFour(x)))
  }

  function Turn11(x: bv32): bv32 {
    Turn3(RolByFour(RolByFour(x)))
  }

  function Turn13(x: bv32): bv32 {
    RolOne(RolByFour(RolByFour(RolByFour(x))))
  }

  function Turn17(x: bv32): bv32 {
    RolOne(SwapHalves(x))
  }

  /** The turns a schedule makes, in few steps. */
  lemma Turns(x: bv32)
    ensures Rol(x, 0) == x && Rol(x, 1) == RolOne(x) && Rol(x, 2) == RolOne(RolOne(x)) && Rol(x, 3) == Turn3(x)
    ensures Rol(x, 4) == RolByFour(x) && Rol(x, 5) == Turn5(x) && Rol(x, 6) == Turn6(x)
    ensures Rol(x, 11) == Turn11(x) && Rol(x, 13) == Turn13(x) && Rol(x, 17) == Turn17(x)
  {
    hide Rol, RolOne, RolByFour, SwapHalves;
    SmallTurns(x);
    var four, eight, twelve := RolByFour(x), RolByFour(RolByFour(x)), RolByFour(RolByFour(RolByFour(x)));
    SmallTurns(four);
    SmallTurns(eight);
    SmallTurns(twelve);
    SmallTurns(SwapHalves(x));
    RolSixteen(x);
    RolAdd(x, 4, 1);
    RolAdd(x, 4, 2);
    RolAdd(x, 4, 4);
    RolAdd(x, 8, 3);
    RolAdd(x, 8, 4);
    RolAdd(x, 12, 1);
    RolAdd(x, 16, 1);
  }

  lemma SmallTurns(x: bv32)
    ensures Rol(x, 0) == x && Rol(x, 1) == RolOne(x) && Rol(x, 2) == RolOne(RolOne(x)) && Rol(x, 3) == Turn3(x)
    ensures Rol(x, 4) == RolByFour(x)
  {
    hide RolOne, RolByFour;
    FirstTurns(x);
    var four := RolFour(x);
  }

  lemma FirstTurns(x: bv32)
    ensures Rol(x, 0) == x && Rol(x, 1) == RolOne(x) && Rol(x, 2) == RolOne(RolOne(x))
    ensures Rol(x, 3) == RolOne(RolOne(RolOne(x)))
  {
    hide RolOne;
    assert Rol(x, 1) == RolOne(Rol(x, 0));
    assert Rol(x, 2) == RolOne(Rol(x, 1));
    assert Rol(x, 3) == RolOne(Rol(x, 2));
  }

  function Turn9(x: bv32): bv32 {
    RolOne(RolByFour(RolByFour(x)))
  }

  function Back3(x: bv32): bv32 {
    RorOne(RorOne(RorOne(x)))
  }

  function Back5(x: bv32): bv32 {
    RorOne(RorOne(Back3(x)))
  }

  /** A round of the cipher, its rotations in few steps. */
  function RoundFast(x: Block, k: RoundKey): Block {
    Block(Turn9(Plus(Xor(x.x0, k.k0), Xor(x.x1, k.k1))),
          Back5(Plus(Xor(x.x1, k.k2), Xor(x.x2, k.k3))),
          Back3(Plus(Xor(x.x2, k.k4), Xor(x.x3, k.k5))),
          x.x0)
  }

  lemma RoundIsFast(x: Block, k: RoundKey)
    ensures Round(x, k) == RoundFast(x, k)
  {
    hide Rol, Ror, Turn9, Back3, Back5, Plus, Xor;
    NineTurns(Plus(Xor(x.x0, k.k0), Xor(x.x1, k.k1)));
    BackTurns(Plus(Xor(x.x1, k.k2), Xor(x.x2, k.k3)));
    BackTurns(Plus(Xor(x.x2, k.k4), Xor(x.x3, k.k5)));
  }

  lemma NineTurns(x: bv32)
    ensures Rol(x, 9) == Turn9(x)
  {
    hide Rol, RolOne, RolByFour;
    SmallTurns(x);
    SmallTurns(RolByFour(x));
    SmallTurns(RolByFour(RolByFour(x)));
    RolAdd(x, 4, 4);
    RolAdd(x, 8, 1);
  }

  lemma BackTurns(x: bv32)
    ensures Ror(x, 3) == Back3(x) && Ror(x, 5) == Back5(x)
  {
    hide RorOne;
    assert Ror(x, 3) == Ror(RorOne(x), 2) == Ror(RorOne(RorOne(x)), 1) == Ror(Back3(x), 0);
    assert Ror(x, 5) == Ror(RorOne(x), 4) == Ror(RorOne(RorOne(x)), 3) == Ror(Back3(x), 2);
    assert Ror(Back3(x), 2) == Ror(RorOne(Back3(x)), 1) == Ror(Back5(x), 0);
  }

  /** Six words of a round mixed, u being the round's constant turned by the round's number. */
  function Mixed(t: seq<bv32>, u: bv32): (r: seq<bv32>)
    requires |t| == 6
    ensures |r| == 6
  {
    [RolOne(Plus(t[0], u)), Turn3(Plus(t[1], RolOne(u))), Turn6(Plus(t[2], RolOne(RolOne(u)))),
     Turn11(Plus(t[3], Turn3(u))), Turn13(Plus(t[4], RolByFour(u))), Turn17(Plus(t[5], Turn5(u)))]
  }

  /** Word j of a round, of whatever schedule. */
  lemma MixedIs(t: seq<bv32>, d: bv32, i: nat, u: bv32, j: nat)
    requires |t| == 6 && u == Rol(d, i) && j < 6
    ensures Mix(t[j], d, i + j, AMOUNT[j]) == Mixed(t, u)[j]
  {
    hide Rol, Plus, RolOne, RolByFour, Turn3, Turn5, Turn6, Turn11, Turn13, Turn17;
    RolAdd(d, i, j);
    Turned(u, j);
    TurnedBy(Plus(t[j], Rol(u, j)), j);
  }

  lemma Turned(u: bv32, j: nat)
    requires j < 6
    ensures Rol(u, j) == [u, RolOne(u), RolOne(RolOne(u)), Turn3(u), RolByFour(u), Turn5(u)][j]
  {
    hide Rol, RolOne, RolByFour, Turn3, Turn5, Turn6, Turn11, Turn13, Turn17;
    Turns(u);
  }

  lemma TurnedBy(x: bv32, j: nat)
    requires j < 6
    ensures Rol(x, AMOUNT[j]) == [RolOne(x), Turn3(x), Turn6(x), Turn11(x), Turn13(x), Turn17(x)][j]
  {
    hide Rol, RolOne, RolByFour, Turn3, Turn5, Turn6, Turn11, Turn13, Turn17;
    Turns(x);
  }

  /** A round of the schedule of six words. */
  lemma MixAllIs6(t: seq<bv32>, i: nat, u: bv32)
    requires |t| == 6 && u == Rol(DELTA[i % 6], i)
    ensures MixAll(t, i) == Mixed(t, u)
  {
    hide Mix, Mixed, Rol;
    forall j | 0 <= j < 6 ensures MixAll(t, i)[j] == Mixed(t, u)[j] {
      MixedIs(t, DELTA[i % 6], i, u, j);
    }
  }

  function Mixed4(t: seq<bv32>, u: bv32): (r: seq<bv32>)
    requires |t| == 4
    ensures |r| == 4
  {
    [RolOne(Plus(t[0], u)), Turn3(Plus(t[1], RolOne(u))), Turn6(Plus(t[2], RolOne(RolOne(u)))),
     Turn11(Plus(t[3], Turn3(u)))]
  }

  /** A round of the schedule of four words. */
  lemma MixAllIs4(t: seq<bv32>, i: nat, u: bv32)
    requires |t| == 4 && u == Rol(DELTA[i % 4], i)
    ensures MixAll(t, i) == Mixed4(t, u)
  {
    hide Mix, Rol, Plus, RolOne, Turn3, Turn6, Turn11;
    var six := t + [0, 0];
    forall j | 0 <= j < 4 ensures MixAll(t, i)[j] == Mixed4(t, u)[j] {
      MixedIs(six, DELTA[i % 4], i, u, j);
    }
  }

  /** The words before round i of the LEA-256 schedule in the order in which the round comes to them. */
  function InOrder(t: seq<bv32>, i: nat): (r: seq<bv32>)
    requires |t| == 8
    ensures |r| == 8
  {
    seq(8, j requires 0 <= j < 8 => t[Slot(i, j)])
  }

  /** In that order a round mixes the first six words and puts them last. */
  function Mixed8(t: seq<bv32>, u: bv32): (r: seq<bv32>)
    requires |t| == 8
    ensures |r| == 8
  {
    var m := Mixed([t[0], t[1], t[2], t[3], t[4], t[5]], u);
    [t[6], t[7], m[0], m[1], m[2], m[3], m[4], m[5]]
  }

  lemma NextSlots(i: nat, j: nat)
    requires j < 8
    ensures Slot(i + 1, j) == if j < 2 then Slot(i, j + 6) else Slot(i, j - 2)
  {
    if j >= 2 {
      assert 6 * (i + 1) + j == 6 * i + (j - 2) + 8;
      EightMore(6 * i + (j - 2));
    }
  }

  lemma EightMore(x: nat)
    ensures (x + 8) % 8 == x % 8
  {
  }

  lemma MixSlotsIs(t: seq<bv32>, i: nat, u: bv32)
    requires |t| == 8 && u == Rol(DELTA[i % 8], i)
    ensures InOrder(MixSlots(t, i, 6), i + 1) == Mixed8(InOrder(t, i), u)
    ensures var r := Mixed8(InOrder(t, i), u);
      RoundKey256(MixSlots(t, i, 6), i) == RoundKey(r[2], r[3], r[4], r[5], r[6], r[7])
  {
    hide Mix, Mixed, Rol, Slot, MixSlots;
    var s, o := MixSlots(t, i, 6), InOrder(t, i);
    var six := [o[0], o[1], o[2], o[3], o[4], o[5]];
    forall j | 0 <= j < 6 ensures s[Slot(i, j)] == Mixed(six, u)[j] {
      MixSlotsParallel(t, i, 6, j);
      MixedIs(six, DELTA[i % 8], i, u, j);
    }
    forall j | 6 <= j < 8 ensures s[Slot(i, j)] == o[j] {
      forall j' | 0 <= j' < 6 ensures Slot(i, j') != Slot(i, j) {
        DifferentSlots(i, j', j);
      }
      MixSlotsElsewhere(t, i, 6, Slot(i, j));
    }
    forall j | 0 <= j < 8 ensures InOrder(s, i + 1)[j] == Mixed8(o, u)[j] {
      NextSlots(i, j);
    }
  }

  lemma FirstOrder(t: seq<bv32>)
    requires |t| == 8
    ensures InOrder(t, 0) == t
  {
  }

  lemma DifferentSlots(i: nat, j: nat, j': nat)
    requires j < j' < 8
    ensures Slot(i, j) != Slot(i, j')
  {
    assert (6 * i + j') - (6 * i + j) == j' - j;
  }

  // ---------- LEA-128 ----------

  /** What the row says of the beginning of round i. */
  predicate Reached128(i: nat, r: Row)
    requires i <= 24
  {
    && |r.t| == 4 && r.t == Scheduled(WordsOf(KEY128), i)
    && r.u == Rol(DELTA[i % 4], i)
    && r.x == Rounds(Start128(), Schedule128(KEY128, 24)[..i])
  }

  function Start128(): Block {
    LoadBlock([0x10, 0x11, 0x12, 0x13, 0x14, 0x15, 0x16, 0x17, 0x18, 0x19, 0x1a, 0x1b, 0x1c, 0x1d, 0x1e, 0x1f])
  }

  predicate Follows128(r: Row, s: Row)
    requires |r.t| == |s.t| == 4
  {
    s.t == Mixed4(r.t, r.u) && s.x == RoundFast(r.x, RoundKey128(s.t))
  }

  /** From one row to the next. */
  lemma Next128(i: nat, r: Row, s: Row)
    requires i < 24 && Reached128(i, r) && |s.t| == 4 && Follows128(r, s) && s.u == Rol(DELTA[(i + 1) % 4], i + 1)
    ensures Reached128(i + 1, s)
  {
    hide Rol, Round, RoundFast, Rounds, WordsOf, MixAll, Mixed4, LoadBlock, Scheduled;
    MixAllIs4(r.t, i, r.u);
    RoundIsFast(r.x, RoundKey128(s.t));
    KeyOf128(i);
    var keys := Schedule128(KEY128, 24);
    hide Schedule128;
    RoundsMore(Start128(), keys, i);
  }

  lemma KeyOf128(i: nat)
    requires i < 24
    ensures var t := Scheduled(WordsOf(KEY128), i + 1);
      && t == MixAll(Scheduled(WordsOf(KEY128), i), i)
      && Schedule128(KEY128, 24)[i] == RoundKey128(t)
  {
    hide WordsOf, MixAll;
  }

  /** The constant turned on from 4 rounds before. */
  lemma Later128(i: nat, r: Row, u: bv32)
    requires 4 <= i <= 24 && Reached128(i - 4, r) && u == Rol(r.u, 4)
    ensures u == Rol(DELTA[i % 4], i)
  {
    hide Rol, Rounds, WordsOf, Scheduled, Schedule128, LoadBlock;
    Again(i, 4);
    RolAdd(DELTA[i % 4], i - 4, 4);
  }

  lemma Rounds128At0()
    ensures Reached128(0, A0)
  {
    hide WordOf, WordsOf;
    KeyWords();
    WordsJoin(KEY_A, KEY_B);
    LoadedFrom([0x10, 0x11, 0x12, 0x13, 0x14, 0x15, 0x16, 0x17, 0x18, 0x19, 0x1a, 0x1b, 0x1c, 0x1d, 0x1e, 0x1f]);
    EndWords128();
  }

  lemma EndWords128()
    ensures WordOf(0x10, 0x11, 0x12, 0x13) == 0x13121110
    ensures WordOf(0x14, 0x15, 0x16, 0x17) == 0x17161514
    ensures WordOf(0x18, 0x19, 0x1a, 0x1b) == 0x1b1a1918
    ensures WordOf(0x1c, 0x1d, 0x1e, 0x1f) == 0x1f1e1d1c
    ensures BytesOf(0x354ec89f) == [0x9f, 0xc8, 0x4e, 0x35]
    ensures BytesOf(0x18c6c628) == [0x28, 0xc6, 0xc6, 0x18]
    ensures BytesOf(0xa7c73255) == [0x55, 0x32, 0xc7, 0xa7]
    ensures BytesOf(0xfd8b6404) == [0x04, 0x64, 0x8b, 0xfd]
  {
  }

  lemma Encrypted128(r: Row)
    requires Reached128(24, r)
    ensures EncryptBlock(Schedule128(KEY128, 24),
              [0x10, 0x11, 0x12, 0x13, 0x14, 0x15, 0x16, 0x17, 0x18, 0x19, 0x1a, 0x1b, 0x1c, 0x1d, 0x1e, 0x1f])
         == StoreBlock(r.x)
  {
    hide Rounds, WordsOf, Schedule128, LoadBlock, Rol, Scheduled;
    var keys := Schedule128(KEY128, 24);
    assert keys[..24] == keys;
  }

  /** LEA-128 of KS X 3246, Appendix A. */
  lemma Vector128()
    ensures EncryptBlock(Schedule128(KEY128, 24),
              [0x10, 0x11, 0x12, 0x13, 0x14, 0x15, 0x16, 0x17, 0x18, 0x19, 0x1a, 0x1b, 0x1c, 0x1d, 0x1e, 0x1f])
         == [0x9f, 0xc8, 0x4e, 0x35, 0x28, 0xc6, 0xc6, 0x18, 0x55, 0x32, 0xc7, 0xa7, 0x04, 0x64, 0x8b, 0xfd]
  {
    hide Reached128, EncryptBlock, StoreBlock, BytesOf, Schedule128, WordOf;
    Rounds128To24();
    Encrypted128(A24);
    EndWords128();
    StoredBytes(A24.x);
  }

  const A0 := Row([0x3c2d1e0f, 0x78695a4b, 0xb4a59687, 0xf0e1d2c3],
    0xc3efe9db, Block(0x13121110, 0x17161514, 0x1b1a1918, 0x1f1e1d1c))
  const A1 := Row([0x003a0fd4, 0x02497010, 0x194f7db1, 0x090d0883],
    0x88c4d604, Block(0x0f079051, 0x693d668d, 0xe5edcfd4, 0x13121110))
  const A2 := Row([0x11fdcbb1, 0x9e98e0c8, 0x18b570cf, 0x9dc53a79],
    0xe789f229, Block(0x3fc44a2d, 0xf767ea2a, 0xa0b67cf0, 0x0f079051))
  const A3 := Row([0xf30f7bb5, 0x6d6628db, 0xb74e5dad, 0xa65e46d0],
    0xc6f98763, Block(0x99e912cd, 0x906fd05d, 0x4d293e55, 0x3fc44a2d))
  const A4 := Row([0x74120631, 0xdac9bd17, 0xcd1ecf34, 0x540f76f1],
    0x3efe9dbc, Block(0x43048c71, 0x5faa8d15, 0xdfc687fb, 0x99e912cd))
  const A5 := Row([0x662147db, 0xc637c47a, 0x46518932, 0x23269260],
    0x8c4d6048, Block(0x862a337d, 0x419f623d, 0x4b97dd8a, 0x43048c71))
  const A6 := Row([0xe4dd5047, 0xf694285e, 0xe1c2951d, 0x8ca5242c],
    0x789f229e, Block(0x055b3a34, 0xa2eb0f67, 0xaf9873ba, 0x862a337d))
  const A7 := Row([0xbaf8e5ca, 0x3e936cd7, 0x0fc7e5b1, 0xf1c8fa8c],
    0x6f98763c, Block(0x38875cb8, 0x19f1c052, 0x02e13d1c, 0x055b3a34))
  const A8 := Row([0x5522b80c, 0xee22ca78, 0x8a6fa8b3, 0x65637b74],
    0xefe9dbc3, Block(0xf1ddbcca, 0x2c031302, 0x8a5f86d6, 0x38875cb8))
  const A9 := Row([0x8a19279e, 0x6fb40ffe, 0x85c5f092, 0x92cc9f25],
    0xc4d60488, Block(0xf770a17e, 0xc47d9365, 0x2df8cda7, 0xf1ddbcca))
  const A10 := Row([0x9dde584c, 0xcb00c87f, 0x4780ad66, 0xe61b5dcb],
    0x89f229e7, Block(0x58a898f4, 0xdb57aa1e, 0x20d820a4, 0xf770a17e))
  const A11 := Row([0x4fa10466, 0xf728e276, 0xd255411b, 0x656839ad],
    0xf98763c6, Block(0x11c9f487, 0xbf079d6e, 0x28c10b82, 0x58a898f4))
  const A12 := Row([0x9250d058, 0x51bd501f, 0x1cb40dae, 0x1abf218d],
    0xfe9dbc3e, Block(0xa7e4a0e4, 0xe8e97f62, 0x47727e5f, 0x11c9f487))
  const A13 := Row([0x21dd192d, 0x77c644e2, 0xcabfaa45, 0x681c207d],
    0x4d60488c, Block(0xd1ea924a, 0x2298587f, 0xf2afc1d0, 0xa7e4a0e4))
  const A14 := Row([0xde7ac372, 0x9436afd0, 0x10331d80, 0xf326fe98],
    0x9f229e78, Block(0x7e91cf8c, 0xfcca259f, 0x86ab69cf, 0xd1ea924a))
  const A15 := Row([0xfb3ac3d4, 0x93df660e, 0x2f65d8a3, 0xdf92e761],
    0x98763c6f, Block(0x809fd3e9, 0xef492067, 0x536df05e, 0x7e91cf8c))
  const A16 := Row([0x27620087, 0x265ef76e, 0x4fb29864, 0x2656ed1a],
    0xe9dbc3ef, Block(0x2b54eee2, 0x98b175f9, 0xd9c14ac4, 0x809fd3e9))
  const A17 := Row([0x227b88ec, 0xd0b3fa6f, 0xc86a08fd, 0xa864cba9],
    0xd60488c4, Block(0x63eb48a2, 0x7ad2716d, 0x783a355e, 0x2b54eee2))
  const A18 := Row([0xf1002361, 0xe5e85fc3, 0x1f0b0408, 0x488e7ac4],
    0xf229e789, Block(0x4b34e264, 0x101d5f00, 0x7fee2017, 0x63eb48a2))
  const A19 := Row([0xc65415d5, 0x51e176b6, 0xeca88bf9, 0xedb89ece],
    0x8763c6f9, Block(0xba42cf9e, 0xd156295c, 0xb88c1f9d, 0x4b34e264))
  const A20 := Row([0x9b6fb99c, 0x0548254b, 0x8de9f7c2, 0xb6b4d146],
    0x9dbc3efe, Block(0x970433ea, 0xa0d420cb, 0x4b96b2c1, 0xba42cf9e))
  const A21 := Row([0x7257f134, 0x06051a42, 0x36bcef01, 0xb649d524],
    0x60488c4d, Block(0x49facf18, 0x6f1fe3c2, 0x3744e7b8, 0x970433ea))
  const A22 := Row([0xa540fb03, 0x34b196e6, 0xf7c80dad, 0x71bc7dc4],
    0x229e789f, Block(0xd1527e90, 0x6ce66afe, 0x1d55c7f1, 0x49facf18))
  const A23 := Row([0x8fbee745, 0xcf744123, 0x907c0a60, 0x8215ec35],
    0x763c6f98, Block(0xfd8b6404, 0x8675df3b, 0xe4b9d73f, 0xd1527e90))
  const A24 := Row([0x0bf6adba, 0xdf69029d, 0x5b72305a, 0xcb47c19f],
    0xdbc3efe9, Block(0x354ec89f, 0x18c6c628, 0xa7c73255, 0xfd8b6404))

  lemma Rounds128To2()
    ensures Reached128(0, A0) && Reached128(1, A1) && Reached128(2, A2)
  {
    hide Reached128;
    Rounds128At0();
    Soon(1, 4, A1.u);
    Next128(0, A0, A1);
    Soon(2, 4, A2.u);
    Next128(1, A1, A2);
  }

  lemma Rounds128To4()
    ensures Reached128(1, A1) && Reached128(2, A2) && Reached128(3, A3) && Reached128(4, A4)
  {
    hide Reached128;
    Rounds128To2();
    Soon(3, 4, A3.u);
    Next128(2, A2, A3);
    Later128(4, A0, A4.u);
    Next128(3, A3, A4);
  }

  lemma Rounds128To8()
    ensures Reached128(5, A5) && Reached128(6, A6) && Reached128(7, A7) && Reached128(8, A8)
  {
    hide Reached128;
    Rounds128To4();
    Later128(5, A1, A5.u);
    Next128(4, A4, A5);
    Later128(6, A2, A6.u);
    Next128(5, A5, A6);
    Later128(7, A3, A7.u);
    Next128(6, A6, A7);
    Later128(8, A4, A8.u);
    Next128(7, A7, A8);
  }

  lemma Rounds128To12()
    ensures Reached128(9, A9) && Reached128(10, A10) && Reached128(11, A11) && Reached128(12, A12)
  {
    hide Reached128;
    Rounds128To8();
    Later128(9, A5, A9.u);
    Next128(8, A8, A9);
    Later128(10, A6, A10.u);
    Next128(9, A9, A10);
    Later128(11, A7, A11.u);
    Next128(10, A10, A11);
    Later128(12, A8, A12.u);
    Next128(11, A11, A12);
  }

  lemma Rounds128To16()
    ensures Reached128(13, A13) && Reached128(14, A14) && Reached128(15, A15) && Reached128(16, A16)
  {
    hide Reached128;
    Rounds128To12();
    Later128(13, A9, A13.u);
    Next128(12, A12, A13);
    Later128(14, A10, A14.u);
    Next128(13, A13, A14);
    Later128(15, A11, A15.u);
    Next128(14, A14, A15);
    Later128(16, A12, A16.u);
    Next128(15, A15, A16);
  }

  lemma Rounds128To20()
    ensures Reached128(17, A17) && Reached128(18, A18) && Reached128(19, A19) && Reached128(20, A20)
  {
    hide Reached128;
    Rounds128To16();
    Later128(17, A13, A17.u);
    Next128(16, A16, A17);
    Later128(18, A14, A18.u);
    Next128(17, A17, A18);
    Later128(19, A15, A19.u);
    Next128(18, A18, A19);
    Later128(20, A16, A20.u);
    Next128(19, A19, A20);
  }

  lemma Rounds128To24()
    ensures Reached128(21, A21) && Reached128(22, A22) && Reached128(23, A23) && Reached128(24, A24)
  {
    hide Reached128;
    Rounds128To20();
    Later128(21, A17, A21.u);
    Next128(20, A20, A21);
    Later128(22, A18, A22.u);
    Next128(21, A21, A22);
    Later128(23, A19, A23.u);
    Next128(22, A22, A23);
    Later128(24, A20, A24.u);
    Next128(23, A23, A24);
  }

  // ---------- LEA-192 ----------

  /** What the row says of the beginning of round i. */
  predicate Reached192(i: nat, r: Row)
    requires i <= 28
  {
    && |r.t| == 6 && r.t == Scheduled(WordsOf(KEY192), i)
    && r.u == Rol(DELTA[i % 6], i)
    && r.x == Rounds(Start192(), Schedule192(KEY192, 28)[..i])
  }

  function Start192(): Block {
    LoadBlock([0x20, 0x21, 0x22, 0x23, 0x24, 0x25, 0x26, 0x27, 0x28, 0x29, 0x2a, 0x2b, 0x2c, 0x2d, 0x2e, 0x2f])
  }

  predicate Follows192(r: Row, s: Row)
    requires |r.t| == |s.t| == 6
  {
    s.t == Mixed(r.t, r.u) && s.x == RoundFast(r.x, RoundKey192(s.t))
  }

  /** From one row to the next. */
  lemma Next192(i: nat, r: Row, s: Row)
    requires i < 28 && Reached192(i, r) && |s.t| == 6 && Follows192(r, s) && s.u == Rol(DELTA[(i + 1) % 6], i + 1)
    ensures Reached192(i + 1, s)
  {
    hide Rol, Round, RoundFast, Rounds, WordsOf, MixAll, Mixed, LoadBlock, Scheduled;
    MixAllIs6(r.t, i, r.u);
    RoundIsFast(r.x, RoundKey192(s.t));
    KeyOf192(i);
    var keys := Schedule192(KEY192, 28);
    hide Schedule192;
    RoundsMore(Start192(), keys, i);
  }

  lemma KeyOf192(i: nat)
    requires i < 28
    ensures var t := Scheduled(WordsOf(KEY192), i + 1);
      && t == MixAll(Scheduled(WordsOf(KEY192), i), i)
      && Schedule192(KEY192, 28)[i] == RoundKey192(t)
  {
    hide WordsOf, MixAll;
  }

  /** The constant turned on from 6 rounds before. */
  lemma Later192(i: nat, r: Row, u: bv32)
    requires 6 <= i <= 28 && Reached192(i - 6, r) && u == Rol(r.u, 6)
    ensures u == Rol(DELTA[i % 6], i)
  {
    hide Rol, Rounds, WordsOf, Scheduled, Schedule192, LoadBlock;
    Again(i, 6);
    RolAdd(DELTA[i % 6], i - 6, 6);
  }

  lemma Rounds192At0()
    ensures Reached192(0, B0)
  {
    hide WordOf, WordsOf;
    KeyWords();
    WordsJoin(KEY_A, KEY_B);
    WordsJoin(KEY128, KEY_C);
    LoadedFrom([0x20, 0x21, 0x22, 0x23, 0x24, 0x25, 0x26, 0x27, 0x28, 0x29, 0x2a, 0x2b, 0x2c, 0x2d, 0x2e, 0x2f]);
    EndWords192();
  }

  lemma EndWords192()
    ensures WordOf(0x20, 0x21, 0x22, 0x23) == 0x23222120
    ensures WordOf(0x24, 0x25, 0x26, 0x27) == 0x27262524
    ensures WordOf(0x28, 0x29, 0x2a, 0x2b) == 0x2b2a2928
    ensures WordOf(0x2c, 0x2d, 0x2e, 0x2f) == 0x2f2e2d2c
    ensures BytesOf(0x325eb96f) == [0x6f, 0xb9, 0x5e, 0x32]
    ensures BytesOf(0x871bad5a) == [0x5a, 0xad, 0x1b, 0x87]
    ensures BytesOf(0x35f5dc8c) == [0x8c, 0xdc, 0xf5, 0x35]
    ensures BytesOf(0xf2c67476) == [0x76, 0x74, 0xc6, 0xf2]
  {
  }

  lemma Encrypted192(r: Row)
    requires Reached192(28, r)
    ensures EncryptBlock(Schedule192(KEY192, 28),
              [0x20, 0x21, 0x22, 0x23, 0x24, 0x25, 0x26, 0x27, 0x28, 0x29, 0x2a, 0x2b, 0x2c, 0x2d, 0x2e, 0x2f])
         == StoreBlock(r.x)
  {
    hide Rounds, WordsOf, Schedule192, LoadBlock, Rol, Scheduled;
    var keys := Schedule192(KEY192, 28);
    assert keys[..28] == keys;
  }

  /** LEA-192 of KS X 3246, Appendix A. */
  lemma Vector192()
    ensures EncryptBlock(Schedule192(KEY192, 28),
              [0x20, 0x21, 0x22, 0x23, 0x24, 0x25, 0x26, 0x27, 0x28, 0x29, 0x2a, 0x2b, 0x2c, 0x2d, 0x2e, 0x2f])
         == [0x6f, 0xb9, 0x5e, 0x32, 0x5a, 0xad, 0x1b, 0x87, 0x8c, 0xdc, 0xf5, 0x35, 0x76, 0x74, 0xc6, 0xf2]
  {
    hide Reached192, EncryptBlock, StoreBlock, BytesOf, Schedule192, WordOf;
    Rounds192To28();
    Encrypted192(B28);
    EndWords192();
    StoredBytes(B28.x);
  }

  const B0 := Row([0x3c2d1e0f, 0x78695a4b, 0xb4a59687, 0xf0e1d2c3, 0xc3d2e1f0, 0x8796a5b4],
    0xc3efe9db, Block(0x23222120, 0x27262524, 0x2b2a2928, 0x2f2e2d2c))
  const B1 := Row([0x003a0fd4, 0x02497010, 0x194f7db1, 0x090d0883, 0x2ff5805a, 0xc2580b27],
    0x88c4d604, Block(0x0f085091, 0x030483d2, 0xbe4ab9ef, 0x23222120))
  const B2 := Row([0x11fdcbb1, 0x9e98e0c8, 0x18b570cf, 0x9dc53a79, 0x5c145788, 0x9771b5e5],
    0xe789f229, Block(0x23fc7579, 0x99fa0bb5, 0x92d65065, 0x0f085091))
  const B3 := Row([0xf30f7bb5, 0x6d6628db, 0xb74e5dad, 0xa65e46d0, 0x6f44da96, 0xf643115f],
    0xc6f98763, Block(0x1e64758b, 0x6b19e366, 0x3edbb998, 0x23fc7579))
  const B4 := Row([0x74120631, 0xdac9bd17, 0xcd1ecf34, 0x540f76f1, 0xaa1a5bdb, 0xfbafaae7],
    0x15ea49e7, Block(0x8da45638, 0xd886dfdd, 0x2da2b83c, 0x1e64758b))
  const B5 := Row([0x13f8a031, 0x34f28728, 0x31fdb409, 0x0e31481b, 0xdf498117, 0xcf9371f1],
    0xf0bb4158, Block(0xa29dfd15, 0xd8687adf, 0xb89c47b4, 0x8da45638))
  const B6 := Row([0x0967c312, 0xb3484ec8, 0x3aae5b3d, 0x5a9714a0, 0xb2d4dd5f, 0x3a1fcdf7],
    0xfbfa76f0, Block(0x34e43c2e, 0xb6268ba7, 0x584086d7, 0xa29dfd15))
  const B7 := Row([0x0ac47404, 0x59e9e54d, 0xa60dc00a, 0x566139d3, 0x898dce4f, 0x582d72dd],
    0x31358122, Block(0xdf6e285b, 0x88f26855, 0x198fbb0c, 0x34e43c2e))
  const B8 := Row([0x77f3ea4c, 0xe2a73c8d, 0xb8f1249a, 0x6a172700, 0xbc0e539c, 0x2e46fdbb],
    0xe27c8a79, Block(0xe62dde25, 0xdd1cdf46, 0xb8049544, 0xdf6e285b))
  const B9 := Row([0xb4e0e98a, 0x3d028c05, 0xb8d3a050, 0xdbd67bef, 0xdf675c7a, 0x99eefbb0],
    0xbe61d8f1, Block(0xd715e465, 0x0e4d136e, 0x35bc93a5, 0xe62dde25))
  const B10 := Row([0xe68584f6, 0xce31ef45, 0x96c105ac, 0x2a1be677, 0x9d72b8b0, 0x33cecc54],
    0x7a9279c5, Block(0x1ab97de4, 0xa5c19c64, 0xcfd627b0, 0xd715e465))
  const B11 := Row([0xc22ffd76, 0x1ab7167e, 0x42bb3060, 0x7da517f5, 0x4aa0e8d3, 0x0a070c3c],
    0x2ed0563c, Block(0x1a155930, 0x4ccf6ee2, 0x8c5136f7, 0x1ab97de4))
  const B12 := Row([0xe200a765, 0xc2be17b3, 0x7f22543f, 0x3e4eb7a1, 0xc992a6f4, 0xa783c823],
    0xfe9dbc3e, Block(0x0eef4d0d, 0x9f3065e1, 0x405fc8b9, 0x1a155930))
  const B13 := Row([0xc13cc747, 0xffcc8185, 0x66514e9e, 0xe4ccc199, 0xcd5c766d, 0xa004f676],
    0x4d60488c, Block(0xa0dd5c61, 0xfcefa1a4, 0x48e2adc3, 0x0eef4d0d))
  const B14 := Row([0x1d3a1fa6, 0xd46894ec, 0xf49c33e6, 0x782fda7e, 0x1fe6346c, 0x0ffe981c],
    0x9f229e78, Block(0xdcf21fcc, 0xf9ca084f, 0x0b02cdd8, 0xa0dd5c61))
  const B15 := Row([0x78b97c3d, 0x956e8ee8, 0x49ab721c, 0x2672138a, 0x037ea242, 0xce5fe8a4],
    0x98763c6f, Block(0xdfd53021, 0x2eee92c5, 0xeedfe48b, 0xdcf21fcc))
  const B16 := Row([0x225f7158, 0x32d83e3e, 0xe118f6aa, 0x1fb83751, 0x4d27715c, 0xed2fba4e],
    0xa49e715e, Block(0x81dce833, 0x4e0af1c2, 0x3abac76b, 0xdfd53021))
  const B17 := Row([0x8dfbc56d, 0xe0a907db, 0xe4af091c, 0x5e123225, 0xd0e8d2e1, 0xcc4501fb],
    0xb4158f0b, Block(0x9646ef75, 0x607a7771, 0x9fbc48ec, 0x81dce833))
  const B18 := Row([0x8422a8f0, 0x46a12f92, 0x415152ad, 0xf55417f5, 0x38738248, 0xc6e29ded],
    0xa76f0fbf, Block(0x7f40d072, 0xac609c27, 0x5de1c810, 0x9646ef75))
  const B19 := Row([0x5723715e, 0xabfa788c, 0xc3646af7, 0x64af9186, 0x8fc855ec, 0x2bc36989],
    0x58122313, Block(0xfd0bae5f, 0x35429a83, 0x11f5e49f, 0x7f40d072))
  const B20 := Row([0x5e6b28e3, 0xe0f5f592, 0xeb3dd108, 0x0551012a, 0x50e4221d, 0x97e85c0f],
    0xc8a79e27, Block(0x2feb9af2, 0x0799218a, 0xe5374a5f, 0xfd0bae5f))
  const B21 := Row([0x4e258e14, 0x92298f0b, 0x771269c3, 0x6f934254, 0xc0933b6b, 0x421159b8],
    0x1d8f1be6, Block(0xfd86cfee, 0xa7d97a82, 0x7c97ed23, 0x2feb9af2))
  const B22 := Row([0xd76953f4, 0x6a3e36be, 0x53b656fb, 0x610c22e0, 0x9f399330, 0xacf7e7e9],
    0x279c57a9, Block(0xadd0adf1, 0xe09057e1, 0xccd95f65, 0xfd86cfee))
  const B23 := Row([0xfe0b573b, 0xcbb73085, 0x89ed67fc, 0x77014cef, 0xe1b8431f, 0xba1b4105],
    0x0563c2ed, Block(0x06c45cfe, 0x392aaa1d, 0xae9fd56c, 0xadd0adf1))
  const B24 := Row([0x06de3450, 0xb3f5b2fe, 0xdf1cec27, 0xfb22bd10, 0x8e3de6fe, 0x3d4acd27],
    0xdbc3efe9, Block(0xf3032315, 0xb1df9d75, 0x1627928d, 0x06c45cfe))
  const B25 := Row([0xc5444873, 0x5bec968b, 0x8b2af393, 0x11e2f6ca, 0x9cb3694f, 0x94c56b91],
    0x0488c4d6, Block(0xf4eec840, 0x6a15d699, 0x2392c666, 0xf3032315))
  const B26 := Row([0x939a1a93, 0x27f101bb, 0x5381bae7, 0x48ebd1b1, 0xf6d5fca7, 0x0ca24bbc],
    0x29e789f2, Block(0xb353eb6a, 0xad286c22, 0x5a9d146d, 0xf4eec840))
  const B27 := Row([0x7b03490b, 0xde00acfb, 0xc7f8abfe, 0x410a14c1, 0xd37932a9, 0x14029327],
    0x63c6f987, Block(0xf2c67476, 0x44333e44, 0x6d5a1045, 0xb353eb6a))
  const B28 := Row([0xbd948525, 0x2c75004d, 0xc52486d5, 0x0f07e2fa, 0x1963e1fd, 0x882719c3],
    0xe715ea49, Block(0x325eb96f, 0x871bad5a, 0x35f5dc8c, 0xf2c67476))

  lemma Rounds192To4()
    ensures Reached192(1, B1) && Reached192(2, B2) && Reached192(3, B3) && Reached192(4, B4)
  {
    hide Reached192;
    Rounds192At0();
    Soon(1, 6, B1.u);
    Next192(0, B0, B1);
    Soon(2, 6, B2.u);
    Next192(1, B1, B2);
    Soon(3, 6, B3.u);
    Next192(2, B2, B3);
    Soon(4, 6, B4.u);
    Next192(3, B3, B4);
  }

  lemma Rounds192To8()
    ensures Reached192(5, B5) && Reached192(6, B6) && Reached192(7, B7) && Reached192(8, B8)
  {
    hide Reached192;
    Rounds192At0();
    Rounds192To4();
    Soon(5, 6, B5.u);
    Next192(4, B4, B5);
    Later192(6, B0, B6.u);
    Next192(5, B5, B6);
    Later192(7, B1, B7.u);
    Next192(6, B6, B7);
    Later192(8, B2, B8.u);
    Next192(7, B7, B8);
  }

  lemma Rounds192To12()
    ensures Reached192(9, B9) && Reached192(10, B10) && Reached192(11, B11) && Reached192(12, B12)
  {
    hide Reached192;
    Rounds192To4();
    Rounds192To8();
    Later192(9, B3, B9.u);
    Next192(8, B8, B9);
    Later192(10, B4, B10.u);
    Next192(9, B9, B10);
    Later192(11, B5, B11.u);
    Next192(10, B10, B11);
    Later192(12, B6, B12.u);
    Next192(11, B11, B12);
  }

  lemma Rounds192To16()
    ensures Reached192(13, B13) && Reached192(14, B14) && Reached192(15, B15) && Reached192(16, B16)
  {
    hide Reached192;
    Rounds192To8();
    Rounds192To12();
    Later192(13, B7, B13.u);
    Next192(12, B12, B13);
    Later192(14, B8, B14.u);
    Next192(13, B13, B14);
    Later192(15, B9, B15.u);
    Next192(14, B14, B15);
    Later192(16, B10, B16.u);
    Next192(15, B15, B16);
  }

  lemma Rounds192To20()
    ensures Reached192(17, B17) && Reached192(18, B18) && Reached192(19, B19) && Reached192(20, B20)
  {
    hide Reached192;
    Rounds192To12();
    Rounds192To16();
    Later192(17, B11, B17.u);
    Next192(16, B16, B17);
    Later192(18, B12, B18.u);
    Next192(17, B17, B18);
    Later192(19, B13, B19.u);
    Next192(18, B18, B19);
    Later192(20, B14, B20.u);
    Next192(19, B19, B20);
  }

  lemma Rounds192To24()
    ensures Reached192(21, B21) && Reached192(22, B22) && Reached192(23, B23) && Reached192(24, B24)
  {
    hide Reached192;
    Rounds192To16();
    Rounds192To20();
    Later192(21, B15, B21.u);
    Next192(20, B20, B21);
    Later192(22, B16, B22.u);
    Next192(21, B21, B22);
    Later192(23, B17, B23.u);
    Next192(22, B22, B23);
    Later192(24, B18, B24.u);
    Next192(23, B23, B24);
  }

  lemma Rounds192To28()
    ensures Reached192(25, B25) && Reached192(26, B26) && Reached192(27, B27) && Reached192(28, B28)
  {
    hide Reached192;
    Rounds192To20();
    Rounds192To24();
    Later192(25, B19, B25.u);
    Next192(24, B24, B25);
    Later192(26, B20, B26.u);
    Next192(25, B25, B26);
    Later192(27, B21, B27.u);
    Next192(26, B26, B27);
    Later192(28, B22, B28.u);
    Next192(27, B27, B28);
  }

  // ---------- LEA-256 ----------

  /** What the row says of the beginning of round i. */
  predicate Reached256(i: nat, r: Row)
    requires i <= 32
  {
    && |r.t| == 8 && r.t == InOrder(Scheduled256(WordsOf(KEY256), i), i)
    && r.u == Rol(DELTA[i % 8], i)
    && r.x == Rounds(Start256(), Schedule256(KEY256, 32)[..i])
  }

  function Start256(): Block {
    LoadBlock([0x30, 0x31, 0x32, 0x33, 0x34, 0x35, 0x36, 0x37, 0x38, 0x39, 0x3a, 0x3b, 0x3c, 0x3d, 0x3e, 0x3f])
  }

  predicate Follows256(r: Row, s: Row)
    requires |r.t| == |s.t| == 8
  {
    s.t == Mixed8(r.t, r.u) && s.x == RoundFast(r.x, RoundKey(s.t[2], s.t[3], s.t[4], s.t[5], s.t[6], s.t[7]))
  }

  /** From one row to the next. */
  lemma Next256(i: nat, r: Row, s: Row)
    requires i < 32 && Reached256(i, r) && |s.t| == 8 && Follows256(r, s) && s.u == Rol(DELTA[(i + 1) % 8], i + 1)
    ensures Reached256(i + 1, s)
  {
    hide Rol, Round, RoundFast, Rounds, WordsOf, MixSlots, Mixed8, Slot, InOrder, LoadBlock, Scheduled256;
    MixSlotsIs(Scheduled256(WordsOf(KEY256), i), i, r.u);
    RoundIsFast(r.x, RoundKey(s.t[2], s.t[3], s.t[4], s.t[5], s.t[6], s.t[7]));
    KeyOf256(i);
    var keys := Schedule256(KEY256, 32);
    hide Schedule256;
    RoundsMore(Start256(), keys, i);
  }

  lemma KeyOf256(i: nat)
    requires i < 32
    ensures var t := Scheduled256(WordsOf(KEY256), i + 1);
      && t == MixSlots(Scheduled256(WordsOf(KEY256), i), i, 6)
      && Schedule256(KEY256, 32)[i] == RoundKey256(t, i)
  {
    hide WordsOf, MixSlots, Slot;
  }

  /** The constant turned on from 8 rounds before. */
  lemma Later256(i: nat, r: Row, u: bv32)
    requires 8 <= i <= 32 && Reached256(i - 8, r) && u == Rol(r.u, 8)
    ensures u == Rol(DELTA[i % 8], i)
  {
    hide Rol, Rounds, WordsOf, Scheduled, Schedule256, LoadBlock;
    Again(i, 8);
    RolAdd(DELTA[i % 8], i - 8, 8);
  }

  lemma Rounds256At0()
    ensures Reached256(0, C0)
  {
    hide WordOf, WordsOf;
    KeyWords();
    WordsJoin(KEY_A, KEY_B);
    WordsJoin(KEY128, KEY_C);
    WordsJoin(KEY192, KEY_D);
    FirstOrder(WordsOf(KEY256));
    LoadedFrom([0x30, 0x31, 0x32, 0x33, 0x34, 0x35, 0x36, 0x37, 0x38, 0x39, 0x3a, 0x3b, 0x3c, 0x3d, 0x3e, 0x3f]);
    EndWords256();
  }

  lemma EndWords256()
    ensures WordOf(0x30, 0x31, 0x32, 0x33) == 0x33323130
    ensures WordOf(0x34, 0x35, 0x36, 0x37) == 0x37363534
    ensures WordOf(0x38, 0x39, 0x3a, 0x3b) == 0x3b3a3938
    ensures WordOf(0x3c, 0x3d, 0x3e, 0x3f) == 0x3f3e3d3c
    ensures BytesOf(0xf6af51d6) == [0xd6, 0x51, 0xaf, 0xf6]
    ensures BytesOf(0xc189b147) == [0x47, 0xb1, 0x89, 0xc1]
    ensures BytesOf(0xca00893a) == [0x3a, 0x89, 0x00, 0xca]
    ensures BytesOf(0x97e1f927) == [0x27, 0xf9, 0xe1, 0x97]
  {
  }

  lemma Encrypted256(r: Row)
    requires Reached256(32, r)
    ensures EncryptBlock(Schedule256(KEY256, 32),
              [0x30, 0x31, 0x32, 0x33, 0x34, 0x35, 0x36, 0x37, 0x38, 0x39, 0x3a, 0x3b, 0x3c, 0x3d, 0x3e, 0x3f])
         == StoreBlock(r.x)
  {
    hide Rounds, WordsOf, Schedule256, LoadBlock, Rol, Scheduled;
    var keys := Schedule256(KEY256, 32);
    assert keys[..32] == keys;
  }

  /** LEA-256 of KS X 3246, Appendix A. */
  lemma Vector256()
    ensures EncryptBlock(Schedule256(KEY256, 32),
              [0x30, 0x31, 0x32, 0x33, 0x34, 0x35, 0x36, 0x37, 0x38, 0x39, 0x3a, 0x3b, 0x3c, 0x3d, 0x3e, 0x3f])
         == [0xd6, 0x51, 0xaf, 0xf6, 0x47, 0xb1, 0x89, 0xc1, 0x3a, 0x89, 0x00, 0xca, 0x27, 0xf9, 0xe1, 0x97]
  {
    hide Reached256, EncryptBlock, StoreBlock, BytesOf, Schedule256, WordOf;
    Rounds256To32();
    Encrypted256(C32);
    EndWords256();
    StoredBytes(C32.x);
  }

  const C0 := Row([0x3c2d1e0f, 0x78695a4b, 0xb4a59687, 0xf0e1d2c3, 0xc3d2e1f0, 0x8796a5b4, 0x4b5a6978, 0x0f1e2d3c],
    0xc3efe9db, Block(0x33323130, 0x37363534, 0x3b3a3938, 0x3f3e3d3c))
  const C1 := Row([0x4b5a6978, 0x0f1e2d3c, 0x003a0fd4, 0x02497010, 0x194f7db1, 0x090d0883, 0x2ff5805a, 0xc2580b27],
    0x88c4d604, Block(0x0f0810d1, 0x030583d2, 0xa246bdef, 0x33323130))
  const C2 := Row([0x2ff5805a, 0xc2580b27, 0xa83e7ef9, 0x053eca29, 0xd359f988, 0x8101a243, 0x9bbf34b3, 0x9228434f],
    0xe789f229, Block(0xe370475a, 0x379d1cd0, 0x7b627f7b, 0x0f0810d1))
  const C3 := Row([0x9bbf34b3, 0x9228434f, 0x2efee506, 0x8b5f7bd4, 0x9991e811, 0x72dbc20c, 0x2384c97f, 0xcefee47f],
    0xc6f98763, Block(0xa212c114, 0xc5be3591, 0x435bb556, 0xe370475a))
  const C4 := Row([0x2384c97f, 0xcefee47f, 0xc571782c, 0x00da90b1, 0xb940a552, 0x5db79619, 0x4bc9a125, 0x5d08a419],
    0x15ea49e7, Block(0x90bcb059, 0x94df55a0, 0xd8e15ef6, 0xa212c114))
  const C5 := Row([0x4bc9a125, 0x5d08a419, 0x72de26cc, 0xd69bc26f, 0x46a7f207, 0x66ff4d81, 0xa87862fc, 0xa5f63601],
    0xf0bb4158, Block(0x4e5cc849, 0xf484b5d8, 0xef0fc663, 0x90bcb059))
  const C6 := Row([0xa87862fc, 0xa5f63601, 0x7909c4fa, 0xf3f93651, 0x72cb0bcd, 0xae69b2e3, 0x80f2ca4b, 0xf13efcce],
    0x13bc8ab8, Block(0xa520787d, 0xae3db194, 0xfa2feb17, 0x4e5cc849))
  const C7 := Row([0x80f2ca4b, 0xf13efcce, 0x7869db69, 0x6b7a5b8e, 0xfefbf6b1, 0xec608c8e, 0x76e9d5d2, 0x13ca4bf6],
    0xe204abf2, Block(0x231a5d45, 0xf338ad75, 0x9d4b9850, 0xa520787d))
  const C8 := Row([0x76e9d5d2, 0x13ca4bf6, 0xc5eeec7a, 0xaa42a59d, 0x1f22cd00, 0xfdd92bdc, 0xd6bbe3e8, 0x15d459ec],
    0xefe9dbc3, Block(0xdd744e80, 0x0a6568a0, 0x3f9c93a9, 0x231a5d45))
  const C9 := Row([0xd6bbe3e8, 0x15d459ec, 0xcda7632a, 0x9cf01bef, 0x6596e261, 0x8c1de14c, 0x1127c3b8, 0x48b3f629],
    0xc4d60488, Block(0xd141f34e, 0x311ba7ed, 0xb34c9f6f, 0xdd744e80))
  const C10 := Row([0x1127c3b8, 0x48b3f629, 0x3723d0e1, 0xfc0317ec, 0x3fdd5378, 0x0201ae1d, 0xe55db65e, 0xe4c84dbc],
    0x89f229e7, Block(0xf5a76166, 0x3e00a130, 0xb1f9a58d, 0xd141f34e))
  const C11 := Row([0xe55db65e, 0xe4c84dbc, 0x3633db3f, 0xe4c24fc2, 0xbb1e1fd7, 0xa339425c, 0xfe3e1bdf, 0xd61c808d],
    0xf98763c6, Block(0xaf52973c, 0xc4befd35, 0xaae4a642, 0xf5a76166))
  const C12 := Row([0xfe3e1bdf, 0xd61c808d, 0xbdca3449, 0xbeb8aa4e, 0x145a9687, 0xeb6fcd87, 0x8b88ca72, 0x7677a84b],
    0xea49e715, Block(0x3df5e119, 0xb8937ebb, 0xb4a7a6ab, 0xaf52973c))
  const C13 := Row([0x8b88ca72, 0x7677a84b, 0xd11005e9, 0x558275c5, 0xbc742819, 0x3f17e888, 0x20fcb71f, 0x60886959],
    0xbb4158f0, Block(0xede0ddb3, 0x2c84bd26, 0x2c86c203, 0x3df5e119))
  const C14 := Row([0x20fcb71f, 0x60886959, 0x8d9446c4, 0x67d2d167, 0x855a6aef, 0x69ea517c, 0x36e48e11, 0x0d3f4e86],
    0xbc8ab813, Block(0x960f7157, 0x477a5b5a, 0x29659f76, 0xede0ddb3))
  const C15 := Row([0x36e48e11, 0x0d3f4e86, 0xbb0ede65, 0xcceecc06, 0xefc9c49f, 0x44902261, 0xbd8549c0, 0xa7e7f682],
    0x04abf2e2, Block(0x2c8d1d71, 0xe0b54ae6, 0xfbdd003c, 0x960f7157))
  const C16 := Row([0xbd8549c0, 0xa7e7f682, 0x772101e6, 0xb4b9a250, 0x6faa7b73, 0x7318b792, 0x1e57e751, 0xfd43b41c],
    0xe9dbc3ef, Block(0x720a9b5f, 0x18bf274a, 0x0a1af597, 0x2c8d1d71))
  const C17 := Row([0x1e57e751, 0xfd43b41c, 0x4ec21b5f, 0xdcfbf30b, 0xa4046947, 0xbe0e781c, 0xd74e21ac, 0x6b1f5d22],
    0xd60488c4, Block(0x1aa88202, 0xc3867edc, 0xc49ce291, 0x720a9b5f))
  const C18 := Row([0xd74e21ac, 0x6b1f5d22, 0xe8b8e02b, 0x4a662d2d, 0xb50f9ca9, 0x01c98c69, 0x9eb28089, 0x216cfd3f],
    0xf229e789, Block(0xe16c34f7, 0x69defa8b, 0x15b2990f, 0x1aa88202))
  const C19 := Row([0x9eb28089, 0x216cfd3f, 0x92f0126b, 0x7b9961aa, 0x581f94ac, 0xab4be6dd, 0xc2a91af5, 0xfb4e8e0c],
    0x8763c6f9, Block(0xc7837b0b, 0xcf85d76f, 0x17203201, 0xe16c34f7))
  const C20 := Row([0xc2a91af5, 0xfb4e8e0c, 0x4c2c8f04, 0x81a45991, 0x1fcb946c, 0xbccbb5b5, 0x808899cb, 0x8c1b2f89],
    0x49e715ea, Block(0xa3061bb3, 0xbbe1ce55, 0x00a3f8e9, 0xc7837b0b))
  const C21 := Row([0x808899cb, 0x8c1b2f89, 0x192061be, 0x78e5cf04, 0xf239ab5c, 0xe8471e86, 0x9e6217c7, 0xe5fdf35c],
    0x4158f0bb, Block(0x54f6bcfa, 0xc195ea5b, 0xb8280ef0, 0xa3061bb3))
  const C22 := Row([0x9e6217c7, 0xe5fdf35c, 0x83c3150d, 0x766887f8, 0xa1092ac7, 0x6aa6f41d, 0x16e200f9, 0x6bdc26ca],
    0x8ab813bc, Block(0x662f351e, 0x49995ddc, 0x4ef48970, 0x54f6bcfa))
  const C23 := Row([0x16e200f9, 0x6bdc26ca, 0x52345706, 0xdb70d6af, 0xa8d8ffeb, 0x492ee661, 0x4cd1e991, 0xd75d8352],
    0xabf2e204, Block(0x09db178e, 0x4748e08a, 0x30ba1411, 0x662f351e))
  const C24 := Row([0x4cd1e991, 0xd75d8352, 0x85a9c5fb, 0x1e0f569e, 0x7ff7c600, 0x3f36a1d8, 0xe406ad00, 0x4ded8f16],
    0xdbc3efe9, Block(0x751113cb, 0x9a425ee2, 0x200fee63, 0x09db178e))
  const C25 := Row([0xe406ad00, 0x4ded8f16, 0x512bb2f4, 0x772b192c, 0x2e6168bd, 0x76af67e1, 0xd893a786, 0x3e276f69],
    0x0488c4d6, Block(0x47d21a23, 0x08561dff, 0x86131859, 0x751113cb))
  const C26 := Row([0xd893a786, 0x3e276f69, 0xd11ee3ad, 0xb7f8c612, 0xd3b19318, 0x89fee4db, 0xb6c3aedd, 0x05420f90],
    0x29e789f2, Block(0xf7aaf6ac, 0x4f5eac5b, 0xf4247a5b, 0x47d21a23))
  const C27 := Row([0xb6c3aedd, 0x05420f90, 0x04f662f0, 0x8fb41a6c, 0x2f42dd5e, 0xa8ad1839, 0x46474e45, 0x46418de0],
    0x63c6f987, Block(0x8e952768, 0x3de52e9b, 0x367ed97c, 0xf7aaf6ac))
  const C28 := Row([0x46474e45, 0x46418de0, 0x351550c8, 0x668014f6, 0x04924365, 0x5f353d6f, 0x4eba8d76, 0x924a4318],
    0xe715ea49, Block(0xcb641a2d, 0x8d161a90, 0xdbd4a137, 0x8e952768))
  const C29 := Row([0x4eba8d76, 0x924a4318, 0x5aba711c, 0xa36b1398, 0x5b3e7bf4, 0x7b3a2cf9, 0x1d006ebe, 0x0d5683e5],
    0x58f0bb41, Block(0xb6e87380, 0x93b8b779, 0xc9530e82, 0xcb641a2d))
  const C30 := Row([0x1d006ebe, 0x0d5683e5, 0x4f56916f, 0x215dccd2, 0x9f57886f, 0x876d1357, 0x46013d49, 0x2a4932a3],
    0xb813bc8a, Block(0x48bd3559, 0x5ad96ae7, 0x2e0feb8b, 0xb6e87380))
  const C31 := Row([0x46013d49, 0x2a4932a3, 0xaa285691, 0xebefe7d3, 0xe960e64b, 0xdd893f0f, 0x6a234412, 0x495d13c9],
    0xf2e204ab, Block(0x97e1f927, 0x853a0309, 0x487c41fc, 0x48bd3559))
  const C32 := Row([0x6a234412, 0x495d13c9, 0x71c683e8, 0x8069dfd0, 0x6c1a501d, 0x00699418, 0x262142f0, 0xa91a7393],
    0xc3efe9db, Block(0xf6af51d6, 0xc189b147, 0xca00893a, 0x97e1f927))

  lemma Rounds256To4()
    ensures Reached256(1, C1) && Reached256(2, C2) && Reached256(3, C3) && Reached256(4, C4)
  {
    hide Reached256;
    Rounds256At0();
    Soon(1, 8, C1.u);
    Next256(0, C0, C1);
    Soon(2, 8, C2.u);
    Next256(1, C1, C2);
    Soon(3, 8, C3.u);
    Next256(2, C2, C3);
    Soon(4, 8, C4.u);
    Next256(3, C3, C4);
  }

  lemma Rounds256To8()
    ensures Reached256(5, C5) && Reached256(6, C6) && Reached256(7, C7) && Reached256(8, C8)
  {
    hide Reached256;
    Rounds256At0();
    Rounds256To4();
    Soon(5, 8, C5.u);
    Next256(4, C4, C5);
    Soon(6, 8, C6.u);
    Next256(5, C5, C6);
    Soon(7, 8, C7.u);
    Next256(6, C6, C7);
    Later256(8, C0, C8.u);
    Next256(7, C7, C8);
  }

  lemma Rounds256To12()
    ensures Reached256(9, C9) && Reached256(10, C10) && Reached256(11, C11) && Reached256(12, C12)
  {
    hide Reached256;
    Rounds256To4();
    Rounds256To8();
    Later256(9, C1, C9.u);
    Next256(8, C8, C9);
    Later256(10, C2, C10.u);
    Next256(9, C9, C10);
    Later256(11, C3, C11.u);
    Next256(10, C10, C11);
    Later256(12, C4, C12.u);
    Next256(11, C11, C12);
  }

  lemma Rounds256To16()
    ensures Reached256(13, C13) && Reached256(14, C14) && Reached256(15, C15) && Reached256(16, C16)
  {
    hide Reached256;
    Rounds256To8();
    Rounds256To12();
    Later256(13, C5, C13.u);
    Next256(12, C12, C13);
    Later256(14, C6, C14.u);
    Next256(13, C13, C14);
    Later256(15, C7, C15.u);
    Next256(14, C14, C15);
    Later256(16, C8, C16.u);
    Next256(15, C15, C16);
  }

  lemma Rounds256To20()
    ensures Reached256(17, C17) && Reached256(18, C18) && Reached256(19, C19) && Reached256(20, C20)
  {
    hide Reached256;
    Rounds256To12();
    Rounds256To16();
    Later256(17, C9, C17.u);
    Next256(16, C16, C17);
    Later256(18, C10, C18.u);
    Next256(17, C17, C18);
    Later256(19, C11, C19.u);
    Next256(18, C18, C19);
    Later256(20, C12, C20.u);
    Next256(19, C19, C20);
  }

  lemma Rounds256To24()
    ensures Reached256(21, C21) && Reached256(22, C22) && Reached256(23, C23) && Reached256(24, C24)
  {
    hide Reached256;
    Rounds256To16();
    Rounds256To20();
    Later256(21, C13, C21.u);
    Next256(20, C20, C21);
    Later256(22, C14, C22.u);
    Next256(21, C21, C22);
    Later256(23, C15, C23.u);
    Next256(22, C22, C23);
    Later256(24, C16, C24.u);
    Next256(23, C23, C24);
  }

  lemma Rounds256To28()
    ensures Reached256(25, C25) && Reached256(26, C26) && Reached256(27, C27) && Reached256(28, C28)
  {
    hide Reached256;
    Rounds256To20();
    Rounds256To24();
    Later256(25, C17, C25.u);
    Next256(24, C24, C25);
    Later256(26, C18, C26.u);
    Next256(25, C25, C26);
    Later256(27, C19, C27.u);
    Next256(26, C26, C27);
    Later256(28, C20, C28.u);
    Next256(27, C27, C28);
  }

  lemma Rounds256To32()
    ensures Reached256(29, C29) && Reached256(30, C30) && Reached256(31, C31) && Reached256(32, C32)
  {
    hide Reached256;
    Rounds256To24();
    Rounds256To28();
    Later256(29, C21, C29.u);
    Next256(28, C28, C29);
    Later256(30, C22, C30.u);
    Next256(29, C29, C30);
    Later256(31, C23, C31.u);
    Next256(30, C30, C31);
    Later256(32, C24, C32.u);
    Next256(31, C31, C32);
  }
}
