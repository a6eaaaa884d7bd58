/** The traditional PKZIP stream cipher of src/crypto.rs. */
module ZipCrypto {
  import opened Bytes
  import opened Crc32
  import opened Words

  datatype Keys = Keys(k0: bv32, k1: bv32, k2: bv32)

  const INITIAL_KEYS := Keys(0x12345678, 0x23456789, 0x34567890)

  /** `wrapping_mul(134775813).wrapping_add(1)`. */
  function Congruential(x: bv32): bv32 {
    x * 134775813 + 1
  }

  function LowPart(x: bv32): bv32 {
    x & 0xFF
  }

  function TopByte(x: bv32): byte {
    ((x >> 24) & 0xFF) as byte
  }

  /** `update_keys`: absorbs one byte of plaintext. */
  function UpdateKeys(k: Keys, plain: byte): Keys {
    var k0 := CrcByte(k.k0, plain);
    var k1 := Congruential(Plus(k.k1, LowPart(k0)));
    Keys(k0, k1, CrcByte(k.k2, TopByte(k1)))
  }

  /** `decrypt_byte`: the keystream byte, by a full 32-bit product. */
  function KeystreamByte(k: Keys): byte {
    ProductByte(k.k2)
  }

  function ProductByte(x: bv32): byte {
    (((x | 2) * ((x | 2) ^ 1) >> 8) & 0xFF) as byte
  }

  /** The keystream byte of section 6.1.6 of the PKWARE APPNOTE, which keeps only 16 bits of the key. */
  function AppnoteKeystreamByte(k: Keys): byte {
    ProductByte16((k.k2 & 0xFFFF) as bv16)
  }

  function ProductByte16(x: bv16): byte {
    ((x | 2) * ((x | 2) ^ 1) >> 8) as byte
  }

  /** The comment in the source announces a different keystream; the two are the same for every key. */
  lemma KeystreamIsAppnote(k: Keys)
    ensures KeystreamByte(k) == AppnoteKeystreamByte(k)
  {
    hide ProductByte, ProductByte16;
    LowProduct(k.k2);
  }

  lemma LowProduct(x: bv32)
    ensures ProductByte(x) == ProductByte16((x & 0xFFFF) as bv16)
  {
    WideProduct(x);
    NarrowProduct(x);
    hide ProductByte, ProductByte16;
    ProductsAgree(x);
  }

  lemma WideProduct(x: bv32)
    ensures ProductByte(x) == (((x | 2) * ((x | 2) ^ 1) >> 8) & 0xFF) as byte
  {
  }

  lemma NarrowProduct(x: bv32)
    ensures ProductByte16((x & 0xFFFF) as bv16)
         == (((x & 0xFFFF) as bv16 | 2) * (((x & 0xFFFF) as bv16 | 2) ^ 1) >> 8) as byte
  {
  }

  lemma ProductsAgree(x: bv32)
    ensures (((x | 2) * ((x | 2) ^ 1) >> 8) & 0xFF) as byte
         == (((x & 0xFFFF) as bv16 | 2) * (((x & 0xFFFF) as bv16 | 2) ^ 1) >> 8) as byte
  {
  }

  /** Keys after a whole plaintext; `new(password)` starts from the constants. */
  function Absorb(k: Keys, plain: bytes): Keys
    decreases |plain|
  {
    if plain == [] then k else Absorb(UpdateKeys(k, plain[0]), plain[1..])
  }

  function Encrypted(k: Keys, plain: bytes): (cipher: bytes)
    ensures |cipher| == |plain|
    decreases |plain|
  {
    if plain == [] then []
    else [XorByte(plain[0], KeystreamByte(k))] + Encrypted(UpdateKeys(k, plain[0]), plain[1..])
  }

  function Decrypted(k: Keys, cipher: bytes): (plain: bytes)
    ensures |plain| == |cipher|
    decreases |cipher|
  {
    if cipher == [] then []
    else
      var p := XorByte(cipher[0], KeystreamByte(k));
      [p] + Decrypted(UpdateKeys(k, p), cipher[1..])
  }

  /** Decryption with the keystream of the APPNOTE instead. */
  function AppnoteDecrypted(k: Keys, cipher: bytes): (plain: bytes)
    decreases |cipher|
  {
    if cipher == [] then []
    else
      var p := XorByte(cipher[0], AppnoteKeystreamByte(k));
      [p] + AppnoteDecrypted(UpdateKeys(k, p), cipher[1..])
  }

  /** The header is accepted when its last byte decrypts to the CRC's top byte. */
  predicate PasswordMatches(k: Keys, verifyData: bytes, storedCrc: bv32)
    requires |verifyData| == 12
  {
    Decrypted(k, verifyData)[11] == TopByte(storedCrc)
  }

  // ---------- properties ----------

  lemma {:induction false} DecryptsAsAppnote(k: Keys, cipher: bytes)
    ensures Decrypted(k, cipher) == AppnoteDecrypted(k, cipher)
    decreases |cipher|
  {
    KeystreamIsAppnote(k);
    hide KeystreamByte, AppnoteKeystreamByte, UpdateKeys, XorByte;
    if cipher != [] {
      DecryptsAsAppnote(UpdateKeys(k, XorByte(cipher[0], KeystreamByte(k))), cipher[1..]);
    }
  }

  lemma {:induction false} AbsorbAppend(k: Keys, a: bytes, b: bytes)
    ensures Absorb(k, a + b) == Absorb(Absorb(k, a), b)
    decreases |a|
  {
    hide UpdateKeys;
    if a == [] {
      assert a + b == b;
    } else {
      assert (a + b)[0] == a[0] && (a + b)[1..] == a[1..] + b;
      AbsorbAppend(UpdateKeys(k, a[0]), a[1..], b);
    }
  }

  lemma {:induction false} EncryptAppend(k: Keys, a: bytes, b: bytes)
    ensures Encrypted(k, a + b) == Encrypted(k, a) + Encrypted(Absorb(k, a), b)
    decreases |a|
  {
    hide UpdateKeys, KeystreamByte, XorByte;
    if a == [] {
      assert a + b == b;
    } else {
      assert (a + b)[0] == a[0] && (a + b)[1..] == a[1..] + b;
      EncryptAppend(UpdateKeys(k, a[0]), a[1..], b);
    }
  }

  /** Decryption can be cut anywhere if the keys carry over. */
  lemma {:induction false} DecryptAppend(k: Keys, a: bytes, b: bytes)
    ensures Decrypted(k, a + b) == Decrypted(k, a) + Decrypted(Absorb(k, Decrypted(k, a)), b)
    decreases |a|
  {
    hide UpdateKeys, KeystreamByte, XorByte;
    if a == [] {
      assert a + b == b;
    } else {
      assert (a + b)[0] == a[0] && (a + b)[1..] == a[1..] + b;
      var p := XorByte(a[0], KeystreamByte(k));
      DecryptAppend(UpdateKeys(k, p), a[1..], b);
      assert Decrypted(k, a)[1..] == Decrypted(UpdateKeys(k, p), a[1..]);
    }
  }

  lemma {:induction false} DecryptOfEncrypt(k: Keys, plain: bytes)
    ensures Decrypted(k, Encrypted(k, plain)) == plain
    decreases |plain|
  {
    hide UpdateKeys, KeystreamByte, XorByte;
    if plain != [] {
      XorByteTwice(plain[0], KeystreamByte(k));
      assert Encrypted(k, plain)[1..] == Encrypted(UpdateKeys(k, plain[0]), plain[1..]);
      DecryptOfEncrypt(UpdateKeys(k, plain[0]), plain[1..]);
    }
  }

  /** After every byte the decryptor holds the keys the encryptor held. */
  lemma KeysInStep(k: Keys, plain: bytes, i: nat)
    requires i <= |plain|
    ensures Decrypted(k, Encrypted(k, plain)[..i]) == plain[..i]
    ensures Absorb(k, Decrypted(k, Encrypted(k, plain)[..i])) == Absorb(k, plain[..i])
  {
    hide UpdateKeys, KeystreamByte, XorByte;
    EncryptAppend(k, plain[..i], plain[i..]);
    assert plain[..i] + plain[i..] == plain;
    assert Encrypted(k, plain)[..i] == Encrypted(k, plain[..i]);
    DecryptOfEncrypt(k, plain[..i]);
  }

  /** Decryption of a ciphertext handed over in pieces, the keys carried from piece to piece. */
  function DecryptedInChunks(k: Keys, chunks: seq<bytes>): bytes
    decreases |chunks|
  {
    if chunks == [] then []
    else
      var plain := Decrypted(k, chunks[0]);
      plain + DecryptedInChunks(Absorb(k, plain), chunks[1..])
  }

  lemma {:induction false} ChunkingIsInvisible(k: Keys, chunks: seq<bytes>)
    ensures DecryptedInChunks(k, chunks) == Decrypted(k, Flatten(chunks))
    decreases |chunks|
  {
    hide UpdateKeys, KeystreamByte, XorByte;
    if chunks != [] {
      DecryptAppend(k, chunks[0], Flatten(chunks[1..]));
      ChunkingIsInvisible(Absorb(k, Decrypted(k, chunks[0])), chunks[1..]);
    }
  }

  /**
   End to end, sections 6.1.5 to 6.1.7 of the PKWARE APPNOTE: a header of 11 filler bytes and the CRC's top
   byte, encrypted under a password, is accepted under that password and leaves the keys from which the
   encrypted content, cut into chunks in any way, decrypts to the content.
   */
  lemma PasswordRoundTrip(password: bytes, filler: bytes, crc: bv32, content: bytes, chunks: seq<bytes>)
    requires |filler| == 11
    requires var header := filler + [TopByte(crc)];
      Flatten(chunks) == Encrypted(Absorb(Absorb(INITIAL_KEYS, password), header), content)
    ensures var k := Absorb(INITIAL_KEYS, password);
      var header := Encrypted(k, filler + [TopByte(crc)]);
      && PasswordMatches(k, header, crc)
      && DecryptedInChunks(Absorb(k, Decrypted(k, header)), chunks) == content
  {
    hide UpdateKeys, KeystreamByte, XorByte, TopByte;
    var k := Absorb(INITIAL_KEYS, password);
    var header := filler + [TopByte(crc)];
    DecryptOfEncrypt(k, header);
    DecryptOfEncrypt(Absorb(k, header), content);
    ChunkingIsInvisible(Absorb(k, header), chunks);
  }

  lemma DecryptOneMore(k: Keys, cipher: bytes, i: nat)
    requires i < |cipher|
    ensures var before := Decrypted(k, cipher[..i]);
      var state := Absorb(k, before);
      var p := XorByte(cipher[i], KeystreamByte(state));
      && Decrypted(k, cipher[..i + 1]) == before + [p]
      && Absorb(k, before + [p]) == UpdateKeys(state, p)
  {
    hide UpdateKeys, KeystreamByte, XorByte;
    var before := Decrypted(k, cipher[..i]);
    assert cipher[..i + 1] == cipher[..i] + [cipher[i]];
    DecryptAppend(k, cipher[..i], [cipher[i]]);
    AbsorbAppend(k, before, [XorByte(cipher[i], KeystreamByte(Absorb(k, before)))]);
  }

  lemma EncryptOneMore(k: Keys, plain: bytes, i: nat)
    requires i < |plain|
    ensures var state := Absorb(k, plain[..i]);
      && Encrypted(k, plain[..i + 1]) == Encrypted(k, plain[..i]) + [XorByte(plain[i], KeystreamByte(state))]
      && Absorb(k, plain[..i + 1]) == UpdateKeys(state, plain[i])
  {
    hide UpdateKeys, KeystreamByte, XorByte;
    assert plain[..i + 1] == plain[..i] + [plain[i]];
    EncryptAppend(k, plain[..i], [plain[i]]);
    AbsorbAppend(k, plain[..i], [plain[i]]);
  }

  // ---------- the key schedule loses nothing ----------

  function CongruentialInverse(y: bv32): bv32 {
    Divided(y - 1)
  }

  /** Division by 134775813 modulo 2^32: multiplication by its inverse. */
  function Divided(x: bv32): bv32 {
    x * 0xD94FA8CD
  }

  function Multiplied(x: bv32): bv32 {
    x * 134775813
  }

  lemma ProductsAre(x: bv32)
    ensures Multiplied(x) == x * 134775813 && Divided(x) == x * 0xD94FA8CD
  {
  }

  lemma DividedProduct(x: bv32)
    ensures Divided(x * 134775813) == x
  {
  }

  lemma MultipliedQuotient(x: bv32)
    ensures Multiplied(x * 0xD94FA8CD) == x
  {
  }

  lemma MultiplierInverts(x: bv32)
    ensures Divided(Multiplied(x)) == x && Multiplied(Divided(x)) == x
  {
    hide Multiplied, Divided;
    ProductsAre(x);
    DividedProduct(x);
    MultipliedQuotient(x);
  }

  lemma CongruentialIs(x: bv32)
    ensures Congruential(x) == Multiplied(x) + 1 && CongruentialInverse(x) == Divided(x - 1)
  {
  }

  lemma OneMoreOneLess(x: bv32)
    ensures x + 1 - 1 == x && x - 1 + 1 == x
  {
  }

  lemma CongruentialBijective(x: bv32)
    ensures CongruentialInverse(Congruential(x)) == x && Congruential(CongruentialInverse(x)) == x
  {
    CongruentialIs(x);
    CongruentialIs(Congruential(x));
    CongruentialIs(CongruentialInverse(x));
    hide Congruential, CongruentialInverse, Multiplied, Divided;
    OneMoreOneLess(Multiplied(x));
    OneMoreOneLess(x);
    MultiplierInverts(x);
    MultiplierInverts(x - 1);
  }

  /** The keys before `plain` was absorbed. */
  function UpdateKeysInverse(k: Keys, plain: byte): Keys {
    Keys(CrcByteInverse(k.k0, plain),
         Minus(CongruentialInverse(k.k1), LowPart(k.k0)),
         CrcByteInverse(k.k2, TopByte(k.k1)))
  }

  /** For a fixed byte, `update_keys` is a bijection of all 2^96 key states. */
  lemma UpdateKeysBijective(k: Keys, plain: byte)
    ensures UpdateKeysInverse(UpdateKeys(k, plain), plain) == k
    ensures UpdateKeys(UpdateKeysInverse(k, plain), plain) == k
  {
    hide CrcByte, CrcByteInverse, Congruential, CongruentialInverse, TopByte, Plus, Minus, LowPart;
    var after, before := UpdateKeys(k, plain), UpdateKeysInverse(k, plain);
    CrcByteBijective(k.k0, plain);
    CrcByteBijective(k.k2, TopByte(after.k1));
    CrcByteBijective(k.k2, TopByte(k.k1));
    MinusPlus(k.k1, LowPart(after.k0));
    MinusPlus(CongruentialInverse(k.k1), LowPart(k.k0));
    CongruentialBijective(Plus(k.k1, LowPart(after.k0)));
    CongruentialBijective(k.k1);
  }

  // ---------- the cipher object ----------

  /** The source's struct: three key words, updated in place. */
  class Cipher {
    const key: array<bv32>

    ghost predicate Valid() {
      key.Length == 3
    }

    function State(): Keys
      requires key.Length == 3
      reads key
    {
      Keys(key[0], key[1], key[2])
    }

    constructor (password: bytes)
      ensures Valid() && fresh(key)
      ensures State() == Absorb(INITIAL_KEYS, password)
    {
      hide UpdateKeys;
      key := new bv32[] [0x12345678, 0x23456789, 0x34567890];
      new;
      var i := 0;
      while i < |password|
        invariant 0 <= i <= |password|
        invariant Absorb(State(), password[i..]) == Absorb(INITIAL_KEYS, password)
      {
        Update(password[i]);
        assert password[i..][1..] == password[i + 1..];
        i := i + 1;
      }
    }

    method Update(plain: byte)
      requires Valid()
      modifies key
      ensures State() == UpdateKeys(old(State()), plain)
    {
      hide CrcByte, Congruential, Plus, LowPart, TopByte;
      key[0] := CrcByte(key[0], plain);
      key[1] := Plus(key[1], LowPart(key[0]));
      key[1] := Congruential(key[1]);
      key[2] := CrcByte(key[2], TopByte(key[1]));
    }

    /** `check_password`. */
    method CheckPassword(verifyData: bytes, storedCrc: bv32) returns (ok: bool)
      requires Valid() && |verifyData| == 12
      modifies key
      ensures ok == PasswordMatches(old(State()), verifyData, storedCrc)
      ensures State() == Absorb(old(State()), Decrypted(old(State()), verifyData))
    {
      hide UpdateKeys, KeystreamByte, XorByte, TopByte, Decrypted, Absorb;
      ghost var k := State();
      NothingYet(k, verifyData);
      var lastByte: byte := 0;
      var i := 0;
      while i < |verifyData|
        invariant 0 <= i <= |verifyData|
        invariant State() == Absorb(k, Decrypted(k, verifyData[..i]))
        invariant i > 0 ==> lastByte == Decrypted(k, verifyData[..i])[i - 1]
      {
        DecryptOneMore(k, verifyData, i);
        lastByte := XorByte(verifyData[i], KeystreamByte(State()));
        Update(lastByte);
        i := i + 1;
      }
      assert verifyData[..i] == verifyData;
      ok := lastByte == TopByte(storedCrc);
    }

    /** `encrypt`, in place. */
    method Encrypt(data: array<byte>)
      requires Valid()
      modifies key, data
      ensures data[..] == Encrypted(old(State()), old(data[..]))
      ensures State() == Absorb(old(State()), old(data[..]))
    {
      hide UpdateKeys, KeystreamByte, XorByte, Encrypted, Absorb;
      ghost var k, plain := State(), data[..];
      NothingYet(k, plain);
      var i := 0;
      while i < data.Length
        invariant 0 <= i <= data.Length
        invariant data[..i] == Encrypted(k, plain[..i]) && data[i..] == plain[i..]
        invariant State() == Absorb(k, plain[..i])
      {
        EncryptOneMore(k, plain, i);
        var p := data[i];
        assert p == plain[i] by { assert data[i..][0] == plain[i..][0]; }
        SetNext(data, plain, i, XorByte(p, KeystreamByte(State())));
        Update(p);
        i := i + 1;
      }
      assert plain[..i] == plain && data[..i] == data[..];
    }

    /** `decrypt`, in place. */
    method Decrypt(data: array<byte>)
      requires Valid()
      modifies key, data
      ensures data[..] == Decrypted(old(State()), old(data[..]))
      ensures State() == Absorb(old(State()), data[..])
    {
      hide UpdateKeys, KeystreamByte, XorByte, Decrypted, Absorb;
      ghost var k, cipher := State(), data[..];
      NothingYet(k, cipher);
      var i := 0;
      while i < data.Length
        invariant 0 <= i <= data.Length
        invariant data[..i] == Decrypted(k, cipher[..i]) && data[i..] == cipher[i..]
        invariant State() == Absorb(k, data[..i])
      {
        DecryptOneMore(k, cipher, i);
        assert data[i] == cipher[i] by { assert data[i..][0] == cipher[i..][0]; }
        var p := XorByte(data[i], KeystreamByte(State()));
        Update(p);
        SetNext(data, cipher, i, p);
        i := i + 1;
      }
      assert cipher[..i] == cipher && data[..i] == data[..];
    }
  }

  lemma NothingYet(k: Keys, data: bytes)
    ensures Decrypted(k, data[..0]) == [] && Encrypted(k, data[..0]) == []
    ensures Absorb(k, data[..0]) == k && Absorb(k, []) == k
  {
  }
}
