/** Encrypted files as a producer makes them, and that set-up and extraction undo exactly that. */
module Encryption {
  import opened Bytes
  import opened Errors
  import opened ArchiveFormat
  import opened VolumeReader
  import opened Decryptors
  import opened EntrySpec
  import opened Methods
  import Extraction
  import ZipCrypto
  import Crc32
  import Ctr
  import Lea
  import Words

  // ---------- the keystream in counter mode ----------

  /** Little-endian from 1: the first block of keystream is the cipher's image of 1, the next its image of 2. */
  lemma FirstBlocksOfAes(cipher: Ctr.BlockCipher, i: nat)
    requires i < 32
    ensures Ctr.StreamByte(Ctr.Mode(cipher, false, 1), i)
         == if i < 16 then cipher([1, 0, 0, 0, 0, 0, 0, 0, 0, 0, 0, 0, 0, 0, 0, 0])[i]
            else cipher([2, 0, 0, 0, 0, 0, 0, 0, 0, 0, 0, 0, 0, 0, 0, 0])[i - 16]
  {
    hide LeBytes, Ctr.BeBytes;
    LowCounters();
    var m := Ctr.Mode(cipher, false, 1);
    assert Ctr.CounterBlock(m, 0) == LeBytes(1, 16) && Ctr.CounterBlock(m, 1) == LeBytes(2, 16);
    FirstBlocks(m, i);
  }

  /** Big-endian from 0: the first block of keystream is the cipher's image of 0, the next its image of 1. */
  lemma FirstBlocksOfLea(keys: seq<Lea.RoundKey>, i: nat)
    requires i < 32
    ensures Ctr.StreamByte(Ctr.LeaMode(keys), i)
         == if i < 16 then Lea.EncryptBlock(keys, [0, 0, 0, 0, 0, 0, 0, 0, 0, 0, 0, 0, 0, 0, 0, 0])[i]
            else Lea.EncryptBlock(keys, [0, 0, 0, 0, 0, 0, 0, 0, 0, 0, 0, 0, 0, 0, 0, 1])[i - 16]
  {
    hide LeBytes, Ctr.BeBytes, Lea.EncryptBlock;
    HighCounters();
    var m := Ctr.LeaMode(keys);
    assert Ctr.CounterBlock(m, 0) == Ctr.BeBytes(0, 16) && Ctr.CounterBlock(m, 1) == Ctr.BeBytes(1, 16);
    FirstBlocks(m, i);
  }

  lemma FirstBlocks(m: Ctr.Mode, i: nat)
    requires i < 32
    ensures Ctr.StreamByte(m, i)
         == if i < 16 then m.cipher(Ctr.CounterBlock(m, 0))[i] else m.cipher(Ctr.CounterBlock(m, 1))[i - 16]
  {
    hide Ctr.CounterBlock;
    assert i / 16 == if i < 16 then 0 else 1;
  }

  lemma LowCounters()
    ensures LeBytes(1, 16) == [1, 0, 0, 0, 0, 0, 0, 0, 0, 0, 0, 0, 0, 0, 0, 0]
    ensures LeBytes(2, 16) == [2, 0, 0, 0, 0, 0, 0, 0, 0, 0, 0, 0, 0, 0, 0, 0]
  {
    hide ByteOf;
    SmallBytes();
    NoBytesSet(15);
    assert LeBytes(1, 16) == [ByteOf(1)] + LeBytes(0, 15) && LeBytes(2, 16) == [ByteOf(2)] + LeBytes(0, 15);
    hide LeBytes;
    assert seq(15, _ => 0 as byte) == [0, 0, 0, 0, 0, 0, 0, 0, 0, 0, 0, 0, 0, 0, 0];
  }

  lemma HighCounters()
    ensures Ctr.BeBytes(0, 16) == [0, 0, 0, 0, 0, 0, 0, 0, 0, 0, 0, 0, 0, 0, 0, 0]
    ensures Ctr.BeBytes(1, 16) == [0, 0, 0, 0, 0, 0, 0, 0, 0, 0, 0, 0, 0, 0, 0, 1]
  {
    hide ByteOf;
    SmallBytes();
    NoBytesSet(15);
    assert Ctr.BeBytes(0, 16) == Ctr.BeBytes(0, 15) + [ByteOf(0)];
    assert Ctr.BeBytes(1, 16) == Ctr.BeBytes(0, 15) + [ByteOf(1)];
    hide Ctr.BeBytes;
    assert seq(15, _ => 0 as byte) == [0, 0, 0, 0, 0, 0, 0, 0, 0, 0, 0, 0, 0, 0, 0];
  }

  lemma {:induction false} NoBytesSet(k: nat)
    ensures LeBytes(0, k) == seq(k, _ => 0) && Ctr.BeBytes(0, k) == seq(k, _ => 0)
  {
    hide ByteOf;
    SmallBytes();
    if k > 0 {
      NoBytesSet(k - 1);
      assert LeBytes(0, k) == [ByteOf(0)] + LeBytes(0, k - 1);
      assert Ctr.BeBytes(0, k) == Ctr.BeBytes(0, k - 1) + [ByteOf(0)];
    }
  }

  lemma SmallBytes()
    ensures ByteOf(0) == 0 && ByteOf(1) == 1 && ByteOf(2) == 2
  {
    SmallValues();
    hide Val, ByteOf;
    ByteOfVal(0);
    ByteOfVal(1);
    ByteOfVal(2);
  }

  lemma SmallValues()
    ensures Val(0) == 0 && Val(1) == 1 && Val(2) == 2
  {
  }

  // ---------- AES and LEA ----------

  /** Key and salt sizes of a cipher with authentication. */
  predicate SizesOf(cipher: EncryptionMethod, keySize: nat, saltSize: nat) {
    match cipher
    case Aes128 => keySize == 16 && saltSize == 8
    case Aes256 => keySize == 32 && saltSize == 16
    case Lea128 => keySize == 16 && saltSize == 8
    case Lea256 => keySize == 32 && saltSize == 16
    case _ => false
  }

  predicate IsAes(cipher: EncryptionMethod) {
    cipher == Aes128 || cipher == Aes256
  }

  /** The keystream a producer uses under a key: AES counts from 1, little-endian, LEA from 0, big-endian. */
  function KeystreamOf(env: Primitives, cipher: EncryptionMethod, key: bytes): Ctr.Mode
    requires |key| == 16 || |key| == 32
  {
    if IsAes(cipher) then Ctr.Mode(env.aes(key), false, 1)
    else Ctr.LeaMode(if |key| == 16 then Lea.Schedule128(key, 24) else Lea.Schedule256(key, 32))
  }

  /**
   What a producer derives and writes: key, authentication key and verifier come out of the password and a salt in this
   order, and the record holds salt, verifier and tag.
   */
  ghost predicate WritesKeys(
    env: Primitives, e: EggFileEntry, password: bytes, cipher: EncryptionMethod, salt: bytes, key: bytes,
    authKey: bytes, verifier: bytes, tag: bytes)
  {
    && SizesOf(cipher, |key|, |salt|) && |authKey| == |key| && |verifier| == 2
    && env.pbkdf2(password, salt, 2 * |key| + 2) == key + authKey + verifier
    && e.encryptInfo == Some(EncryptInfo(cipher, salt + verifier + tag))
  }

  /** Set-up finds key, keystream and authentication where the producer put them. */
  lemma KeysFound(
    env: Primitives, e: EggFileEntry, password: bytes, cipher: EncryptionMethod, salt: bytes, key: bytes,
    authKey: bytes, verifier: bytes, tag: bytes)
    requires WritesKeys(env, e, password, cipher, salt, key, authKey, verifier, tag)
    ensures |tag| == 10 ==>
      Setup(env, e, Some(password))
      == Ok(Some(FileCrypto(Stream(KeystreamOf(env, cipher, key), 0), Some(AuthInfo(authKey, tag)))))
    ensures |tag| < 10 ==>
      Setup(env, e, Some(password)) == Ok(Some(FileCrypto(Stream(KeystreamOf(env, cipher, key), 0), None)))
  {
    hide SetupStream, KeystreamOf, StreamModeFor;
    var data := salt + verifier + tag;
    var aes := IsAes(cipher);
    SetupIs(env, e, password, cipher, data, |key|, |salt|);
    StreamFound(env, aes, password, salt, key, authKey, verifier, tag);
    ModeIs(env, cipher, key);
    assert |tag| == 10 ==> tag[..10] == tag;
  }

  lemma SetupIs(
    env: Primitives, e: EggFileEntry, password: bytes, cipher: EncryptionMethod, data: bytes, keySize: nat,
    saltSize: nat)
    requires SizesOf(cipher, keySize, saltSize) && e.encryptInfo == Some(EncryptInfo(cipher, data))
    ensures Setup(env, e, Some(password))
         == SetupStream(env, IsAes(cipher), keySize, saltSize, data, password)
  {
    hide SetupStream;
  }

  lemma ModeIs(env: Primitives, cipher: EncryptionMethod, key: bytes)
    requires |key| == 16 || |key| == 32
    ensures StreamModeFor(env, IsAes(cipher), key) == KeystreamOf(env, cipher, key)
  {
    hide Lea.Schedule128, Lea.Schedule256, Ctr.LeaMode;
  }

  lemma StreamFound(
    env: Primitives, aes: bool, password: bytes, salt: bytes, key: bytes, authKey: bytes, verifier: bytes, tag: bytes)
    requires (|key| == 16 || |key| == 32) && |authKey| == |key| && |verifier| == 2
    requires env.pbkdf2(password, salt, 2 * |key| + 2) == key + authKey + verifier
    ensures var auth := if |tag| >= 10 then Some(AuthInfo(authKey, tag[..10])) else None;
      SetupStream(env, aes, |key|, |salt|, salt + verifier + tag, password)
      == Ok(Some(FileCrypto(Stream(StreamModeFor(env, aes, key), 0), auth)))
  {
    hide StreamModeFor;
    var data, derived := salt + verifier + tag, key + authKey + verifier;
    assert data[..|salt|] == salt && data[|salt|..|salt| + 2] == verifier;
    assert derived[..|key|] == key && derived[|key|..2 * |key|] == authKey && derived[2 * |key|..] == verifier;
    if |tag| >= 10 {
      assert data[|salt| + 2..|salt| + 12] == tag[..10];
    }
  }

  /** Another verifier is a wrong password, and no password an error of its own. */
  lemma KeysRefused(
    env: Primitives, e: EggFileEntry, password: bytes, cipher: EncryptionMethod, salt: bytes, rest: bytes, keySize: nat)
    requires SizesOf(cipher, keySize, |salt|) && |rest| >= 2
    requires e.encryptInfo == Some(EncryptInfo(cipher, salt + rest))
    ensures Setup(env, e, None) == Err(PasswordNotSet)
    ensures rest[..2] != env.pbkdf2(password, salt, 2 * keySize + 2)[2 * keySize..] ==>
      Setup(env, e, Some(password)) == Err(InvalidPassword)
  {
    hide StreamModeFor;
    var data := salt + rest;
    assert data[..|salt|] == salt && data[|salt|..|salt| + 2] == rest[..2];
    SetupIs(env, e, password, cipher, data, keySize, |salt|);
    NoPassword(env, e);
    hide Setup;
  }

  lemma NoPassword(env: Primitives, e: EggFileEntry)
    requires e.encryptInfo.Some?
    ensures Setup(env, e, None) == Err(PasswordNotSet)
  {
  }

  lemma NoSetup(env: Primitives, e: EggFileEntry, password: bytes)
    ensures e.encryptInfo.None? ==> Setup(env, e, None) == Ok(None) && Setup(env, e, Some(password)) == Ok(None)
    ensures e.encryptInfo.Some? && e.encryptInfo.value.cipher.UnknownEncryption? ==>
      Setup(env, e, Some(password)) == Err(UnsupportedEncryption(e.encryptInfo.value.cipher.code))
  {
  }

  /** A stored file of these bytes, encrypted, at some position of the archive. */
  ghost predicate HoldsEncrypted(flat: bytes, e: EggFileEntry, plain: bytes, encrypted: bytes, p: nat) {
    && !e.IsDirectory() && |encrypted| == |plain| && p + |plain| <= |flat| && flat[p..p + |plain|] == encrypted
    && e.blocks == [EggBlock(Store, |plain|, |plain|, Crc32.Checksum(plain), p)]
  }

  /** What a producer encrypts and authenticates is extracted again, and nothing is if the tag is another. */
  lemma EncryptedReadsBack(
    env: Primitives, flat: bytes, e: EggFileEntry, password: bytes, cipher: EncryptionMethod, salt: bytes, key: bytes,
    authKey: bytes, verifier: bytes, tag: bytes, plain: bytes, p: nat)
    requires WritesKeys(env, e, password, cipher, salt, key, authKey, verifier, tag) && |tag| == 10
    requires HoldsEncrypted(flat, e, plain, Ctr.Crypted(KeystreamOf(env, cipher, key), 0, plain), p)
    ensures var sum := env.hmac(authKey, Ctr.Crypted(KeystreamOf(env, cipher, key), 0, plain));
      && (|sum| >= 10 && tag == sum[..10] ==> Content(env, flat, e, Some(password)) == Ok(plain))
      && (|sum| >= 10 && tag != sum[..10] ==> Content(env, flat, e, Some(password)) == Err(AuthenticationFailed))
  {
    hide Crc32.Checksum, Ctr.Crypted, Setup, EggFileEntry.IsDirectory, KeystreamOf;
    var mode := KeystreamOf(env, cipher, key);
    var encrypted := Ctr.Crypted(mode, 0, plain);
    var b := e.blocks[0];
    KeysFound(env, e, password, cipher, salt, key, authKey, verifier, tag);
    OneStored(flat, e, plain, encrypted, p);
    var sum := env.hmac(authKey, encrypted);
    if |sum| >= 10 && tag == sum[..10] {
      assert Begin(env, flat, e, Some(password)) == Ok(Some(Stream(mode, 0)));
      Ctr.CryptedTwice(mode, 0, plain);
      assert DataOf(env, flat, e, Some(password), b) == plain;
      hide Content, DataOf, HasOneBlock;
      StoredContent(env, flat, e, Some(password), b, plain);
    }
  }

  /** Whatever its methods and however many its blocks: what has content is all there and carries the stored tag. */
  lemma OnlyAuthentic(
    env: Primitives, flat: bytes, e: EggFileEntry, password: bytes, cipher: EncryptionMethod, salt: bytes, key: bytes,
    authKey: bytes, verifier: bytes, tag: bytes)
    requires WritesKeys(env, e, password, cipher, salt, key, authKey, verifier, tag) && |tag| == 10
    requires !e.IsDirectory() && e.blocks != [] && Content(env, flat, e, Some(password)).Ok?
    ensures forall b :: b in e.blocks ==> b.compressedSize == |Window(flat, b.dataPos, b.compressedSize)|
    ensures var sum := env.hmac(authKey, Flatten(DataOfBlocks(flat, e.blocks)));
      |sum| >= 10 && sum[..10] == tag
  {
    hide Setup, EggFileEntry.IsDirectory, KeystreamOf, BlocksOutcome, WritesKeys, Joined;
    KeysFound(env, e, password, cipher, salt, key, authKey, verifier, tag);
    JoinedFlat(flat, e.blocks);
    assert AllPresent(flat, e.blocks);
  }

  /** The bytes of the blocks, each from its position. */
  function DataOfBlocks(flat: bytes, blocks: seq<EggBlock>): (r: seq<bytes>)
    ensures |r| == |blocks|
    ensures forall i :: 0 <= i < |blocks| ==> r[i] == Window(flat, blocks[i].dataPos, blocks[i].compressedSize)
  {
    seq(|blocks|, i requires 0 <= i < |blocks| => Window(flat, blocks[i].dataPos, blocks[i].compressedSize))
  }

  lemma {:induction false} JoinedFlat(flat: bytes, blocks: seq<EggBlock>)
    ensures Joined(flat, blocks) == Flatten(DataOfBlocks(flat, blocks))
  {
    hide Window, Flatten;
    if blocks == [] {
      NoPieces();
    } else {
      var rest, last := blocks[..|blocks| - 1], blocks[|blocks| - 1];
      JoinedFlat(flat, rest);
      assert DataOfBlocks(flat, blocks) == DataOfBlocks(flat, rest) + [Stored(flat, last)];
      FlattenAppend(DataOfBlocks(flat, rest), [Stored(flat, last)]);
      FlattenOne(Stored(flat, last));
    }
  }

  lemma NoPieces()
    ensures Flatten<byte>([]) == []
  {
  }

  /** A password is tried on the first encrypted entry. */
  lemma {:induction false} TriedOnFirst(entries: seq<EggFileEntry>, i: nat)
    requires i < |entries| && entries[i].encryptInfo.Some?
    requires forall k :: 0 <= k < i ==> entries[k].encryptInfo.None?
    ensures Extraction.FirstEncrypted(entries) == Some(entries[i])
  {
    if i > 0 {
      TriedOnFirst(entries[1..], i - 1);
    }
  }

  lemma OneStored(flat: bytes, e: EggFileEntry, plain: bytes, encrypted: bytes, p: nat)
    requires HoldsEncrypted(flat, e, plain, encrypted, p)
    ensures AllPresent(flat, e.blocks) && Joined(flat, e.blocks) == encrypted
    ensures Window(flat, p, |plain|) == encrypted && Stored(flat, e.blocks[0]) == encrypted
  {
    hide Crc32.Checksum, EggFileEntry.IsDirectory;
    assert e.blocks[..0] == [] && Joined(flat, []) == [];
    assert Joined(flat, e.blocks) == [] + encrypted;
  }

  // ---------- PKZIP ----------

  /**
   What a producer of the traditional cipher writes: twelve encrypted bytes, the last of them the top byte of the CRC,
   and the CRC; the content is encrypted with the keys these bytes leave.
   */
  ghost predicate WritesHeader(e: EggFileEntry, password: bytes, filler: bytes, crc: bv32) {
    && |filler| == 11
    && e.encryptInfo == Some(EncryptInfo(
         EncryptionMethod.ZipCrypto,
         ZipCrypto.Encrypted(
           ZipCrypto.Absorb(ZipCrypto.INITIAL_KEYS, password), filler + [ZipCrypto.TopByte(crc)])
         + Words.BytesOf(crc)))
  }

  function KeysBehind(password: bytes, filler: bytes, crc: bv32): ZipCrypto.Keys {
    ZipCrypto.Absorb(ZipCrypto.Absorb(ZipCrypto.INITIAL_KEYS, password), filler + [ZipCrypto.TopByte(crc)])
  }

  lemma HeaderFound(env: Primitives, e: EggFileEntry, password: bytes, filler: bytes, crc: bv32)
    requires WritesHeader(e, password, filler, crc)
    ensures Setup(env, e, Some(password)) == Ok(Some(FileCrypto(Zip(KeysBehind(password, filler, crc)), None)))
  {
    hide ZipCrypto.Absorb, ZipCrypto.Encrypted, ZipCrypto.Decrypted, ZipCrypto.TopByte, Words.BytesOf, Words.WordOf;
    var keys, header := ZipCrypto.Absorb(ZipCrypto.INITIAL_KEYS, password), filler + [ZipCrypto.TopByte(crc)];
    var data := ZipCrypto.Encrypted(keys, header) + Words.BytesOf(crc);
    assert data[..12] == ZipCrypto.Encrypted(keys, header);
    assert data[12] == Words.BytesOf(crc)[0] && data[13] == Words.BytesOf(crc)[1];
    assert data[14] == Words.BytesOf(crc)[2] && data[15] == Words.BytesOf(crc)[3];
    Words.WordOfBytesOf(crc);
    ZipCrypto.DecryptOfEncrypt(keys, header);
  }

  /** What a producer encrypts with the traditional cipher is extracted again. */
  lemma ZipReadsBack(
    env: Primitives, flat: bytes, e: EggFileEntry, password: bytes, filler: bytes, crc: bv32, plain: bytes, p: nat)
    requires WritesHeader(e, password, filler, crc)
    requires HoldsEncrypted(flat, e, plain, ZipCrypto.Encrypted(KeysBehind(password, filler, crc), plain), p)
    ensures Content(env, flat, e, Some(password)) == Ok(plain)
  {
    hide Crc32.Checksum, Setup, WritesHeader, EggFileEntry.IsDirectory, KeysBehind, ZipCrypto.Encrypted,
      ZipCrypto.Decrypted;
    var keys := KeysBehind(password, filler, crc);
    var encrypted := ZipCrypto.Encrypted(keys, plain);
    var b := e.blocks[0];
    HeaderFound(env, e, password, filler, crc);
    OneStored(flat, e, plain, encrypted, p);
    assert Begin(env, flat, e, Some(password)) == Ok(Some(Zip(keys)));
    ZipCrypto.DecryptOfEncrypt(keys, plain);
    assert DataOf(env, flat, e, Some(password), b) == plain;
    hide Content, DataOf, HasOneBlock;
    StoredContent(env, flat, e, Some(password), b, plain);
  }
}
