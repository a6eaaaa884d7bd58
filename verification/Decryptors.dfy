/** The decryptors behind `Box<dyn Decryptor>`, their set-up from an entry and a password, and their one keystream. */
module Decryptors {
  import opened Bytes
  import opened Errors
  import opened ArchiveFormat
  import opened Inflation
  import ZipCrypto
  import Ctr
  import Lea
  import Words

  // ---------- states ----------

  /** Where a decryptor is: the ZipCrypto keys, or a position in a counter-mode keystream. */
  datatype State = Zip(keys: ZipCrypto.Keys) | Stream(mode: Ctr.Mode, position: nat)

  function Decrypted(s: State, data: bytes): (r: bytes)
    ensures |r| == |data|
  {
    match s
    case Zip(k) => ZipCrypto.Decrypted(k, data)
    case Stream(m, p) => Ctr.Crypted(m, p, data)
  }

  function After(s: State, data: bytes): State {
    match s
    case Zip(k) => Zip(ZipCrypto.Absorb(k, ZipCrypto.Decrypted(k, data)))
    case Stream(m, p) => Stream(m, p + |data|)
  }

  /** Data decrypted in two calls is the data decrypted in one: the keystream does not know about calls. */
  lemma DecryptAppend(s: State, a: bytes, b: bytes)
    ensures Decrypted(s, a + b) == Decrypted(s, a) + Decrypted(After(s, a), b)
    ensures After(s, a + b) == After(After(s, a), b)
  {
    hide ZipCrypto.Decrypted, ZipCrypto.Absorb, Ctr.Crypted;
    match s {
      case Zip(k) => ZipAppend(k, a, b);
      case Stream(m, p) => Ctr.CryptedAppend(m, p, a, b);
    }
  }

  lemma ZipAppend(k: ZipCrypto.Keys, a: bytes, b: bytes)
    ensures var first := ZipCrypto.Decrypted(k, a);
      var k' := ZipCrypto.Absorb(k, first);
      && ZipCrypto.Decrypted(k, a + b) == first + ZipCrypto.Decrypted(k', b)
      && ZipCrypto.Absorb(k, ZipCrypto.Decrypted(k, a + b)) == ZipCrypto.Absorb(k', ZipCrypto.Decrypted(k', b))
  {
    hide ZipCrypto.Decrypted, ZipCrypto.Absorb;
    ZipCrypto.DecryptAppend(k, a, b);
    var first := ZipCrypto.Decrypted(k, a);
    ZipCrypto.AbsorbAppend(k, first, ZipCrypto.Decrypted(ZipCrypto.Absorb(k, first), b));
  }

  lemma DecryptNothing(s: State)
    ensures Decrypted(s, []) == [] && After(s, []) == s
  {
  }

  /** An optional decryptor: without one the data passes through. */
  function Plain(s: Option<State>, data: bytes): (r: bytes)
    ensures |r| == |data|
  {
    if s.None? then data else Decrypted(s.value, data)
  }

  function Then(s: Option<State>, data: bytes): Option<State> {
    if s.None? then None else Some(After(s.value, data))
  }

  lemma PlainAppend(s: Option<State>, a: bytes, b: bytes)
    ensures Plain(s, a + b) == Plain(s, a) + Plain(Then(s, a), b)
    ensures Then(s, a + b) == Then(Then(s, a), b)
  {
    hide Decrypted, After;
    if s.Some? {
      DecryptAppend(s.value, a, b);
    }
  }

  lemma PlainNothing(s: Option<State>)
    ensures Plain(s, []) == [] && Then(s, []) == s
  {
    if s.Some? {
      DecryptNothing(s.value);
    }
  }

  // ---------- objects ----------

  datatype Decryptor =
    | ZipObject(z: ZipCrypto.Cipher) | AesObject(a: Ctr.AesCtrDecryptor) | LeaObject(l: Ctr.LeaCtrDecryptor)
  {
    ghost function Parts(): set<object> {
      match this
      case ZipObject(z) => {z.key}
      case AesObject(a) => {a, a.counter, a.keystream}
      case LeaObject(l) => {l, l.counter, l.keystream}
    }

    ghost predicate Valid()
      reads Parts()
    {
      match this
      case ZipObject(z) => z.Valid()
      case AesObject(a) => a.Valid()
      case LeaObject(l) => l.Valid()
    }

    ghost function Now(): State
      requires Valid()
      reads Parts()
    {
      match this
      case ZipObject(z) => Zip(z.State())
      case AesObject(a) => Stream(a.StreamMode(), a.position)
      case LeaObject(l) => Stream(l.StreamMode(), l.position)
    }

    /** `decrypt`, by dynamic dispatch. */
    method Decrypt(data: array<byte>)
      requires Valid() && data !in Parts()
      modifies Parts(), data
      ensures Valid() && data[..] == Decrypted(old(Now()), old(data[..])) && Now() == After(old(Now()), old(data[..]))
    {
      hide ZipCrypto.Decrypted, ZipCrypto.Absorb, Ctr.Crypted, Ctr.AtPosition, Ctr.LeaMode;
      match this {
        case ZipObject(z) => z.Decrypt(data);
        case AesObject(a) => a.Decrypt(data);
        case LeaObject(l) => l.Decrypt(data);
      }
    }
  }

  ghost function PartsOf(d: Option<Decryptor>): set<object> {
    if d.None? then {} else d.value.Parts()
  }

  ghost predicate Ready(d: Option<Decryptor>)
    reads PartsOf(d)
  {
    d.Some? ==> d.value.Valid()
  }

  ghost function StateOf(d: Option<Decryptor>): Option<State>
    requires Ready(d)
    reads PartsOf(d)
  {
    if d.None? then None else Some(d.value.Now())
  }

  /** `if let Some(c) = crypto { c.decrypt(&mut buf[..n]) }`. */
  method DecryptFront(d: Option<Decryptor>, buf: array<byte>, n: nat)
    requires Ready(d) && n <= buf.Length && buf !in PartsOf(d)
    modifies PartsOf(d), buf
    ensures Ready(d)
    ensures buf[..n] == Plain(old(StateOf(d)), old(buf[..n])) && StateOf(d) == Then(old(StateOf(d)), old(buf[..n]))
    ensures buf[n..] == old(buf[n..])
  {
    hide Decrypted, After, Decryptor.Now, Decryptor.Valid;
    if d.Some? {
      ghost var was, now := buf[..n], d.value.Now();
      var front := new byte[n];
      forall i | 0 <= i < n {
        front[i] := buf[i];
      }
      assert front[..] == was && d.value.Now() == now;
      d.value.Decrypt(front);
      ghost var tail := buf[n..];
      assert d.value.Now() == After(now, was);
      forall i | 0 <= i < n {
        buf[i] := front[i];
      }
      assert buf[..n] == front[..] && buf[n..] == tail;
    }
  }

  // ---------- set-up ----------

  type KeyDerivation = f: (bytes, bytes, nat) -> bytes
    | forall pw: bytes, salt: bytes, n: nat :: |f(pw, salt, n)| == n
    witness (pw: bytes, salt: bytes, n: nat) => seq(n, _ => 0)

  /** What a foreign decoder does with its input: the writes it makes, and whether it then succeeds. */
  datatype Decoding = Decoding(writes: seq<bytes>, ok: bool)

  /** lzma-rs: a stream with its header, and a limit on its buffer. */
  type LzmaDecoder = (bytes, nat) -> Decoding

  /** bzip2 and libazo: what is there of a block, its declared compressed size, its declared output size. */
  type ForeignDecoder = (CompressionMethod, bytes, nat, nat) -> Decoding

  /** Foreign code: PBKDF2-HMAC-SHA1 with 1000 rounds, AES under a key, HMAC-SHA1 under a key, the decompressors. */
  datatype Primitives = Primitives(
    pbkdf2: KeyDerivation, aes: bytes -> Ctr.BlockCipher, hmac: (bytes, bytes) -> bytes,
    inflate: Inflater, lzma: LzmaDecoder, foreign: ForeignDecoder)

  datatype AuthInfo = AuthInfo(key: bytes, tag: bytes)

  datatype FileCrypto = FileCrypto(start: State, auth: Option<AuthInfo>)

  /** `auth_footer`: the ten bytes after salt and verifier, if they are there. */
  function AuthFooter(data: bytes, saltSize: nat): Option<bytes> {
    if saltSize + 12 <= |data| then Some(data[saltSize + 2..saltSize + 12]) else None
  }

  /** `setup_decryptor`. */
  function Setup(env: Primitives, e: EggFileEntry, password: Option<bytes>): Result<Option<FileCrypto>> {
    if e.encryptInfo.None? then Ok(None)
    else if password.None? then Err(PasswordNotSet)
    else
      var data := e.encryptInfo.value.data;
      match e.encryptInfo.value.cipher
      case ZipCrypto => SetupZip(data, password.value)
      case Aes128 => SetupStream(env, true, 16, 8, data, password.value)
      case Aes256 => SetupStream(env, true, 32, 16, data, password.value)
      case Lea128 => SetupStream(env, false, 16, 8, data, password.value)
      case Lea256 => SetupStream(env, false, 32, 16, data, password.value)
      case UnknownEncryption(n) => Err(UnsupportedEncryption(n))
  }

  /** A 12-byte header and the CRC whose top byte it must end with. */
  function SetupZip(data: bytes, password: bytes): Result<Option<FileCrypto>> {
    var keys := ZipCrypto.Absorb(ZipCrypto.INITIAL_KEYS, password);
    if |data| < 16 then Err(CorruptedFile)
    else if !ZipCrypto.PasswordMatches(keys, data[..12], StoredCrc(data)) then Err(InvalidPassword)
    else Ok(Some(FileCrypto(Zip(ZipCrypto.Absorb(keys, ZipCrypto.Decrypted(keys, data[..12]))), None)))
  }

  function StoredCrc(data: bytes): bv32
    requires |data| >= 16
  {
    Words.WordOf(data[12], data[13], data[14], data[15])
  }

  /** Salt and 2-byte verifier; the derived bytes are cipher key, authentication key, verifier. */
  function SetupStream(
    env: Primitives, aes: bool, keySize: nat, saltSize: nat, data: bytes, password: bytes): Result<Option<FileCrypto>>
    requires keySize == 16 || keySize == 32
  {
    if |data| < saltSize + 2 then Err(CorruptedFile)
    else
      var derived := env.pbkdf2(password, data[..saltSize], 2 * keySize + 2);
      if derived[2 * keySize..] != data[saltSize..saltSize + 2] then Err(InvalidPassword)
      else
        var footer := AuthFooter(data, saltSize);
        Ok(Some(FileCrypto(
          Stream(StreamModeFor(env, aes, derived[..keySize]), 0),
          if footer.None? then None else Some(AuthInfo(derived[keySize..2 * keySize], footer.value)))))
  }

  function StreamModeFor(env: Primitives, aes: bool, key: bytes): Ctr.Mode
    requires |key| == 16 || |key| == 32
  {
    if aes then Ctr.Mode(env.aes(key), false, 1)
    else Ctr.LeaMode(if |key| == 16 then Lea.Schedule128(key, 24) else Lea.Schedule256(key, 32))
  }

  /** `setup_decryptor`: the object, in the state the function says. */
  method SetupObject(env: Primitives, e: EggFileEntry, password: Option<bytes>)
    returns (res: Result<Option<AuthInfo>>, d: Option<Decryptor>)
    ensures fresh(PartsOf(d)) && SetUp(Setup(env, e, password), res, d)
  {
    hide SetupZip, SetupStream, Decryptor.Now, Decryptor.Valid;
    d := None;
    if e.encryptInfo.None? {
      return Ok(None), d;
    }
    if password.None? {
      return Err(PasswordNotSet), d;
    }
    var data := e.encryptInfo.value.data;
    match e.encryptInfo.value.cipher {
      case ZipCrypto => res, d := ZipObjectFor(data, password.value);
      case Aes128 => res, d := StreamObjectFor(env, true, 16, 8, data, password.value);
      case Aes256 => res, d := StreamObjectFor(env, true, 32, 16, data, password.value);
      case Lea128 => res, d := StreamObjectFor(env, false, 16, 8, data, password.value);
      case Lea256 => res, d := StreamObjectFor(env, false, 32, 16, data, password.value);
      case UnknownEncryption(n) => res := Err(UnsupportedEncryption(n));
    }
  }

  ghost predicate SetUp(spec: Result<Option<FileCrypto>>, res: Result<Option<AuthInfo>>, d: Option<Decryptor>)
    reads PartsOf(d)
  {
    Ready(d) &&
    match spec
    case Err(error) => res == Err(error)
    case Ok(None) => res == Ok(None) && d == None
    case Ok(Some(c)) => res == Ok(c.auth) && StateOf(d) == Some(c.start)
  }

  method ZipObjectFor(data: bytes, password: bytes) returns (res: Result<Option<AuthInfo>>, d: Option<Decryptor>)
    ensures fresh(PartsOf(d)) && SetUp(SetupZip(data, password), res, d)
  {
    hide ZipCrypto.Absorb, ZipCrypto.Decrypted, ZipCrypto.PasswordMatches, StoredCrc;
    d := None;
    var z := new ZipCrypto.Cipher(password);
    if |data| < 16 {
      return Err(CorruptedFile), d;
    }
    var matches := z.CheckPassword(data[..12], StoredCrc(data));
    if !matches {
      return Err(InvalidPassword), d;
    }
    d := Some(ZipObject(z));
    return Ok(None), d;
  }

  method StreamObjectFor(env: Primitives, aes: bool, keySize: nat, saltSize: nat, data: bytes, password: bytes)
    returns (res: Result<Option<AuthInfo>>, d: Option<Decryptor>)
    requires keySize == 16 || keySize == 32
    ensures fresh(PartsOf(d)) && SetUp(SetupStream(env, aes, keySize, saltSize, data, password), res, d)
  {
    hide AuthFooter, StreamModeFor, Decryptor.Now, Decryptor.Valid;
    d := None;
    if |data| < saltSize + 2 {
      return Err(CorruptedFile), d;
    }
    var derived := env.pbkdf2(password, data[..saltSize], 2 * keySize + 2);
    if derived[2 * keySize..] != data[saltSize..saltSize + 2] {
      return Err(InvalidPassword), d;
    }
    d := StreamObject(env, aes, derived[..keySize]);
    var footer := AuthFooter(data, saltSize);
    res := Ok(if footer.None? then None else Some(AuthInfo(derived[keySize..2 * keySize], footer.value)));
  }

  method StreamObject(env: Primitives, aes: bool, key: bytes) returns (d: Option<Decryptor>)
    requires |key| == 16 || |key| == 32
    ensures d.Some? && fresh(d.value.Parts()) && d.value.Valid()
    ensures d.value.Now() == Stream(StreamModeFor(env, aes, key), 0)
  {
    hide Lea.Schedule128, Lea.Schedule256, Ctr.AtPosition, Ctr.LeaMode;
    if aes {
      var a := new Ctr.AesCtrDecryptor(env.aes(key));
      d := Some(AesObject(a));
    } else {
      var lea: Lea.LeaCipher;
      if |key| == 16 {
        lea := new Lea.LeaCipher.New128(key);
      } else {
        lea := new Lea.LeaCipher.New256(key);
      }
      var l := new Ctr.LeaCtrDecryptor(lea);
      d := Some(LeaObject(l));
    }
  }
}
