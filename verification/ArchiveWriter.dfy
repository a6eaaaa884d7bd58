/**
 The archives the parser is meant to read, as values: every record with its flags, its declared size and any
 padding the declared size covers, in any order the grammar allows; their bytes; and the entries they stand for.
 The record shapes are those of the synthesizer in tests/synthetic.rs.
 */
module ArchiveWriter {
  import opened Bytes
  import opened Errors
  import opened ArchiveFormat
  import Words

  // ---------- records ----------

  datatype PrefixRecord =
    | SplitRecord(flags: byte, declared: nat, prevId: nat, nextId: nat, padding: bytes)
    | SolidRecord(flags: byte, data: bytes)
    | SkippedRecord(flags: byte, data: bytes)
    | GlobalEncryptRecord(flags: byte, data: bytes)

  datatype SubRecord =
    | NameRecord(flags: byte, locale: nat, parent: nat, name: bytes)
    | CommentRecord(flags: byte, data: bytes)
    | WindowsRecord(flags: byte, time: nat, attr: byte, padding: bytes)
    | PosixRecord(flags: byte, mode: nat, uid: nat, gid: nat, mtime: nat, padding: bytes)

  datatype EncryptRecord = EncryptRecord(flags: byte, cipher: EncryptionMethod, declared: nat, payload: bytes)

  datatype BlockRecord = BlockRecord(
    compression: CompressionMethod, hint: byte, uncompressedSize: nat, crc: bv32, data: bytes)

  datatype FileRecord = FileRecord(
    id: nat, size: nat, subs: seq<SubRecord>, encrypt: Option<EncryptRecord>, blocks: seq<BlockRecord>)

  datatype BodyRecord =
    | FileBody(file: FileRecord)
    | CommentBody(flags: byte, data: bytes)
    | DummyBody(flags: byte, data: bytes)
    | VolumeBoundary

  datatype ArchiveValue = ArchiveValue(
    version: nat, headerId: nat, reserved: nat, prefix: seq<PrefixRecord>, body: seq<BodyRecord>, trailing: bytes)

  // ---------- bytes ----------

  function Sig(n: nat): bytes {
    LeBytes(n, 4)
  }

  /** Flags and a size as wide as bit 0 says. */
  function ExtraBytes(flags: byte, size: nat): bytes {
    [flags] + LeBytes(size, if HasFlag(flags, 1) then 4 else 2)
  }

  predicate SizeFits(flags: byte, size: nat) {
    size < if HasFlag(flags, 1) then TWO_32 else TWO_16
  }

  function DataBytes(flags: byte, data: bytes): bytes {
    ExtraBytes(flags, |data|) + data
  }

  function PrefixBytes(r: PrefixRecord): bytes {
    match r
    case SplitRecord(flags, declared, prev, next, padding) =>
      Sig(SIG_SPLIT_INFO) + (ExtraBytes(flags, declared) + (LeBytes(prev, 4) + (LeBytes(next, 4) + padding)))
    case SolidRecord(flags, data) => Sig(SIG_SOLID_INFO) + DataBytes(flags, data)
    case SkippedRecord(flags, data) => Sig(SIG_SKIP) + DataBytes(flags, data)
    case GlobalEncryptRecord(flags, data) => Sig(SIG_GLOBAL_ENCRYPT) + DataBytes(flags, data)
  }

  function PrefixSection(rs: seq<PrefixRecord>): bytes {
    if rs == [] then Sig(SIG_END_MARKER) else PrefixBytes(rs[0]) + PrefixSection(rs[1..])
  }

  function LocaleBytes(flags: byte, locale: nat): bytes {
    if HasFlag(flags, 0x08) then LeBytes(locale, 2) else []
  }

  function ParentBytes(flags: byte, parent: nat): bytes {
    if HasFlag(flags, 0x10) then LeBytes(parent, 4) else []
  }

  function NameSize(r: SubRecord): nat
    requires r.NameRecord?
  {
    |LocaleBytes(r.flags, r.locale)| + |ParentBytes(r.flags, r.parent)| + |r.name|
  }

  function SubSig(r: SubRecord): nat {
    match r
    case NameRecord(_, _, _, _) => SIG_FILENAME
    case CommentRecord(_, _) => SIG_COMMENT
    case WindowsRecord(_, _, _, _) => SIG_WINDOWS_FILE_INFO
    case PosixRecord(_, _, _, _, _, _) => SIG_POSIX_FILE_INFO
  }

  function SubPayload(r: SubRecord): bytes {
    match r
    case NameRecord(flags, locale, parent, name) =>
      ExtraBytes(flags, NameSize(r)) + (LocaleBytes(flags, locale) + (ParentBytes(flags, parent) + name))
    case CommentRecord(flags, data) => DataBytes(flags, data)
    case WindowsRecord(flags, time, attr, padding) =>
      ExtraBytes(flags, 9 + |padding|) + (LeBytes(time, 8) + ([attr] + padding))
    case PosixRecord(flags, mode, uid, gid, mtime, padding) =>
      ExtraBytes(flags, 20 + |padding|)
      + (LeBytes(mode, 4) + (LeBytes(uid, 4) + (LeBytes(gid, 4) + (LeBytes(mtime, 8) + padding))))
  }

  function SubRecordBytes(r: SubRecord): bytes {
    Sig(SubSig(r)) + SubPayload(r)
  }

  /** The byte a producer writes for a cipher. */
  function CipherByte(c: EncryptionMethod): nat {
    match c
    case ZipCrypto => 0
    case Aes128 => 1
    case Aes256 => 2
    case Lea128 => 5
    case Lea256 => 6
    case UnknownEncryption(n) => n
  }

  /** The byte a producer writes for a compression method. */
  function MethodByte(m: CompressionMethod): nat {
    match m
    case Store => 0
    case Deflate => 1
    case Bzip2 => 2
    case Azo => 3
    case Lzma => 4
    case UnknownCompression(n) => n
  }

  function EncryptBytes(e: EncryptRecord): bytes {
    Sig(SIG_ENCRYPT_INFO) + (ExtraBytes(e.flags, 1 + e.declared) + (LeBytes(CipherByte(e.cipher), 1) + e.payload))
  }

  /** The sub-headers of a file; the encryption record, if any, is the last. */
  function SubSection(rs: seq<SubRecord>, encrypt: Option<EncryptRecord>): bytes {
    if rs == [] then
      (if encrypt.Some? then EncryptBytes(encrypt.value) else []) + Sig(SIG_END_MARKER)
    else SubRecordBytes(rs[0]) + SubSection(rs[1..], encrypt)
  }

  function BlockHead(b: BlockRecord): bytes {
    LeBytes(MethodByte(b.compression), 1) + ([b.hint] + (LeBytes(b.uncompressedSize, 4) + (LeBytes(|b.data|, 4)
    + (Words.BytesOf(b.crc) + Sig(SIG_END_MARKER)))))
  }

  function BlockBytes(b: BlockRecord): bytes {
    Sig(SIG_BLOCK_HEADER) + (BlockHead(b) + b.data)
  }

  function BlockSection(bs: seq<BlockRecord>): bytes {
    if bs == [] then [] else BlockBytes(bs[0]) + BlockSection(bs[1..])
  }

  function FileBytes(f: FileRecord): bytes {
    LeBytes(f.id, 4) + (LeBytes(f.size, 8) + (SubSection(f.subs, f.encrypt) + BlockSection(f.blocks)))
  }

  function BodyBytes(r: BodyRecord): bytes {
    match r
    case FileBody(f) => Sig(SIG_FILE_HEADER) + FileBytes(f)
    case CommentBody(flags, data) => Sig(SIG_COMMENT) + DataBytes(flags, data)
    case DummyBody(flags, data) => Sig(SIG_DUMMY) + DataBytes(flags, data)
    case VolumeBoundary => Sig(SIG_END_MARKER)
  }

  function BodySection(rs: seq<BodyRecord>): bytes {
    if rs == [] then Sig(SIG_END_MARKER) else BodyBytes(rs[0]) + BodySection(rs[1..])
  }

  function HeaderBytes(a: ArchiveValue): bytes {
    Sig(SIG_EGG_HEADER) + (LeBytes(a.version, 2) + (LeBytes(a.headerId, 4) + LeBytes(a.reserved, 4)))
  }

  function Serialized(a: ArchiveValue): bytes {
    HeaderBytes(a) + (PrefixSection(a.prefix) + (BodySection(a.body) + a.trailing))
  }

  // ---------- well-formedness: every number fits its field ----------

  predicate PrefixFits(r: PrefixRecord) {
    match r
    case SplitRecord(flags, declared, prev, next, padding) =>
      SizeFits(flags, declared) && prev < TWO_32 && next < TWO_32 && |padding| == Minus(declared, 8)
    case SolidRecord(flags, data) => SizeFits(flags, |data|)
    case SkippedRecord(flags, data) => SizeFits(flags, |data|)
    case GlobalEncryptRecord(flags, data) => SizeFits(flags, |data|)
  }

  predicate SubFits(r: SubRecord) {
    match r
    case NameRecord(flags, locale, parent, name) =>
      SizeFits(flags, NameSize(r)) && locale < TWO_16 && parent < TWO_32
    case CommentRecord(flags, data) => SizeFits(flags, |data|)
    case WindowsRecord(flags, time, attr, padding) => SizeFits(flags, 9 + |padding|) && time < TWO_64
    case PosixRecord(flags, mode, uid, gid, mtime, padding) =>
      SizeFits(flags, 20 + |padding|) && mode < TWO_32 && uid < TWO_32 && gid < TWO_32 && mtime < TWO_64
  }

  /** The payload has one of its cipher's lengths; the declared size is that length, or no payload length at all. */
  predicate EncryptFits(e: EncryptRecord) {
    && SizeFits(e.flags, 1 + e.declared)
    && |e.payload| in WrittenLengths(e.cipher)
    && (e.declared == |e.payload| || e.declared !in WrittenLengths(e.cipher))
  }

  /** What a producer writes: 12 header bytes and a CRC; or salt and verifier, with or without a 10-byte tag. */
  function WrittenLengths(c: EncryptionMethod): set<nat> {
    match c
    case ZipCrypto => {16}
    case Aes128 | Lea128 => {20, 10}
    case Aes256 | Lea256 => {28, 18}
    case UnknownEncryption(_) => {}
  }

  /** A short payload under a declared size that is not its own: the reader tries the longer length first. */
  predicate LongerIsTried(encrypt: Option<EncryptRecord>) {
    && encrypt.Some?
    && encrypt.value.declared != |encrypt.value.payload|
    && |encrypt.value.payload| + 10 in WrittenLengths(encrypt.value.cipher)
  }

  predicate BlockFits(b: BlockRecord) {
    && b.uncompressedSize < TWO_32 && |b.data| < TWO_32
    && (b.compression.UnknownCompression? ==> 4 < b.compression.code < 256)
  }

  /**
   Every number fits. Where the reader tries the longer payload length first, it looks at the size of the first
   block, which must not read as an end marker.
   */
  predicate FileFits(f: FileRecord) {
    && f.id < TWO_32 && f.size < TWO_64
    && (forall r :: r in f.subs ==> SubFits(r))
    && (f.encrypt.Some? ==> EncryptFits(f.encrypt.value))
    && (LongerIsTried(f.encrypt) ==> f.blocks != [] && f.blocks[0].uncompressedSize != SIG_END_MARKER)
    && (forall b :: b in f.blocks ==> BlockFits(b))
  }

  predicate BodyFits(r: BodyRecord) {
    match r
    case FileBody(f) => FileFits(f)
    case CommentBody(flags, data) => SizeFits(flags, |data|)
    case DummyBody(flags, data) => SizeFits(flags, |data|)
    case VolumeBoundary => true
  }

  /** A volume boundary is followed by another record that is not one. */
  predicate BoundariesInside(rs: seq<BodyRecord>) {
    forall i :: 0 <= i < |rs| && rs[i].VolumeBoundary? ==> i + 1 < |rs| && !rs[i + 1].VolumeBoundary?
  }

  predicate WellFormed(a: ArchiveValue) {
    && a.version < TWO_16 && a.headerId < TWO_32 && a.reserved < TWO_32
    && (forall r :: r in a.prefix ==> PrefixFits(r))
    && (forall r :: r in a.body ==> BodyFits(r))
    && BoundariesInside(a.body)
    && !ContinuesAfterEnd(Num(a.trailing, 0, 4))
  }

  // ---------- meaning ----------

  function PrefixMeaning(rs: seq<PrefixRecord>, acc: Prefix): Prefix
    decreases |rs|
  {
    if rs == [] then acc
    else PrefixMeaning(rs[1..], match rs[0]
      case SplitRecord(_, _, prev, next, _) => acc.(split := Some(SplitInfo(prev, next)))
      case SolidRecord(_, _) => acc.(isSolid := true)
      case _ => acc)
  }

  function SubMeaning(decode: NameDecoder, r: SubRecord, e: EggFileEntry): EggFileEntry {
    match r
    case NameRecord(flags, locale, parent, name) =>
      e.(fileName := NormalizePath(
           decode(HasFlag(flags, 0x08), if HasFlag(flags, 0x08) then Some(locale) else None, name)),
         parentId := if HasFlag(flags, 0x10) then Some(parent) else e.parentId)
    case CommentRecord(_, _) => e
    case WindowsRecord(_, time, attr, _) => e.(fileTime := Some(time), fileAttr := OrByte(e.fileAttr, attr))
    case PosixRecord(_, mode, _, _, mtime, _) => WithPosix(e, mode, mtime)
  }

  function SubsMeaning(decode: NameDecoder, rs: seq<SubRecord>, e: EggFileEntry): EggFileEntry
    decreases |rs|
  {
    if rs == [] then e else SubsMeaning(decode, rs[1..], SubMeaning(decode, rs[0], e))
  }

  function EncryptMeaning(encrypt: Option<EncryptRecord>, h: Header): Header {
    if encrypt.None? then h
    else
      var e := encrypt.value;
      Header(h.entry.(encryptInfo := Some(EncryptInfo(e.cipher, e.payload))), true)
  }

  /** Blocks laid out from position p on: the data follows an 18-byte head and the 4-byte signature. */
  function BlocksMeaning(bs: seq<BlockRecord>, p: nat): (r: seq<EggBlock>)
    ensures |r| == |bs|
    decreases |bs|
  {
    if bs == [] then []
    else
      var b := bs[0];
      [EggBlock(b.compression, b.uncompressedSize, |b.data|, b.crc, p + 22)]
      + BlocksMeaning(bs[1..], p + 22 + |b.data|)
  }

  function FileMeaning(decode: NameDecoder, f: FileRecord, p: nat, encrypted: bool): Header {
    var h := EncryptMeaning(f.encrypt, Header(SubsMeaning(decode, f.subs, EmptyEntry(f.id, f.size)), encrypted));
    h.(entry := h.entry.(blocks := BlocksMeaning(f.blocks, p + 12 + |SubSection(f.subs, f.encrypt)|)))
  }

  function BodyMeaning(decode: NameDecoder, rs: seq<BodyRecord>, p: nat, b: Body): Body
    decreases |rs|
  {
    if rs == [] then b
    else BodyMeaning(decode, rs[1..], p + |BodyBytes(rs[0])|,
      if rs[0].FileBody? then
        var h := FileMeaning(decode, rs[0].file, p + 4, b.encrypted);
        Body(b.entries + [h.entry], h.encrypted)
      else b)
  }

  /** What opening the archive should give. */
  function Meaning(decode: NameDecoder, a: ArchiveValue): Archive {
    var prefix := PrefixMeaning(a.prefix, Prefix(false, None));
    var body := BodyMeaning(decode, a.body, 14 + |PrefixSection(a.prefix)|, Body([], false));
    Archive(Resolved(body.entries), body.encrypted, prefix.isSolid, a.headerId, prefix.split)
  }
}
