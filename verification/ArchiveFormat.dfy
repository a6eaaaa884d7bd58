/** The records of an EGG archive and the functions that read them from a byte sequence: src/archive.rs on values. */
module ArchiveFormat {
  import opened Bytes
  import opened Errors
  import Words
  import Calendar

  const SIG_EGG_HEADER := 0x41474745
  const SIG_SPLIT_INFO := 0x24F5A262
  const SIG_SOLID_INFO := 0x24E5A060
  const SIG_FILE_HEADER := 0x0A8590E3
  const SIG_FILENAME := 0x0A8591AC
  const SIG_COMMENT := 0x04C63672
  const SIG_WINDOWS_FILE_INFO := 0x2C86950B
  const SIG_ENCRYPT_INFO := 0x08D1470F
  const SIG_BLOCK_HEADER := 0x02B50C13
  const SIG_DUMMY := 0x07463307
  const SIG_END_MARKER := 0x08E28222
  const SIG_SKIP := 0xFFFF0000
  const SIG_GLOBAL_ENCRYPT := 0x08D144A8
  const SIG_POSIX_FILE_INFO := 0x1EE922E5

  // ---------- values ----------

  datatype CompressionMethod = Store | Deflate | Bzip2 | Azo | Lzma | UnknownCompression(code: nat)

  function CompressionFromByte(b: nat): CompressionMethod {
    match b
    case 0 => Store
    case 1 => Deflate
    case 2 => Bzip2
    case 3 => Azo
    case 4 => Lzma
    case n => UnknownCompression(n)
  }

  datatype EncryptionMethod = ZipCrypto | Aes128 | Aes256 | Lea128 | Lea256 | UnknownEncryption(code: nat) {
    /** `payload_lengths`, longest first. */
    function PayloadLengths(): seq<nat> {
      match this
      case ZipCrypto => [16]
      case Aes128 | Lea128 => [20, 10]
      case Aes256 | Lea256 => [28, 18]
      case UnknownEncryption(_) => []
    }
  }

  function EncryptionFromByte(b: nat): EncryptionMethod {
    match b
    case 0 => ZipCrypto
    case 1 => Aes128
    case 2 => Aes256
    case 5 => Lea128
    case 6 => Lea256
    case n => UnknownEncryption(n)
  }

  datatype EncryptInfo = EncryptInfo(cipher: EncryptionMethod, data: bytes)

  datatype EggBlock = EggBlock(
    compression: CompressionMethod, uncompressedSize: nat, compressedSize: nat, crc32: bv32, dataPos: nat)

  datatype EggFileEntry = EggFileEntry(
    fileName: string, fileId: nat, uncompressedSize: nat, blocks: seq<EggBlock>,
    encryptInfo: Option<EncryptInfo>, fileTime: Option<nat>, fileAttr: byte, parentId: Option<nat>)
  {
    predicate IsDirectory() {
      HasFlag(fileAttr, 0x80)
    }
  }

  datatype SplitInfo = SplitInfo(prevId: nat, nextId: nat)

  datatype Prefix = Prefix(isSolid: bool, split: Option<SplitInfo>)

  datatype Archive = Archive(
    entries: seq<EggFileEntry>, isEncrypted: bool, isSolid: bool, headerId: nat, split: Option<SplitInfo>)

  /** How name bytes become text: area-code flag, locale, bytes. Foreign code, given as a parameter. */
  type NameDecoder = (bool, Option<nat>, bytes) -> string

  predicate HasFlag(b: byte, mask: byte) {
    b & mask != 0
  }

  function OrByte(a: byte, b: byte): byte {
    a | b
  }

  // ---------- names ----------

  predicate IsControl(c: char) {
    c < ' ' || '\U{7f}' <= c <= '\U{9f}'
  }

  function ForwardSlashes(s: string): string {
    if s == "" then "" else [if s[0] == '\\' then '/' else s[0]] + ForwardSlashes(s[1..])
  }

  function TrimStart(s: string): string {
    if s != "" && s[0] == '/' then TrimStart(s[1..]) else s
  }

  function TrimEnd(s: string): string {
    if s != "" && s[|s| - 1] == '/' then TrimEnd(s[..|s| - 1]) else s
  }

  function DropControls(s: string): string {
    if s == "" then "" else (if IsControl(s[0]) then "" else [s[0]]) + DropControls(s[1..])
  }

  /** `normalize_path`. */
  function NormalizePath(s: string): string {
    DropControls(TrimStart(ForwardSlashes(s)))
  }

  // ---------- fields ----------

  /** A little-endian field of k bytes, or the error of a short read. */
  function Num(s: bytes, p: nat, k: nat): (r: Result<nat>)
    ensures r.Ok? ==> p + k <= |s|
  {
    if p + k <= |s| then Ok(LeValue(s[p..p + k])) else Err(Io)
  }

  /** A field kept as a 32-bit word. */
  function Word(s: bytes, p: nat): (r: Result<bv32>)
    ensures r.Ok? ==> p + 4 <= |s|
  {
    if p + 4 <= |s| then Ok(Words.WordOf(s[p], s[p + 1], s[p + 2], s[p + 3])) else Err(Io)
  }

  function Octet(s: bytes, p: nat): (r: Result<byte>)
    ensures r.Ok? ==> p + 1 <= |s|
  {
    if p + 1 <= |s| then Ok(s[p]) else Err(Io)
  }

  /** `read_exact_capped`. */
  function Exactly(s: bytes, p: nat, n: nat): (r: Result<bytes>)
    ensures r.Ok? ==> n == 0 || p + n <= |s|
  {
    if n == 0 then Ok([]) else if p + n <= |s| then Ok(s[p..p + n]) else Err(CorruptedFile)
  }

  datatype Extra = Extra(flags: byte, size: nat, next: nat)

  /** `read_extra_field`: flags, then a size of two or four bytes as bit 0 says. */
  function ExtraField(s: bytes, p: nat): (r: Result<Extra>)
    ensures r.Ok? ==> p < r.value.next <= |s|
  {
    var flags :- Octet(s, p);
    if HasFlag(flags, 1) then
      var size :- Num(s, p + 1, 4);
      Ok(Extra(flags, size, p + 5))
    else
      var size :- Num(s, p + 1, 2);
      Ok(Extra(flags, size, p + 3))
  }

  /** A record that is only skipped. */
  function SkipRecord(s: bytes, p: nat): (r: Result<nat>)
    ensures r.Ok? ==> r.value > p
  {
    var e :- ExtraField(s, p);
    Ok(e.next + e.size)
  }

  function Minus(a: nat, b: nat): nat {
    if a < b then 0 else a - b
  }

  // ---------- the prefix section ----------

  function ParsePrefix(s: bytes, p: nat, acc: Prefix): (r: Result<(Prefix, nat)>)
    ensures r.Ok? ==> p + 4 <= r.value.1 <= |s|
    decreases |s| - p
  {
    var sig :- Num(s, p, 4);
    if sig == SIG_SPLIT_INFO then
      var e :- ExtraField(s, p + 4);
      var prev :- Num(s, e.next, 4);
      var next :- Num(s, e.next + 4, 4);
      ParsePrefix(s, e.next + 8 + Minus(e.size, 8), acc.(split := Some(SplitInfo(prev, next))))
    else if sig == SIG_SOLID_INFO then
      var q :- SkipRecord(s, p + 4);
      ParsePrefix(s, q, acc.(isSolid := true))
    else if sig == SIG_SKIP || sig == SIG_GLOBAL_ENCRYPT then
      var q :- SkipRecord(s, p + 4);
      ParsePrefix(s, q, acc)
    else if sig == SIG_END_MARKER then Ok((acc, p + 4))
    else Err(CorruptedFile)
  }

  // ---------- file entries ----------

  /** The encryption payload length the reader settles on. */
  function PayloadLength(s: bytes, p: nat, candidates: seq<nat>, declared: nat): nat {
    if declared in candidates && EndsAt(s, p + declared) then declared
    else FirstLanding(s, p, candidates, declared)
  }

  predicate EndsAt(s: bytes, p: nat) {
    Num(s, p, 4) == Ok(SIG_END_MARKER)
  }

  function FirstLanding(s: bytes, p: nat, candidates: seq<nat>, declared: nat): nat
    decreases |candidates|
  {
    if candidates == [] then declared
    else if EndsAt(s, p + candidates[0]) then candidates[0]
    else FirstLanding(s, p, candidates[1..], declared)
  }

  datatype Header = Header(entry: EggFileEntry, encrypted: bool)

  /** The sub-headers of one file, up to the end marker. */
  function ParseSubs(decode: NameDecoder, s: bytes, p: nat, h: Header): (r: Result<(Header, nat)>)
    ensures r.Ok? ==> p + 4 <= r.value.1 <= |s|
    decreases |s| - p
  {
    var sig :- Num(s, p, 4);
    if sig == SIG_END_MARKER then Ok((h, p + 4))
    else
      var (h', q) :- ParseSub(decode, s, p + 4, sig, h);
      ParseSubs(decode, s, q, h')
  }

  /** One sub-header after its signature. */
  function ParseSub(decode: NameDecoder, s: bytes, p: nat, sig: nat, h: Header): (r: Result<(Header, nat)>)
    ensures r.Ok? ==> r.value.1 > p
  {
    if sig == SIG_FILENAME then ParseName(decode, s, p, h)
    else if sig == SIG_COMMENT then
      var q :- SkipRecord(s, p);
      Ok((h, q))
    else if sig == SIG_WINDOWS_FILE_INFO then ParseWindows(s, p, h)
    else if sig == SIG_POSIX_FILE_INFO then ParsePosix(s, p, h)
    else if sig == SIG_ENCRYPT_INFO then ParseEncrypt(s, p, h)
    else Err(CorruptedFile)
  }

  function ParseName(decode: NameDecoder, s: bytes, p: nat, h: Header): (r: Result<(Header, nat)>)
    ensures r.Ok? ==> r.value.1 > p
  {
    var e :- ExtraField(s, p);
    var (locale, q, left) :- NameLocale(s, e);
    var (parent, q2, left2) :- NameParent(s, e.flags, q, left, h.entry.parentId);
    var name :- Exactly(s, q2, left2);
    Ok((h.(entry := h.entry.(fileName := NormalizePath(decode(HasFlag(e.flags, 0x08), locale, name)),
                             parentId := parent)),
        q2 + left2))
  }

  /** The optional locale code; what is left of the declared size must not go below zero. */
  function NameLocale(s: bytes, e: Extra): (r: Result<(Option<nat>, nat, nat)>)
    ensures r.Ok? ==> r.value.1 >= e.next
  {
    if HasFlag(e.flags, 0x08) then
      var lc :- Num(s, e.next, 2);
      if e.size < 2 then Err(CorruptedFile) else Ok((Some(lc), e.next + 2, e.size - 2))
    else Ok((None, e.next, e.size))
  }

  function NameParent(s: bytes, flags: byte, p: nat, left: nat, was: Option<nat>): (r: Result<(Option<nat>, nat, nat)>)
    ensures r.Ok? ==> r.value.1 >= p
  {
    if HasFlag(flags, 0x10) then
      var id :- Num(s, p, 4);
      if left < 4 then Err(CorruptedFile) else Ok((Some(id), p + 4, left - 4))
    else Ok((was, p, left))
  }

  function ParseWindows(s: bytes, p: nat, h: Header): (r: Result<(Header, nat)>)
    ensures r.Ok? ==> r.value.1 > p
  {
    var e :- ExtraField(s, p);
    if e.size < 9 then Err(CorruptedFile)
    else
      var time :- Num(s, e.next, 8);
      var attr :- Octet(s, e.next + 8);
      Ok((h.(entry := h.entry.(fileTime := Some(time), fileAttr := OrByte(h.entry.fileAttr, attr))),
          e.next + e.size))
  }

  function ParsePosix(s: bytes, p: nat, h: Header): (r: Result<(Header, nat)>)
    ensures r.Ok? ==> r.value.1 > p
  {
    var e :- ExtraField(s, p);
    if e.size < 20 then Err(CorruptedFile)
    else
      var mode :- Num(s, e.next, 4);
      var uid :- Num(s, e.next + 4, 4);
      var gid :- Num(s, e.next + 8, 4);
      var mtime :- Num(s, e.next + 12, 8);
      Ok((h.(entry := WithPosix(h.entry, mode, mtime)), e.next + e.size))
  }

  /** A directory mode sets the directory bit; the time counts only if no other record gave one. */
  function WithPosix(e: EggFileEntry, mode: nat, mtime: nat): EggFileEntry {
    e.(fileAttr := if mode / 0x1000 % 16 == 4 then OrByte(e.fileAttr, 0x80) else e.fileAttr,
       fileTime := if e.fileTime.None? then Some(Calendar.UnixToFiletime(mtime)) else e.fileTime)
  }

  function ParseEncrypt(s: bytes, p: nat, h: Header): (r: Result<(Header, nat)>)
    ensures r.Ok? ==> r.value.1 > p
  {
    var e :- ExtraField(s, p);
    if e.size == 0 then Err(CorruptedFile)
    else
      var code :- Num(s, e.next, 1);
      var cipher := EncryptionFromByte(code);
      if cipher.UnknownEncryption? then Err(UnsupportedEncryption(code))
      else
        var n := PayloadLength(s, e.next + 1, cipher.PayloadLengths(), e.size - 1);
        var data :- Exactly(s, e.next + 1, n);
        Ok((Header(h.entry.(encryptInfo := Some(EncryptInfo(cipher, data))), true), e.next + 1 + n))
  }

  // ---------- blocks ----------

  function ParseBlock(s: bytes, p: nat): (r: Result<(EggBlock, nat)>)
    ensures r.Ok? ==> r.value.1 > p
  {
    var code :- Num(s, p, 1);
    var hint :- Octet(s, p + 1);
    var uncompressed :- Num(s, p + 2, 4);
    var compressed :- Num(s, p + 6, 4);
    var crc :- Word(s, p + 10);
    var end :- Num(s, p + 14, 4);
    if end != SIG_END_MARKER then Err(CorruptedFile)
    else Ok((EggBlock(CompressionFromByte(code), uncompressed, compressed, crc, p + 18), p + 18 + compressed))
  }

  predicate EndsBlocks(sig: nat) {
    sig == SIG_COMMENT || sig == SIG_FILE_HEADER || sig == SIG_END_MARKER || sig == SIG_DUMMY
  }

  /** The blocks of one file; the signature that ends them is not consumed. */
  function ParseBlocks(s: bytes, p: nat, acc: seq<EggBlock>): (r: Result<(seq<EggBlock>, nat)>)
    ensures r.Ok? ==> p <= r.value.1 <= |s|
    decreases |s| - p
  {
    var sig :- Num(s, p, 4);
    if sig == SIG_BLOCK_HEADER then
      var (b, q) :- ParseBlock(s, p + 4);
      ParseBlocks(s, q, acc + [b])
    else if EndsBlocks(sig) then Ok((acc, p))
    else Err(CorruptedFile)
  }

  function EmptyEntry(id: nat, size: nat): EggFileEntry {
    EggFileEntry("", id, size, [], None, None, 0, None)
  }

  function ParseFileEntry(decode: NameDecoder, s: bytes, p: nat, encrypted: bool): (r: Result<(Header, nat)>)
    ensures r.Ok? ==> p < r.value.1 <= |s|
  {
    var id :- Num(s, p, 4);
    var size :- Num(s, p + 4, 8);
    var (h, q) :- ParseSubs(decode, s, p + 12, Header(EmptyEntry(id, size), encrypted));
    var (blocks, q2) :- ParseBlocks(s, q, []);
    Ok((h.(entry := h.entry.(blocks := blocks)), q2))
  }

  // ---------- the whole archive ----------

  datatype Body = Body(entries: seq<EggFileEntry>, encrypted: bool)

  predicate ContinuesAfterEnd(r: Result<nat>) {
    r.Ok? && (r.value == SIG_FILE_HEADER || r.value == SIG_COMMENT || r.value == SIG_DUMMY)
  }

  /** File entries and the records between them; an end marker ends the archive unless another record follows. */
  function ParseBody(decode: NameDecoder, s: bytes, p: nat, b: Body): (r: Result<Body>)
    decreases |s| - p
  {
    var sig :- Num(s, p, 4);
    if sig == SIG_FILE_HEADER then
      var (h, q) :- ParseFileEntry(decode, s, p + 4, b.encrypted);
      ParseBody(decode, s, q, Body(b.entries + [h.entry], h.encrypted))
    else if sig == SIG_COMMENT || sig == SIG_DUMMY then
      var q :- SkipRecord(s, p + 4);
      ParseBody(decode, s, q, b)
    else if sig == SIG_END_MARKER then
      if ContinuesAfterEnd(Num(s, p + 4, 4)) then ParseBody(decode, s, p + 4, b) else Ok(b)
    else Err(CorruptedFile)
  }

  /** The index of the last entry with the given id, or the number of entries. */
  function IndexOfId(entries: seq<EggFileEntry>, id: nat): (i: nat)
    ensures i <= |entries|
    ensures i < |entries| ==> entries[i].fileId == id
  {
    IndexBelow(entries, id, |entries|)
  }

  function IndexBelow(entries: seq<EggFileEntry>, id: nat, n: nat): (i: nat)
    requires n <= |entries|
    ensures (i < n && entries[i].fileId == id) || i == |entries|
  {
    if n == 0 then |entries| else if entries[n - 1].fileId == id then n - 1 else IndexBelow(entries, id, n - 1)
  }

  /** The name of entry i with its parent's path in front, one level only. */
  function ResolvedName(entries: seq<EggFileEntry>, i: nat): string
    requires i < |entries|
  {
    var e := entries[i];
    if e.parentId.None? then e.fileName
    else
      var k := IndexOfId(entries, e.parentId.value);
      if k == |entries| || k == i then e.fileName
      else
        var prefix := TrimEnd(entries[k].fileName);
        if prefix == "" then e.fileName else prefix + "/" + e.fileName
  }

  /** `resolve_relative_paths`. */
  function Resolved(entries: seq<EggFileEntry>): (r: seq<EggFileEntry>)
    ensures |r| == |entries|
  {
    seq(|entries|, i requires 0 <= i < |entries| => entries[i].(fileName := ResolvedName(entries, i)))
  }

  /** `EggArchive::open`. */
  function Open(decode: NameDecoder, s: bytes): Result<Archive> {
    var sig :- Num(s, 0, 4);
    if sig != SIG_EGG_HEADER then Err(NotEggFile)
    else
      var version :- Num(s, 4, 2);
      var headerId :- Num(s, 6, 4);
      var reserved :- Num(s, 10, 4);
      var (prefix, p) :- ParsePrefix(s, 14, Prefix(false, None));
      var body :- ParseBody(decode, s, p, Body([], false));
      Ok(Archive(Resolved(body.entries), body.encrypted, prefix.isSolid, headerId, prefix.split))
  }
}
