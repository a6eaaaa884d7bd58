/** What extracting one entry means, on values: its stored bytes, its one keystream, its blocks' checksums. */
module EntrySpec {
  import opened Bytes
  import opened Errors
  import opened ArchiveFormat
  import opened Disk
  import opened VolumeReader
  import opened Decryptors
  import opened Drivers
  import opened Inflation
  import Crc32

  // ---------- stored bytes ----------

  /** The bytes of one block in the archive; fewer than declared if the archive ends inside them. */
  function Stored(flat: bytes, b: EggBlock): bytes {
    Window(flat, b.dataPos, b.compressedSize)
  }

  predicate Present(flat: bytes, b: EggBlock) {
    |Stored(flat, b)| == b.compressedSize
  }

  predicate AllPresent(flat: bytes, blocks: seq<EggBlock>) {
    forall i :: 0 <= i < |blocks| ==> Present(flat, blocks[i])
  }

  /** The ciphertext of a file: its blocks joined. */
  function Joined(flat: bytes, blocks: seq<EggBlock>): bytes {
    if blocks == [] then []
    else Joined(flat, blocks[..|blocks| - 1]) + Stored(flat, blocks[|blocks| - 1])
  }

  /** The blocks one by one, the decryptor carried from each to the next. */
  function Pieces(start: Option<State>, flat: bytes, blocks: seq<EggBlock>): (r: seq<bytes>)
    ensures |r| == |blocks|
  {
    if blocks == [] then []
    else
      var rest := blocks[..|blocks| - 1];
      Pieces(start, flat, rest) + [Plain(Then(start, Joined(flat, rest)), Stored(flat, blocks[|blocks| - 1]))]
  }

  /** One keystream per file: decrypting block after block is decrypting the joined blocks. */
  lemma {:induction false} OneKeystream(start: Option<State>, flat: bytes, blocks: seq<EggBlock>)
    ensures Flatten(Pieces(start, flat, blocks)) == Plain(start, Joined(flat, blocks))
  {
    hide Plain, Then, Stored;
    if blocks == [] {
      PlainNothing(start);
    } else {
      var rest, last := blocks[..|blocks| - 1], Stored(flat, blocks[|blocks| - 1]);
      var piece := Plain(Then(start, Joined(flat, rest)), last);
      OneKeystream(start, flat, rest);
      PlainAppend(start, Joined(flat, rest), last);
      FlattenAppend(Pieces(start, flat, rest), [piece]);
      FlattenOne(piece);
    }
  }

  lemma FlattenOne(piece: bytes)
    ensures Flatten([piece]) == piece
  {
    assert [piece][1..] == [];
  }

  // ---------- authentication ----------

  predicate TagMatches(env: Primitives, auth: AuthInfo, message: bytes) {
    var computed := env.hmac(auth.key, message);
    |auth.tag| == 10 && |computed| >= 10 && computed[..10] == auth.tag
  }

  /** `verify_hmac`: the joined ciphertext must be there and carry the stored tag. */
  function Verified(env: Primitives, flat: bytes, blocks: seq<EggBlock>, auth: Option<AuthInfo>): Result<Unit> {
    if auth.None? then Ok(Unit.Unit)
    else if !AllPresent(flat, blocks) then Err(Io)
    else if TagMatches(env, auth.value, Joined(flat, blocks)) then Ok(Unit.Unit)
    else Err(AuthenticationFailed)
  }

  function AuthOf(c: Option<FileCrypto>): Option<AuthInfo> {
    if c.None? then None else c.value.auth
  }

  function StartOf(c: Option<FileCrypto>): Option<State> {
    if c.None? then None else Some(c.value.start)
  }

  /** Set-up and authentication: the state a file's decryptor starts from. */
  function Begin(env: Primitives, flat: bytes, e: EggFileEntry, password: Option<bytes>): Result<Option<State>> {
    var c :- Setup(env, e, password);
    var _ :- Verified(env, flat, e.blocks, AuthOf(c));
    Ok(StartOf(c))
  }

  // ---------- one entry ----------

  predicate StoreOnly(blocks: seq<EggBlock>) {
    forall i :: 0 <= i < |blocks| ==> blocks[i].compression == Store
  }

  /** Blocks whose drivers read them to the end: all but deflate blocks, whose stream may be over before. */
  predicate WholeBlocks(blocks: seq<EggBlock>) {
    forall i :: 0 <= i < |blocks| ==> blocks[i].compression != Deflate
  }

  /** The error when the driver of this compression is refused a write ... */
  function Refusal(m: CompressionMethod): Error {
    match m
    case Lzma => LzmaFailed
    case Azo => AzoFailed
    case _ => Io
  }

  /** ... and when its decoder gives up. */
  function Breakdown(m: CompressionMethod): Error {
    match m
    case Deflate => InflateFailed
    case Bzip2 => Bzip2Failed
    case Lzma => LzmaFailed
    case Azo => AzoFailed
    case UnknownCompression(n) => UnknownCompressionMethod(n)
    case Store => Io
  }

  /** What a stored block yields: it must be there and fit its declared size. */
  function StoredOutput(b: EggBlock, plain: bytes): Result<bytes> {
    if |plain| < b.compressedSize || b.compressedSize > b.uncompressedSize then Err(Io) else Ok(plain)
  }

  /** What a block yields from what is there of it, decrypted. */
  function BlockOutput(env: Primitives, b: EggBlock, plain: bytes): Result<bytes>
    requires |plain| <= b.compressedSize
  {
    match b.compression
    case Store => StoredOutput(b, plain)
    case Deflate => InflateOutcome(env.inflate, plain, b.compressedSize, b.uncompressedSize)
    case Lzma => LzmaOutcome(env.lzma, b.compressedSize, b.uncompressedSize, b.uncompressedSize, plain)
    case UnknownCompression(n) => Err(UnknownCompressionMethod(n))
    case m =>
      var d := env.foreign(m, plain, b.compressedSize, b.uncompressedSize);
      DecoderOutcome(d, b.uncompressedSize, Refusal(m), Breakdown(m))
  }

  /** How many of these bytes the block's driver reads, and so runs through the decryptor. */
  function BytesRead(env: Primitives, b: EggBlock, plain: bytes): (n: nat)
    requires |plain| <= b.compressedSize
    ensures n <= |plain|
  {
    if b.compression != Deflate then |plain|
    else Inflate(env.inflate, plain, b.compressedSize, b.uncompressedSize).taken
  }

  /** One block: its output, if its checksum matches. */
  function BlockOutcome(env: Primitives, b: EggBlock, plain: bytes): Result<bytes>
    requires |plain| <= b.compressedSize
  {
    var out :- BlockOutput(env, b, plain);
    if Crc32.Checksum(out) != b.crc32 then Err(InvalidFileCrc(b.crc32, Crc32.Checksum(out))) else Ok(out)
  }

  /** A block as its driver finds it, the decryptor being in this state. */
  function Seen(mid: Option<State>, flat: bytes, b: EggBlock): (r: bytes)
    ensures |r| <= b.compressedSize
  {
    Plain(mid, Stored(flat, b))
  }

  /** The decryptor's state after a block: it has moved over the bytes that were read. */
  function StateAfterBlock(env: Primitives, mid: Option<State>, flat: bytes, b: EggBlock): Option<State> {
    Then(mid, Stored(flat, b)[..BytesRead(env, b, Seen(mid, flat, b))])
  }

  function StateAfter(env: Primitives, start: Option<State>, flat: bytes, blocks: seq<EggBlock>): Option<State> {
    if blocks == [] then start
    else StateAfterBlock(env, StateAfter(env, start, flat, blocks[..|blocks| - 1]), flat, blocks[|blocks| - 1])
  }

  function BlocksOutcome(env: Primitives, start: Option<State>, flat: bytes, blocks: seq<EggBlock>): Result<bytes> {
    if blocks == [] then Ok([])
    else
      var rest, last := blocks[..|blocks| - 1], blocks[|blocks| - 1];
      var front :- BlocksOutcome(env, start, flat, rest);
      var out :- BlockOutcome(env, last, Seen(StateAfter(env, start, flat, rest), flat, last));
      Ok(front + out)
  }

  /** One keystream: blocks that are read to the end leave the decryptor where their joined bytes do. */
  lemma {:induction false} StateIsJoined(env: Primitives, start: Option<State>, flat: bytes, blocks: seq<EggBlock>)
    requires WholeBlocks(blocks)
    ensures StateAfter(env, start, flat, blocks) == Then(start, Joined(flat, blocks))
  {
    hide Plain, Then, Stored;
    if blocks == [] {
      PlainNothing(start);
    } else {
      var rest, last := blocks[..|blocks| - 1], blocks[|blocks| - 1];
      StateIsJoined(env, start, flat, rest);
      var mid := StateAfter(env, start, flat, rest);
      assert Stored(flat, last)[..|Stored(flat, last)|] == Stored(flat, last);
      PlainAppend(start, Joined(flat, rest), Stored(flat, last));
    }
  }

  /** `extract_entry`: the entry's content, or the error. */
  function Content(env: Primitives, flat: bytes, e: EggFileEntry, password: Option<bytes>): Result<bytes> {
    if e.IsDirectory() then Ok([])
    else if e.blocks == [] then (if e.uncompressedSize != 0 then Err(CorruptedFile) else Ok([]))
    else
      var start :- Begin(env, flat, e, password);
      BlocksOutcome(env, start, flat, e.blocks)
  }

  function EntryOutcome(
    env: Primitives, flat: bytes, e: EggFileEntry, dest: Path, password: Option<bytes>): Result<bytes>
  {
    var _ :- SafeJoin(dest, e.fileName);
    Content(env, flat, e, password)
  }

  /** The block at its place in the entry's one keystream. */
  function BlockAt(env: Primitives, start: Option<State>, flat: bytes, blocks: seq<EggBlock>, i: nat): Result<bytes>
    requires i < |blocks|
  {
    BlockOutcome(env, blocks[i], Seen(StateAfter(env, start, flat, blocks[..i]), flat, blocks[i]))
  }

  /**
   Each block on its own: the blocks give a content exactly when every one of them gives an output from its place in
   the one keystream, and the content is these outputs in order.
   */
  lemma {:induction false} BlocksOneByOne(
    env: Primitives, start: Option<State>, flat: bytes, blocks: seq<EggBlock>) returns (outs: seq<bytes>)
    ensures |outs| == |blocks|
    ensures BlocksOutcome(env, start, flat, blocks).Ok?
       <==> forall i :: 0 <= i < |blocks| ==> BlockAt(env, start, flat, blocks, i) == Ok(outs[i])
    ensures BlocksOutcome(env, start, flat, blocks).Ok? ==>
      BlocksOutcome(env, start, flat, blocks).value == Flatten(outs)
  {
    hide BlockOutcome, Seen, StateAfter, BlockAt;
    if blocks == [] {
      outs := [];
    } else {
      var rest := blocks[..|blocks| - 1];
      var front := BlocksOneByOne(env, start, flat, rest);
      LastBlock(env, start, flat, blocks);
      var outcome := BlockAt(env, start, flat, blocks, |blocks| - 1);
      var out := if outcome.Ok? then outcome.value else [];
      outs := front + [out];
      FlattenAppend(front, [out]);
      FlattenOne(out);
      forall i | 0 <= i < |rest| ensures BlockAt(env, start, flat, blocks, i) == BlockAt(env, start, flat, rest, i) {
        SameBlock(env, start, flat, blocks, i);
      }
      if BlocksOutcome(env, start, flat, blocks).Err? && outcome.Ok? {
        var i :| 0 <= i < |rest| && BlockAt(env, start, flat, rest, i) != Ok(front[i]);
        assert BlockAt(env, start, flat, blocks, i) != Ok(outs[i]);
      }
    }
  }

  lemma SameBlock(env: Primitives, start: Option<State>, flat: bytes, blocks: seq<EggBlock>, i: nat)
    requires i < |blocks| - 1
    ensures BlockAt(env, start, flat, blocks, i) == BlockAt(env, start, flat, blocks[..|blocks| - 1], i)
  {
    hide BlockOutcome, Seen, StateAfter;
    assert blocks[..|blocks| - 1][..i] == blocks[..i];
  }

  lemma LastBlock(env: Primitives, start: Option<State>, flat: bytes, blocks: seq<EggBlock>)
    requires blocks != []
    ensures var rest, last := blocks[..|blocks| - 1], BlockAt(env, start, flat, blocks, |blocks| - 1);
      BlocksOutcome(env, start, flat, blocks)
      == (match BlocksOutcome(env, start, flat, rest)
          case Err(error) => Err(error)
          case Ok(front) => if last.Err? then last else Ok(front + last.value))
  {
    hide BlockOutcome, Seen, StateAfter;
  }

  /** A block's output is within its declared size and has its recorded checksum, whatever its compression. */
  lemma OutcomeChecked(env: Primitives, b: EggBlock, plain: bytes)
    requires |plain| <= b.compressedSize && BlockOutcome(env, b, plain).Ok?
    ensures var out := BlockOutcome(env, b, plain).value; |out| <= b.uncompressedSize && Crc32.Checksum(out) == b.crc32
  {
    hide Crc32.Checksum, Inflate, LzmaPlain, LzmaStream, MemLimit;
  }

  /** Each stored block on its own is in order. */
  predicate BlocksFine(start: Option<State>, flat: bytes, blocks: seq<EggBlock>) {
    forall i :: 0 <= i < |blocks| ==> BlockFine(flat, blocks[i], Pieces(start, flat, blocks)[i])
  }

  predicate BlockFine(flat: bytes, b: EggBlock, piece: bytes) {
    Present(flat, b) && b.compressedSize <= b.uncompressedSize && Crc32.Checksum(piece) == b.crc32
  }

  /**
   Stored blocks give a content exactly when each is there, fits and matches its checksum, and then the content is
   the decryption of the joined blocks.
   */
  lemma {:induction false} BlocksOutcomeIs(env: Primitives, start: Option<State>, flat: bytes, blocks: seq<EggBlock>)
    requires StoreOnly(blocks)
    ensures BlocksOutcome(env, start, flat, blocks).Ok? <==> BlocksFine(start, flat, blocks)
    ensures BlocksOutcome(env, start, flat, blocks).Ok? ==>
      BlocksOutcome(env, start, flat, blocks).value == Plain(start, Joined(flat, blocks))
  {
    hide Plain, Then, Present, Stored, BlockFine, Joined, BlockOutcome, StateAfter;
    JoinedMore(flat, blocks);
    if blocks == [] {
      PlainNothing(start);
    } else {
      var rest, last := blocks[..|blocks| - 1], blocks[|blocks| - 1];
      var piece := Plain(Then(start, Joined(flat, rest)), Stored(flat, last));
      BlocksOutcomeIs(env, start, flat, rest);
      StateIsJoined(env, start, flat, rest);
      PlainAppend(start, Joined(flat, rest), Stored(flat, last));
      BlockOutcomeIs(env, flat, last, piece);
      var all, front := Pieces(start, flat, blocks), Pieces(start, flat, rest);
      assert all == front + [piece];
      if BlocksFine(start, flat, rest) && BlockFine(flat, last, piece) {
        forall i | 0 <= i < |blocks| ensures BlockFine(flat, blocks[i], all[i]) {
          if i < |rest| {
            assert BlockFine(flat, rest[i], front[i]);
          }
        }
      }
      if BlocksFine(start, flat, blocks) {
        assert BlockFine(flat, blocks[|rest|], all[|rest|]);
        forall i | 0 <= i < |rest| ensures BlockFine(flat, rest[i], front[i]) {
          assert BlockFine(flat, blocks[i], all[i]);
        }
      }
    }
  }

  lemma JoinedMore(flat: bytes, blocks: seq<EggBlock>)
    ensures blocks == [] ==> Joined(flat, blocks) == []
    ensures blocks != [] ==>
      Joined(flat, blocks) == Joined(flat, blocks[..|blocks| - 1]) + Stored(flat, blocks[|blocks| - 1])
  {
  }

  lemma BlockOutcomeIs(env: Primitives, flat: bytes, b: EggBlock, piece: bytes)
    requires b.compression == Store && |piece| == |Stored(flat, b)|
    ensures BlockOutcome(env, b, piece).Ok? <==> BlockFine(flat, b, piece)
    ensures BlockOutcome(env, b, piece).Ok? ==> BlockOutcome(env, b, piece).value == piece
  {
  }

  /** The outcome of a longer list fails where the shorter one does. */
  lemma {:induction false} FailsEarly(
    env: Primitives, start: Option<State>, flat: bytes, blocks: seq<EggBlock>, n: nat)
    requires n <= |blocks| && BlocksOutcome(env, start, flat, blocks[..n]).Err?
    ensures BlocksOutcome(env, start, flat, blocks) == BlocksOutcome(env, start, flat, blocks[..n])
    decreases |blocks| - n
  {
    hide Seen, StateAfter, BlockOutcome;
    if n == |blocks| {
      assert blocks[..n] == blocks;
    } else {
      assert blocks[..n + 1][..n] == blocks[..n];
      FailsEarly(env, start, flat, blocks, n + 1);
    }
  }

  // ---------- the size an entry declares ----------

  function CompressedSum(blocks: seq<EggBlock>): nat {
    if blocks == [] then 0 else CompressedSum(blocks[..|blocks| - 1]) + blocks[|blocks| - 1].compressedSize
  }

  lemma {:induction false} StoredLength(env: Primitives, start: Option<State>, flat: bytes, blocks: seq<EggBlock>)
    requires StoreOnly(blocks) && BlocksOutcome(env, start, flat, blocks).Ok?
    ensures |BlocksOutcome(env, start, flat, blocks).value| == CompressedSum(blocks)
  {
    hide Plain, Then, Stored, Joined, Crc32.Checksum;
    if blocks != [] {
      StoredLength(env, start, flat, blocks[..|blocks| - 1]);
      var rest, last := blocks[..|blocks| - 1], blocks[|blocks| - 1];
      AtMostStored(flat, last);
    }
  }

  lemma AtMostStored(flat: bytes, b: EggBlock)
    ensures |Stored(flat, b)| <= b.compressedSize
  {
  }

  /**
   The per-entry path never looks at the size an entry declares for its blocks: content of stored blocks has that
   size exactly when the blocks' compressed sizes happen to add up to it.
   */
  lemma DeclaredSizeIsNotChecked(env: Primitives, flat: bytes, e: EggFileEntry, password: Option<bytes>)
    requires !e.IsDirectory() && e.blocks != [] && StoreOnly(e.blocks)
    requires Content(env, flat, e, password).Ok?
    ensures |Content(env, flat, e, password).value| == e.uncompressedSize
       <==> CompressedSum(e.blocks) == e.uncompressedSize
  {
    hide Begin, BlocksOutcome;
    StoredLength(env, Begin(env, flat, e, password).value, flat, e.blocks);
  }

  /** A file that declares `size` bytes and has one stored block of one byte, 'A', declared as `blockSize` bytes. */
  function OneByteEntry(size: nat, blockSize: nat): EggFileEntry {
    EggFileEntry("a", 0, size, [EggBlock(Store, blockSize, 1, Crc32.Checksum([65]), 0)], None, None, 0, None)
  }

  /** Whatever it declares, the per-entry path extracts it. */
  lemma OneByteEntryExtracts(env: Primitives, size: nat, blockSize: nat, password: Option<bytes>)
    requires blockSize >= 1
    ensures Content(env, [65], OneByteEntry(size, blockSize), password) == Ok([65])
  {
    hide Crc32.Checksum, LzmaOutcome;
    var e := OneByteEntry(size, blockSize);
    var b := e.blocks[0];
    assert !e.IsDirectory();
    assert Stored([65], b) == [65];
    assert e.blocks[..0] == [] && BlocksOutcome(env, None, [65], []) == Ok([]);
    assert BlockOutcome(env, b, [65]) == Ok([65]);
    assert [] + [65 as byte] == [65];
    assert Begin(env, [65], e, password) == Ok(None);
  }

  /** What a successfully extracted entry adds to the output. */
  function EntryPut(o: Output, e: EggFileEntry, dest: Path, pipeMode: bool, content: bytes): Output {
    if e.IsDirectory() then o
    else if pipeMode then o.(stdout := o.stdout + content)
    else match SafeJoin(dest, e.fileName)
      case Ok(path) => o.(files := o.files[path := content])
      case Err(_) => o
  }
}
