/** The per-entry path of src/extract.rs: `verify_hmac`, `decompress_block`, `extract_entry`. */
module EntryExtractor {
  import opened Bytes
  import opened Errors
  import opened ArchiveFormat
  import opened Disk
  import opened VolumeReader
  import opened Decryptors
  import opened Drivers
  import opened EntrySpec
  import opened Inflation
  import Crc32

  const HMAC_BUF := 8192

  /** Block positions as `open` records them. */
  predicate Located(blocks: seq<EggBlock>) {
    forall i :: 0 <= i < |blocks| ==> blocks[i].dataPos < TWO_63
  }

  // ---------- authentication ----------

  /** `mac.update` on one block, at most 8192 bytes at a time. */
  method FeedBlock(reader: MultiVolumeReader, block: EggBlock, buf: array<byte>) returns (ok: bool, fed: bytes)
    requires reader.Valid() && block.dataPos < TWO_63 && buf.Length == HMAC_BUF
    modifies reader, reader.Files(), buf
    ensures reader.Valid() && (ok <==> Present(reader.Flat(), block))
    ensures ok ==> fed == Stored(reader.Flat(), block)
  {
    hide FlatOf, MultiVolumeReader.Shaped, Window;
    SeekHere(block.dataPos, reader.totalSize);
    var at := reader.Seek(FromStart(block.dataPos));
    fed := [];
    ghost var p, size := block.dataPos, block.compressedSize;
    WindowEmpty(reader.Flat(), p);
    var remaining := block.compressedSize;
    while remaining > 0
      invariant 0 <= remaining <= size && reader.Valid() && reader.logicalPos == p + size - remaining
      invariant fed == Window(reader.Flat(), p, size - remaining) && |fed| == size - remaining
    {
      var n := if remaining < HMAC_BUF then remaining else HMAC_BUF;
      ok := reader.ReadExact(buf, 0, n);
      if !ok {
        ShortBlock(reader.Flat(), p, size - remaining, n, size);
        return;
      }
      assert buf[..n] == buf[0..n];
      WindowGrows(reader.Flat(), p, size - remaining, n);
      fed := fed + buf[..n];
      remaining := remaining - n;
    }
    return true, fed;
  }

  /** `verify_hmac`: HMAC over exactly the joined ciphertext of the file's blocks. */
  method VerifyHmac(env: Primitives, reader: MultiVolumeReader, blocks: seq<EggBlock>, auth: AuthInfo)
    returns (res: Result<Unit>)
    requires reader.Valid() && Located(blocks)
    modifies reader, reader.Files()
    ensures reader.Valid() && res == Verified(env, reader.Flat(), blocks, Some(auth))
  {
    hide FlatOf, MultiVolumeReader.Shaped, Stored, Present;
    var message := [];
    var buf := new byte[HMAC_BUF];
    var i := 0;
    while i < |blocks|
      invariant 0 <= i <= |blocks| && reader.Valid() && fresh(buf) && buf.Length == HMAC_BUF
      invariant AllPresent(reader.Flat(), blocks[..i]) && message == Joined(reader.Flat(), blocks[..i])
    {
      var ok, fed := FeedBlock(reader, blocks[i], buf);
      if !ok {
        return Err(Io);
      }
      assert blocks[..i + 1][..i] == blocks[..i];
      message := message + fed;
      i := i + 1;
    }
    assert blocks[..i] == blocks;
    var computed := env.hmac(auth.key, message);
    if |auth.tag| != 10 || |computed| < 10 || computed[..10] != auth.tag {
      return Err(AuthenticationFailed);
    }
    return Ok(Unit.Unit);
  }

  /** The set-up of a file's decryptor, with its ciphertext verified before anything else. */
  method BeginFile(env: Primitives, reader: MultiVolumeReader, e: EggFileEntry, password: Option<bytes>)
    returns (res: Result<Unit>, d: Option<Decryptor>)
    requires reader.Valid() && Located(e.blocks)
    modifies reader, reader.Files()
    ensures reader.Valid() && fresh(PartsOf(d)) && Ready(d)
    ensures match Begin(env, reader.Flat(), e, password)
      case Ok(start) => res.Ok? && StateOf(d) == start
      case Err(error) => res == Err(error)
  {
    hide Setup, FlatOf, MultiVolumeReader.Shaped, Verified, Decryptor.Valid, Decryptor.Now;
    var auth;
    auth, d := SetupObject(env, e, password);
    if auth.Err? {
      res := Err(auth.error);
      return;
    }
    res := Ok(Unit.Unit);
    if auth.value.Some? {
      res := VerifyHmac(env, reader, e.blocks, auth.value.value);
    } else {
      NothingToVerify(env, reader.Flat(), e.blocks);
    }
  }

  lemma NothingToVerify(env: Primitives, flat: bytes, blocks: seq<EggBlock>)
    ensures Verified(env, flat, blocks, None) == Ok(Unit.Unit)
  {
  }

  // ---------- one block ----------

  /** `decompress_block`. */
  method DecompressBlock(
    env: Primitives, reader: MultiVolumeReader, disk: Disk, writer: Writer, b: EggBlock, crypto: Option<Decryptor>)
    returns (res: Result<bv32>)
    requires reader.Valid() && Ready(crypto) && (writer.ToFile? ==> writer.path in disk.files)
    requires PartsOf(crypto) !! ({reader, disk} + reader.Files())
    modifies reader, reader.Files(), disk, PartsOf(crypto)
    ensures reader.Valid() && Ready(crypto) && OnlyThere(old(disk.State()), disk.State(), writer)
    ensures var block := Window(reader.Flat(), old(reader.logicalPos), b.compressedSize);
      var plain := Plain(old(StateOf(crypto)), block);
      && Delivered(
           BlockOutput(env, b, plain), res, old(disk.State()), disk.State(), writer, old(disk.faulted), disk.faulted)
      && (res.Ok? ==> StateOf(crypto) == Then(old(StateOf(crypto)), block[..BytesRead(env, b, plain)]))
  {
    hide FlatOf, MultiVolumeReader.Shaped, Tiled, AllWellFormed, Plain, Then, Appended, OnlyThere, Window,
      Crc32.Checksum, Decryptor.Valid, Decryptor.Now, LzmaOutcome, Delivered, DecoderOutcome, Inflate, InflateOutcome;
    ghost var start, block := StateOf(crypto), Window(reader.Flat(), reader.logicalPos, b.compressedSize);
    ghost var before, wasFaulted := disk.State(), disk.faulted;
    var w := new LimitWriter(disk, writer, b.uncompressedSize);
    SamePlace(disk.State(), writer);
    assert block[..|block|] == block;
    match b.compression {
      case Store =>
        res := ExtractStore(reader, w, b.compressedSize, crypto);
        StoredDelivered(b, Plain(start, block), res, before, disk.State(), writer, wasFaulted, disk.faulted);
      case Deflate =>
        res := ExtractDeflate(reader, w, b.compressedSize, crypto, env.inflate);
      case Lzma =>
        res := ExtractLzma(reader, w, b.compressedSize, b.uncompressedSize, crypto, env.lzma);
      case UnknownCompression(n) =>
        res := Err(UnknownCompressionMethod(n));
        NothingDelivered(res, before, writer, wasFaulted);
      case m =>
        res := ExtractForeign(reader, w, b, crypto, env.foreign);
    }
  }

  lemma StoredDelivered(
    b: EggBlock, plain: bytes, res: Result<bv32>, before: Output, now: Output, w: Writer, wasFaulted: bool,
    isFaulted: bool)
    requires w.ToFile? ==> w.path in before.files
    requires res.Ok? ==>
      && |plain| == b.compressedSize <= b.uncompressedSize && isFaulted == wasFaulted
      && now == Appended(before, w, plain) && res.value == Crc32.Checksum(plain)
    requires res.Err? ==>
      res == Err(Io) && (isFaulted || |plain| < b.compressedSize || b.compressedSize > b.uncompressedSize)
    ensures Delivered(StoredOutput(b, plain), res, before, now, w, wasFaulted, isFaulted)
  {
    hide Appended, Crc32.Checksum;
  }

  lemma NothingDelivered(res: Result<bv32>, before: Output, w: Writer, wasFaulted: bool)
    requires (w.ToFile? ==> w.path in before.files) && res.Err?
    ensures Delivered(Err(res.error), res, before, before, w, wasFaulted, wasFaulted)
  {
  }

  /** bzip2 and AZO: a foreign decoder that is handed what there is of the block. */
  method ExtractForeign(
    r: MultiVolumeReader, w: LimitWriter, b: EggBlock, crypto: Option<Decryptor>, foreign: ForeignDecoder)
    returns (res: Result<bv32>)
    requires r.Valid() && w.Open() && Ready(crypto) && Separate(r, crypto, w)
    modifies r, r.Files(), w`remaining, w.disk, PartsOf(crypto)
    ensures r.Valid() && w.Open() && Ready(crypto) && OnlyThere(old(w.disk.State()), w.disk.State(), w.inner)
    ensures var block := Window(r.Flat(), old(r.logicalPos), b.compressedSize);
      var d := foreign(
        b.compression, Plain(old(StateOf(crypto)), block), b.compressedSize, b.uncompressedSize);
      var spec := DecoderOutcome(d, old(w.remaining), Refusal(b.compression), Breakdown(b.compression));
      && Delivered(spec, res, old(w.disk.State()), w.disk.State(), w.inner, old(w.disk.faulted), w.disk.faulted)
      && StateOf(crypto) == Then(old(StateOf(crypto)), block)
  {
    hide FlatOf, MultiVolumeReader.Shaped, Tiled, AllWellFormed, Plain, Then, Appended, OnlyThere, Window,
      Crc32.Checksum, Decryptor.Valid, Decryptor.Now, Delivered, DecoderOutcome;
    var plain := ReadAvailable(r, crypto, b.compressedSize);
    var d := foreign(b.compression, plain, b.compressedSize, b.uncompressedSize);
    res := RunDecoder(w, d, Refusal(b.compression), Breakdown(b.compression));
  }

  // ---------- all blocks of an entry ----------

  /** Where the block loop stands after i blocks: the decryptor, and the content so far. */
  ghost predicate SoFar(
    env: Primitives, start: Option<State>, flat: bytes, blocks: seq<EggBlock>, i: nat, now: Option<State>, out: bytes)
  {
    && i <= |blocks|
    && now == StateAfter(env, start, flat, blocks[..i])
    && BlocksOutcome(env, start, flat, blocks[..i]) == Ok(out)
  }

  lemma SoFarNothing(env: Primitives, start: Option<State>, flat: bytes, blocks: seq<EggBlock>)
    ensures SoFar(env, start, flat, blocks, 0, start, [])
  {
  }

  /** One more block: the outcome of the first i + 1 blocks is decided by block i. */
  lemma SoFarMore(
    env: Primitives, start: Option<State>, flat: bytes, blocks: seq<EggBlock>, i: nat, mid: Option<State>, out: bytes)
    requires i < |blocks| && SoFar(env, start, flat, blocks, i, mid, out)
    ensures match BlockOutcome(env, blocks[i], Seen(mid, flat, blocks[i]))
      case Ok(more) => SoFar(env, start, flat, blocks, i + 1, StateAfterBlock(env, mid, flat, blocks[i]), out + more)
      case Err(error) => BlocksOutcome(env, start, flat, blocks) == Err(error)
  {
    hide BlockOutcome, Seen, StateAfterBlock;
    assert blocks[..i + 1][..i] == blocks[..i];
    if BlockOutcome(env, blocks[i], Seen(mid, flat, blocks[i])).Err? {
      FailsEarly(env, start, flat, blocks, i + 1);
    }
  }

  /** The block loop of `extract_entry`: result, error and content are those of the blocks in their one keystream. */
  method ExtractBlocks(
    env: Primitives, reader: MultiVolumeReader, disk: Disk, writer: Writer, blocks: seq<EggBlock>,
    crypto: Option<Decryptor>)
    returns (res: Result<Unit>)
    requires reader.Valid() && Ready(crypto) && Located(blocks) && (writer.ToFile? ==> writer.path in disk.files)
    requires PartsOf(crypto) !! ({reader, disk} + reader.Files()) && disk !in {reader} + reader.Files()
    modifies reader, reader.Files(), disk, PartsOf(crypto)
    ensures reader.Valid() && OnlyThere(old(disk.State()), disk.State(), writer)
    ensures var spec := BlocksOutcome(env, old(StateOf(crypto)), reader.Flat(), blocks);
      && (res.Ok? ==>
            && spec.Ok? && disk.faulted == old(disk.faulted)
            && disk.State() == Appended(old(disk.State()), writer, spec.value))
      && (res.Err? && !disk.faulted ==> spec == Err(res.error))
  {
    hide FlatOf, MultiVolumeReader.Shaped, Tiled, AllWellFormed, Plain, Then, Appended, OnlyThere, Crc32.Checksum,
      Decryptor.Valid, Decryptor.Now, BlocksOutcome, BlockOutcome, SoFar, Seen, StateAfterBlock;
    ghost var start, before, out: bytes := StateOf(crypto), disk.State(), [];
    SoFarNothing(env, start, reader.Flat(), blocks);
    AppendedNothing(before, writer);
    SamePlace(before, writer);
    for i := 0 to |blocks|
      invariant reader.Valid() && Ready(crypto) && disk.faulted == old(disk.faulted)
      invariant writer.ToFile? ==> writer.path in disk.files
      invariant disk.State() == Appended(before, writer, out) && OnlyThere(before, disk.State(), writer)
      invariant SoFar(env, start, reader.Flat(), blocks, i, StateOf(crypto), out)
    {
      ghost var at := disk.State();
      SoFarMore(env, start, reader.Flat(), blocks, i, StateOf(crypto), out);
      ghost var more;
      res, more := ExtractBlock(env, reader, disk, writer, blocks[i], crypto);
      OnlyThereTwice(before, at, disk.State(), writer);
      if res.Err? {
        return;
      }
      AppendedTwice(before, writer, out, more);
      out := out + more;
    }
    SoFarAll(env, start, reader.Flat(), blocks, StateOf(crypto), out);
    return Ok(Unit.Unit);
  }

  lemma SoFarAll(
    env: Primitives, start: Option<State>, flat: bytes, blocks: seq<EggBlock>, now: Option<State>, out: bytes)
    requires SoFar(env, start, flat, blocks, |blocks|, now, out)
    ensures BlocksOutcome(env, start, flat, blocks) == Ok(out)
  {
    assert blocks[..|blocks|] == blocks;
  }

  /** One turn of the block loop: seek, decompress, compare the checksum. */
  method ExtractBlock(
    env: Primitives, reader: MultiVolumeReader, disk: Disk, writer: Writer, b: EggBlock, crypto: Option<Decryptor>)
    returns (res: Result<Unit>, ghost out: bytes)
    requires reader.Valid() && Ready(crypto) && b.dataPos < TWO_63 && (writer.ToFile? ==> writer.path in disk.files)
    requires PartsOf(crypto) !! ({reader, disk} + reader.Files()) && disk !in {reader} + reader.Files()
    modifies reader, reader.Files(), disk, PartsOf(crypto)
    ensures reader.Valid() && Ready(crypto) && OnlyThere(old(disk.State()), disk.State(), writer)
    ensures var spec := BlockOutcome(env, b, Seen(old(StateOf(crypto)), reader.Flat(), b));
      && (res.Ok? ==>
            && spec == Ok(out) && disk.faulted == old(disk.faulted)
            && disk.State() == Appended(old(disk.State()), writer, out)
            && StateOf(crypto) == StateAfterBlock(env, old(StateOf(crypto)), reader.Flat(), b))
      && (res.Err? && !disk.faulted ==> spec == Err(res.error))
  {
    hide FlatOf, MultiVolumeReader.Shaped, Tiled, AllWellFormed, Plain, Then, Appended, OnlyThere, Window,
      Crc32.Checksum, Decryptor.Valid, Decryptor.Now, BlockOutput, BytesRead;
    SeekHere(b.dataPos, reader.totalSize);
    var at := reader.Seek(FromStart(b.dataPos));
    ghost var spec := BlockOutput(env, b, Seen(StateOf(crypto), reader.Flat(), b));
    out := if spec.Ok? then spec.value else [];
    var crc := DecompressBlock(env, reader, disk, writer, b, crypto);
    if crc.Err? {
      return Err(crc.error), out;
    }
    if crc.value != b.crc32 {
      return Err(InvalidFileCrc(b.crc32, crc.value)), out;
    }
    res := Ok(Unit.Unit);
  }

  // ---------- one entry ----------

  /** On failure nothing is left of the entry: the output is as before, or without the target. */
  ghost predicate NothingLeft(before: Output, now: Output, dest: Path, name: string, pipeMode: bool) {
    if pipeMode then now.files == before.files && before.stdout <= now.stdout
    else
      || now == before
      || (SafeJoin(dest, name).Ok? && now == before.(files := before.files - {SafeJoin(dest, name).value}))
  }

  /** Whether or not removing works: nothing but the target has changed, and printed bytes stay printed. */
  ghost predicate TargetAtMost(before: Output, now: Output, dest: Path, name: string, pipeMode: bool) {
    if pipeMode then now.files == before.files && before.stdout <= now.stdout
    else
      || now == before
      || (&& SafeJoin(dest, name).Ok? && now.stdout == before.stdout
          && now.files - {SafeJoin(dest, name).value} == before.files - {SafeJoin(dest, name).value})
  }

  /** `extract_entry`. */
  method ExtractEntry(
    env: Primitives, reader: MultiVolumeReader, e: EggFileEntry, dest: Path, password: Option<bytes>, pipeMode: bool,
    disk: Disk)
    returns (res: Result<Unit>)
    requires reader.Valid() && Located(e.blocks) && disk !in {reader} + reader.Files()
    modifies reader, reader.Files(), disk
    ensures reader.Valid()
    ensures var spec := EntryOutcome(env, reader.Flat(), e, dest, password);
      && (res.Ok? ==>
            && spec.Ok? && disk.faulted == old(disk.faulted)
            && disk.State() == EntryPut(old(disk.State()), e, dest, pipeMode, spec.value))
      && (res.Err? && !disk.faulted ==> spec == Err(res.error))
    ensures res.Err? ==> TargetAtMost(old(disk.State()), disk.State(), dest, e.fileName, pipeMode)
    ensures res.Err? && !disk.stuck ==> NothingLeft(old(disk.State()), disk.State(), dest, e.fileName, pipeMode)
    ensures Contained(old(disk.State()), disk.State(), dest)
  {
    hide FlatOf, MultiVolumeReader.Shaped, Tiled, AllWellFormed, Plain, Then, Crc32.Checksum, Decryptor.Valid,
      Decryptor.Now, Begin, BlocksOutcome, SafeJoin, Contained;
    ghost var before := disk.State();
    NothingChanged(before, dest);
    var target := SafeJoin(dest, e.fileName);
    if target.Err? {
      return Err(target.error);
    }
    if e.IsDirectory() {
      return Ok(Unit.Unit);
    }
    assert before.stdout + [] == before.stdout;
    if e.blocks == [] {
      if e.uncompressedSize != 0 {
        return Err(CorruptedFile);
      }
      if !pipeMode {
        var ok := disk.Create(target.value);
        if !ok {
          return Err(CantOpenDestFile);
        }
        OneFileChanged(before, disk.State(), dest, target.value);
      }
      return Ok(Unit.Unit);
    }
    var crypto;
    res, crypto := BeginFile(env, reader, e, password);
    if res.Err? {
      return;
    }
    res := ExtractTo(env, reader, disk, target.value, pipeMode, e.blocks, crypto);
    OneFileChanged(before, disk.State(), dest, target.value);
  }

  lemma OneFileChanged(before: Output, now: Output, dest: Path, path: Path)
    requires dest < path && before.stdout <= now.stdout && now.files - {path} == before.files - {path}
    ensures Contained(before, now, dest)
  {
    forall q: Path | !(dest < q) ensures SameFile(before, now, q) {
      assert q in before.files <==> q in before.files - {path};
      assert q in now.files <==> q in now.files - {path};
      if q in before.files {
        assert before.files[q] == (before.files - {path})[q] == (now.files - {path})[q];
      }
    }
  }

  /** Creating the target and writing the blocks to it; a partial or unverified file is removed again. */
  method ExtractTo(
    env: Primitives, reader: MultiVolumeReader, disk: Disk, path: Path, pipeMode: bool, blocks: seq<EggBlock>,
    crypto: Option<Decryptor>)
    returns (res: Result<Unit>)
    requires reader.Valid() && Ready(crypto) && Located(blocks)
    requires PartsOf(crypto) !! ({reader, disk} + reader.Files()) && disk !in {reader} + reader.Files()
    modifies reader, reader.Files(), disk, PartsOf(crypto)
    ensures reader.Valid()
    ensures var o, spec := old(disk.State()), BlocksOutcome(env, old(StateOf(crypto)), reader.Flat(), blocks);
      && (res.Ok? ==>
            && spec.Ok? && disk.faulted == old(disk.faulted)
            && disk.State() == if pipeMode then o.(stdout := o.stdout + spec.value)
                               else o.(files := o.files[path := spec.value]))
      && (res.Err? && !disk.faulted ==> spec == Err(res.error))
    ensures var o := old(disk.State());
      && (if pipeMode then disk.files == o.files && o.stdout <= disk.stdout
          else disk.stdout == o.stdout && disk.files - {path} == o.files - {path})
      && (res.Err? && !pipeMode && !disk.stuck ==> disk.State() == o || disk.State() == o.(files := o.files - {path}))
  {
    hide FlatOf, MultiVolumeReader.Shaped, Tiled, AllWellFormed, Plain, Then, Crc32.Checksum, Decryptor.Valid,
      Decryptor.Now, BlocksOutcome;
    ghost var before := disk.State();
    ghost var spec := BlocksOutcome(env, StateOf(crypto), reader.Flat(), blocks);
    var writer := ToStdout;
    if !pipeMode {
      var ok := disk.Create(path);
      if !ok {
        return Err(CantOpenDestFile);
      }
      writer := ToFile(path);
    }
    res := ExtractBlocks(env, reader, disk, writer, blocks, crypto);
    CreatedThenWritten(before, path, if spec.Ok? then spec.value else []);
    if res.Err? && !pipeMode {
      disk.Remove(path);
    }
  }

  lemma CreatedThenWritten(o: Output, path: Path, content: bytes)
    ensures Appended(o.(files := o.files[path := []]), ToFile(path), content) == o.(files := o.files[path := content])
    ensures o.files[path := []] - {path} == o.files - {path} == o.files[path := content] - {path}
  {
    assert [] + content == content;
    assert o.files[path := []][path := content] == o.files[path := content];
  }
}
