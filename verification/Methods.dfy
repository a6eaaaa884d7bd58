/**
 The decoders behind an entry, method by method: what content of an entry is, said of the foreign decoders' own answers.
 */
module Methods {
  import opened Bytes
  import opened Errors
  import opened ArchiveFormat
  import opened VolumeReader
  import opened Decryptors
  import opened Inflation
  import opened Drivers
  import opened EntrySpec
  import Crc32

  /** The output is what the block's header announces. */
  predicate Announced(b: EggBlock, out: bytes) {
    |out| <= b.uncompressedSize && Crc32.Checksum(out) == b.crc32
  }

  // ---------- one block ----------

  lemma StoredBlock(env: Primitives, b: EggBlock, plain: bytes, out: bytes)
    requires b.compression == Store && |plain| <= b.compressedSize
    ensures BlockOutcome(env, b, plain) == Ok(out) <==> |plain| == b.compressedSize && out == plain && Announced(b, out)
  {
    hide Crc32.Checksum;
  }

  /** The inflater is called on windows of at most 4096 bytes until its stream is over or the block consumed. */
  lemma DeflateBlock(env: Primitives, b: EggBlock, plain: bytes, out: bytes)
    requires b.compression == Deflate && |plain| <= b.compressedSize
    ensures BlockOutcome(env, b, plain) == Ok(out)
       <==> && (exists windows :: IsLoop(env.inflate, windows, plain, b.compressedSize)
                  && out == MadeBy(env.inflate, windows))
            && Announced(b, out)
  {
    hide Crc32.Checksum, InflateOutcome, IsLoop, MadeBy;
    var spec := InflateOutcome(env.inflate, plain, b.compressedSize, b.uncompressedSize);
    OutcomeIsLoop(env.inflate, plain, b.compressedSize, b.uncompressedSize, out);
    if spec.Ok? {
      OutcomeIsLoop(env.inflate, plain, b.compressedSize, b.uncompressedSize, spec.value);
    }
  }

  /** The decoder gets the properties, an unknown size and the data, and a buffer a little over the declared size. */
  lemma LzmaBlock(env: Primitives, b: EggBlock, plain: bytes, out: bytes)
    requires b.compression == Lzma && |plain| <= b.compressedSize
    ensures BlockOutcome(env, b, plain) == Ok(out)
       <==> && |plain| == b.compressedSize >= 9
            && var d := env.lzma(
                 plain[4..9] + [0xFF, 0xFF, 0xFF, 0xFF, 0xFF, 0xFF, 0xFF, 0xFF] + plain[9..],
                 Min(b.uncompressedSize + 65536, 0xFFFF_FFFF_FFFF_FFFF));
               d.ok && out == Flatten(d.writes) && Announced(b, out)
  {
    hide Crc32.Checksum;
    assert TWO_64 == 0x1_0000_0000_0000_0000;
  }

  /** bzip2 and AZO: the foreign decoder of that very method on what is there of the block. */
  lemma ForeignBlock(env: Primitives, b: EggBlock, plain: bytes, out: bytes)
    requires (b.compression == Bzip2 || b.compression == Azo) && |plain| <= b.compressedSize
    ensures BlockOutcome(env, b, plain) == Ok(out)
       <==> var d := env.foreign(b.compression, plain, b.compressedSize, b.uncompressedSize);
            d.ok && out == Flatten(d.writes) && Announced(b, out)
  {
    hide Crc32.Checksum;
  }

  lemma UnknownBlock(env: Primitives, b: EggBlock, plain: bytes)
    requires b.compression.UnknownCompression? && |plain| <= b.compressedSize
    ensures BlockOutcome(env, b, plain) == Err(UnknownCompressionMethod(b.compression.code))
  {
  }

  /** Which error a block gives: of the missing data, of the writer that refuses, of the decoder, of the checksum. */
  lemma BlockErrors(env: Primitives, b: EggBlock, plain: bytes)
    requires |plain| <= b.compressedSize
    ensures b.compression == Store && (|plain| < b.compressedSize || b.compressedSize > b.uncompressedSize) ==>
      BlockOutcome(env, b, plain) == Err(Io)
    ensures b.compression == Bzip2 ==>
      var d := env.foreign(Bzip2, plain, b.compressedSize, b.uncompressedSize);
      if |Flatten(d.writes)| > b.uncompressedSize then BlockOutcome(env, b, plain) == Err(Io)
      else !d.ok ==> BlockOutcome(env, b, plain) == Err(Bzip2Failed)
    ensures b.compression == Azo ==>
      var d := env.foreign(Azo, plain, b.compressedSize, b.uncompressedSize);
      |Flatten(d.writes)| > b.uncompressedSize || !d.ok ==> BlockOutcome(env, b, plain) == Err(AzoFailed)
    ensures b.compression == Lzma && (b.compressedSize < 9 || 9 <= |plain| < b.compressedSize) ==>
      BlockOutcome(env, b, plain) == Err(LzmaFailed)
    ensures b.compression == Lzma && |plain| < 9 <= b.compressedSize ==> BlockOutcome(env, b, plain) == Err(Io)
    ensures b.compression == Lzma && 9 <= |plain| == b.compressedSize ==>
      var d := env.lzma(
        plain[4..9] + [0xFF, 0xFF, 0xFF, 0xFF, 0xFF, 0xFF, 0xFF, 0xFF] + plain[9..],
        Min(b.uncompressedSize + 65536, 0xFFFF_FFFF_FFFF_FFFF));
      |Flatten(d.writes)| > b.uncompressedSize || !d.ok ==> BlockOutcome(env, b, plain) == Err(LzmaFailed)
    ensures var out := BlockOutput(env, b, plain);
      out.Ok? && Crc32.Checksum(out.value) != b.crc32 ==>
        BlockOutcome(env, b, plain) == Err(InvalidFileCrc(b.crc32, Crc32.Checksum(out.value)))
  {
    hide Crc32.Checksum, InflateOutcome;
    assert TWO_64 == 0x1_0000_0000_0000_0000;
  }

  /**
   How far a block moves the keystream its entry's blocks share: over what is there of it, or, deflated, over what the
   windows given to the inflater have taken from it.
   */
  lemma KeystreamMoves(
    env: Primitives, start: Option<State>, flat: bytes, blocks: seq<EggBlock>, b: EggBlock, windows: seq<bytes>)
    requires b.compression == Deflate ==>
      && IsLoop(env.inflate, windows, Seen(StateAfter(env, start, flat, blocks), flat, b), b.compressedSize)
      && |MadeBy(env.inflate, windows)| <= b.uncompressedSize
    ensures var there := Window(flat, b.dataPos, b.compressedSize);
      var n := if b.compression == Deflate then ReadFor(env.inflate, windows) else |there|;
      && n <= |there|
      && StateAfter(env, start, flat, blocks + [b]) == Then(StateAfter(env, start, flat, blocks), there[..n])
  {
    hide IsLoop, MadeBy, ReadFor, Inflate, Plain, Then, Window;
    var more, mid := blocks + [b], StateAfter(env, start, flat, blocks);
    assert more[..|more| - 1] == blocks && more[|more| - 1] == b;
    assert StateAfter(env, start, flat, more) == StateAfterBlock(env, mid, flat, b);
    var plain := Seen(mid, flat, b);
    if b.compression == Deflate {
      LoopIsInflate(env.inflate, windows, plain, b.compressedSize, b.uncompressedSize);
    }
    SeenLength(mid, flat, b);
    assert BytesRead(env, b, plain) <= |plain|;
  }

  lemma SeenLength(mid: Option<State>, flat: bytes, b: EggBlock)
    ensures |Seen(mid, flat, b)| == |Window(flat, b.dataPos, b.compressedSize)|
  {
  }

  // ---------- an entry of one block ----------

  /** A regular file with this one block, whose decryptor can be set up and whose data is authentic. */
  predicate HasOneBlock(env: Primitives, flat: bytes, e: EggFileEntry, password: Option<bytes>, b: EggBlock) {
    !e.IsDirectory() && e.blocks == [b] && Begin(env, flat, e, password).Ok?
  }

  /** Its data as far as the archive has it, decrypted. */
  function DataOf(env: Primitives, flat: bytes, e: EggFileEntry, password: Option<bytes>, b: EggBlock): (r: bytes)
    requires HasOneBlock(env, flat, e, password, b)
    ensures |r| <= b.compressedSize
  {
    Plain(Begin(env, flat, e, password).value, Window(flat, b.dataPos, b.compressedSize))
  }

  lemma OneBlock(env: Primitives, flat: bytes, e: EggFileEntry, password: Option<bytes>, b: EggBlock)
    requires HasOneBlock(env, flat, e, password, b)
    ensures Content(env, flat, e, password) == BlockOutcome(env, b, DataOf(env, flat, e, password, b))
  {
    hide BlockOutcome, Begin, Plain, EggFileEntry.IsDirectory;
    var start := Begin(env, flat, e, password).value;
    assert e.blocks[..0] == [] && StateAfter(env, start, flat, []) == start;
    assert BlocksOutcome(env, start, flat, []) == Ok([]);
    var outcome := BlockOutcome(env, b, DataOf(env, flat, e, password, b));
    assert outcome.Ok? ==> [] + outcome.value == outcome.value;
  }

  lemma StoredContent(env: Primitives, flat: bytes, e: EggFileEntry, password: Option<bytes>, b: EggBlock, c: bytes)
    requires HasOneBlock(env, flat, e, password, b) && b.compression == Store
    ensures var data := DataOf(env, flat, e, password, b);
      Content(env, flat, e, password) == Ok(c) <==> |data| == b.compressedSize && c == data && Announced(b, c)
  {
    hide Content, BlockOutcome, DataOf, HasOneBlock;
    OneBlock(env, flat, e, password, b);
    StoredBlock(env, b, DataOf(env, flat, e, password, b), c);
  }

  lemma DeflateContent(env: Primitives, flat: bytes, e: EggFileEntry, password: Option<bytes>, b: EggBlock, c: bytes)
    requires HasOneBlock(env, flat, e, password, b) && b.compression == Deflate
    ensures var data := DataOf(env, flat, e, password, b);
      Content(env, flat, e, password) == Ok(c)
      <==> && (exists windows :: IsLoop(env.inflate, windows, data, b.compressedSize)
                 && c == MadeBy(env.inflate, windows))
           && Announced(b, c)
  {
    hide Content, BlockOutcome, DataOf, HasOneBlock, IsLoop, MadeBy;
    OneBlock(env, flat, e, password, b);
    DeflateBlock(env, b, DataOf(env, flat, e, password, b), c);
  }

  lemma LzmaContent(env: Primitives, flat: bytes, e: EggFileEntry, password: Option<bytes>, b: EggBlock, c: bytes)
    requires HasOneBlock(env, flat, e, password, b) && b.compression == Lzma
    ensures var data := DataOf(env, flat, e, password, b);
      Content(env, flat, e, password) == Ok(c)
      <==> && |data| == b.compressedSize >= 9
           && var d := env.lzma(
                data[4..9] + [0xFF, 0xFF, 0xFF, 0xFF, 0xFF, 0xFF, 0xFF, 0xFF] + data[9..],
                Min(b.uncompressedSize + 65536, 0xFFFF_FFFF_FFFF_FFFF));
              d.ok && c == Flatten(d.writes) && Announced(b, c)
  {
    hide Content, BlockOutcome, DataOf, HasOneBlock;
    OneBlock(env, flat, e, password, b);
    LzmaBlock(env, b, DataOf(env, flat, e, password, b), c);
  }

  lemma ForeignContent(env: Primitives, flat: bytes, e: EggFileEntry, password: Option<bytes>, b: EggBlock, c: bytes)
    requires HasOneBlock(env, flat, e, password, b) && (b.compression == Bzip2 || b.compression == Azo)
    ensures var data := DataOf(env, flat, e, password, b);
      Content(env, flat, e, password) == Ok(c)
      <==> var d := env.foreign(b.compression, data, b.compressedSize, b.uncompressedSize);
           d.ok && c == Flatten(d.writes) && Announced(b, c)
  {
    hide Content, BlockOutcome, DataOf, HasOneBlock;
    OneBlock(env, flat, e, password, b);
    ForeignBlock(env, b, DataOf(env, flat, e, password, b), c);
  }

  lemma UnknownContent(env: Primitives, flat: bytes, e: EggFileEntry, password: Option<bytes>, b: EggBlock)
    requires HasOneBlock(env, flat, e, password, b) && b.compression.UnknownCompression?
    ensures Content(env, flat, e, password) == Err(UnknownCompressionMethod(b.compression.code))
  {
    hide Content, BlockOutcome, DataOf, HasOneBlock;
    OneBlock(env, flat, e, password, b);
    UnknownBlock(env, b, DataOf(env, flat, e, password, b));
  }
}
