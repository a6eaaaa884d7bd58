/** What `extract_all_solid` reads and when it succeeds, on values: its tilings, its buffer, its stream. */
module SolidSpec {
  import opened Bytes
  import opened Errors
  import opened ArchiveFormat
  import opened Disk
  import opened Decryptors
  import opened Drivers
  import opened Inflation
  import opened EntrySpec
  import opened SolidPlan

  datatype BlockRead = BlockRead(file: nat, block: EggBlock)

  // ---------- the tilings and the reads ----------

  function FileSpansOf(entries: seq<EggFileEntry>, n: nat): (r: seq<FileSpan>)
    requires n <= |entries|
    ensures forall s :: s in r ==> s.entry < n
  {
    if n == 0 then []
    else
      var rest := FileSpansOf(entries, n - 1);
      if entries[n - 1].IsDirectory() then rest else rest + [FileSpan(n - 1, entries[n - 1].uncompressedSize)]
  }

  function SpansOfBlocks(blocks: seq<EggBlock>): (r: seq<CrcSpan>)
    ensures |r| == |blocks|
  {
    seq(|blocks|, i requires 0 <= i < |blocks| => CrcSpan(blocks[i].uncompressedSize, blocks[i].crc32))
  }

  function ReadsOfBlocks(file: nat, blocks: seq<EggBlock>): (r: seq<BlockRead>)
    ensures |r| == |blocks|
  {
    seq(|blocks|, i requires 0 <= i < |blocks| => BlockRead(file, blocks[i]))
  }

  /** The blocks of a regular file; those of a directory are not used. */
  function OwnBlocks(e: EggFileEntry): seq<EggBlock> {
    if e.IsDirectory() then [] else e.blocks
  }

  function CrcSpansOf(entries: seq<EggFileEntry>, n: nat): seq<CrcSpan>
    requires n <= |entries|
  {
    if n == 0 then [] else CrcSpansOf(entries, n - 1) + SpansOfBlocks(OwnBlocks(entries[n - 1]))
  }

  function ReadsOf(entries: seq<EggFileEntry>, n: nat): seq<BlockRead>
    requires n <= |entries|
  {
    if n == 0 then [] else ReadsOf(entries, n - 1) + ReadsOfBlocks(n - 1, OwnBlocks(entries[n - 1]))
  }

  function PlanOf(entries: seq<EggFileEntry>, dest: Path, filter: Option<seq<string>>, pipeMode: bool): (p: Plan)
    ensures p.Valid()
  {
    Plan(FileSpansOf(entries, |entries|), CrcSpansOf(entries, |entries|), entries, dest, filter, pipeMode)
  }

  /** The paths that are looked at before anything is read. */
  function PathChecked(e: EggFileEntry, dest: Path, filter: Option<seq<string>>, pipeMode: bool): Result<Unit> {
    if e.IsDirectory() && (pipeMode || !ShouldExtract(e, filter)) then Ok(Unit.Unit)
    else
      var _ :- SafeJoin(dest, e.fileName);
      Ok(Unit.Unit)
  }

  function PathsChecked(
    entries: seq<EggFileEntry>, n: nat, dest: Path, filter: Option<seq<string>>, pipeMode: bool): Result<Unit>
    requires n <= |entries|
  {
    if n == 0 then Ok(Unit.Unit)
    else
      var _ :- PathsChecked(entries, n - 1, dest, filter, pipeMode);
      PathChecked(entries[n - 1], dest, filter, pipeMode)
  }

  // ---------- the buffer and the stream ----------

  /** One file's part of the compressed buffer: a fresh decryptor over its joined blocks. */
  function FileBytes(env: Primitives, flat: bytes, e: EggFileEntry, password: Option<bytes>): Result<bytes> {
    if OwnBlocks(e) == [] then Ok([])
    else
      var start :- Begin(env, flat, e, password);
      if !AllPresent(flat, e.blocks) then Err(CorruptedFile) else Ok(Plain(start, Joined(flat, e.blocks)))
  }

  function SolidBuffer(
    env: Primitives, flat: bytes, entries: seq<EggFileEntry>, n: nat, password: Option<bytes>): Result<bytes>
    requires n <= |entries|
  {
    if n == 0 then Ok([])
    else
      var front :- SolidBuffer(env, flat, entries, n - 1, password);
      var part :- FileBytes(env, flat, entries[n - 1], password);
      Ok(front + part)
  }

  /** The compression of the first block of all; the whole stream is taken to have it. */
  function FirstMethod(entries: seq<EggFileEntry>): CompressionMethod {
    if entries == [] then Store
    else if entries[0].blocks != [] then entries[0].blocks[0].compression
    else FirstMethod(entries[1..])
  }

  /** The decompressed stream, if the blocks can be read and decoded. */
  function SolidStream(
    env: Primitives, flat: bytes, entries: seq<EggFileEntry>, password: Option<bytes>)
    : Option<bytes>
  {
    match SolidBuffer(env, flat, entries, |entries|, password)
    case Err(_) => None
    case Ok(buffer) =>
      if ReadsOf(entries, |entries|) == [] then Some([])
      else Decoded(env, FirstMethod(entries), buffer, Total(CrcSizesOf(entries)))
  }

  /** The drivers over a buffer in memory: what reaches the sink, and whether the decoder succeeds. */
  function Driven(env: Primitives, m: CompressionMethod, buffer: bytes, total: nat): Decoding {
    match m
    case Store => Decoding([buffer], true)
    case Deflate => DeflateDriven(env.inflate, buffer, total)
    case Lzma => if |buffer| < 9 then Decoding([], false) else env.lzma(LzmaStream(buffer), MemLimit(total))
    case UnknownCompression(_) => Decoding([], false)
    case _ => env.foreign(m, buffer, |buffer|, total)
  }

  /** The inflating loop; a sink never takes more than `total`, so what would come behind that is of no interest. */
  function DeflateDriven(inf: Inflater, buffer: bytes, total: nat): Decoding {
    var run := Inflate(inf, buffer, |buffer|, total);
    Decoding([run.out], run.failed.None?)
  }

  function Decoded(env: Primitives, m: CompressionMethod, buffer: bytes, total: nat): Option<bytes> {
    var d := Driven(env, m, buffer, total);
    if d.ok then Some(Flatten(d.writes)) else None
  }

  /** A stream at the sink: refused by a write, broken off by its decoder, or refused at the end. */
  ghost function StreamOutcome(plan: Plan, stream: bytes, refused: Error, broken: Option<Error>): Result<bytes>
    requires plan.Valid()
  {
    if !Accepts(plan, stream) then Err(refused)
    else if broken.Some? then Err(broken.value)
    else if !Complete(plan, stream) then Err(CorruptedFile)
    else Ok(stream)
  }

  /** What comes of a buffer: the whole stream, or the first error. */
  ghost function SinkOutcome(plan: Plan, env: Primitives, m: CompressionMethod, buffer: bytes): Result<bytes>
    requires plan.Valid()
  {
    var d := Driven(env, m, buffer, Total(plan.CrcSizes()));
    StreamOutcome(plan, Flatten(d.writes), Refusal(m), if d.ok then None else Some(Breakdown(m)))
  }

  /** Solid extraction on values: its stream, or the error of the first step that fails. */
  ghost function SolidOutcome(
    env: Primitives, flat: bytes, entries: seq<EggFileEntry>, dest: Path, password: Option<bytes>,
    filter: Option<seq<string>>, pipeMode: bool): Result<bytes>
  {
    var plan := PlanOf(entries, dest, filter, pipeMode);
    var _ :- PathsChecked(entries, |entries|, dest, filter, pipeMode);
    if ReadsOf(entries, |entries|) != [] then
      var buffer :- SolidBuffer(env, flat, entries, |entries|, password);
      SinkOutcome(plan, env, FirstMethod(entries), buffer)
    else if !pipeMode && (exists s :: s in plan.fileSpans && s.size != 0) then Err(CorruptedFile)
    else Ok([])
  }

  function CrcSizesOf(entries: seq<EggFileEntry>): seq<nat> {
    PlanOf(entries, [], None, false).CrcSizes()
  }

  /**
   Solid extraction succeeds: every path is fine, the stream can be had, and it is complete. (Without any block
   and in pipe mode nothing is looked at.)
   */
  ghost predicate SolidSucceeds(
    env: Primitives, flat: bytes, entries: seq<EggFileEntry>, dest: Path, password: Option<bytes>,
    filter: Option<seq<string>>, pipeMode: bool)
  {
    var stream := SolidStream(env, flat, entries, password);
    && PathsChecked(entries, |entries|, dest, filter, pipeMode).Ok?
    && stream.Some?
    && (Complete(PlanOf(entries, dest, filter, pipeMode), stream.value)
        || (pipeMode && ReadsOf(entries, |entries|) == []))
  }

  // ---------- lemmas of the gathering loop ----------

  lemma {:induction false} ReadsGrow(entries: seq<EggFileEntry>, f: nat, n: nat)
    requires f <= n <= |entries|
    ensures ReadsOf(entries, f) <= ReadsOf(entries, n)
  {
    if f < n {
      ReadsGrow(entries, f, n - 1);
    }
  }

  /** The read at position b of file f. */
  lemma ReadAt(entries: seq<EggFileEntry>, f: nat, b: nat)
    requires f < |entries| && b < |OwnBlocks(entries[f])|
    ensures |ReadsOf(entries, f)| + b < |ReadsOf(entries, |entries|)|
    ensures ReadsOf(entries, |entries|)[|ReadsOf(entries, f)| + b] == BlockRead(f, entries[f].blocks[b])
  {
    ReadsGrow(entries, f + 1, |entries|);
    assert ReadsOf(entries, f + 1)[|ReadsOf(entries, f)| + b] == BlockRead(f, entries[f].blocks[b]);
  }

  /** The next file that owns blocks. */
  lemma {:induction false} NextFile(
    env: Primitives, flat: bytes, entries: seq<EggFileEntry>, f: nat, password: Option<bytes>)
    returns (g: nat)
    requires f <= |entries| && |ReadsOf(entries, f)| < |ReadsOf(entries, |entries|)|
    ensures f <= g < |entries| && OwnBlocks(entries[g]) != [] && ReadsOf(entries, g) == ReadsOf(entries, f)
    ensures SolidBuffer(env, flat, entries, f, password).Ok? ==>
      SolidBuffer(env, flat, entries, g, password) == SolidBuffer(env, flat, entries, f, password)
    decreases |entries| - f
  {
    hide SolidBuffer, ReadsOf, FileBytes;
    ReadsEnd(entries, f);
    g := f;
    if OwnBlocks(entries[f]) == [] {
      SkipFile(env, flat, entries, f, password);
      g := NextFile(env, flat, entries, f + 1, password);
    }
  }

  lemma ReadsEnd(entries: seq<EggFileEntry>, f: nat)
    requires f <= |entries|
    ensures |ReadsOf(entries, f)| < |ReadsOf(entries, |entries|)| ==> f < |entries|
  {
  }

  lemma SkipFile(env: Primitives, flat: bytes, entries: seq<EggFileEntry>, f: nat, password: Option<bytes>)
    requires f < |entries| && OwnBlocks(entries[f]) == []
    ensures ReadsOf(entries, f + 1) == ReadsOf(entries, f)
    ensures SolidBuffer(env, flat, entries, f, password).Ok? ==>
      SolidBuffer(env, flat, entries, f + 1, password) == SolidBuffer(env, flat, entries, f, password)
  {
    assert FileBytes(env, flat, entries[f], password) == Ok([]);
    hide FileBytes;
    var front := SolidBuffer(env, flat, entries, f, password);
    assert front.Ok? ==> front.value + [] == front.value;
  }

  /** No file from f on owns blocks: the buffer is what it was. */
  lemma {:induction false} SkipRest(
    env: Primitives, flat: bytes, entries: seq<EggFileEntry>, f: nat, password: Option<bytes>)
    requires f <= |entries| && |ReadsOf(entries, f)| == |ReadsOf(entries, |entries|)|
    requires SolidBuffer(env, flat, entries, f, password).Ok?
    ensures SolidBuffer(env, flat, entries, |entries|, password) == SolidBuffer(env, flat, entries, f, password)
    decreases |entries| - f
  {
    hide SolidBuffer, FileBytes, ReadsOf;
    if f < |entries| {
      ReadsGrow(entries, f + 1, |entries|);
      NoneOwned(entries, f);
      SkipFile(env, flat, entries, f, password);
      SkipRest(env, flat, entries, f + 1, password);
    }
  }

  /** Without any block there is nothing in the buffer. */
  lemma NothingRead(env: Primitives, flat: bytes, entries: seq<EggFileEntry>, password: Option<bytes>)
    requires ReadsOf(entries, |entries|) == []
    ensures SolidBuffer(env, flat, entries, |entries|, password) == Ok([])
  {
    SkipRest(env, flat, entries, 0, password);
  }

  /** One CRC span for every block read. */
  lemma {:induction false} SpansLikeReads(entries: seq<EggFileEntry>, n: nat)
    requires n <= |entries|
    ensures |CrcSpansOf(entries, n)| == |ReadsOf(entries, n)|
  {
    if n > 0 {
      SpansLikeReads(entries, n - 1);
    }
  }

  lemma NoneOwned(entries: seq<EggFileEntry>, f: nat)
    requires f < |entries| && |ReadsOf(entries, f + 1)| <= |ReadsOf(entries, f)|
    ensures OwnBlocks(entries[f]) == []
  {
  }

  /** A file that fails makes the buffer fail. */
  lemma {:induction false} ErrorSticks(
    env: Primitives, flat: bytes, entries: seq<EggFileEntry>, f: nat, n: nat, password: Option<bytes>)
    requires f <= n <= |entries| && SolidBuffer(env, flat, entries, f, password).Err?
    ensures SolidBuffer(env, flat, entries, n, password) == SolidBuffer(env, flat, entries, f, password)
  {
    hide FileBytes;
    if f < n {
      ErrorSticks(env, flat, entries, f, n - 1, password);
    }
  }
}
