/** What solid extraction comes to, said without its own functions: the buffer, the decoder, the two ways to cut. */
module SolidMeaning {
  import opened Bytes
  import opened Errors
  import opened ArchiveFormat
  import opened Disk
  import opened Decryptors
  import opened Inflation
  import opened Drivers
  import opened EntrySpec
  import opened SolidPlan
  import opened SolidSink
  import opened SolidTiling
  import opened SolidSpec
  import opened SolidExtractor
  import Crc32

  // ---------- the buffer ----------

  /** What a file adds to the buffer: its blocks, all there, under a decryptor of its own. */
  predicate IsPart(env: Primitives, flat: bytes, e: EggFileEntry, password: Option<bytes>, part: bytes) {
    if e.IsDirectory() || e.blocks == [] then part == []
    else
      var start := Begin(env, flat, e, password);
      && start.Ok? && part == Plain(start.value, Joined(flat, e.blocks))
      && forall i :: 0 <= i < |e.blocks| ==> Present(flat, e.blocks[i])
  }

  ghost predicate ArePartsOf(
    env: Primitives, flat: bytes, entries: seq<EggFileEntry>, password: Option<bytes>, parts: seq<bytes>)
  {
    |parts| == |entries| && forall i :: 0 <= i < |parts| ==> IsPart(env, flat, entries[i], password, parts[i])
  }

  lemma PartIff(env: Primitives, flat: bytes, e: EggFileEntry, password: Option<bytes>, part: bytes)
    ensures FileBytes(env, flat, e, password) == Ok(part) <==> IsPart(env, flat, e, password, part)
  {
    hide Plain, Begin, Joined, Present;
  }

  /** The buffer is the parts of all entries, one behind the other. */
  lemma {:induction false} GatheredIff(
    env: Primitives, flat: bytes, entries: seq<EggFileEntry>, n: nat, password: Option<bytes>, buffer: bytes)
    requires n <= |entries|
    ensures SolidBuffer(env, flat, entries, n, password) == Ok(buffer)
       <==> exists parts :: ArePartsOf(env, flat, entries[..n], password, parts) && buffer == Flatten(parts)
  {
    hide FileBytes, IsPart, Flatten;
    if n == 0 {
      NoParts(env, flat, entries, password);
    } else {
      var rest := SolidBuffer(env, flat, entries, n - 1, password);
      var last := FileBytes(env, flat, entries[n - 1], password);
      if rest.Ok? && last.Ok? {
        GatheredIff(env, flat, entries, n - 1, password, rest.value);
        PartIff(env, flat, entries[n - 1], password, last.value);
        var parts :| ArePartsOf(env, flat, entries[..n - 1], password, parts) && rest.value == Flatten(parts);
        OnePartMore(env, flat, entries, n, password, parts, last.value);
      }
      if exists parts :: ArePartsOf(env, flat, entries[..n], password, parts) && buffer == Flatten(parts) {
        var parts :| ArePartsOf(env, flat, entries[..n], password, parts) && buffer == Flatten(parts);
        OnePartLess(env, flat, entries, n, password, parts);
        GatheredIff(env, flat, entries, n - 1, password, Flatten(parts[..n - 1]));
        PartIff(env, flat, entries[n - 1], password, parts[n - 1]);
      }
    }
  }

  lemma NoParts(env: Primitives, flat: bytes, entries: seq<EggFileEntry>, password: Option<bytes>)
    ensures ArePartsOf(env, flat, entries[..0], password, []) && Flatten<byte>([]) == []
    ensures forall parts :: ArePartsOf(env, flat, entries[..0], password, parts) ==> parts == []
  {
  }

  lemma OnePartMore(
    env: Primitives, flat: bytes, entries: seq<EggFileEntry>, n: nat, password: Option<bytes>, parts: seq<bytes>,
    part: bytes)
    requires 0 < n <= |entries| && ArePartsOf(env, flat, entries[..n - 1], password, parts)
    requires IsPart(env, flat, entries[n - 1], password, part)
    ensures ArePartsOf(env, flat, entries[..n], password, parts + [part])
    ensures Flatten(parts + [part]) == Flatten(parts) + part
  {
    hide IsPart;
    FlattenAppend(parts, [part]);
    FlattenOne(part);
    forall i | 0 <= i < n - 1 ensures entries[..n][i] == entries[..n - 1][i] {
    }
  }

  lemma OnePartLess(
    env: Primitives, flat: bytes, entries: seq<EggFileEntry>, n: nat, password: Option<bytes>, parts: seq<bytes>)
    requires 0 < n <= |entries| && ArePartsOf(env, flat, entries[..n], password, parts)
    ensures ArePartsOf(env, flat, entries[..n - 1], password, parts[..n - 1])
    ensures IsPart(env, flat, entries[n - 1], password, parts[n - 1])
    ensures Flatten(parts) == Flatten(parts[..n - 1]) + parts[n - 1]
  {
    hide IsPart;
    assert parts == parts[..n - 1] + [parts[n - 1]];
    FlattenAppend(parts[..n - 1], [parts[n - 1]]);
    FlattenOne(parts[n - 1]);
    forall i | 0 <= i < n - 1 ensures entries[..n][i] == entries[..n - 1][i] {
    }
  }

  // ---------- the cut ----------

  /** The blocks of all regular files, in order. */
  function AllBlocks(entries: seq<EggFileEntry>): seq<EggBlock> {
    if entries == [] then []
    else
      var e := entries[|entries| - 1];
      AllBlocks(entries[..|entries| - 1]) + if e.IsDirectory() then [] else e.blocks
  }

  /** The declared sizes of all regular files together. */
  function DeclaredSum(entries: seq<EggFileEntry>): nat {
    if entries == [] then 0
    else
      var e := entries[|entries| - 1];
      DeclaredSum(entries[..|entries| - 1]) + if e.IsDirectory() then 0 else e.uncompressedSize
  }

  /** Pieces of the blocks' uncompressed sizes, each with its block's checksum. */
  predicate AreOutputs(blocks: seq<EggBlock>, pieces: seq<bytes>) {
    && |pieces| == |blocks|
    && forall k :: 0 <= k < |blocks| ==>
         |pieces[k]| == blocks[k].uncompressedSize && Crc32.Checksum(pieces[k]) == blocks[k].crc32
  }

  lemma {:induction false} SpansAre(entries: seq<EggFileEntry>, n: nat)
    requires n <= |entries|
    ensures CrcSpansOf(entries, n) == SpansOfBlocks(AllBlocks(entries[..n]))
  {
    if n > 0 {
      SpansAre(entries, n - 1);
      assert entries[..n][..n - 1] == entries[..n - 1];
    }
  }

  lemma {:induction false} SizesAre(entries: seq<EggFileEntry>, n: nat, sizes: seq<nat>)
    requires n <= |entries| && |sizes| == |FileSpansOf(entries, n)|
    requires forall i :: 0 <= i < |sizes| ==> sizes[i] == FileSpansOf(entries, n)[i].size
    ensures Off(sizes, |sizes|) == DeclaredSum(entries[..n])
  {
    if n > 0 {
      assert entries[..n][..n - 1] == entries[..n - 1];
      if entries[n - 1].IsDirectory() {
        SizesAre(entries, n - 1, sizes);
      } else {
        var shorter := sizes[..|sizes| - 1];
        SizesAre(entries, n - 1, shorter);
        assert sizes == shorter + [entries[n - 1].uncompressedSize];
        OffAppend(shorter, entries[n - 1].uncompressedSize, |shorter|);
      }
    }
  }

  lemma {:induction false} OffAppend(sizes: seq<nat>, last: nat, j: nat)
    requires j <= |sizes|
    ensures Off(sizes + [last], j) == Off(sizes, j)
  {
    if j > 0 {
      OffAppend(sizes, last, j - 1);
    }
  }

  /** The checksums of a cut stream are those of the pieces it is made of. */
  ghost predicate ChecksumsMatch(plan: Plan, stream: bytes) {
    |stream| == Total(plan.CrcSizes()) && forall k :: 0 <= k < |plan.crcSpans| ==> CrcOk(plan, k, stream)
  }

  lemma CutIsOutputs(plan: Plan, blocks: seq<EggBlock>, stream: bytes)
    requires plan.crcSpans == SpansOfBlocks(blocks) && ChecksumsMatch(plan, stream)
    ensures exists pieces :: AreOutputs(blocks, pieces) && stream == Flatten(pieces)
  {
    hide Crc32.Checksum, Tile, Off, Flatten;
    var sizes := plan.CrcSizes();
    TilesRebuild(sizes, stream);
    var pieces := Tiles(sizes, stream);
    forall k | 0 <= k < |blocks|
      ensures |pieces[k]| == blocks[k].uncompressedSize && Crc32.Checksum(pieces[k]) == blocks[k].crc32
    {
      assert CrcOk(plan, k, stream);
    }
    assert AreOutputs(blocks, pieces);
  }

  lemma OutputsAreCut(plan: Plan, blocks: seq<EggBlock>, stream: bytes, pieces: seq<bytes>)
    requires plan.crcSpans == SpansOfBlocks(blocks) && AreOutputs(blocks, pieces) && stream == Flatten(pieces)
    ensures ChecksumsMatch(plan, stream)
  {
    hide Crc32.Checksum, Tile, Off, Flatten;
    var sizes := plan.CrcSizes();
    TileOfPieces(sizes, pieces, |sizes|);
    forall k | 0 <= k < |blocks| ensures CrcOk(plan, k, stream) {
      TileOfPieces(sizes, pieces, k);
    }
  }

  lemma PlanIs(entries: seq<EggFileEntry>, dest: Path, filter: Option<seq<string>>, pipeMode: bool)
    ensures var plan := PlanOf(entries, dest, filter, pipeMode);
      && plan.crcSpans == SpansOfBlocks(AllBlocks(entries)) && Total(plan.FileSizes()) == DeclaredSum(entries)
  {
    hide Off;
    var plan := PlanOf(entries, dest, filter, pipeMode);
    assert entries[..|entries|] == entries;
    SpansAre(entries, |entries|);
    SizesAre(entries, |entries|, plan.FileSizes());
  }

  /**
   A stream is the whole one exactly when it is as long as the regular files together, is made of pieces that are the
   blocks' outputs, every selected file has a path, and the last block is not empty.
   */
  lemma CompleteIff(
    entries: seq<EggFileEntry>, dest: Path, filter: Option<seq<string>>, pipeMode: bool, stream: bytes)
    ensures var plan, blocks := PlanOf(entries, dest, filter, pipeMode), AllBlocks(entries);
      Complete(plan, stream)
      <==> && |stream| == DeclaredSum(entries)
           && (exists pieces :: AreOutputs(blocks, pieces) && stream == Flatten(pieces))
           && AllJoinable(plan)
           && (blocks != [] ==> blocks[|blocks| - 1].uncompressedSize > 0)
  {
    hide AllJoinable, CrcOk, Off, Flatten, AreOutputs, PlanOf, AllBlocks, DeclaredSum;
    var plan, blocks := PlanOf(entries, dest, filter, pipeMode), AllBlocks(entries);
    PlanIs(entries, dest, filter, pipeMode);
    if Complete(plan, stream) {
      CutIsOutputs(plan, blocks, stream);
    }
    if exists pieces :: AreOutputs(blocks, pieces) && stream == Flatten(pieces) {
      var pieces :| AreOutputs(blocks, pieces) && stream == Flatten(pieces);
      OutputsAreCut(plan, blocks, stream, pieces);
    }
  }

  // ---------- the decoder ----------

  /** Entry f is the first to have a block, of a directory or not. */
  predicate IsFirst(entries: seq<EggFileEntry>, f: nat) {
    && f < |entries| && entries[f].blocks != []
    && forall i :: 0 <= i < f ==> entries[i].blocks == []
  }

  lemma {:induction false} FirstMethodIs(entries: seq<EggFileEntry>, f: nat)
    requires IsFirst(entries, f)
    ensures FirstMethod(entries) == entries[f].blocks[0].compression
  {
    if f > 0 {
      forall i | 0 <= i < f - 1 ensures entries[1..][i] == entries[i + 1] {
      }
      FirstMethodIs(entries[1..], f - 1);
    }
  }

  lemma {:induction false} ReadsIff(entries: seq<EggFileEntry>, n: nat)
    requires n <= |entries|
    ensures ReadsOf(entries, n) == [] <==> AllBlocks(entries[..n]) == []
  {
    if n > 0 {
      ReadsIff(entries, n - 1);
      assert entries[..n][..n - 1] == entries[..n - 1];
    }
  }

  /** A run that can begin: every path is fine, some regular file has a block, and this is the buffer. */
  ghost predicate Gathered(
    env: Primitives, flat: bytes, entries: seq<EggFileEntry>, dest: Path, password: Option<bytes>,
    filter: Option<seq<string>>, pipeMode: bool, buffer: bytes)
  {
    && PathsChecked(entries, |entries|, dest, filter, pipeMode).Ok? && AllBlocks(entries) != []
    && SolidBuffer(env, flat, entries, |entries|, password) == Ok(buffer)
  }

  lemma RunIs(
    env: Primitives, flat: bytes, entries: seq<EggFileEntry>, dest: Path, password: Option<bytes>,
    filter: Option<seq<string>>, pipeMode: bool, buffer: bytes, f: nat)
    requires Gathered(env, flat, entries, dest, password, filter, pipeMode, buffer) && IsFirst(entries, f)
    ensures var plan := PlanOf(entries, dest, filter, pipeMode);
      SolidOutcome(env, flat, entries, dest, password, filter, pipeMode)
      == SinkOutcome(plan, env, entries[f].blocks[0].compression, buffer)
  {
    hide PathsChecked, SolidBuffer, ReadsOf, AllBlocks, PlanOf, SinkOutcome;
    FirstMethodIs(entries, f);
    ReadsIff(entries, |entries|);
    assert entries[..|entries|] == entries;
  }

  lemma SinkIs(plan: Plan, env: Primitives, m: CompressionMethod, buffer: bytes, stream: bytes)
    requires plan.Valid()
    ensures SinkOutcome(plan, env, m, buffer) == Ok(stream)
       <==> var d := Driven(env, m, buffer, Total(plan.CrcSizes()));
            d.ok && stream == Flatten(d.writes) && Complete(plan, stream)
  {
    hide Complete, Accepts, Driven, Total, Flatten;
    var d := Driven(env, m, buffer, Total(plan.CrcSizes()));
    if Complete(plan, Flatten(d.writes)) {
      CompleteAccepts(plan, Flatten(d.writes));
    }
  }

  /** Stored: the stream is the buffer. */
  lemma SolidStored(
    env: Primitives, flat: bytes, entries: seq<EggFileEntry>, dest: Path, password: Option<bytes>,
    filter: Option<seq<string>>, pipeMode: bool, buffer: bytes, f: nat, stream: bytes)
    requires Gathered(env, flat, entries, dest, password, filter, pipeMode, buffer) && IsFirst(entries, f)
    requires entries[f].blocks[0].compression == Store
    ensures SolidOutcome(env, flat, entries, dest, password, filter, pipeMode) == Ok(stream)
       <==> stream == buffer && Complete(PlanOf(entries, dest, filter, pipeMode), stream)
  {
    hide Gathered, SolidOutcome, SinkOutcome, Complete, PlanOf, Total;
    RunIs(env, flat, entries, dest, password, filter, pipeMode, buffer, f);
    SinkIs(PlanOf(entries, dest, filter, pipeMode), env, Store, buffer, stream);
    FlattenOne(buffer);
  }

  /** Deflate: the stream is what the inflater makes, called on windows of the buffer to the end. */
  lemma SolidDeflated(
    env: Primitives, flat: bytes, entries: seq<EggFileEntry>, dest: Path, password: Option<bytes>,
    filter: Option<seq<string>>, pipeMode: bool, buffer: bytes, f: nat, stream: bytes)
    requires Gathered(env, flat, entries, dest, password, filter, pipeMode, buffer) && IsFirst(entries, f)
    requires entries[f].blocks[0].compression == Deflate
    ensures SolidOutcome(env, flat, entries, dest, password, filter, pipeMode) == Ok(stream)
       <==> && (exists windows :: IsLoop(env.inflate, windows, buffer, |buffer|)
                  && stream == MadeBy(env.inflate, windows))
            && Complete(PlanOf(entries, dest, filter, pipeMode), stream)
  {
    hide Gathered, SolidOutcome, SinkOutcome, PlanOf, Total, IsLoop, MadeBy, Inflate, AllJoinable, CrcOk;
    var plan := PlanOf(entries, dest, filter, pipeMode);
    var total := Total(plan.CrcSizes());
    var run := Inflate(env.inflate, buffer, |buffer|, total);
    RunIs(env, flat, entries, dest, password, filter, pipeMode, buffer, f);
    SinkIs(plan, env, Deflate, buffer, stream);
    FlattenOne(run.out);
    OutcomeIsLoop(env.inflate, buffer, |buffer|, total, stream);
  }

  /** LZMA: the decoder gets properties, an unknown size and the rest of the buffer. */
  lemma SolidLzma(
    env: Primitives, flat: bytes, entries: seq<EggFileEntry>, dest: Path, password: Option<bytes>,
    filter: Option<seq<string>>, pipeMode: bool, buffer: bytes, f: nat, stream: bytes)
    requires Gathered(env, flat, entries, dest, password, filter, pipeMode, buffer) && IsFirst(entries, f)
    requires entries[f].blocks[0].compression == Lzma
    ensures SolidOutcome(env, flat, entries, dest, password, filter, pipeMode) == Ok(stream)
       <==> && |buffer| >= 9
            && var d := env.lzma(
                 buffer[4..9] + [0xFF, 0xFF, 0xFF, 0xFF, 0xFF, 0xFF, 0xFF, 0xFF] + buffer[9..],
                 Min(UncompressedSum(AllBlocks(entries)) + 65536, 0xFFFF_FFFF_FFFF_FFFF));
               (d.ok && stream == Flatten(d.writes) && Complete(PlanOf(entries, dest, filter, pipeMode), stream))
  {
    hide Gathered, SolidOutcome, SinkOutcome, Complete, PlanOf, Total, Flatten, AllBlocks, UncompressedSum;
    RunIs(env, flat, entries, dest, password, filter, pipeMode, buffer, f);
    SinkIs(PlanOf(entries, dest, filter, pipeMode), env, Lzma, buffer, stream);
    TotalIs(entries, dest, filter, pipeMode);
    assert TWO_64 == 0x1_0000_0000_0000_0000;
  }

  function UncompressedSum(blocks: seq<EggBlock>): nat {
    if blocks == [] then 0 else UncompressedSum(blocks[..|blocks| - 1]) + blocks[|blocks| - 1].uncompressedSize
  }

  lemma TotalIs(entries: seq<EggFileEntry>, dest: Path, filter: Option<seq<string>>, pipeMode: bool)
    ensures Total(PlanOf(entries, dest, filter, pipeMode).CrcSizes()) == UncompressedSum(AllBlocks(entries))
  {
    hide Off, AllBlocks, PlanOf;
    var plan := PlanOf(entries, dest, filter, pipeMode);
    PlanIs(entries, dest, filter, pipeMode);
    SumIs(AllBlocks(entries), plan.CrcSizes(), |plan.crcSpans|);
    assert AllBlocks(entries)[..|plan.crcSpans|] == AllBlocks(entries);
  }

  lemma {:induction false} SumIs(blocks: seq<EggBlock>, sizes: seq<nat>, n: nat)
    requires |blocks| == |sizes| && n <= |blocks|
    requires forall i :: 0 <= i < |blocks| ==> sizes[i] == blocks[i].uncompressedSize
    ensures Off(sizes, n) == UncompressedSum(blocks[..n])
  {
    if n > 0 {
      SumIs(blocks, sizes, n - 1);
      assert blocks[..n][..n - 1] == blocks[..n - 1];
    }
  }

  /** bzip2 and AZO: the foreign decoder of that very method on the buffer. */
  lemma SolidForeign(
    env: Primitives, flat: bytes, entries: seq<EggFileEntry>, dest: Path, password: Option<bytes>,
    filter: Option<seq<string>>, pipeMode: bool, buffer: bytes, f: nat, stream: bytes)
    requires Gathered(env, flat, entries, dest, password, filter, pipeMode, buffer) && IsFirst(entries, f)
    requires entries[f].blocks[0].compression == Bzip2 || entries[f].blocks[0].compression == Azo
    ensures SolidOutcome(env, flat, entries, dest, password, filter, pipeMode) == Ok(stream)
       <==> var d := env.foreign(
              entries[f].blocks[0].compression, buffer, |buffer|, UncompressedSum(AllBlocks(entries)));
            d.ok && stream == Flatten(d.writes) && Complete(PlanOf(entries, dest, filter, pipeMode), stream)
  {
    hide Gathered, SolidOutcome, SinkOutcome, Complete, PlanOf, Total, Flatten, AllBlocks, UncompressedSum;
    RunIs(env, flat, entries, dest, password, filter, pipeMode, buffer, f);
    SinkIs(PlanOf(entries, dest, filter, pipeMode), env, entries[f].blocks[0].compression, buffer, stream);
    TotalIs(entries, dest, filter, pipeMode);
  }

  /** An unknown method is the error. */
  lemma SolidUnknown(
    env: Primitives, flat: bytes, entries: seq<EggFileEntry>, dest: Path, password: Option<bytes>,
    filter: Option<seq<string>>, pipeMode: bool, buffer: bytes, f: nat)
    requires Gathered(env, flat, entries, dest, password, filter, pipeMode, buffer) && IsFirst(entries, f)
    requires entries[f].blocks[0].compression.UnknownCompression?
    ensures SolidOutcome(env, flat, entries, dest, password, filter, pipeMode)
         == Err(UnknownCompressionMethod(entries[f].blocks[0].compression.code))
  {
    hide Gathered, SolidOutcome, Complete, PlanOf, Accepts, Total;
    RunIs(env, flat, entries, dest, password, filter, pipeMode, buffer, f);
    NothingAccepted(PlanOf(entries, dest, filter, pipeMode));
    NothingFlat();
  }

  // ---------- paths and files ----------

  predicate IsLookedAt(e: EggFileEntry, filter: Option<seq<string>>, pipeMode: bool) {
    !e.IsDirectory() || (!pipeMode && ShouldExtract(e, filter))
  }

  /** Which names must be usable: of all regular files, and of selected directories unless everything is piped. */
  lemma {:induction false} PathsFineIff(
    entries: seq<EggFileEntry>, n: nat, dest: Path, filter: Option<seq<string>>, pipeMode: bool)
    requires n <= |entries|
    ensures PathsChecked(entries, n, dest, filter, pipeMode).Ok?
       <==> forall i :: 0 <= i < n && IsLookedAt(entries[i], filter, pipeMode) ==>
              SafeJoin(dest, entries[i].fileName).Ok?
  {
    hide SafeJoin, ShouldExtract, EggFileEntry.IsDirectory;
    if n > 0 {
      PathsFineIff(entries, n - 1, dest, filter, pipeMode);
    }
  }

  lemma {:induction false} SpanOf(entries: seq<EggFileEntry>, i: nat, n: nat)
    requires i < n <= |entries| && !entries[i].IsDirectory()
    ensures var j := |FileSpansOf(entries, i)|;
      && j < |FileSpansOf(entries, n)| && FileSpansOf(entries, i) <= FileSpansOf(entries, n)
      && FileSpansOf(entries, n)[j] == FileSpan(i, entries[i].uncompressedSize)
  {
    if i < n - 1 {
      SpanOf(entries, i, n - 1);
    }
  }

  lemma {:induction false} OffOfPrefix(sizes: seq<nat>, j: nat)
    requires j <= |sizes|
    ensures Off(sizes[..j], j) == Off(sizes, j)
    decreases j
  {
    if j > 0 {
      OffOfPrefix(sizes[..j], j - 1);
      OffOfPrefix(sizes, j - 1);
      assert sizes[..j][..j - 1] == sizes[..j - 1];
    }
  }

  /** Each selected file holds the stretch of the stream behind the files before it, as long as it declares. */
  lemma FileHoldsStretch(
    entries: seq<EggFileEntry>, dest: Path, filter: Option<seq<string>>, before: Output, stream: bytes, i: nat)
    requires i < |entries| && !entries[i].IsDirectory() && ShouldExtract(entries[i], filter)
    requires SafeJoin(dest, entries[i].fileName).Ok? && |stream| == DeclaredSum(entries)
    requires DistinctTargets(PlanOf(entries, dest, filter, false))
    ensures var plan, from := PlanOf(entries, dest, filter, false), DeclaredSum(entries[..i]);
      var now, q := Written(plan, before, |plan.fileSpans|, stream), SafeJoin(dest, entries[i].fileName).value;
      && from + entries[i].uncompressedSize <= |stream|
      && q in now.files && now.files[q] == stream[from..from + entries[i].uncompressedSize]
  {
    hide SafeJoin, ShouldExtract, Written, DistinctTargets, EggFileEntry.IsDirectory, Off;
    var plan, j := PlanOf(entries, dest, filter, false), |FileSpansOf(entries, i)|;
    var sizes := plan.FileSizes();
    SpanOf(entries, i, |entries|);
    SizesAre(entries, i, sizes[..j]);
    OffOfPrefix(sizes, j);
    PlanIs(entries, dest, filter, false);
    OffStep(sizes, j);
    OffMonotone(sizes, j + 1, |sizes|);
    SliceOnDisk(plan, before, |plan.fileSpans|, stream, j);
  }
}
