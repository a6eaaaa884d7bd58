/**
 Solid extraction against per-entry extraction: on archives of stored blocks whose sizes add up, the two paths
 succeed together and leave the same output, encrypted or not.
 */
module SolidEquivalence {
  import opened Bytes
  import opened Errors
  import opened ArchiveFormat
  import opened Disk
  import opened Decryptors
  import opened EntrySpec
  import opened SolidPlan
  import opened SolidSpec
  import opened SolidTiling
  import Crc32

  // ---------- the archives in question ----------

  function SizeSum(blocks: seq<EggBlock>): nat {
    if blocks == [] then 0 else SizeSum(blocks[..|blocks| - 1]) + blocks[|blocks| - 1].uncompressedSize
  }

  predicate StoredWhole(blocks: seq<EggBlock>) {
    StoreOnly(blocks) && forall i :: 0 <= i < |blocks| ==> blocks[i].compressedSize == blocks[i].uncompressedSize
  }

  /**
   An entry of stored blocks that add up to its declared size; a directory owns no blocks and has a usable path.
   */
  predicate AddsUp(e: EggFileEntry, dest: Path) {
    && StoredWhole(e.blocks)
    && (if e.IsDirectory() then e.blocks == [] && SafeJoin(dest, e.fileName).Ok?
        else SizeSum(e.blocks) == e.uncompressedSize)
  }

  predicate AllAddUp(entries: seq<EggFileEntry>, dest: Path) {
    forall i :: 0 <= i < |entries| ==> AddsUp(entries[i], dest)
  }

  /** The archive's last block, if there is one, is not empty. */
  predicate LastBlockNotEmpty(entries: seq<EggFileEntry>) {
    var spans := CrcSpansOf(entries, |entries|);
    spans != [] ==> spans[|spans| - 1].size > 0
  }

  // ---------- pieces ----------

  function StartFor(env: Primitives, flat: bytes, e: EggFileEntry, password: Option<bytes>): Option<State> {
    var start := Begin(env, flat, e, password);
    if start.Ok? then start.value else None
  }

  function PiecesFor(env: Primitives, flat: bytes, e: EggFileEntry, password: Option<bytes>): (r: seq<bytes>)
    ensures |r| == |OwnBlocks(e)|
  {
    Pieces(StartFor(env, flat, e, password), flat, OwnBlocks(e))
  }

  /** What one regular file contributes to the stream. */
  function PartFor(env: Primitives, flat: bytes, e: EggFileEntry, password: Option<bytes>): bytes {
    Flatten(PiecesFor(env, flat, e, password))
  }

  /** The blocks of all regular files, decrypted, one piece a block. */
  function AllPieces(
    env: Primitives, flat: bytes, entries: seq<EggFileEntry>, n: nat, password: Option<bytes>): seq<bytes>
    requires n <= |entries|
  {
    if n == 0 then []
    else AllPieces(env, flat, entries, n - 1, password) + PiecesFor(env, flat, entries[n - 1], password)
  }

  /** The same, one part a file. */
  function FileParts(
    env: Primitives, flat: bytes, entries: seq<EggFileEntry>, n: nat, password: Option<bytes>): seq<bytes>
    requires n <= |entries|
  {
    if n == 0 then []
    else
      var rest := FileParts(env, flat, entries, n - 1, password);
      if entries[n - 1].IsDirectory() then rest else rest + [PartFor(env, flat, entries[n - 1], password)]
  }

  /** A file's bytes in the buffer are its decrypted blocks joined. */
  lemma BytesArePart(env: Primitives, flat: bytes, e: EggFileEntry, password: Option<bytes>)
    requires FileBytes(env, flat, e, password).Ok?
    ensures FileBytes(env, flat, e, password).value == PartFor(env, flat, e, password)
  {
    hide Plain, Joined, AllPresent;
    if OwnBlocks(e) != [] {
      OneKeystream(StartFor(env, flat, e, password), flat, e.blocks);
    }
  }

  /** The buffer is the concatenation of all pieces, and of all parts. */
  lemma {:induction false} BufferIs(
    env: Primitives, flat: bytes, entries: seq<EggFileEntry>, n: nat, password: Option<bytes>)
    requires n <= |entries| && SolidBuffer(env, flat, entries, n, password).Ok?
    ensures SolidBuffer(env, flat, entries, n, password).value == Flatten(AllPieces(env, flat, entries, n, password))
    ensures SolidBuffer(env, flat, entries, n, password).value == Flatten(FileParts(env, flat, entries, n, password))
  {
    hide FileBytes, PiecesFor, PartFor;
    if n > 0 {
      BufferIs(env, flat, entries, n - 1, password);
      var e := entries[n - 1];
      BytesArePart(env, flat, e, password);
      PartIs(env, flat, e, password);
      FlattenAppend(AllPieces(env, flat, entries, n - 1, password), PiecesFor(env, flat, e, password));
      var parts, part := FileParts(env, flat, entries, n - 1, password), PartFor(env, flat, e, password);
      FlattenAppend(parts, [part]);
      FlattenOne(part);
      if e.IsDirectory() {
        assert part == [];
        assert Flatten(parts) + [] == Flatten(parts);
      }
    }
  }

  lemma PartIs(env: Primitives, flat: bytes, e: EggFileEntry, password: Option<bytes>)
    ensures PartFor(env, flat, e, password) == Flatten(PiecesFor(env, flat, e, password))
    ensures OwnBlocks(e) == [] ==> PartFor(env, flat, e, password) == []
  {
  }

  // ---------- sizes ----------

  lemma {:induction false} PieceSizes(start: Option<State>, flat: bytes, blocks: seq<EggBlock>)
    requires StoredWhole(blocks) && AllPresent(flat, blocks)
    ensures forall i :: 0 <= i < |blocks| ==> |Pieces(start, flat, blocks)[i]| == blocks[i].uncompressedSize
    ensures |Flatten(Pieces(start, flat, blocks))| == SizeSum(blocks)
  {
    hide Plain, Then, Stored, Joined;
    if blocks != [] {
      var rest, last := blocks[..|blocks| - 1], blocks[|blocks| - 1];
      assert forall i :: 0 <= i < |rest| ==> rest[i] == blocks[i];
      PieceSizes(start, flat, rest);
      var piece := Plain(Then(start, Joined(flat, rest)), Stored(flat, last));
      assert Present(flat, last);
      FlattenAppend(Pieces(start, flat, rest), [piece]);
      FlattenOne(piece);
    }
  }

  /** Once the blocks can be read, pieces have the block sizes and the part has the declared size. */
  lemma FileSized(env: Primitives, flat: bytes, e: EggFileEntry, dest: Path, password: Option<bytes>)
    requires AddsUp(e, dest) && FileBytes(env, flat, e, password).Ok?
    ensures var pieces := PiecesFor(env, flat, e, password);
      forall i :: 0 <= i < |pieces| ==> |pieces[i]| == OwnBlocks(e)[i].uncompressedSize
    ensures !e.IsDirectory() ==> |PartFor(env, flat, e, password)| == e.uncompressedSize
  {
    hide Begin, Plain, Joined, Pieces;
    if OwnBlocks(e) == [] {
      NoPieces(StartFor(env, flat, e, password), flat);
    } else {
      PieceSizes(StartFor(env, flat, e, password), flat, e.blocks);
    }
  }

  lemma NoPieces(start: Option<State>, flat: bytes)
    ensures Pieces(start, flat, []) == [] && Flatten<byte>([]) == [] && SizeSum([]) == 0
  {
  }

  ghost predicate PartsSized(spans: seq<FileSpan>, parts: seq<bytes>) {
    |spans| == |parts| && forall j :: 0 <= j < |spans| ==> |parts[j]| == spans[j].size
  }

  ghost predicate PiecesSized(spans: seq<CrcSpan>, pieces: seq<bytes>) {
    |spans| == |pieces| && forall k :: 0 <= k < |spans| ==> |pieces[k]| == spans[k].size
  }

  lemma {:induction false} AllSized(
    env: Primitives, flat: bytes, entries: seq<EggFileEntry>, n: nat, dest: Path, password: Option<bytes>)
    requires n <= |entries| && AllAddUp(entries, dest) && SolidBuffer(env, flat, entries, n, password).Ok?
    ensures PartsSized(FileSpansOf(entries, n), FileParts(env, flat, entries, n, password))
    ensures PiecesSized(CrcSpansOf(entries, n), AllPieces(env, flat, entries, n, password))
  {
    hide FileBytes, PiecesFor, PartFor, AddsUp, PartsSized, PiecesSized;
    if n == 0 {
      NoneSized();
    } else {
      AllSized(env, flat, entries, n - 1, dest, password);
      var e := entries[n - 1];
      assert AddsUp(e, dest);
      FileSized(env, flat, e, dest, password);
      PiecesJoin(CrcSpansOf(entries, n - 1), OwnBlocks(e), AllPieces(env, flat, entries, n - 1, password),
        PiecesFor(env, flat, e, password));
      if !e.IsDirectory() {
        PartJoins(FileSpansOf(entries, n - 1), FileSpan(n - 1, e.uncompressedSize),
          FileParts(env, flat, entries, n - 1, password), PartFor(env, flat, e, password));
      }
    }
  }

  lemma NoneSized()
    ensures PartsSized([], []) && PiecesSized([], [])
  {
  }

  lemma PartJoins(spans: seq<FileSpan>, span: FileSpan, parts: seq<bytes>, part: bytes)
    requires PartsSized(spans, parts) && |part| == span.size
    ensures PartsSized(spans + [span], parts + [part])
  {
  }

  lemma PiecesJoin(spans: seq<CrcSpan>, blocks: seq<EggBlock>, done: seq<bytes>, pieces: seq<bytes>)
    requires PiecesSized(spans, done) && |pieces| == |blocks|
    requires forall i :: 0 <= i < |pieces| ==> |pieces[i]| == blocks[i].uncompressedSize
    ensures PiecesSized(spans + SpansOfBlocks(blocks), done + pieces)
  {
  }

  // ---------- checksums ----------

  /** Every piece has its span's checksum. */
  ghost predicate SumsMatch(spans: seq<CrcSpan>, pieces: seq<bytes>) {
    |spans| == |pieces| && forall k :: 0 <= k < |spans| ==> Crc32.Checksum(pieces[k]) == spans[k].crc
  }

  ghost predicate FileSumsMatch(env: Primitives, flat: bytes, e: EggFileEntry, password: Option<bytes>) {
    SumsMatch(SpansOfBlocks(OwnBlocks(e)), PiecesFor(env, flat, e, password))
  }

  lemma SumsJoin(s: seq<CrcSpan>, t: seq<CrcSpan>, p: seq<bytes>, q: seq<bytes>)
    requires |s| == |p| && |t| == |q|
    ensures SumsMatch(s + t, p + q) <==> SumsMatch(s, p) && SumsMatch(t, q)
  {
    hide Crc32.Checksum;
    if SumsMatch(s + t, p + q) {
      forall k | 0 <= k < |s| ensures Crc32.Checksum(p[k]) == s[k].crc {
        assert (s + t)[k] == s[k] && (p + q)[k] == p[k];
      }
      forall k | 0 <= k < |t| ensures Crc32.Checksum(q[k]) == t[k].crc {
        assert (s + t)[|s| + k] == t[k] && (p + q)[|s| + k] == q[k];
      }
    }
  }

  lemma {:induction false} SumsByFile(
    env: Primitives, flat: bytes, entries: seq<EggFileEntry>, n: nat, password: Option<bytes>)
    requires n <= |entries|
    ensures |CrcSpansOf(entries, n)| == |AllPieces(env, flat, entries, n, password)|
    ensures SumsMatch(CrcSpansOf(entries, n), AllPieces(env, flat, entries, n, password))
       <==> forall i :: 0 <= i < n ==> FileSumsMatch(env, flat, entries[i], password)
  {
    hide PiecesFor, SumsMatch, FileSumsMatch;
    if n == 0 {
      NoSums();
    } else {
      SumsByFile(env, flat, entries, n - 1, password);
      FileSumsAre(env, flat, entries[n - 1], password);
      SumsJoin(CrcSpansOf(entries, n - 1), SpansOfBlocks(OwnBlocks(entries[n - 1])),
        AllPieces(env, flat, entries, n - 1, password), PiecesFor(env, flat, entries[n - 1], password));
    }
  }

  lemma NoSums()
    ensures SumsMatch([], [])
  {
  }

  lemma FileSumsAre(env: Primitives, flat: bytes, e: EggFileEntry, password: Option<bytes>)
    ensures FileSumsMatch(env, flat, e, password)
       <==> SumsMatch(SpansOfBlocks(OwnBlocks(e)), PiecesFor(env, flat, e, password))
  {
  }

  // ---------- one entry on both paths ----------

  /** The per-entry path gives a content exactly when the solid path can read the file and its checksums match. */
  lemma ContentIsPart(env: Primitives, flat: bytes, e: EggFileEntry, dest: Path, password: Option<bytes>)
    requires AddsUp(e, dest)
    ensures Content(env, flat, e, password).Ok? <==>
      FileBytes(env, flat, e, password).Ok? && FileSumsMatch(env, flat, e, password)
    ensures Content(env, flat, e, password).Ok? ==>
      Content(env, flat, e, password).value == PartFor(env, flat, e, password)
  {
    hide Begin, Plain, Joined, Pieces, BlocksOutcome, Stored;
    var start := StartFor(env, flat, e, password);
    if OwnBlocks(e) == [] {
      NoPieces(start, flat);
      NoSums();
    } else if Begin(env, flat, e, password).Ok? {
      BlocksOutcomeIs(env, start, flat, e.blocks);
      OneKeystream(start, flat, e.blocks);
      FineIs(start, flat, e.blocks);
      hide FileSumsMatch, SumsMatch, BlocksFine;
      FileSumsAre(env, flat, e, password);
    }
  }

  lemma FineIs(start: Option<State>, flat: bytes, blocks: seq<EggBlock>)
    requires StoredWhole(blocks)
    ensures BlocksFine(start, flat, blocks)
       <==> AllPresent(flat, blocks) && SumsMatch(SpansOfBlocks(blocks), Pieces(start, flat, blocks))
  {
    hide Crc32.Checksum, Stored, Pieces;
    var pieces, spans := Pieces(start, flat, blocks), SpansOfBlocks(blocks);
    if BlocksFine(start, flat, blocks) {
      forall i | 0 <= i < |blocks| ensures Present(flat, blocks[i]) && Crc32.Checksum(pieces[i]) == spans[i].crc {
        assert BlockFine(flat, blocks[i], pieces[i]);
      }
    }
    if AllPresent(flat, blocks) && SumsMatch(spans, pieces) {
      forall i | 0 <= i < |blocks| ensures BlockFine(flat, blocks[i], pieces[i]) {
        assert Crc32.Checksum(pieces[i]) == spans[i].crc;
      }
    }
  }

  // ---------- the two paths succeed together ----------

  lemma {:induction false} PathsIff(
    entries: seq<EggFileEntry>, n: nat, dest: Path, filter: Option<seq<string>>, pipeMode: bool)
    requires n <= |entries| && AllAddUp(entries, dest)
    ensures PathsChecked(entries, n, dest, filter, pipeMode).Ok?
       <==> forall i :: 0 <= i < n ==> SafeJoin(dest, entries[i].fileName).Ok?
  {
    hide SafeJoin, ShouldExtract, StoredWhole, SizeSum;
    if n > 0 {
      PathsIff(entries, n - 1, dest, filter, pipeMode);
      assert AddsUp(entries[n - 1], dest);
    }
  }

  lemma {:induction false} BufferIff(
    env: Primitives, flat: bytes, entries: seq<EggFileEntry>, n: nat, password: Option<bytes>)
    requires n <= |entries|
    ensures SolidBuffer(env, flat, entries, n, password).Ok?
       <==> forall i :: 0 <= i < n ==> FileBytes(env, flat, entries[i], password).Ok?
  {
    hide FileBytes;
    if n > 0 {
      BufferIff(env, flat, entries, n - 1, password);
    }
  }

  lemma {:induction false} FirstIsStore(entries: seq<EggFileEntry>, dest: Path)
    requires AllAddUp(entries, dest)
    ensures FirstMethod(entries) == Store
  {
    hide SafeJoin, SizeSum;
    if entries != [] {
      assert AddsUp(entries[0], dest);
      assert forall i :: 0 <= i < |entries[1..]| ==> entries[1..][i] == entries[i + 1];
      FirstIsStore(entries[1..], dest);
    }
  }

  /** The stream is the buffer. */
  lemma StreamIsBuffer(
    env: Primitives, flat: bytes, entries: seq<EggFileEntry>, dest: Path, password: Option<bytes>)
    requires AllAddUp(entries, dest)
    ensures var buffer := SolidBuffer(env, flat, entries, |entries|, password);
      SolidStream(env, flat, entries, password) == if buffer.Ok? then Some(buffer.value) else None
  {
    hide SolidBuffer, ReadsOf, AllAddUp;
    FirstIsStore(entries, dest);
    if ReadsOf(entries, |entries|) == [] {
      NothingRead(env, flat, entries, password);
    } else if SolidBuffer(env, flat, entries, |entries|, password).Ok? {
      FlattenOne(SolidBuffer(env, flat, entries, |entries|, password).value);
    }
  }

  /** A buffer cut to size is a complete stream exactly when the checksums match. */
  lemma BufferComplete(plan: Plan, stream: bytes, parts: seq<bytes>, pieces: seq<bytes>)
    requires plan.Valid() && PartsSized(plan.fileSpans, parts) && PiecesSized(plan.crcSpans, pieces)
    requires stream == Flatten(parts) == Flatten(pieces)
    requires forall j :: 0 <= j < |plan.fileSpans| ==> plan.Joinable(j)
    requires plan.crcSpans != [] ==> plan.crcSpans[|plan.crcSpans| - 1].size > 0
    ensures Complete(plan, stream) <==> SumsMatch(plan.crcSpans, pieces)
    ensures CutInto(plan, stream, parts)
  {
    hide Crc32.Checksum, Tile, Plan.Joinable;
    TileOfPieces(plan.FileSizes(), parts, |parts|);
    TileOfPieces(plan.CrcSizes(), pieces, |pieces|);
    forall k | 0 <= k < |pieces| ensures Tile(plan.CrcSizes(), k, stream) == pieces[k] {
      TileOfPieces(plan.CrcSizes(), pieces, k);
    }
    forall j | 0 <= j < |parts| ensures Tile(plan.FileSizes(), j, stream) == parts[j] {
      TileOfPieces(plan.FileSizes(), parts, j);
    }
    if Complete(plan, stream) {
      forall k | 0 <= k < |pieces| ensures Crc32.Checksum(pieces[k]) == plan.crcSpans[k].crc {
        assert CrcOk(plan, k, stream);
      }
    }
  }

  lemma {:induction false} AllJoinable(
    entries: seq<EggFileEntry>, dest: Path, filter: Option<seq<string>>, pipeMode: bool)
    requires forall i :: 0 <= i < |entries| ==> SafeJoin(dest, entries[i].fileName).Ok?
    ensures var plan := PlanOf(entries, dest, filter, pipeMode);
      forall j :: 0 <= j < |plan.fileSpans| ==> plan.Joinable(j)
  {
    hide SafeJoin, ShouldExtract;
    var plan := PlanOf(entries, dest, filter, pipeMode);
    forall j | 0 <= j < |plan.fileSpans| ensures plan.Joinable(j) {
      assert plan.fileSpans[j] in plan.fileSpans;
    }
  }

  /** The file tiles of the stream are these parts. */
  ghost predicate CutInto(plan: Plan, stream: bytes, parts: seq<bytes>) {
    && |parts| == |plan.fileSpans|
    && forall j :: 0 <= j < |parts| ==> Tile(plan.FileSizes(), j, stream) == parts[j]
  }

  /** With paths and buffer in order, the rest of solid extraction is a matter of checksums. */
  lemma SolidIsChecksums(
    env: Primitives, flat: bytes, entries: seq<EggFileEntry>, dest: Path, password: Option<bytes>,
    filter: Option<seq<string>>, pipeMode: bool)
    requires AllAddUp(entries, dest) && LastBlockNotEmpty(entries)
    requires PathsChecked(entries, |entries|, dest, filter, pipeMode).Ok?
    requires SolidBuffer(env, flat, entries, |entries|, password).Ok?
    ensures SolidSucceeds(env, flat, entries, dest, password, filter, pipeMode)
       <==> forall i :: 0 <= i < |entries| ==> FileSumsMatch(env, flat, entries[i], password)
    ensures CutInto(
      PlanOf(entries, dest, filter, pipeMode), SolidBuffer(env, flat, entries, |entries|, password).value,
      FileParts(env, flat, entries, |entries|, password))
  {
    hide SolidBuffer, AllAddUp, PathsChecked, ReadsOf, FileParts, AllPieces, SumsMatch, FileSumsMatch, PartsSized,
      PiecesSized, Complete, Tile, SafeJoin, CutInto;
    var plan := PlanOf(entries, dest, filter, pipeMode);
    var parts := FileParts(env, flat, entries, |entries|, password);
    var pieces := AllPieces(env, flat, entries, |entries|, password);
    StreamIsBuffer(env, flat, entries, dest, password);
    BufferIs(env, flat, entries, |entries|, password);
    AllSized(env, flat, entries, |entries|, dest, password);
    PathsIff(entries, |entries|, dest, filter, pipeMode);
    AllJoinable(entries, dest, filter, pipeMode);
    BufferComplete(plan, Flatten(parts), parts, pieces);
    SumsByFile(env, flat, entries, |entries|, password);
    if ReadsOf(entries, |entries|) == [] {
      NoReads(entries, pieces);
    }
  }

  lemma NoReads(entries: seq<EggFileEntry>, pieces: seq<bytes>)
    requires ReadsOf(entries, |entries|) == [] && |CrcSpansOf(entries, |entries|)| == |pieces|
    ensures SumsMatch(CrcSpansOf(entries, |entries|), pieces)
  {
    SpansLikeReads(entries, |entries|);
  }

  /** Solid extraction succeeds exactly when per-entry extraction succeeds on every entry. */
  lemma SolidIffEntries(
    env: Primitives, flat: bytes, entries: seq<EggFileEntry>, dest: Path, password: Option<bytes>,
    filter: Option<seq<string>>, pipeMode: bool)
    requires AllAddUp(entries, dest) && LastBlockNotEmpty(entries)
    ensures SolidSucceeds(env, flat, entries, dest, password, filter, pipeMode)
       <==> forall i :: 0 <= i < |entries| ==> EntryOutcome(env, flat, entries[i], dest, password).Ok?
  {
    hide SolidBuffer, PathsChecked, ReadsOf, FileSumsMatch, Complete, Tile, SafeJoin, FileBytes, Content, AddsUp,
      LastBlockNotEmpty, PlanOf, FileParts, AllAddUp, SolidStream, CutInto;
    PathsIff(entries, |entries|, dest, filter, pipeMode);
    BufferIff(env, flat, entries, |entries|, password);
    EntriesIff(env, flat, entries, dest, password);
    StreamIsBuffer(env, flat, entries, dest, password);
    if
      && PathsChecked(entries, |entries|, dest, filter, pipeMode).Ok?
      && SolidBuffer(env, flat, entries, |entries|, password).Ok?
    {
      SolidIsChecksums(env, flat, entries, dest, password, filter, pipeMode);
    }
  }

  lemma EntriesIff(env: Primitives, flat: bytes, entries: seq<EggFileEntry>, dest: Path, password: Option<bytes>)
    requires AllAddUp(entries, dest)
    ensures (forall i :: 0 <= i < |entries| ==> EntryOutcome(env, flat, entries[i], dest, password).Ok?)
       <==> (&& (forall i :: 0 <= i < |entries| ==> SafeJoin(dest, entries[i].fileName).Ok?)
             && (forall i :: 0 <= i < |entries| ==> FileBytes(env, flat, entries[i], password).Ok?)
             && (forall i :: 0 <= i < |entries| ==> FileSumsMatch(env, flat, entries[i], password)))
  {
    hide FileSumsMatch, SafeJoin, FileBytes, Content, AddsUp;
    forall i | 0 <= i < |entries|
      ensures EntryOutcome(env, flat, entries[i], dest, password).Ok?
         <==> SafeJoin(dest, entries[i].fileName).Ok? && FileBytes(env, flat, entries[i], password).Ok?
                && FileSumsMatch(env, flat, entries[i], password)
    {
      assert AddsUp(entries[i], dest);
      ContentIsPart(env, flat, entries[i], dest, password);
    }
  }

  // ---------- and leave the same output ----------

  /** What extracting the selected ones of the first n entries one by one leaves. */
  function EntriesPut(
    env: Primitives, flat: bytes, entries: seq<EggFileEntry>, n: nat, dest: Path, password: Option<bytes>,
    filter: Option<seq<string>>, pipeMode: bool, before: Output): Output
    requires n <= |entries|
  {
    if n == 0 then before
    else
      var o := EntriesPut(env, flat, entries, n - 1, dest, password, filter, pipeMode, before);
      var content := EntryOutcome(env, flat, entries[n - 1], dest, password);
      if ShouldExtract(entries[n - 1], filter) && content.Ok? then
        EntryPut(o, entries[n - 1], dest, pipeMode, content.value)
      else o
  }

  /** The file spans of the first n entries are the first of all. */
  lemma {:induction false} SpansGrow(entries: seq<EggFileEntry>, n: nat, m: nat)
    requires n <= m <= |entries|
    ensures FileSpansOf(entries, n) <= FileSpansOf(entries, m)
  {
    if n < m {
      SpansGrow(entries, n, m - 1);
    }
  }

  lemma {:induction false} PartsGrow(
    env: Primitives, flat: bytes, entries: seq<EggFileEntry>, n: nat, m: nat, password: Option<bytes>)
    requires n <= m <= |entries|
    ensures FileParts(env, flat, entries, n, password) <= FileParts(env, flat, entries, m, password)
    ensures |FileParts(env, flat, entries, n, password)| == |FileSpansOf(entries, n)|
    decreases m
  {
    hide PartFor;
    if n < m {
      PartsGrow(env, flat, entries, n, m - 1, password);
    } else if n > 0 {
      PartsGrow(env, flat, entries, n - 1, n - 1, password);
    }
  }

  /** One regular file written by either path. */
  lemma PutIsEntryPut(p: Plan, o: Output, j: nat, i: nat, content: bytes)
    requires p.Valid() && j < |p.fileSpans| && i < |p.entries| && p.fileSpans[j].entry == i
    requires !p.entries[i].IsDirectory() && SafeJoin(p.dest, p.entries[i].fileName).Ok?
    ensures Put(p, o, j, content)
         == if ShouldExtract(p.entries[i], p.filter) then EntryPut(o, p.entries[i], p.dest, p.pipeMode, content) else o
  {
    hide SafeJoin, ShouldExtract;
  }

  /** The tile of a file is its part. */
  lemma TileIsPart(
    env: Primitives, flat: bytes, entries: seq<EggFileEntry>, i: nat, password: Option<bytes>, plan: Plan,
    stream: bytes)
    requires i < |entries| && !entries[i].IsDirectory() && plan.fileSpans == FileSpansOf(entries, |entries|)
    requires CutInto(plan, stream, FileParts(env, flat, entries, |entries|, password))
    ensures var j := |FileSpansOf(entries, i)|;
      && j < |plan.fileSpans| && |FileSpansOf(entries, i + 1)| == j + 1 && plan.fileSpans[j].entry == i
      && Tile(plan.FileSizes(), j, stream) == PartFor(env, flat, entries[i], password)
  {
    hide Tile, PartFor, Plan.FileSizes, FileSpansOf, FileParts;
    SpanAt(entries, i);
    PartAt(env, flat, entries, i, password);
  }

  lemma SpanAt(entries: seq<EggFileEntry>, i: nat)
    requires i < |entries| && !entries[i].IsDirectory()
    ensures var spans, j := FileSpansOf(entries, |entries|), |FileSpansOf(entries, i)|;
      j < |spans| && |FileSpansOf(entries, i + 1)| == j + 1 && spans[j] == FileSpan(i, entries[i].uncompressedSize)
  {
    SpansGrow(entries, i + 1, |entries|);
    assert FileSpansOf(entries, i + 1)[|FileSpansOf(entries, i)|] == FileSpan(i, entries[i].uncompressedSize);
  }

  lemma PartAt(env: Primitives, flat: bytes, entries: seq<EggFileEntry>, i: nat, password: Option<bytes>)
    requires i < |entries| && !entries[i].IsDirectory()
    ensures var parts, j := FileParts(env, flat, entries, |entries|, password), |FileSpansOf(entries, i)|;
      j < |parts| && parts[j] == PartFor(env, flat, entries[i], password)
  {
    hide PartFor;
    PartsGrow(env, flat, entries, i + 1, |entries|, password);
    PartsGrow(env, flat, entries, i, i, password);
    var j := |FileSpansOf(entries, i)|;
    assert FileParts(env, flat, entries, i + 1, password)[j] == PartFor(env, flat, entries[i], password);
  }

  /** So both paths put the same. */
  lemma FileAgrees(
    env: Primitives, flat: bytes, entries: seq<EggFileEntry>, i: nat, dest: Path, password: Option<bytes>,
    filter: Option<seq<string>>, pipeMode: bool, o: Output, stream: bytes)
    requires i < |entries| && AddsUp(entries[i], dest) && !entries[i].IsDirectory()
    requires EntryOutcome(env, flat, entries[i], dest, password).Ok?
    requires CutInto(
      PlanOf(entries, dest, filter, pipeMode), stream, FileParts(env, flat, entries, |entries|, password))
    ensures var plan := PlanOf(entries, dest, filter, pipeMode); var j := |FileSpansOf(entries, i)|;
      && j < |plan.fileSpans| && |FileSpansOf(entries, i + 1)| == j + 1
      && Put(plan, o, j, Tile(plan.FileSizes(), j, stream))
         == if !ShouldExtract(entries[i], filter) then o
            else EntryPut(o, entries[i], dest, pipeMode, EntryOutcome(env, flat, entries[i], dest, password).value)
  {
    hide SafeJoin, ShouldExtract, Tile, PartFor, Content, AddsUp, Put, EntryPut, Plan.FileSizes, CutInto, FileParts,
      FileSpansOf;
    var plan := PlanOf(entries, dest, filter, pipeMode);
    TileIsPart(env, flat, entries, i, password, plan, stream);
    ContentIsPart(env, flat, entries[i], dest, password);
    PutIsEntryPut(plan, o, |FileSpansOf(entries, i)|, i, PartFor(env, flat, entries[i], password));
  }

  lemma {:induction false} SameUpTo(
    env: Primitives, flat: bytes, entries: seq<EggFileEntry>, n: nat, dest: Path, password: Option<bytes>,
    filter: Option<seq<string>>, pipeMode: bool, before: Output, stream: bytes)
    requires n <= |entries| && AllAddUp(entries, dest)
    requires forall i :: 0 <= i < |entries| ==> EntryOutcome(env, flat, entries[i], dest, password).Ok?
    requires CutInto(
      PlanOf(entries, dest, filter, pipeMode), stream, FileParts(env, flat, entries, |entries|, password))
    ensures |FileSpansOf(entries, n)| <= |PlanOf(entries, dest, filter, pipeMode).fileSpans|
    ensures Written(PlanOf(entries, dest, filter, pipeMode), before, |FileSpansOf(entries, n)|, stream)
         == EntriesPut(env, flat, entries, n, dest, password, filter, pipeMode, before)
  {
    hide SafeJoin, ShouldExtract, Tile, EntryOutcome, AddsUp, Put, EntryPut, FileParts, Plan.FileSizes, CutInto,
      Written, PlanOf, FileSpansOf;
    var plan := PlanOf(entries, dest, filter, pipeMode);
    SpansFit(entries, n, dest, filter, pipeMode);
    if n == 0 {
      WrittenStart(plan, before, stream);
    } else {
      SameUpTo(env, flat, entries, n - 1, dest, password, filter, pipeMode, before, stream);
      var e := entries[n - 1];
      var o := EntriesPut(env, flat, entries, n - 1, dest, password, filter, pipeMode, before);
      assert AddsUp(e, dest) && EntryOutcome(env, flat, e, dest, password).Ok?;
      if e.IsDirectory() {
        DirectorySpans(entries, n);
        DirectoryPut(o, e, dest, pipeMode, EntryOutcome(env, flat, e, dest, password).value);
      } else {
        FileAgrees(env, flat, entries, n - 1, dest, password, filter, pipeMode, o, stream);
        WrittenStep(plan, before, |FileSpansOf(entries, n - 1)|, stream);
      }
    }
  }

  lemma SpansFit(entries: seq<EggFileEntry>, n: nat, dest: Path, filter: Option<seq<string>>, pipeMode: bool)
    requires n <= |entries|
    ensures |FileSpansOf(entries, n)| <= |PlanOf(entries, dest, filter, pipeMode).fileSpans|
    ensures n == 0 ==> |FileSpansOf(entries, n)| == 0
  {
    SpansGrow(entries, n, |entries|);
  }

  lemma DirectorySpans(entries: seq<EggFileEntry>, n: nat)
    requires 0 < n <= |entries| && entries[n - 1].IsDirectory()
    ensures FileSpansOf(entries, n) == FileSpansOf(entries, n - 1)
  {
  }

  lemma WrittenStart(p: Plan, before: Output, stream: bytes)
    requires p.Valid()
    ensures Written(p, before, 0, stream) == before
  {
  }

  lemma WrittenStep(p: Plan, before: Output, j: nat, stream: bytes)
    requires p.Valid() && j < |p.fileSpans|
    ensures Written(p, before, j + 1, stream)
         == Put(p, Written(p, before, j, stream), j, Tile(p.FileSizes(), j, stream))
  {
  }

  lemma DirectoryPut(o: Output, e: EggFileEntry, dest: Path, pipeMode: bool, content: bytes)
    requires e.IsDirectory()
    ensures EntryPut(o, e, dest, pipeMode, content) == o
  {
  }

  /**
   On stored blocks that add up, with a last block that is not empty: solid extraction of the whole archive
   succeeds exactly when extracting every entry by itself does, and it then leaves the very output that
   extracting the selected entries one by one leaves. Nothing is said of passwords: encrypted entries are covered.
   */
  lemma SolidIsPerEntry(
    env: Primitives, flat: bytes, entries: seq<EggFileEntry>, dest: Path, password: Option<bytes>,
    filter: Option<seq<string>>, pipeMode: bool, before: Output)
    requires AllAddUp(entries, dest) && LastBlockNotEmpty(entries)
    ensures SolidSucceeds(env, flat, entries, dest, password, filter, pipeMode)
       <==> forall i :: 0 <= i < |entries| ==> EntryOutcome(env, flat, entries[i], dest, password).Ok?
    ensures SolidSucceeds(env, flat, entries, dest, password, filter, pipeMode) ==>
      var plan := PlanOf(entries, dest, filter, pipeMode);
      var stream := SolidStream(env, flat, entries, password).value;
      Written(plan, before, |plan.fileSpans|, stream)
      == EntriesPut(env, flat, entries, |entries|, dest, password, filter, pipeMode, before)
  {
    hide SolidBuffer, PathsChecked, ReadsOf, FileSumsMatch, Complete, Tile, SafeJoin, FileBytes, Content, AddsUp,
      LastBlockNotEmpty, FileParts, AllAddUp, Written, EntriesPut, SolidStream, Plan.FileSizes, CutInto;
    SolidIffEntries(env, flat, entries, dest, password, filter, pipeMode);
    if SolidSucceeds(env, flat, entries, dest, password, filter, pipeMode) {
      StreamIsBuffer(env, flat, entries, dest, password);
      SolidIsChecksums(env, flat, entries, dest, password, filter, pipeMode);
      var stream := SolidStream(env, flat, entries, password).value;
      SameUpTo(env, flat, entries, |entries|, dest, password, filter, pipeMode, before, stream);
    }
  }

  // ---------- where they differ ----------

  lemma PlainNameJoins()
    ensures SafeJoin([], "a") == Ok(["a"])
  {
    assert "a"[1..] == "" && Split("") == [""];
    assert ['a'] + "" == "a" && [""][1..] == [];
    assert Split("a") == ["a"];
    assert Normal(["a"]) == ["a"] by { assert ["a"][1..] == []; }
  }

  lemma TotalOfOne(n: nat)
    ensures Total([n]) == n
  {
    assert Off([n], 0) == 0;
  }

  /** What the solid path makes of one file with one stored block of one byte. */
  lemma OneByteBuffer(env: Primitives, size: nat, blockSize: nat, password: Option<bytes>)
    ensures SolidStream(env, [65], [OneByteEntry(size, blockSize)], password) == Some([65])
    ensures ReadsOf([OneByteEntry(size, blockSize)], 1) != []
  {
    hide Crc32.Checksum;
    var e := OneByteEntry(size, blockSize);
    assert !e.IsDirectory() && OwnBlocks(e) == e.blocks;
    assert Stored([65], e.blocks[0]) == [65];
    assert e.blocks[..0] == [] && Joined([65], []) == [] && Joined([65], e.blocks) == [] + [65];
    assert Begin(env, [65], e, password) == Ok(None);
    assert Present([65], e.blocks[0]) && AllPresent([65], e.blocks);
    assert OwnBlocks(e) != [] && [] + [65 as byte] == [65];
    assert Plain(None, Joined([65], e.blocks)) == [65];
    assert FileBytes(env, [65], e, password) == Ok([65]);
    assert SolidBuffer(env, [65], [e], 0, password) == Ok([]);
    assert SolidBuffer(env, [65], [e], 1, password) == Ok([65]);
    assert ReadsOf([e], 1) == [] + ReadsOfBlocks(0, e.blocks);
    assert FirstMethod([e]) == Store;
    FlattenOne([65]);
  }

  /**
   The per-entry path extracts such a file whatever it declares; the solid path does exactly when file and block
   declare the one byte they have.
   */
  lemma SolidChecksSizes(
    env: Primitives, size: nat, blockSize: nat, password: Option<bytes>,
    filter: Option<seq<string>>, pipeMode: bool)
    requires blockSize >= 1
    ensures EntryOutcome(env, [65], OneByteEntry(size, blockSize), [], password) == Ok([65])
    ensures SolidSucceeds(env, [65], [OneByteEntry(size, blockSize)], [], password, filter, pipeMode)
       <==> size == 1 && blockSize == 1
  {
    hide Crc32.Checksum, Content, SolidStream, Tile, SafeJoin, ReadsOf, ShouldExtract, CrcOk, Plan.Joinable, Off;
    var e := OneByteEntry(size, blockSize);
    var plan := PlanOf([e], [], filter, pipeMode);
    PlainNameJoins();
    OneByteEntryExtracts(env, size, blockSize, password);
    OneByteBuffer(env, size, blockSize, password);
    TotalOfOne(size);
    TotalOfOne(blockSize);
    OneBytePlan(size, blockSize, filter, pipeMode);
    if size == 1 && blockSize == 1 {
      OneByteAddsUp();
      SolidIffEntries(env, [65], [e], [], password, filter, pipeMode);
    }
  }

  lemma OneBytePlan(size: nat, blockSize: nat, filter: Option<seq<string>>, pipeMode: bool)
    ensures var plan := PlanOf([OneByteEntry(size, blockSize)], [], filter, pipeMode);
      plan.FileSizes() == [size] && plan.CrcSizes() == [blockSize]
  {
    hide Crc32.Checksum;
    var e := OneByteEntry(size, blockSize);
    assert !e.IsDirectory() && OwnBlocks(e) == e.blocks;
    assert FileSpansOf([e], 1) == [] + [FileSpan(0, size)];
    assert CrcSpansOf([e], 1) == [] + SpansOfBlocks(e.blocks);
  }

  lemma OneByteAddsUp()
    ensures AllAddUp([OneByteEntry(1, 1)], []) && LastBlockNotEmpty([OneByteEntry(1, 1)])
  {
    hide Crc32.Checksum, SafeJoin;
    var e := OneByteEntry(1, 1);
    assert !e.IsDirectory() && OwnBlocks(e) == e.blocks;
    assert SizeSum(e.blocks[..0]) == 0 && SizeSum(e.blocks) == 1;
    assert CrcSpansOf([e], 1) == [] + SpansOfBlocks(e.blocks);
  }

  /** A file of seven declared bytes and no block: refused by both paths, except by the solid one in pipe mode. */
  lemma PipeModeIgnoresSizes(
    env: Primitives, flat: bytes, password: Option<bytes>, filter: Option<seq<string>>)
    ensures var e := EggFileEntry("a", 0, 7, [], None, None, 0, None);
      && EntryOutcome(env, flat, e, [], password) == Err(CorruptedFile)
      && !SolidSucceeds(env, flat, [e], [], password, filter, false)
      && SolidSucceeds(env, flat, [e], [], password, filter, true)
  {
    hide Tile, SafeJoin, ShouldExtract, CrcOk, Plan.Joinable, Off;
    var e := EggFileEntry("a", 0, 7, [], None, None, 0, None);
    PlainNameJoins();
    assert !e.IsDirectory() && OwnBlocks(e) == [];
    assert FileSpansOf([e], 1) == [] + [FileSpan(0, 7)];
    assert PlanOf([e], [], filter, false).FileSizes() == [7];
    TotalOfOne(7);
    assert ReadsOf([e], 1) == [] + ReadsOfBlocks(0, []) == [];
    NothingRead(env, flat, [e], password);
    assert PathsChecked([e], 0, [], filter, true) == Ok(Unit.Unit);
    assert PathsChecked([e], 1, [], filter, true) == Ok(Unit.Unit);
  }
}
