/** `extract_all_solid` of src/extract.rs: spans, buffer, stream and sink put together. */
module SolidExtractor {
  import opened Bytes
  import opened Errors
  import opened ArchiveFormat
  import opened Disk
  import opened VolumeReader
  import opened Decryptors
  import opened Drivers
  import opened Inflation
  import opened EntrySpec
  import opened EntryExtractor
  import opened SolidPlan
  import opened SolidSink
  import opened SolidSpec

  // ---------- the plan ----------

  /** The first loop: paths are checked, the two tilings and the list of reads are built. */
  method BuildPlan(entries: seq<EggFileEntry>, dest: Path, filter: Option<seq<string>>, pipeMode: bool)
    returns (res: Result<Unit>, plan: Plan, blockReads: seq<BlockRead>)
    ensures res == PathsChecked(entries, |entries|, dest, filter, pipeMode)
    ensures res.Ok? ==> plan == PlanOf(entries, dest, filter, pipeMode) && blockReads == ReadsOf(entries, |entries|)
  {
    hide FileSpansOf, CrcSpansOf, ReadsOf, PathsChecked, PathChecked, EggFileEntry.IsDirectory, OwnBlocks;
    var fileSpans, crcSpans := [], [];
    blockReads := [];
    res, plan := Ok(Unit.Unit), Plan([], [], entries, dest, filter, pipeMode);
    NothingPlanned(entries, dest, filter, pipeMode);
    for i := 0 to |entries|
      invariant res.Ok? && res == PathsChecked(entries, i, dest, filter, pipeMode)
      invariant fileSpans == FileSpansOf(entries, i) && crcSpans == CrcSpansOf(entries, i)
      invariant blockReads == ReadsOf(entries, i)
    {
      OneMorePlanned(entries, i, dest, filter, pipeMode);
      var newFiles, newSpans, newReads;
      res, newFiles, newSpans, newReads := PlanEntry(i, entries[i], dest, filter, pipeMode);
      if res.Err? {
        PathErrorSticks(entries, i + 1, |entries|, dest, filter, pipeMode);
        return;
      }
      fileSpans, crcSpans, blockReads := fileSpans + newFiles, crcSpans + newSpans, blockReads + newReads;
    }
    plan := Plan(fileSpans, crcSpans, entries, dest, filter, pipeMode);
  }

  lemma NothingPlanned(entries: seq<EggFileEntry>, dest: Path, filter: Option<seq<string>>, pipeMode: bool)
    ensures PathsChecked(entries, 0, dest, filter, pipeMode) == Ok(Unit.Unit)
    ensures FileSpansOf(entries, 0) == [] && CrcSpansOf(entries, 0) == [] && ReadsOf(entries, 0) == []
  {
  }

  lemma OneMorePlanned(entries: seq<EggFileEntry>, i: nat, dest: Path, filter: Option<seq<string>>, pipeMode: bool)
    requires i < |entries| && PathsChecked(entries, i, dest, filter, pipeMode).Ok?
    ensures PathsChecked(entries, i + 1, dest, filter, pipeMode) == PathChecked(entries[i], dest, filter, pipeMode)
    ensures FileSpansOf(entries, i + 1) == FileSpansOf(entries, i) + OwnFileSpan(i, entries[i])
    ensures CrcSpansOf(entries, i + 1) == CrcSpansOf(entries, i) + SpansOfBlocks(OwnBlocks(entries[i]))
    ensures ReadsOf(entries, i + 1) == ReadsOf(entries, i) + ReadsOfBlocks(i, OwnBlocks(entries[i]))
  {
    hide PathChecked, SpansOfBlocks, ReadsOfBlocks, OwnBlocks;
  }

  function OwnFileSpan(i: nat, e: EggFileEntry): seq<FileSpan> {
    if e.IsDirectory() then [] else [FileSpan(i, e.uncompressedSize)]
  }

  /** One turn of the outer loop: the entry's path is checked; a regular file gets its spans and reads. */
  method PlanEntry(i: nat, e: EggFileEntry, dest: Path, filter: Option<seq<string>>, pipeMode: bool)
    returns (res: Result<Unit>, newFiles: seq<FileSpan>, newSpans: seq<CrcSpan>, newReads: seq<BlockRead>)
    ensures res == PathChecked(e, dest, filter, pipeMode)
    ensures res.Ok? ==>
      && newFiles == OwnFileSpan(i, e)
      && newSpans == SpansOfBlocks(OwnBlocks(e)) && newReads == ReadsOfBlocks(i, OwnBlocks(e))
  {
    hide SafeJoin, ShouldExtract;
    res, newFiles, newSpans, newReads := Ok(Unit.Unit), [], [], [];
    if e.IsDirectory() {
      if !pipeMode && ShouldExtract(e, filter) {
        var path := SafeJoin(dest, e.fileName);
        if path.Err? {
          res := Err(path.error);
        }
      }
      return;
    }
    var path := SafeJoin(dest, e.fileName);
    if path.Err? {
      return Err(path.error), [], [], [];
    }
    newFiles := [FileSpan(i, e.uncompressedSize)];
    newSpans, newReads := PlanBlocks(i, e.blocks);
  }

  /** The inner loop: one CRC span and one read for each block. */
  method PlanBlocks(file: nat, blocks: seq<EggBlock>) returns (newSpans: seq<CrcSpan>, newReads: seq<BlockRead>)
    ensures newSpans == SpansOfBlocks(blocks) && newReads == ReadsOfBlocks(file, blocks)
  {
    newSpans, newReads := [], [];
    for j := 0 to |blocks|
      invariant newSpans == SpansOfBlocks(blocks[..j]) && newReads == ReadsOfBlocks(file, blocks[..j])
    {
      newSpans := newSpans + [CrcSpan(blocks[j].uncompressedSize, blocks[j].crc32)];
      newReads := newReads + [BlockRead(file, blocks[j])];
    }
    assert blocks[..|blocks|] == blocks;
  }

  lemma {:induction false} PathErrorSticks(
    entries: seq<EggFileEntry>, f: nat, n: nat, dest: Path, filter: Option<seq<string>>, pipeMode: bool)
    requires f <= n <= |entries| && PathsChecked(entries, f, dest, filter, pipeMode).Err?
    ensures PathsChecked(entries, n, dest, filter, pipeMode) == PathsChecked(entries, f, dest, filter, pipeMode)
  {
    hide PathChecked;
    if f < n {
      PathErrorSticks(entries, f, n - 1, dest, filter, pipeMode);
    }
  }

  // ---------- the buffer ----------

  predicate AllLocated(entries: seq<EggFileEntry>) {
    forall i :: 0 <= i < |entries| ==> Located(entries[i].blocks)
  }

  /** Where the gathering loop stands: b blocks of file f are read after all of the files before it. */
  ghost predicate GatheredTo(
    env: Primitives, flat: bytes, entries: seq<EggFileEntry>, password: Option<bytes>, k: nat, f: nat, b: nat,
    current: Option<nat>, now: Option<State>, all: bytes)
  {
    && f <= |entries| && k == |ReadsOf(entries, f)| + b
    && SolidBuffer(env, flat, entries, f, password).Ok?
    && var front := SolidBuffer(env, flat, entries, f, password).value;
       if b == 0 then all == front && (current.Some? ==> current.value < f)
       else
         && f < |entries| && b <= |OwnBlocks(entries[f])| && current == Some(f)
         && Begin(env, flat, entries[f], password).Ok?
         && var start := Begin(env, flat, entries[f], password).value;
            var blocks := entries[f].blocks[..b];
            (all == front + Plain(start, Joined(flat, blocks)) && now == Then(start, Joined(flat, blocks))
             && AllPresent(flat, blocks))
  }

  lemma GatheredNothing(env: Primitives, flat: bytes, entries: seq<EggFileEntry>, password: Option<bytes>)
    ensures GatheredTo(env, flat, entries, password, 0, 0, 0, None, None, [])
  {
  }

  /** The file whose block comes next, and which of its blocks that is. */
  lemma NextRead(
    env: Primitives, flat: bytes, entries: seq<EggFileEntry>, password: Option<bytes>, k: nat, f: nat, b: nat,
    current: Option<nat>, now: Option<State>, all: bytes)
    returns (f': nat, b': nat)
    requires GatheredTo(env, flat, entries, password, k, f, b, current, now, all)
    requires k < |ReadsOf(entries, |entries|)|
    ensures GatheredTo(env, flat, entries, password, k, f', b', current, now, all)
    ensures f' < |entries| && b' < |OwnBlocks(entries[f'])|
    ensures ReadsOf(entries, |entries|)[k] == BlockRead(f', entries[f'].blocks[b'])
    ensures current == Some(f') <==> b' > 0
  {
    hide GatheredTo, ReadsOf, SolidBuffer;
    Standing(env, flat, entries, password, k, f, b, current, now, all);
    f', b' := f, b;
    if b > 0 && b == |OwnBlocks(entries[f])| {
      FileGathered(env, flat, entries, password, k, f, b, current, now, all);
      f', b' := f + 1, 0;
      Standing(env, flat, entries, password, k, f', b', current, now, all);
    }
    if b' == 0 {
      var g := NextFile(env, flat, entries, f', password);
      MovedOn(env, flat, entries, password, k, f', g, current, now, all);
      f' := g;
      Standing(env, flat, entries, password, k, f', b', current, now, all);
    }
    ReadAt(entries, f', b');
  }

  lemma Standing(
    env: Primitives, flat: bytes, entries: seq<EggFileEntry>, password: Option<bytes>, k: nat, f: nat, b: nat,
    current: Option<nat>, now: Option<State>, all: bytes)
    requires GatheredTo(env, flat, entries, password, k, f, b, current, now, all)
    ensures f <= |entries| && k == |ReadsOf(entries, f)| + b && SolidBuffer(env, flat, entries, f, password).Ok?
    ensures b > 0 ==> f < |entries| && b <= |OwnBlocks(entries[f])| && current == Some(f)
    ensures b == 0 ==> current != Some(f)
  {
    hide SolidBuffer, ReadsOf, Joined, Begin, Plain, Then, AllPresent;
  }

  lemma MovedOn(
    env: Primitives, flat: bytes, entries: seq<EggFileEntry>, password: Option<bytes>, k: nat, f: nat, g: nat,
    current: Option<nat>, now: Option<State>, all: bytes)
    requires GatheredTo(env, flat, entries, password, k, f, 0, current, now, all)
    requires f <= g <= |entries| && ReadsOf(entries, g) == ReadsOf(entries, f)
    requires SolidBuffer(env, flat, entries, g, password) == SolidBuffer(env, flat, entries, f, password)
    ensures GatheredTo(env, flat, entries, password, k, g, 0, current, now, all)
  {
    hide SolidBuffer, ReadsOf, Joined, Begin, Plain, Then, AllPresent;
  }

  /** A file all of whose blocks are read is part of the buffer. */
  lemma FileGathered(
    env: Primitives, flat: bytes, entries: seq<EggFileEntry>, password: Option<bytes>, k: nat, f: nat, b: nat,
    current: Option<nat>, now: Option<State>, all: bytes)
    requires GatheredTo(env, flat, entries, password, k, f, b, current, now, all)
    requires b > 0 && b == |OwnBlocks(entries[f])|
    ensures GatheredTo(env, flat, entries, password, k, f + 1, 0, current, now, all)
  {
    hide Plain, Then, Joined, Begin;
    assert entries[f].blocks[..b] == entries[f].blocks;
  }

  /** After the last read the buffer is the whole one. */
  lemma AllGathered(
    env: Primitives, flat: bytes, entries: seq<EggFileEntry>, password: Option<bytes>, k: nat, f: nat, b: nat,
    current: Option<nat>, now: Option<State>, all: bytes)
    requires GatheredTo(env, flat, entries, password, k, f, b, current, now, all)
    requires k == |ReadsOf(entries, |entries|)|
    ensures SolidBuffer(env, flat, entries, |entries|, password) == Ok(all)
  {
    hide Plain, Then, AllPresent, Joined, Begin;
    if b > 0 {
      ReadsGrow(entries, f + 1, |entries|);
      assert b == |OwnBlocks(entries[f])|;
      FileGathered(env, flat, entries, password, k, f, b, current, now, all);
      SkipRest(env, flat, entries, f + 1, password);
    } else {
      SkipRest(env, flat, entries, f, password);
    }
  }

  /** Block b of file f is read and decrypted; for b == 0 the decryptor has just begun. */
  lemma GatheredMore(
    env: Primitives, flat: bytes, entries: seq<EggFileEntry>, password: Option<bytes>, k: nat, f: nat, b: nat,
    current: Option<nat>, was: Option<State>, mid: Option<State>, now: Option<State>, all: bytes, piece: bytes)
    requires GatheredTo(env, flat, entries, password, k, f, b, current, was, all)
    requires f < |entries| && b < |OwnBlocks(entries[f])|
    requires Begin(env, flat, entries[f], password).Ok?
    requires mid == if b == 0 then Begin(env, flat, entries[f], password).value else was
    requires var stored := Stored(flat, entries[f].blocks[b]);
      Present(flat, entries[f].blocks[b]) && piece == Plain(mid, stored) && now == Then(mid, stored)
    ensures GatheredTo(env, flat, entries, password, k + 1, f, b + 1, Some(f), now, all + piece)
  {
    hide Plain, Then, Begin, Stored, SolidBuffer, Present;
    var start := Begin(env, flat, entries[f], password).value;
    var blocks := entries[f].blocks;
    assert blocks[..b + 1][..b] == blocks[..b];
    PlainAppend(start, Joined(flat, blocks[..b]), Stored(flat, blocks[b]));
    if b == 0 {
      PlainNothing(start);
    }
    var front := SolidBuffer(env, flat, entries, f, password).value;
    var done := Plain(start, Joined(flat, blocks[..b]));
    assert front + done + piece == front + (done + piece);
  }

  /** A block that is not there, or a file that does not begin, makes the whole buffer fail. */
  lemma GatherFails(
    env: Primitives, flat: bytes, entries: seq<EggFileEntry>, password: Option<bytes>, k: nat, f: nat, b: nat,
    current: Option<nat>, now: Option<State>, all: bytes, error: Error)
    requires GatheredTo(env, flat, entries, password, k, f, b, current, now, all)
    requires f < |entries| && b < |OwnBlocks(entries[f])|
    requires match Begin(env, flat, entries[f], password)
      case Err(e) => error == e
      case Ok(_) => error == CorruptedFile && !Present(flat, entries[f].blocks[b])
    ensures SolidBuffer(env, flat, entries, |entries|, password) == Err(error)
  {
    hide Plain, Then, Begin, Stored, Present, Joined;
    assert FileBytes(env, flat, entries[f], password) == Err(error);
    ErrorSticks(env, flat, entries, f + 1, |entries|, password);
  }

  /** `decrypt` over a whole buffer. */
  method DecryptAll(d: Option<Decryptor>, data: bytes) returns (plain: bytes)
    requires Ready(d)
    modifies PartsOf(d)
    ensures Ready(d) && plain == Plain(old(StateOf(d)), data) && StateOf(d) == Then(old(StateOf(d)), data)
  {
    hide Plain, Then, Decryptor.Valid, Decryptor.Now;
    var buf := new byte[|data|](i requires 0 <= i < |data| => data[i]);
    assert buf[..|data|] == data;
    DecryptFront(d, buf, |data|);
    plain := buf[..|data|];
  }

  /** The second loop: every block read and decrypted into one buffer, a fresh decryptor for each file. */
  method Gather(
    env: Primitives, reader: MultiVolumeReader, entries: seq<EggFileEntry>, blockReads: seq<BlockRead>,
    password: Option<bytes>)
    returns (res: Result<bytes>)
    requires reader.Valid() && AllLocated(entries) && blockReads == ReadsOf(entries, |entries|)
    modifies reader, reader.Files()
    ensures reader.Valid() && res == SolidBuffer(env, reader.Flat(), entries, |entries|, password)
  {
    hide FlatOf, MultiVolumeReader.Shaped, Tiled, AllWellFormed, Plain, Then, Decryptor.Valid, Decryptor.Now, Window,
      GatheredTo, SolidBuffer, Begin, ReadsOf, Located;
    var all := [];
    var current: Option<nat> := None;
    var d: Option<Decryptor> := None;
    ghost var f, b := 0, 0;
    GatheredNothing(env, reader.Flat(), entries, password);
    NoParts();
    var k := 0;
    while k < |blockReads|
      invariant 0 <= k <= |blockReads| && reader.Valid() && fresh(PartsOf(d)) && Ready(d)
      invariant GatheredTo(env, reader.Flat(), entries, password, k, f, b, current, StateOf(d), all)
    {
      f, b := NextRead(env, reader.Flat(), entries, password, k, f, b, current, StateOf(d), all);
      var piece;
      piece, d := GatherBlock(env, reader, entries, password, blockReads[k], current, d, k, f, b, all);
      if piece.Err? {
        return piece;
      }
      current := Some(blockReads[k].file);
      all := all + piece.value;
      b := b + 1;
      k := k + 1;
    }
    AllGathered(env, reader.Flat(), entries, password, k, f, b, current, StateOf(d), all);
    return Ok(all);
  }

  /** One turn of the loop: a new decryptor if a new file begins, then the block itself. */
  method GatherBlock(
    env: Primitives, reader: MultiVolumeReader, entries: seq<EggFileEntry>, password: Option<bytes>, read: BlockRead,
    current: Option<nat>, d: Option<Decryptor>, ghost k: nat, ghost f: nat, ghost b: nat, ghost all: bytes)
    returns (res: Result<bytes>, next: Option<Decryptor>)
    requires reader.Valid() && AllLocated(entries) && Ready(d) && PartsOf(d) !! ({reader} + reader.Files())
    requires GatheredTo(env, reader.Flat(), entries, password, k, f, b, current, StateOf(d), all)
    requires f < |entries| && b < |OwnBlocks(entries[f])| && read == BlockRead(f, entries[f].blocks[b])
    requires current == Some(f) <==> b > 0
    modifies reader, reader.Files(), PartsOf(d)
    ensures reader.Valid() && fresh(PartsOf(next) - PartsOf(d)) && Ready(next)
    ensures match res
      case Err(error) => SolidBuffer(env, reader.Flat(), entries, |entries|, password) == Err(error)
      case Ok(piece) =>
        GatheredTo(env, reader.Flat(), entries, password, k + 1, f, b + 1, Some(f), StateOf(next), all + piece)
  {
    hide FlatOf, MultiVolumeReader.Shaped, Tiled, AllWellFormed, Plain, Then, Decryptor.Valid, Decryptor.Now, Window,
      GatheredTo, SolidBuffer, Begin, ReadsOf, Located;
    ghost var was := StateOf(d);
    var begun, piece;
    begun, next := DecryptorFor(env, reader, entries, password, read, current, d, k, f, b, all);
    if begun.Err? {
      GatherFails(env, reader.Flat(), entries, password, k, f, b, current, was, all, begun.error);
      return Err(begun.error), next;
    }
    ghost var mid := StateOf(next);
    piece := ReadPiece(reader, entries, f, b, read.block, next);
    if piece.None? {
      GatherFails(env, reader.Flat(), entries, password, k, f, b, current, was, all, CorruptedFile);
      return Err(CorruptedFile), next;
    }
    GatheredMore(env, reader.Flat(), entries, password, k, f, b, current, was, mid, StateOf(next), all, piece.value);
    res := Ok(piece.value);
  }

  /** A fresh decryptor exactly at a file's first block; the one there was otherwise. */
  method DecryptorFor(
    env: Primitives, reader: MultiVolumeReader, entries: seq<EggFileEntry>, password: Option<bytes>, read: BlockRead,
    current: Option<nat>, d: Option<Decryptor>, ghost k: nat, ghost f: nat, ghost b: nat, ghost all: bytes)
    returns (begun: Result<Unit>, next: Option<Decryptor>)
    requires reader.Valid() && AllLocated(entries) && Ready(d) && PartsOf(d) !! ({reader} + reader.Files())
    requires GatheredTo(env, reader.Flat(), entries, password, k, f, b, current, StateOf(d), all)
    requires f < |entries| && read.file == f && (current == Some(f) <==> b > 0)
    modifies reader, reader.Files()
    ensures reader.Valid() && Ready(next) && fresh(PartsOf(next) - PartsOf(d))
    ensures PartsOf(next) !! ({reader} + reader.Files())
    ensures match begun
      case Err(error) => Begin(env, reader.Flat(), entries[f], password) == Err(error)
      case Ok(_) =>
        && Begin(env, reader.Flat(), entries[f], password).Ok?
        && StateOf(next) == (if b == 0 then Begin(env, reader.Flat(), entries[f], password).value else old(StateOf(d)))
  {
    hide FlatOf, MultiVolumeReader.Shaped, Tiled, AllWellFormed, Decryptor.Valid, Decryptor.Now, GatheredTo, Begin,
      Located;
    begun, next := Ok(Unit.Unit), d;
    if current != Some(read.file) {
      begun, next := BeginFile(env, reader, entries[read.file], password);
    } else {
      BegunBefore(env, reader.Flat(), entries, password, k, f, b, current, StateOf(d), all);
    }
  }

  /** A block's bytes, whole, and decrypted. */
  method ReadPiece(
    reader: MultiVolumeReader, ghost entries: seq<EggFileEntry>, ghost f: nat, ghost b: nat, block: EggBlock,
    d: Option<Decryptor>)
    returns (piece: Option<bytes>)
    requires reader.Valid() && AllLocated(entries) && Ready(d) && PartsOf(d) !! ({reader} + reader.Files())
    requires f < |entries| && b < |entries[f].blocks| && block == entries[f].blocks[b]
    modifies reader, reader.Files(), PartsOf(d)
    ensures reader.Valid() && Ready(d) && (piece.Some? <==> Present(reader.Flat(), block))
    ensures var stored := Stored(reader.Flat(), block);
      piece.Some? ==> piece.value == Plain(old(StateOf(d)), stored) && StateOf(d) == Then(old(StateOf(d)), stored)
  {
    hide FlatOf, MultiVolumeReader.Shaped, Tiled, AllWellFormed, Plain, Then, Decryptor.Valid, Decryptor.Now, Window,
      Located;
    var got := ReadBlock(reader, block, entries, f, b);
    if |got| != block.compressedSize {
      return None;
    }
    var plain := DecryptAll(d, got);
    return Some(plain);
  }

  lemma NoParts()
    ensures PartsOf(None) == {} && Ready(None) && StateOf(None) == None
  {
  }

  lemma BegunBefore(
    env: Primitives, flat: bytes, entries: seq<EggFileEntry>, password: Option<bytes>, k: nat, f: nat, b: nat,
    current: Option<nat>, now: Option<State>, all: bytes)
    requires GatheredTo(env, flat, entries, password, k, f, b, current, now, all) && b > 0
    ensures f < |entries| && Begin(env, flat, entries[f], password).Ok?
  {
  }

  /** Seek to a block and read it whole, as far as the archive goes. */
  method ReadBlock(
    reader: MultiVolumeReader, block: EggBlock, ghost entries: seq<EggFileEntry>, ghost f: nat, ghost b: nat)
    returns (got: bytes)
    requires reader.Valid() && AllLocated(entries) && f < |entries| && b < |entries[f].blocks|
    requires block == entries[f].blocks[b]
    modifies reader, reader.Files()
    ensures reader.Valid() && got == Stored(reader.Flat(), block)
    ensures Present(reader.Flat(), block) <==> |got| == block.compressedSize
  {
    hide FlatOf, MultiVolumeReader.Shaped, Window;
    SeekHere(block.dataPos, reader.totalSize);
    var at := reader.Seek(FromStart(block.dataPos));
    got := reader.ReadUpTo(block.compressedSize);
  }

  // ---------- the stream through the sink ----------

  /** A complete stream is acceptable ... */
  lemma CompleteAccepts(p: Plan, stream: bytes)
    requires p.Valid() && Complete(p, stream)
    ensures Accepts(p, stream)
  {
    hide CrcOk, Plan.Joinable, Off;
  }

  /** ... and so is every prefix of an acceptable one. */
  lemma AcceptsPrefix(p: Plan, stream: bytes, n: nat)
    requires p.Valid() && Accepts(p, stream) && n <= |stream|
    ensures Accepts(p, stream[..n])
  {
    hide CrcOk, Plan.Joinable, Off;
    var front, c := stream[..n], p.CrcSizes();
    assert stream == front + stream[n..];
    forall k | 0 <= k < |p.crcSpans| && Closed(c, k, n) ensures CrcOk(p, k, front) {
      CrcOkGrows(p, k, front, stream[n..]);
    }
  }

  lemma NothingAccepted(p: Plan)
    requires p.Valid()
    ensures Accepts(p, [])
  {
    hide CrcOk, Plan.Joinable;
  }

  lemma RefusedPrefix(p: Plan, whole: bytes, front: bytes)
    requires p.Valid() && front <= whole && !Accepts(p, front)
    ensures !Accepts(p, whole)
  {
    hide Accepts;
    assert whole[..|front|] == front;
    if Accepts(p, whole) {
      AcceptsPrefix(p, whole, |front|);
    }
  }

  /** One more write of a decoder whose output will be `whole` in the end. */
  method WriteOn(sink: SolidSink, data: bytes, ghost whole: bytes) returns (ok: bool)
    requires sink.Valid() && Accepts(sink.plan, sink.stream) && sink.stream + data <= whole
    modifies sink, sink.disk
    ensures ok ==>
      && sink.Valid() && sink.stream == old(sink.stream) + data && sink.disk.faulted == old(sink.disk.faulted)
      && Accepts(sink.plan, sink.stream)
    ensures !ok ==> Framed(sink.plan, sink.before, sink.disk.State(), sink.created)
    ensures !ok && !sink.disk.faulted ==> !Accepts(sink.plan, whole)
  {
    hide FileAt, CrcAt, SolidSink.OnDisk, Framed, Accepts;
    ghost var front := sink.stream + data;
    ok := sink.Write(data);
    if !ok {
      PlanOfSink(sink);
      if !sink.disk.faulted {
        RefusedPrefix(sink.plan, whole, front);
      }
    }
  }

  /** A decoder's writes, in whatever chunks it makes them. */
  method Deliver(sink: SolidSink, chunks: seq<bytes>) returns (ok: bool)
    requires sink.Valid() && sink.stream == []
    modifies sink, sink.disk
    ensures ok ==> sink.Valid() && sink.stream == Flatten(chunks) && sink.disk.faulted == old(sink.disk.faulted)
    ensures ok ==> Accepts(sink.plan, Flatten(chunks))
    ensures !ok ==> Framed(sink.plan, sink.before, sink.disk.State(), sink.created)
    ensures !ok && !sink.disk.faulted ==> !Accepts(sink.plan, Flatten(chunks))
  {
    hide FileAt, CrcAt, SolidSink.OnDisk, Framed, Accepts, Flatten, SolidSink.Valid;
    FlattenEnd(chunks);
    assert chunks[0..] == chunks;
    PlanIsValid(sink);
    NothingAccepted(sink.plan);
    for i := 0 to |chunks|
      invariant sink.Valid() && sink.disk.faulted == old(sink.disk.faulted)
      invariant sink.stream + Flatten(chunks[i..]) == Flatten(chunks) && Accepts(sink.plan, sink.stream)
    {
      FlattenFrom(chunks, i);
      assert Flatten(chunks) == sink.stream + chunks[i] + Flatten(chunks[i + 1..]);
      ok := WriteOn(sink, chunks[i], Flatten(chunks));
      if !ok {
        return;
      }
    }
    return true;
  }

  lemma PlanIsValid(sink: SolidSink)
    requires sink.Valid()
    ensures sink.plan.Valid()
  {
  }

  lemma PlanOfSink(sink: SolidSink)
    requires Framed(sink.plan, sink.before, sink.disk.State(), sink.created)
    ensures sink.plan.Valid()
  {
  }

  /** `io::copy`: the buffer in pieces of some size. */
  method CopyInto(sink: SolidSink, data: bytes) returns (ok: bool)
    requires sink.Valid() && sink.stream == []
    modifies sink, sink.disk
    ensures ok ==> sink.Valid() && sink.stream == data && sink.disk.faulted == old(sink.disk.faulted)
    ensures ok ==> Accepts(sink.plan, data)
    ensures !ok ==> Framed(sink.plan, sink.before, sink.disk.State(), sink.created)
    ensures !ok && !sink.disk.faulted ==> !Accepts(sink.plan, data)
  {
    hide FileAt, CrcAt, SolidSink.OnDisk, Framed, Accepts, SolidSink.Valid;
    PlanIsValid(sink);
    NothingAccepted(sink.plan);
    var at := 0;
    while at < |data|
      invariant 0 <= at <= |data| && sink.Valid() && sink.disk.faulted == old(sink.disk.faulted)
      invariant sink.stream == data[..at] && Accepts(sink.plan, sink.stream)
    {
      var n :| 0 < n <= |data| - at;
      assert data[..at + n] == data[..at] + data[at..at + n];
      ok := WriteOn(sink, data[at..at + n], data);
      if !ok {
        return;
      }
      at := at + n;
    }
    assert data[..at] == data;
    return true;
  }

  lemma AcceptedWithin(p: Plan, stream: bytes)
    requires p.Valid() && Accepts(p, stream)
    ensures |stream| <= Total(p.CrcSizes())
  {
    hide CrcOk, Plan.Joinable;
  }

  /** The window holds the bytes of the buffer that are read and not consumed. */
  ghost predicate InWindow(inBuf: array<byte>, buffer: bytes, k: nat, taken: nat)
    reads inBuf
  {
    k <= taken <= |buffer| && taken - k <= inBuf.Length == IN_BUF_SIZE && inBuf[..taken - k] == buffer[k..taken]
  }

  /** `read_exact` from the buffer once the window is used up. */
  method FillWindow(inBuf: array<byte>, buffer: bytes, k: nat, taken: nat) returns (end: nat)
    requires InWindow(inBuf, buffer, k, taken)
    modifies inBuf
    ensures InWindow(inBuf, buffer, k, end) && end == taken + Wanted(|buffer|, k, taken)
  {
    end := taken;
    if k == taken {
      var n := if |buffer| - taken < IN_BUF_SIZE then |buffer| - taken else IN_BUF_SIZE;
      forall i | 0 <= i < n {
        inBuf[i] := buffer[taken + i];
      }
      end := taken + n;
    }
  }

  /** What the inflater has not consumed moves to the front. */
  method ShiftWindow(inBuf: array<byte>, buffer: bytes, k: nat, taken: nat, consumed: nat)
    requires InWindow(inBuf, buffer, k, taken) && consumed <= taken - k
    modifies inBuf
    ensures InWindow(inBuf, buffer, k + consumed, taken)
  {
    if consumed < taken - k {
      ghost var window := inBuf[..taken - k];
      CopyWithin(inBuf, consumed, taken - k);
      assert inBuf[..taken - k - consumed] == window[consumed..];
    }
  }

  lemma WindowHolds(inBuf: array<byte>, buffer: bytes, k: nat, taken: nat)
    requires InWindow(inBuf, buffer, k, taken)
    ensures k <= taken <= |buffer| && taken - k <= inBuf.Length && inBuf[..taken - k] == buffer[k..taken]
  {
  }

  /**
   `extract_deflate` on the buffer and over the sink: the loop ends, because the sink takes no more than its spans, and
   the sink gets exactly what the run of the inflater produces.
   */
  method InflateInto(sink: SolidSink, buffer: bytes, inf: Inflater) returns (ok: bool, failed: bool)
    requires sink.Valid() && sink.stream == []
    modifies sink, sink.disk
    ensures ok ==> sink.Valid() && sink.disk.faulted == old(sink.disk.faulted)
    ensures !ok ==> Framed(sink.plan, sink.before, sink.disk.State(), sink.created)
    ensures sink.plan.Valid() && var run := Inflate(inf, buffer, |buffer|, Total(sink.plan.CrcSizes()));
      && (ok ==> sink.stream == run.out && Accepts(sink.plan, run.out) && (failed <==> run.failed.Some?))
      && (!ok && !sink.disk.faulted ==> !Accepts(sink.plan, run.out))
  {
    hide FileAt, CrcAt, SolidSink.OnDisk, Framed, Accepts, SolidSink.Valid, Inflate, Ahead, Total, InWindow, Wanted;
    PlanIsValid(sink);
    NothingAccepted(sink.plan);
    ghost var limit := Total(sink.plan.CrcSizes());
    ghost var run := Inflate(inf, buffer, |buffer|, limit);
    var inBuf := new byte[IN_BUF_SIZE];
    var past: seq<bytes> := [];
    var k: nat, taken: nat := 0, 0;
    AtTheStart(inf, buffer, |buffer|, limit);
    AcceptedWithin(sink.plan, sink.stream);
    WindowEmptyAt(inBuf, buffer);
    ok, failed := true, false;
    while true
      invariant sink.Valid() && sink.disk.faulted == old(sink.disk.faulted) && Accepts(sink.plan, sink.stream)
      invariant InWindow(inBuf, buffer, k, taken) && |sink.stream| <= limit && k <= |buffer|
      invariant Ahead(inf, past, buffer, |buffer|, k, taken, limit, sink.stream)
      decreases |buffer| - k + (limit - |sink.stream|)
    {
      OneCall(inf, past, buffer, |buffer|, k, taken, limit, sink.stream);
      taken := FillWindow(inBuf, buffer, k, taken);
      WindowHolds(inBuf, buffer, k, taken);
      var window := inBuf[..taken - k];
      var t := inf(past, window);
      if t.Failed? {
        failed := true;
        break;
      }
      ShiftWindow(inBuf, buffer, k, taken, t.consumed);
      past, k := past + [window], k + t.consumed;
      assert sink.stream + [] == sink.stream;
      if t.produced != [] {
        ok := WriteOn(sink, t.produced, run.out);
        if !ok {
          return;
        }
      }
      AcceptedWithin(sink.plan, sink.stream);
      if t.end || (k == |buffer| && t.produced == []) {
        break;
      }
    }
  }

  lemma WindowEmptyAt(inBuf: array<byte>, buffer: bytes)
    requires inBuf.Length == IN_BUF_SIZE
    ensures InWindow(inBuf, buffer, 0, 0)
  {
  }

  /** The drivers over the sink: what reaches it, and whether the decoder fails. */
  method DriveInto(sink: SolidSink, env: Primitives, m: CompressionMethod, buffer: bytes)
    returns (ok: bool, failed: bool)
    requires sink.Valid() && sink.stream == []
    modifies sink, sink.disk
    ensures ok ==> sink.Valid() && sink.disk.faulted == old(sink.disk.faulted)
    ensures !ok ==> Framed(sink.plan, sink.before, sink.disk.State(), sink.created)
    ensures sink.plan.Valid() && var d := Driven(env, m, buffer, Total(sink.plan.CrcSizes()));
      && (ok ==> sink.stream == Flatten(d.writes) && Accepts(sink.plan, Flatten(d.writes)) && (failed <==> !d.ok))
      && (!ok && !sink.disk.faulted ==> !Accepts(sink.plan, Flatten(d.writes)))
  {
    hide FileAt, CrcAt, SolidSink.OnDisk, Framed, Accepts, SolidSink.Valid, Inflate, Total, Flatten, MemLimit;
    PlanIsValid(sink);
    NothingAccepted(sink.plan);
    NothingFlat();
    var total := Total(sink.plan.CrcSizes());
    ok, failed := true, false;
    match m {
      case Store =>
        ok := CopyInto(sink, buffer);
        FlattenOne(buffer);
      case Deflate =>
        ok, failed := InflateInto(sink, buffer, env.inflate);
        FlattenOne(Inflate(env.inflate, buffer, |buffer|, total).out);
      case Lzma =>
        if |buffer| < 9 {
          failed := true;
        } else {
          var d := env.lzma(LzmaStream(buffer), MemLimit(total));
          ok := Deliver(sink, d.writes);
          failed := !d.ok;
        }
      case UnknownCompression(n) =>
        failed := true;
      case _ =>
        var d := env.foreign(m, buffer, |buffer|, total);
        ok := Deliver(sink, d.writes);
        failed := !d.ok;
    }
  }

  lemma NothingFlat()
    ensures Flatten<byte>([]) == []
  {
  }

  /** What is left after a failure: every file the sink created is gone, the others are as before. */
  ghost predicate CleanedAway(p: Plan, before: Output, now: Output) {
    && p.Valid()
    && exists created: seq<Path> ::
         && (forall q :: q in created ==> IsTarget(p, q))
         && now.files == before.files - PathSet(created)
  }

  lemma RemovedAgain(p: Plan, before: Output, now: Output, failed: Output, created: seq<Path>)
    requires Framed(p, before, failed, created) && now.files == before.files - PathSet(created)
    ensures CleanedAway(p, before, now)
  {
  }

  /** All or nothing: where no target existed before, a failed run leaves the very files there were. */
  lemma AllOrNothing(p: Plan, before: Output, now: Output)
    requires CleanedAway(p, before, now) && forall q :: IsTarget(p, q) ==> q !in before.files
    ensures now.files == before.files
  {
    var created: seq<Path> :|
      (forall q :: q in created ==> IsTarget(p, q)) && now.files == before.files - PathSet(created);
    assert forall q :: q in before.files ==> q !in PathSet(created);
  }

  /** The decoder, the sink and `finish`; cleanup if any of them fails. */
  method RunSink(plan: Plan, env: Primitives, m: CompressionMethod, buffer: bytes, disk: Disk)
    returns (res: Result<Unit>)
    requires plan.Valid() && AllJoinable(plan)
    modifies disk
    ensures var spec := SinkOutcome(plan, env, m, buffer);
      && (res.Ok? ==>
            && spec.Ok? && disk.faulted == old(disk.faulted)
            && disk.State() == Written(plan, old(disk.State()), |plan.fileSpans|, spec.value))
      && (res.Err? && !disk.faulted ==> spec == Err(res.error))
    ensures OnlyTargets(plan, old(disk.State()), disk.State())
    ensures res.Err? && !disk.stuck ==> CleanedAway(plan, old(disk.State()), disk.State())
  {
    hide FileAt, CrcAt, SolidSink.OnDisk, SolidSink.Valid, Framed, Complete, Accepts, Written, CleanedAway, Flatten,
      Total, AllJoinable, OnlyTargets, Driven;
    var sink := new SolidSink(plan, disk);
    var ok, failed := DriveInto(sink, env, m, buffer);
    if !ok {
      CleanUp(sink);
      return Err(Refusal(m));
    }
    StillFramed(sink);
    if failed {
      CleanUp(sink);
      return Err(Breakdown(m));
    }
    res := sink.Finish();
    if res.Err? {
      CleanUp(sink);
    } else {
      StillFramed(sink);
      FramedTargets(plan, sink.before, disk.State(), sink.created);
    }
  }

  /** No file but the targets of the plan has changed, and nothing printed is taken back. */
  ghost predicate OnlyTargets(p: Plan, before: Output, now: Output) {
    && p.Valid() && before.stdout <= now.stdout
    && forall q :: !IsTarget(p, q) ==> SameFile(before, now, q)
  }

  lemma FramedTargets(p: Plan, before: Output, now: Output, created: seq<Path>)
    requires Framed(p, before, now, created)
    ensures OnlyTargets(p, before, now)
  {
    hide IsTarget;
  }

  /** All targets lie below the destination. */
  lemma TargetsContained(p: Plan, before: Output, now: Output)
    requires OnlyTargets(p, before, now)
    ensures Contained(before, now, p.dest)
  {
    hide SafeJoin, ShouldExtract;
    forall q: Path | !(p.dest < q) ensures SameFile(before, now, q) {
      assert !IsTarget(p, q);
    }
  }

  /** What happens on every failure once the sink exists. */
  method CleanUp(sink: SolidSink)
    requires Framed(sink.plan, sink.before, sink.disk.State(), sink.created)
    modifies sink.disk
    ensures OnlyTargets(sink.plan, sink.before, sink.disk.State())
    ensures !sink.disk.stuck ==> CleanedAway(sink.plan, sink.before, sink.disk.State())
    ensures sink.disk.faulted == old(sink.disk.faulted)
  {
    hide Framed, CleanedAway, OnlyTargets;
    ghost var now := sink.disk.State();
    if sink.plan.pipeMode {
      PipeTouchesNothing(sink.plan, sink.before, now, sink.created);
      FramedTargets(sink.plan, sink.before, now, sink.created);
    } else {
      sink.Cleanup();
      FramedTargets(sink.plan, sink.before, sink.disk.State(), sink.created);
      if !sink.disk.stuck {
        RemovedAgain(sink.plan, sink.before, sink.disk.State(), now, sink.created);
      }
    }
  }

  lemma PipeTouchesNothing(p: Plan, before: Output, now: Output, created: seq<Path>)
    requires Framed(p, before, now, created) && p.pipeMode
    ensures CleanedAway(p, before, now)
  {
    assert forall q :: q !in created;
    forall q: Path ensures SameFile(before, now, q) {
      assert q !in created;
    }
    SameFiles(before, now);
    assert before.files - PathSet([]) == before.files;
  }

  lemma SameFiles(before: Output, now: Output)
    requires forall q: Path :: SameFile(before, now, q)
    ensures now.files == before.files
  {
    forall q: Path ensures (q in now.files <==> q in before.files)
      && (q in now.files && q in before.files ==> now.files[q] == before.files[q])
    {
      assert SameFile(before, now, q);
    }
  }

  lemma StillFramed(sink: SolidSink)
    requires sink.Valid()
    ensures Framed(sink.plan, sink.before, sink.disk.State(), sink.created)
  {
    hide Framed;
  }

  // ---------- solid extraction ----------

  /** Some of the first files are created, empty, and nothing else has happened. */
  ghost predicate FilesCreated(p: Plan, before: Output, now: Output) {
    p.Valid() && exists j: nat :: j <= |p.fileSpans| && now == Written(p, before, j, [])
  }

  /** What a failed pass leaves: nothing of what it created, or, without any block, the empty files created so far. */
  ghost predicate SolidLeft(p: Plan, entries: seq<EggFileEntry>, before: Output, now: Output, stuck: bool) {
    && OnlyTargets(p, before, now)
    && (ReadsOf(entries, |entries|) != [] && !stuck ==> CleanedAway(p, before, now))
    && (ReadsOf(entries, |entries|) == [] ==> FilesCreated(p, before, now))
  }

  /** No block anywhere: every selected file is created empty. */
  method CreateEmptyFiles(plan: Plan, disk: Disk) returns (res: Result<Unit>)
    requires plan.Valid() && !plan.pipeMode && forall j :: 0 <= j < |plan.fileSpans| ==> plan.Target(j).Ok?
    modifies disk
    ensures res.Ok? ==> disk.State() == Written(plan, old(disk.State()), |plan.fileSpans|, [])
    ensures res.Ok? ==> disk.faulted == old(disk.faulted)
    ensures res.Err? ==> disk.faulted
    ensures FilesCreated(plan, old(disk.State()), disk.State())
  {
    hide Written, Put, Tile, SafeJoin, ShouldExtract;
    ghost var before := disk.State();
    NothingWritten(plan, before);
    for j := 0 to |plan.fileSpans|
      invariant disk.State() == Written(plan, before, j, []) && disk.faulted == old(disk.faulted)
    {
      assert plan.Target(j).Ok?;
      EmptyFileWritten(plan, before, j);
      if plan.Selected(j) {
        var ok := disk.Create(plan.Target(j).value);
        if !ok {
          return Err(CantOpenDestFile);
        }
      }
    }
    return Ok(Unit.Unit);
  }

  lemma NothingWritten(p: Plan, before: Output)
    requires p.Valid()
    ensures Written(p, before, 0, []) == before
  {
  }

  lemma EmptyFileWritten(p: Plan, before: Output, j: nat)
    requires p.Valid() && !p.pipeMode && j < |p.fileSpans| && p.Target(j).Ok?
    ensures var o := Written(p, before, j, []);
      Written(p, before, j + 1, []) == if p.Selected(j) then o.(files := o.files[p.Target(j).value := []]) else o
  {
    hide Tile, SafeJoin, ShouldExtract;
    NoTile(p.FileSizes(), j);
  }

  lemma NoTile(sizes: seq<nat>, j: nat)
    requires j < |sizes|
    ensures Tile(sizes, j, []) == []
  {
  }

  /** Checked paths give every file span a target. */
  lemma {:induction false} TargetsFine(
    entries: seq<EggFileEntry>, n: nat, dest: Path, filter: Option<seq<string>>, pipeMode: bool)
    requires n <= |entries| && PathsChecked(entries, n, dest, filter, pipeMode).Ok?
    ensures forall s :: s in FileSpansOf(entries, n) ==> SafeJoin(dest, entries[s.entry].fileName).Ok?
  {
    hide SafeJoin, ShouldExtract;
    if n > 0 {
      TargetsFine(entries, n - 1, dest, filter, pipeMode);
      if !entries[n - 1].IsDirectory() {
        assert SafeJoin(dest, entries[n - 1].fileName).Ok?;
      }
    }
  }

  /** The file sizes sum to nothing exactly when each is nothing. */
  lemma {:induction false} TotalOfNothing(sizes: seq<nat>, n: nat)
    requires n <= |sizes|
    ensures Off(sizes, n) == 0 <==> forall j :: 0 <= j < n ==> sizes[j] == 0
  {
    if n > 0 {
      TotalOfNothing(sizes, n - 1);
    }
  }

  /** Without blocks the buffer is empty, and complete exactly when every file is. */
  lemma EmptyStream(
    env: Primitives, flat: bytes, entries: seq<EggFileEntry>, dest: Path, password: Option<bytes>,
    filter: Option<seq<string>>, pipeMode: bool)
    requires ReadsOf(entries, |entries|) == [] && PathsChecked(entries, |entries|, dest, filter, pipeMode).Ok?
    ensures SolidStream(env, flat, entries, password) == Some([])
    ensures var plan := PlanOf(entries, dest, filter, pipeMode);
      && (Complete(plan, []) <==> forall s :: s in plan.fileSpans ==> s.size == 0)
      && (forall j :: 0 <= j < |plan.fileSpans| ==> plan.Target(j).Ok?)
  {
    hide SolidBuffer, ReadsOf, PathsChecked, SafeJoin, Complete;
    var plan := PlanOf(entries, dest, filter, pipeMode);
    NothingRead(env, flat, entries, password);
    SpansLikeReads(entries, |entries|);
    TargetsFine(entries, |entries|, dest, filter, pipeMode);
    EmptyComplete(plan);
  }

  lemma EmptyComplete(plan: Plan)
    requires plan.Valid() && plan.crcSpans == []
    requires forall s :: s in plan.fileSpans ==> SafeJoin(plan.dest, plan.entries[s.entry].fileName).Ok?
    ensures Complete(plan, []) <==> forall s :: s in plan.fileSpans ==> s.size == 0
    ensures forall j :: 0 <= j < |plan.fileSpans| ==> plan.Target(j).Ok?
  {
    hide SafeJoin, ShouldExtract, Off;
    NoSpansNoBytes(plan.CrcSizes());
    TotalOfNothing(plan.FileSizes(), |plan.fileSpans|);
    forall j | 0 <= j < |plan.fileSpans| ensures plan.Target(j).Ok? && plan.Joinable(j) {
      assert plan.fileSpans[j] in plan.fileSpans;
    }
    assert forall j :: 0 <= j < |plan.fileSpans| ==> plan.FileSizes()[j] == plan.fileSpans[j].size;
  }

  lemma NoSpansNoBytes(sizes: seq<nat>)
    requires sizes == []
    ensures Total(sizes) == 0
  {
  }

  /**
   `extract_all_solid`: succeeds exactly when paths, buffer and stream are fine, and then the disk holds every
   selected file with its slice of the stream; it fails with the error of the first step that does, and every file it
   created is gone.
   */
  method ExtractAllSolid(
    env: Primitives, reader: MultiVolumeReader, entries: seq<EggFileEntry>, dest: Path,
    password: Option<bytes>, pipeMode: bool, filter: Option<seq<string>>, disk: Disk)
    returns (res: Result<Unit>)
    requires reader.Valid() && AllLocated(entries) && disk !in {reader} + reader.Files()
    modifies reader, reader.Files(), disk
    ensures reader.Valid()
    ensures var spec := SolidOutcome(env, reader.Flat(), entries, dest, password, filter, pipeMode);
      && (res.Ok? ==>
            && spec.Ok? && disk.faulted == old(disk.faulted)
            && var plan := PlanOf(entries, dest, filter, pipeMode);
               disk.State() == Written(plan, old(disk.State()), |plan.fileSpans|, spec.value))
      && (res.Err? && !disk.faulted ==> spec == Err(res.error))
    ensures res.Err? ==>
      SolidLeft(PlanOf(entries, dest, filter, pipeMode), entries, old(disk.State()), disk.State(), disk.stuck)
    ensures Contained(old(disk.State()), disk.State(), dest)
  {
    hide FlatOf, MultiVolumeReader.Shaped, Tiled, AllWellFormed, SolidBuffer, ReadsOf, Complete, Written,
      PathsChecked, CleanedAway, PlanOf, SinkOutcome, SafeJoin, AllJoinable, Contained, OnlyTargets, FilesCreated;
    var res0, plan, blockReads := BuildPlan(entries, dest, filter, pipeMode);
    ghost var p, before := PlanOf(entries, dest, filter, pipeMode), disk.State();
    NothingTouched(p, before);
    PlanModes(entries, dest, filter, pipeMode);
    if res0.Err? {
      return res0;
    }
    if blockReads != [] {
      var buffer := Gather(env, reader, entries, blockReads, password);
      if buffer.Err? {
        return Err(buffer.error);
      }
      TargetsJoin(entries, dest, filter, pipeMode);
      res := RunSink(plan, env, FirstMethod(entries), buffer.value, disk);
      TargetsContained(p, before, disk.State());
    } else {
      EmptyStream(env, reader.Flat(), entries, dest, password, filter, pipeMode);
      res := Ok(Unit.Unit);
      if pipeMode {
        PipeWritesNothing(plan, disk.State(), |plan.fileSpans|);
      } else {
        if exists s :: s in plan.fileSpans && s.size != 0 {
          return Err(CorruptedFile);
        }
        res := CreateEmptyFiles(plan, disk);
        CreatedContained(p, before, disk.State());
      }
    }
  }

  lemma CreatedContained(p: Plan, before: Output, now: Output)
    requires FilesCreated(p, before, now)
    ensures Contained(before, now, p.dest) && OnlyTargets(p, before, now)
  {
    hide Written, OnlyTargets;
    var j: nat :| j <= |p.fileSpans| && now == Written(p, before, j, []);
    WrittenTargets(p, before, j, []);
    TargetsContained(p, before, now);
  }

  /** Writing files out touches targets only. */
  lemma {:induction false} WrittenTargets(p: Plan, before: Output, m: nat, stream: bytes)
    requires p.Valid() && m <= |p.fileSpans|
    ensures OnlyTargets(p, before, Written(p, before, m, stream))
  {
    hide Tile, SafeJoin, ShouldExtract, IsTarget;
    if m > 0 {
      WrittenTargets(p, before, m - 1, stream);
      var o, content := Written(p, before, m - 1, stream), Tile(p.FileSizes(), m - 1, stream);
      forall q | !IsTarget(p, q) ensures SameFile(before, Put(p, o, m - 1, content), q) {
        assert SameFile(before, o, q);
        NotATarget(p, q, m - 1);
      }
    }
  }

  lemma NotATarget(p: Plan, q: Path, j: nat)
    requires p.Valid() && j < |p.fileSpans| && !IsTarget(p, q)
    ensures p.Selected(j) && !p.pipeMode && p.Target(j).Ok? ==> p.Target(j).value != q
  {
    assert q !in NewPath(p, j);
  }

  /** Checked paths are usable ones. */
  lemma TargetsJoin(entries: seq<EggFileEntry>, dest: Path, filter: Option<seq<string>>, pipeMode: bool)
    requires PathsChecked(entries, |entries|, dest, filter, pipeMode).Ok?
    ensures AllJoinable(PlanOf(entries, dest, filter, pipeMode))
  {
    hide SafeJoin, ShouldExtract, PathsChecked;
    TargetsFine(entries, |entries|, dest, filter, pipeMode);
    var plan := PlanOf(entries, dest, filter, pipeMode);
    forall j | 0 <= j < |plan.fileSpans| ensures plan.Joinable(j) {
      assert plan.fileSpans[j] in plan.fileSpans;
    }
  }

  /** The condition and the stream of a successful extraction, without the order of the steps. */
  lemma OutcomeIsSuccess(
    env: Primitives, flat: bytes, entries: seq<EggFileEntry>, dest: Path, password: Option<bytes>,
    filter: Option<seq<string>>, pipeMode: bool)
    ensures SolidSucceeds(env, flat, entries, dest, password, filter, pipeMode)
       <==> SolidOutcome(env, flat, entries, dest, password, filter, pipeMode).Ok?
    ensures SolidSucceeds(env, flat, entries, dest, password, filter, pipeMode) ==>
      SolidOutcome(env, flat, entries, dest, password, filter, pipeMode)
      == Ok(SolidStream(env, flat, entries, password).value)
  {
    hide PathsChecked, ReadsOf, SolidBuffer, Complete, SinkOutcome, Decoded, PlanOf, SafeJoin;
    var plan := PlanOf(entries, dest, filter, pipeMode);
    if PathsChecked(entries, |entries|, dest, filter, pipeMode).Ok? {
      if ReadsOf(entries, |entries|) == [] {
        EmptyStream(env, flat, entries, dest, password, filter, pipeMode);
      } else if SolidBuffer(env, flat, entries, |entries|, password).Ok? {
        SameSizes(entries, dest, filter, pipeMode);
        SinkSucceeds(plan, env, FirstMethod(entries), SolidBuffer(env, flat, entries, |entries|, password).value);
      }
    }
  }

  /**
   The one exception to completeness: without any block, in pipe mode, a nonzero declared size is not looked at. A run
   succeeds without a complete stream exactly then.
   */
  lemma OnlyPipeModeIgnoresSizes(
    env: Primitives, flat: bytes, entries: seq<EggFileEntry>, dest: Path, password: Option<bytes>,
    filter: Option<seq<string>>, pipeMode: bool)
    ensures var plan, stream := PlanOf(entries, dest, filter, pipeMode), SolidStream(env, flat, entries, password);
      && SolidSucceeds(env, flat, entries, dest, password, filter, pipeMode)
      && !(stream.Some? && Complete(plan, stream.value))
      <==>
      && PathsChecked(entries, |entries|, dest, filter, pipeMode).Ok?
      && pipeMode && ReadsOf(entries, |entries|) == [] && exists s :: s in plan.fileSpans && s.size != 0
  {
    hide PathsChecked, ReadsOf, Complete, PlanOf, SolidStream;
    if PathsChecked(entries, |entries|, dest, filter, pipeMode).Ok? && ReadsOf(entries, |entries|) == [] {
      EmptyStream(env, flat, entries, dest, password, filter, pipeMode);
    }
  }

  lemma SinkSucceeds(plan: Plan, env: Primitives, compression: CompressionMethod, buffer: bytes)
    requires plan.Valid()
    ensures var stream := Decoded(env, compression, buffer, Total(plan.CrcSizes()));
      SinkOutcome(plan, env, compression, buffer).Ok? <==> stream.Some? && Complete(plan, stream.value)
    ensures SinkOutcome(plan, env, compression, buffer).Ok? ==>
      Decoded(env, compression, buffer, Total(plan.CrcSizes()))
      == Some(SinkOutcome(plan, env, compression, buffer).value)
  {
    hide Complete, Accepts, Total;
    var stream := Decoded(env, compression, buffer, Total(plan.CrcSizes()));
    if stream.Some? && Complete(plan, stream.value) {
      CompleteAccepts(plan, stream.value);
    }
  }

  lemma NothingTouched(p: Plan, o: Output)
    requires p.Valid()
    ensures CleanedAway(p, o, o) && FilesCreated(p, o, o) && OnlyTargets(p, o, o) && Contained(o, o, p.dest)
  {
    assert o.files - PathSet([]) == o.files;
    assert o == Written(p, o, 0, []);
    NothingChanged(o, p.dest);
  }

  lemma SameSizes(entries: seq<EggFileEntry>, dest: Path, filter: Option<seq<string>>, pipeMode: bool)
    ensures PlanOf(entries, dest, filter, pipeMode).CrcSizes() == CrcSizesOf(entries)
  {
  }

  lemma PlanModes(entries: seq<EggFileEntry>, dest: Path, filter: Option<seq<string>>, pipeMode: bool)
    ensures var p := PlanOf(entries, dest, filter, pipeMode); p.pipeMode == pipeMode && p.dest == dest
  {
  }

  lemma {:induction false} PipeWritesNothing(p: Plan, o: Output, m: nat)
    requires p.Valid() && p.pipeMode && m <= |p.fileSpans|
    ensures Written(p, o, m, []) == o
  {
    if m > 0 {
      PipeWritesNothing(p, o, m - 1);
      assert o.stdout + [] == o.stdout;
    }
  }
}
