/** From the volumes on disk to the extracted files: chain, parser and extraction in one run. */
module EndToEnd {
  import opened Bytes
  import opened Errors
  import opened ArchiveFormat
  import opened Disk
  import opened VolumeReader
  import opened VolumeChain
  import opened SplitArchive
  import opened EntryExtractor
  import opened SolidExtractor
  import opened Extraction

  // ---------- the positions the parser records ----------

  predicate BlocksWithin(blocks: seq<EggBlock>, n: nat) {
    forall i :: 0 <= i < |blocks| ==> blocks[i].dataPos <= n
  }

  predicate EntriesWithin(entries: seq<EggFileEntry>, n: nat) {
    forall i :: 0 <= i < |entries| ==> BlocksWithin(entries[i].blocks, n)
  }

  lemma BlockStarts(s: bytes, p: nat)
    requires ParseBlock(s, p).Ok?
    ensures ParseBlock(s, p).value.0.dataPos <= |s|
  {
  }

  lemma {:induction false} BlocksStart(s: bytes, p: nat, acc: seq<EggBlock>)
    requires ParseBlocks(s, p, acc).Ok? && BlocksWithin(acc, |s|)
    ensures BlocksWithin(ParseBlocks(s, p, acc).value.0, |s|)
    decreases |s| - p
  {
    hide Num, ParseBlock;
    if Num(s, p, 4).value == SIG_BLOCK_HEADER {
      BlockStarts(s, p + 4);
      var (b, q) := ParseBlock(s, p + 4).value;
      BlocksStart(s, q, acc + [b]);
    }
  }

  lemma FileStarts(decode: NameDecoder, s: bytes, p: nat, encrypted: bool)
    requires ParseFileEntry(decode, s, p, encrypted).Ok?
    ensures BlocksWithin(ParseFileEntry(decode, s, p, encrypted).value.0.entry.blocks, |s|)
  {
    hide Num, ParseSubs, ParseBlocks;
    var id, size := Num(s, p, 4).value, Num(s, p + 4, 8).value;
    var q := ParseSubs(decode, s, p + 12, Header(EmptyEntry(id, size), encrypted)).value.1;
    BlocksStart(s, q, []);
  }

  lemma {:induction false} BodyStarts(decode: NameDecoder, s: bytes, p: nat, b: Body)
    requires ParseBody(decode, s, p, b).Ok? && EntriesWithin(b.entries, |s|)
    ensures EntriesWithin(ParseBody(decode, s, p, b).value.entries, |s|)
    decreases |s| - p
  {
    hide Num, ParseFileEntry, SkipRecord, BlocksWithin, ContinuesAfterEnd;
    var sig := Num(s, p, 4).value;
    if sig == SIG_FILE_HEADER {
      FileStarts(decode, s, p + 4, b.encrypted);
      var (h, q) := ParseFileEntry(decode, s, p + 4, b.encrypted).value;
      BodyStarts(decode, s, q, Body(b.entries + [h.entry], h.encrypted));
    } else if sig == SIG_COMMENT || sig == SIG_DUMMY {
      BodyStarts(decode, s, SkipRecord(s, p + 4).value, b);
    } else if ContinuesAfterEnd(Num(s, p + 4, 4)) {
      BodyStarts(decode, s, p + 4, b);
    }
  }

  /** Every data position the parser records lies inside the bytes it was given. */
  lemma OpenLocates(decode: NameDecoder, s: bytes)
    requires Open(decode, s).Ok?
    ensures EntriesWithin(Open(decode, s).value.entries, |s|)
  {
    hide Num, ParsePrefix, ParseBody, ResolvedName, BlocksWithin;
    var p := ParsePrefix(s, 14, Prefix(false, None)).value.1;
    BodyStarts(decode, s, p, Body([], false));
    var entries := ParseBody(decode, s, p, Body([], false)).value.entries;
    assert forall i :: 0 <= i < |entries| ==> Resolved(entries)[i].blocks == entries[i].blocks;
  }

  lemma WithinLocated(entries: seq<EggFileEntry>, n: nat)
    requires EntriesWithin(entries, n) && n < TWO_63
    ensures AllLocated(entries)
  {
    forall i | 0 <= i < |entries| ensures Located(entries[i].blocks) {
      assert BlocksWithin(entries[i].blocks, n);
    }
  }

  // ---------- the whole run ----------

  /** Opening failed and nothing happened, or extraction did what it is to do on the bytes the archive presents. */
  ghost predicate Ran(
    decode: NameDecoder, job: Job, flat: bytes, res: Result<Unit>, before: Output, now: Output, wasFaulted: bool,
    isFaulted: bool, stuck: bool)
  {
    match Open(decode, flat)
    case Err(error) => res == Err(error) && now == before
    case Ok(archive) => Performed(job, flat, archive, None, res, before, now, wasFaulted, isFaulted, stuck)
  }

  /** Whatever comes of a run, and whatever fails in it, nothing outside the destination has changed. */
  lemma RunIsContained(
    decode: NameDecoder, job: Job, flat: bytes, res: Result<Unit>, before: Output, now: Output, wasFaulted: bool,
    isFaulted: bool, stuck: bool)
    requires Ran(decode, job, flat, res, before, now, wasFaulted, isFaulted, stuck)
    ensures Contained(before, now, job.dest)
  {
    hide Open, Extracted, FailsWith, LeftBehind;
    NothingChanged(before, job.dest);
  }

  /** `try_open`, `open` and `extract_all`, one after the other. */
  method ExtractArchive(decode: NameDecoder, job: Job, dir: seq<bytes>, first: bytes, disk: Disk)
    returns (res: Result<Unit>, ghost flat: bytes)
    requires forall data :: data in Presentable(dir, first) ==> |data| < TWO_63 / 2
    modifies disk
    ensures Volumes(dir, first).Err? ==> res == Err(Volumes(dir, first).error) && disk.State() == old(disk.State())
    ensures Volumes(dir, first).Ok? ==>
      && flat in Presentable(dir, first)
      && Ran(decode, job, flat, res, old(disk.State()), disk.State(), old(disk.faulted), disk.faulted, disk.stuck)
  {
    hide Open, FlatOf, Volumes, Pieces, Performed, AllLocated, MultiVolumeReader.Shaped, EntriesWithin;
    var opening, reader := OpenVolumes(decode, dir, first);
    flat := [];
    if opening.Err? {
      if Volumes(dir, first).Ok? {
        flat := reader.Flat();
      }
      res := Err(opening.error);
      return;
    }
    flat := reader.Flat();
    OpenLocates(decode, flat);
    WithinLocated(opening.value.entries, |flat|);
    res := ExtractAll(job, reader, opening.value, disk);
  }

  /** For any byte stream cut into volumes the run is the one on the uncut bytes: result, error and disk. */
  method ExtractSplit(
    decode: NameDecoder, job: Job, dir: seq<bytes>, first: bytes, disk: Disk,
    ghost vols: seq<VolumeValue>, ghost whole: bytes)
    returns (res: Result<Unit>)
    requires IsCut(dir, first, vols, whole) && |whole| < TWO_63 / 2
    modifies disk
    ensures Ran(decode, job, whole, res, old(disk.State()), disk.State(), old(disk.faulted), disk.faulted, disk.stuck)
  {
    hide IsCut, Volumes, Presentable, Ran;
    CutPresentsWhole(dir, first, vols, whole);
    ghost var flat;
    res, flat := ExtractArchive(decode, job, dir, first, disk);
  }
}
