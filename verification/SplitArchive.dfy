/** An archive cut into volumes opens as the whole archive does: the chain, the reader and the parser together. */
module SplitArchive {
  import opened Bytes
  import opened Errors
  import opened ArchiveFormat
  import opened ArchiveWriter
  import opened VolumeReader
  import opened VolumeChain
  import opened RoundTrip
  import ArchiveReader

  // ---------- volumes as values ----------

  /** A continuation volume: a header of its own, then a piece of the archive. */
  datatype VolumeValue = VolumeValue(version: nat, id: nat, reserved: nat, prefix: seq<PrefixRecord>, piece: bytes) {
    function Front(): bytes {
      Sig(SIG_EGG_HEADER) + (LeBytes(version, 2) + (LeBytes(id, 4) + LeBytes(reserved, 4)))
    }

    function Written(): bytes {
      Front() + (PrefixSection(prefix) + piece)
    }

    /** The header is well-formed, and every split record declares its eight bytes. */
    predicate WellFormed() {
      version < TWO_16 && 0 < id < TWO_32 && reserved < TWO_32
      && (forall r :: r in prefix ==> PrefixFits(r) && (r.SplitRecord? ==> r.declared >= 8))
    }
  }

  function FirstSplit(rs: seq<PrefixRecord>): Option<SplitInfo> {
    if rs == [] then None
    else if rs[0].SplitRecord? then Some(SplitInfo(rs[0].prevId, rs[0].nextId))
    else FirstSplit(rs[1..])
  }

  // ---------- the scanners on written sections ----------

  function RecordSig(r: PrefixRecord): nat {
    match r
    case SplitRecord(_, _, _, _, _) => SIG_SPLIT_INFO
    case SolidRecord(_, _) => SIG_SOLID_INFO
    case SkippedRecord(_, _) => SIG_SKIP
    case GlobalEncryptRecord(_, _) => SIG_GLOBAL_ENCRYPT
  }

  /** What a scanner sees of one record: signature, extra field, and where it skips to. */
  lemma RecordHeadAt(s: bytes, p: nat, r: PrefixRecord)
    requires PrefixFits(r) && HasAt(s, p, PrefixBytes(r))
    ensures Num(s, p, 4) == Ok(RecordSig(r)) && ExtraField(s, p + 4).Ok?
    ensures var e := ExtraField(s, p + 4).value;
      && (!r.SplitRecord? ==> e.next + e.size == p + |PrefixBytes(r)|)
      && (r.SplitRecord? ==>
            && Num(s, e.next, 4) == Ok(r.prevId) && Num(s, e.next + 4, 4) == Ok(r.nextId)
            && (r.declared >= 8 ==> e.next + e.size == p + |PrefixBytes(r)|))
  {
    hide HasAt, LeBytes, Num, ExtraBytes, ExtraField;
    FieldSizes();
    if r.SplitRecord? {
      var extra := ExtraBytes(r.flags, r.declared);
      var rest := LeBytes(r.prevId, 4) + (LeBytes(r.nextId, 4) + r.padding);
      HasAtSplit(s, p, Sig(SIG_SPLIT_INFO), extra + rest);
      HasAtSplit(s, p + 4, extra, rest);
      var q := p + 4 + |extra|;
      HasAtSplit(s, q, LeBytes(r.prevId, 4), LeBytes(r.nextId, 4) + r.padding);
      HasAtSplit(s, q + 4, LeBytes(r.nextId, 4), r.padding);
      SigAt(s, p, SIG_SPLIT_INFO);
      ExtraAt(s, p + 4, r.flags, r.declared);
      NumAt(s, q, r.prevId, 4);
      NumAt(s, q + 4, r.nextId, 4);
    } else {
      HasAtSplit(s, p, Sig(RecordSig(r)), DataBytes(r.flags, r.data));
      HasAtSplit(s, p + 4, ExtraBytes(r.flags, |r.data|), r.data);
      SigAt(s, p, RecordSig(r));
      ExtraAt(s, p + 4, r.flags, |r.data|);
    }
  }

  lemma {:induction false} SplitScanAt(s: bytes, p: nat, rs: seq<PrefixRecord>)
    requires (forall r :: r in rs ==> PrefixFits(r)) && HasAt(s, p, PrefixSection(rs))
    ensures SplitScan(s, p) == Ok(FirstSplit(rs))
    decreases |rs|
  {
    hide HasAt, LeBytes, PrefixBytes, PrefixFits, Num, ExtraField;
    if rs == [] {
      SigAt(s, p, SIG_END_MARKER);
    } else {
      HasAtSplit(s, p, PrefixBytes(rs[0]), PrefixSection(rs[1..]));
      RecordHeadAt(s, p, rs[0]);
      if !rs[0].SplitRecord? {
        SplitScanAt(s, p + |PrefixBytes(rs[0])|, rs[1..]);
      }
    }
  }

  lemma {:induction false} SkipScanAt(s: bytes, p: nat, rs: seq<PrefixRecord>)
    requires forall r :: r in rs ==> PrefixFits(r) && (r.SplitRecord? ==> r.declared >= 8)
    requires HasAt(s, p, PrefixSection(rs))
    ensures SkipScan(s, p) == Ok(p + |PrefixSection(rs)|)
    decreases |rs|
  {
    hide HasAt, LeBytes, PrefixBytes, PrefixFits, Num, ExtraField;
    if rs == [] {
      SigAt(s, p, SIG_END_MARKER);
    } else {
      HasAtSplit(s, p, PrefixBytes(rs[0]), PrefixSection(rs[1..]));
      RecordHeadAt(s, p, rs[0]);
      SkipScanAt(s, p + |PrefixBytes(rs[0])|, rs[1..]);
    }
  }

  lemma HeaderIdAt(v: bytes, version: nat, id: nat, reserved: nat)
    requires id < TWO_32
    requires HasAt(v, 0, Sig(SIG_EGG_HEADER) + (LeBytes(version, 2) + (LeBytes(id, 4) + LeBytes(reserved, 4))))
    ensures Num(v, 0, 4) == Ok(SIG_EGG_HEADER) && QuickHeaderId(v) == Some(id) && |v| >= 14
  {
    hide LeBytes, LeValue;
    FieldSizes();
    HasAtSplit(v, 0, Sig(SIG_EGG_HEADER), LeBytes(version, 2) + (LeBytes(id, 4) + LeBytes(reserved, 4)));
    HasAtSplit(v, 4, LeBytes(version, 2), LeBytes(id, 4) + LeBytes(reserved, 4));
    HasAtSplit(v, 6, LeBytes(id, 4), LeBytes(reserved, 4));
    SigAt(v, 0, SIG_EGG_HEADER);
    NumAt(v, 6, id, 4);
  }

  /** A written continuation volume is found under its ID and contributes exactly its piece. */
  lemma WrittenVolume(v: VolumeValue)
    requires v.WellFormed()
    ensures QuickHeaderId(v.Written()) == Some(v.id)
    ensures ContinuationStart(v.Written()) == Ok(|v.Written()| - |v.piece|)
    ensures SplitInfoOf(v.Written()) == Ok(FirstSplit(v.prefix))
    ensures v.Written()[|v.Written()| - |v.piece|..] == v.piece
  {
    hide HasAt, LeBytes, PrefixSection, PrefixFits, QuickHeaderId, SplitScan, SkipScan, Num;
    var s, section := v.Written(), PrefixSection(v.prefix);
    WholeAt(s);
    HasAtSplit(s, 0, v.Front(), section + v.piece);
    HeaderIdAt(s, v.version, v.id, v.reserved);
    HasAtSplit(s, 14, section, v.piece);
    SplitScanAt(s, 14, v.prefix);
    SkipScanAt(s, 14, v.prefix);
  }

  // ---------- the chain over written volumes ----------

  function NextId(vols: seq<VolumeValue>): nat {
    if vols == [] then 0 else vols[0].id
  }

  /** Each volume names the next in its first split record, and the directory holds each, alone under its ID. */
  ghost predicate Chained(dir: seq<bytes>, vols: seq<VolumeValue>)
    decreases |vols|
  {
    vols == [] ||
    (&& vols[0].WellFormed()
     && vols[0].Written() in dir
     && (forall f :: f in dir && QuickHeaderId(f) == Some(vols[0].id) ==> f == vols[0].Written())
     && NextOf(FirstSplit(vols[0].prefix)) == NextId(vols[1..])
     && Chained(dir, vols[1..]))
  }

  ghost predicate IdsDistinct(vols: seq<VolumeValue>, seen: set<nat>) {
    && (forall v :: v in vols ==> v.id !in seen)
    && (forall i, j :: 0 <= i < j < |vols| ==> vols[i].id != vols[j].id)
  }

  function PieceBytes(vols: seq<VolumeValue>): bytes {
    if vols == [] then [] else vols[0].piece + PieceBytes(vols[1..])
  }

  lemma LinkToWritten(dir: seq<bytes>, v: VolumeValue)
    requires v.WellFormed() && v.Written() in dir
    requires forall f :: f in dir && QuickHeaderId(f) == Some(v.id) ==> f == v.Written()
    ensures LinkTo(dir, v.id)
         == Ok(Link(v.id, v.Written(), |v.Written()| - |v.piece|, NextOf(FirstSplit(v.prefix))))
  {
    hide QuickHeaderId, ContinuationStart, SplitInfoOf, VolumeValue.Written, VolumeValue.WellFormed, FindVolume,
      FirstSplit;
    WrittenVolume(v);
    OnlyOneFound(dir, v.id, v.Written());
  }

  lemma OnlyOneFound(dir: seq<bytes>, id: nat, w: bytes)
    requires w in dir && QuickHeaderId(w) == Some(id)
    requires forall f :: f in dir && QuickHeaderId(f) == Some(id) ==> f == w
    ensures FindVolume(dir, id) == Ok(w)
  {
    hide QuickHeaderId;
    var found := FindVolume(dir, id);
    hide FindVolume;
  }

  lemma {:induction false} ChainOfWritten(dir: seq<bytes>, vols: seq<VolumeValue>, seen: set<nat>, n: nat)
    requires Chained(dir, vols) && IdsDistinct(vols, seen) && n + |vols| <= MAX_VOLUMES
    ensures Chain(dir, NextId(vols), seen, n).Ok?
    ensures var links := Chain(dir, NextId(vols), seen, n).value;
      && |links| == |vols| && (forall l :: l in links ==> l.WellFormed()) && Pieces(links) == PieceBytes(vols)
    decreases |vols|
  {
    hide LinkTo, QuickHeaderId, VolumeValue.Written, VolumeValue.WellFormed, IdsDistinct, FirstSplit;
    if vols != [] {
      hide Chain;
      var v, rest := vols[0], vols[1..];
      IdsStep(vols, seen);
      LinkToWritten(dir, v);
      WrittenVolume(v);
      ChainOfWritten(dir, rest, seen + {v.id}, n + 1);
      var link := LinkTo(dir, v.id).value;
      var tail := Chain(dir, NextId(rest), seen + {v.id}, n + 1).value;
      OneLinkMore(dir, v.id, seen, n);
      PiecesOf(link, tail);
    }
  }

  lemma OneLinkMore(dir: seq<bytes>, id: nat, seen: set<nat>, n: nat)
    requires id != 0 && id !in seen && n < MAX_VOLUMES && LinkTo(dir, id).Ok?
    requires Chain(dir, LinkTo(dir, id).value.next, seen + {id}, n + 1).Ok?
    ensures Chain(dir, id, seen, n)
         == Ok([LinkTo(dir, id).value] + Chain(dir, LinkTo(dir, id).value.next, seen + {id}, n + 1).value)
  {
    hide LinkTo;
  }

  lemma PiecesOf(link: Link, tail: seq<Link>)
    requires link.WellFormed() && forall l :: l in tail ==> l.WellFormed()
    ensures Pieces([link] + tail) == link.volume[link.start..] + Pieces(tail)
  {
    assert ([link] + tail)[1..] == tail;
  }

  lemma IdsStep(vols: seq<VolumeValue>, seen: set<nat>)
    requires vols != [] && IdsDistinct(vols, seen) && vols[0].WellFormed()
    ensures vols[0].id != 0 && vols[0].id !in seen && IdsDistinct(vols[1..], seen + {vols[0].id})
  {
    var rest := vols[1..];
    assert vols[0] in vols;
    forall i, j | 0 <= i < j < |rest| ensures rest[i].id != rest[j].id {
      assert rest[i] == vols[i + 1] && rest[j] == vols[j + 1];
    }
    forall w | w in rest ensures w.id !in seen + {vols[0].id} {
      var i :| 0 <= i < |rest| && rest[i] == w;
      assert vols[i + 1] == w && vols[0].id != vols[i + 1].id;
    }
  }

  // ---------- cutting a byte stream ----------

  /**
   Any byte stream cut at arbitrary points: the first volume is what comes before the first cut, every later piece
   is in a continuation volume of its own, and each volume leads to the next. Of the first volume only what the
   scanners read matters: its ID, if it has one, and the next ID of its first split record.
   */
  ghost predicate IsCut(dir: seq<bytes>, first: bytes, vols: seq<VolumeValue>, whole: bytes) {
    && whole == first + PieceBytes(vols)
    && 1 + |vols| <= MAX_VOLUMES
    && SplitInfoOf(first).Ok? && NextOf(SplitInfoOf(first).value) == NextId(vols)
    && Chained(dir, vols) && IdsDistinct(vols, SeenFirst(first))
  }

  /** What the first volume of a well-formed archive says when it is cut behind the prefix section. */
  lemma FirstVolume(a: ArchiveValue, first: bytes, rest: bytes)
    requires WellFormed(a) && Serialized(a) == first + rest && |first| >= 14 + |PrefixSection(a.prefix)|
    ensures SeenFirst(first) == {a.headerId} && SplitInfoOf(first) == Ok(FirstSplit(a.prefix))
  {
    hide HasAt, LeBytes, PrefixSection, BodySection, PrefixFits, QuickHeaderId, SplitScan, Num;
    var section := PrefixSection(a.prefix);
    var head := HeaderBytes(a) + section;
    assert Serialized(a) == head + (BodySection(a.body) + a.trailing);
    assert HasAt(first, 0, head) by { PrefixOfFirst(first, rest, head, BodySection(a.body) + a.trailing); }
    HasAtSplit(first, 0, HeaderBytes(a), section);
    HeaderIdAt(first, a.version, a.headerId, a.reserved);
    SplitScanAt(first, 14, a.prefix);
  }

  lemma PrefixOfFirst(first: bytes, rest: bytes, head: bytes, tail: bytes)
    requires first + rest == head + tail && |first| >= |head|
    ensures HasAt(first, 0, head)
  {
    assert first[..|head|] == (first + rest)[..|head|] == (head + tail)[..|head|] == head;
  }

  lemma FirstIdNonzero(dir: seq<bytes>, vols: seq<VolumeValue>)
    requires Chained(dir, vols)
    ensures NextId(vols) == 0 <==> vols == []
  {
  }

  lemma ChainGivesVolumes(dir: seq<bytes>, first: bytes)
    requires SplitInfoOf(first).Ok? && Chain(dir, NextOf(SplitInfoOf(first).value), SeenFirst(first), 1).Ok?
    ensures var next := NextOf(SplitInfoOf(first).value);
      Volumes(dir, first) == Ok(if next == 0 then None else Some(Chain(dir, next, SeenFirst(first), 1).value))
  {
    hide SplitInfoOf, Chain, SeenFirst;
  }

  /** The volumes of a cut stream are found and linked, and present exactly the uncut bytes. */
  lemma CutPresentsWhole(dir: seq<bytes>, first: bytes, vols: seq<VolumeValue>, whole: bytes)
    requires IsCut(dir, first, vols, whole)
    ensures Volumes(dir, first).Ok? && (Volumes(dir, first).value.Some? <==> vols != [])
    ensures vols != [] ==> |Volumes(dir, first).value.value| == |vols|
    ensures Presentable(dir, first) == {whole}
  {
    hide SplitInfoOf, Chain, Chained, IdsDistinct, Pieces, Volumes, FirstSplit, NextOf, NextId, SeenFirst;
    FirstIdNonzero(dir, vols);
    ChainOfWritten(dir, vols, SeenFirst(first), 1);
    ChainGivesVolumes(dir, first);
    if vols == [] {
      assert first + [] == first;
    }
  }

  /** Opening an archive from its first volume: the chain if it is split, the file itself if not. */
  method OpenVolumes(decode: NameDecoder, dir: seq<bytes>, first: bytes)
    returns (res: Result<Archive>, reader: MultiVolumeReader)
    requires forall data :: data in Presentable(dir, first) ==> |data| < TWO_63 / 2
    ensures fresh(reader) && fresh(reader.Files())
    ensures Volumes(dir, first).Ok? ==>
      && ArchiveReader.Ready(reader)
      && reader.Flat() in Presentable(dir, first)
      && res == Open(decode, reader.Flat())
    ensures Volumes(dir, first).Err? ==> res == Err(Volumes(dir, first).error)
  {
    hide Open, FlatOf, Volumes, Pieces;
    var chained := TryOpen(dir, first);
    var file := new VolumeFile(first);
    FirstPresents(file);
    var single := [Segment(file, 0, 0, |first|)];
    ReadyToRead(single, first);
    reader := new MultiVolumeReader(single);
    if chained.Err? {
      res := Err(chained.error);
      return;
    }
    if chained.value.Some? {
      reader := chained.value.value;
    }
    res := ArchiveReader.OpenArchive(decode, reader);
  }

  /** The one byte sequence an archive presents. */
  ghost function Presentable(dir: seq<bytes>, first: bytes): set<bytes> {
    match Volumes(dir, first)
    case Err(_) => {}
    case Ok(None) => {first}
    case Ok(Some(links)) => if forall l :: l in links ==> l.WellFormed() then {first + Pieces(links)} else {}
  }

  /** Any byte stream, cut anywhere into continuation volumes, opens as the uncut stream does, errors included. */
  method OpenSplit(
    decode: NameDecoder, dir: seq<bytes>, first: bytes, ghost vols: seq<VolumeValue>, ghost whole: bytes)
    returns (res: Result<Archive>, reader: MultiVolumeReader)
    requires IsCut(dir, first, vols, whole) && |whole| < TWO_63 / 2
    ensures res == Open(decode, whole)
    ensures fresh(reader) && fresh(reader.Files()) && ArchiveReader.Ready(reader) && reader.Flat() == whole
  {
    hide Open, FlatOf, Volumes, Presentable, IsCut;
    CutPresentsWhole(dir, first, vols, whole);
    res, reader := OpenVolumes(decode, dir, first);
  }

  /**
   So a well-formed archive, cut anywhere, opens with its meaning, and the reader that comes with it presents every
   block's data at the block's data position.
   */
  method OpenSplitArchive(
    decode: NameDecoder, dir: seq<bytes>, first: bytes, ghost vols: seq<VolumeValue>, ghost a: ArchiveValue)
    returns (res: Result<Archive>, reader: MultiVolumeReader)
    requires WellFormed(a) && IsCut(dir, first, vols, Serialized(a)) && |Serialized(a)| < TWO_63 / 2
    ensures res == Ok(Meaning(decode, a))
    ensures fresh(reader) && fresh(reader.Files()) && ArchiveReader.Ready(reader) && reader.Flat() == Serialized(a)
    ensures AllInPlace(reader.Flat(), Files(a.body), res.value.entries, 0)
  {
    hide Open, FlatOf, Serialized, Meaning, AllInPlace, Files, IsCut, WellFormed;
    OpenOfSerialized(decode, a);
    res, reader := OpenSplit(decode, dir, first, vols, Serialized(a));
  }

  /** Reading `compressedSize` bytes at a data position: the bytes that stand there, also across volumes. */
  method ReadBlockData(reader: MultiVolumeReader, block: EggBlock) returns (got: bytes)
    requires ArchiveReader.Ready(reader) && block.dataPos < TWO_63
    modifies reader, reader.Files()
    ensures ArchiveReader.Ready(reader) && got == Window(reader.Flat(), block.dataPos, block.compressedSize)
    ensures forall data: bytes ::
      HasAt(reader.Flat(), block.dataPos, data) && block.compressedSize == |data| ==> got == data
  {
    hide FlatOf;
    var at := reader.Seek(FromStart(block.dataPos));
    got := reader.ReadUpTo(block.compressedSize);
  }

  // ---------- where the scanners and the parser part ----------

  /** With two split records, `read_split_info` takes the first and `open` the last. */
  lemma TwoSplitRecordsDisagree(decode: NameDecoder)
    ensures var s := Serialized(ArchiveValue(
        256, 7, 0, [SplitRecord(0, 8, 1, 2, []), SplitRecord(0, 8, 1, 3, [])], [], []));
      && SplitInfoOf(s) == Ok(Some(SplitInfo(1, 2)))
      && Open(decode, s).Ok? && Open(decode, s).value.split == Some(SplitInfo(1, 3))
  {
    hide HasAt, LeBytes, PrefixSection, BodySection, QuickHeaderId, SplitScan, Num, HasFlag;
    var one, two := SplitRecord(0, 8, 1, 2, []), SplitRecord(0, 8, 1, 3, []);
    var a := ArchiveValue(256, 7, 0, [one, two], [], []);
    NothingTrails();
    OpenOfSerialized(decode, a);
    FirstVolume(a, Serialized(a), []);
    assert [one, two][1..] == [two] && [two][1..] == [];
  }

  lemma NothingTrails()
    ensures !ContinuesAfterEnd(Num([], 0, 4))
  {
  }

  /** A volume whose split record declares no bytes: the parser ends at offset 33, the continuation scan at 25. */
  lemma ShortSplitRecordExample()
    ensures var s := VolumeValue(256, 7, 0, [SplitRecord(0, 0, SIG_END_MARKER, 5, [])], []).Written();
      && ParsePrefix(s, 14, Prefix(false, None)) == Ok((Prefix(false, Some(SplitInfo(SIG_END_MARKER, 5))), 33))
      && ContinuationStart(s) == Ok(25)
  {
    hide HasAt, LeBytes, Num, ExtraField, ParsePrefix, SkipScan;
    var r := SplitRecord(0, 0, SIG_END_MARKER, 5, []);
    var v, section := VolumeValue(256, 7, 0, [r], []), PrefixSection([r]);
    var s := v.Written();
    assert [r][1..] == [];
    WholeAt(s);
    HasAtSplit(s, 0, v.Front(), section + []);
    HeaderIdAt(s, 256, 7, 0);
    HasAtSplit(s, 14, section, []);
    assert section == PrefixBytes(r) + PrefixSection([]);
    HasAtSplit(s, 14, PrefixBytes(r), Sig(SIG_END_MARKER));
    NoSizeBytes();
    FieldSizes();
    RecordHeadAt(s, 14, r);
    HasAtSplit(s, 14, Sig(SIG_SPLIT_INFO), ExtraBytes(0, 0) + (LeBytes(SIG_END_MARKER, 4) + (LeBytes(5, 4) + [])));
    HasAtSplit(s, 18, ExtraBytes(0, 0), LeBytes(SIG_END_MARKER, 4) + (LeBytes(5, 4) + []));
    ExtraAt(s, 18, 0, 0);
    hide ExtraBytes;
    SigAt(s, 14 + |PrefixBytes(r)|, SIG_END_MARKER);
    ShortSplitRecordDisagrees(s, 14, ExtraField(s, 18).value, 5);
  }

  lemma NoSizeBytes()
    ensures |ExtraBytes(0, 0)| == 3 && SizeFits(0, 0)
  {
  }
}
