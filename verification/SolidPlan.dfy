/**
 The solid stream on values: one decompressed stream tiled twice, by file sizes and by CRC spans, and what a
 complete stream leaves on disk (src/extract.rs, `extract_all_solid` and `SolidSink`).
 */
module SolidPlan {
  import opened Bytes
  import opened Errors
  import opened ArchiveFormat
  import opened Disk
  import Crc32

  datatype FileSpan = FileSpan(entry: nat, size: nat)
  datatype CrcSpan = CrcSpan(size: nat, crc: bv32)

  /** `matches_filter`: the exact name, or a parent directory of it. */
  function MatchesFilter(name: string, pattern: string): bool {
    var pat := TrimEnd(pattern);
    name == pat || (pat <= name && name[|pat|..] != "" && name[|pat|] == '/')
  }

  /** `should_extract`. */
  function ShouldExtract(e: EggFileEntry, filter: Option<seq<string>>): bool {
    match filter
    case None => true
    case Some(patterns) => exists f :: f in patterns && MatchesFilter(e.fileName, f)
  }

  /** The borrowed, unchanging part of the sink. */
  datatype Plan = Plan(
    fileSpans: seq<FileSpan>, crcSpans: seq<CrcSpan>, entries: seq<EggFileEntry>,
    dest: Path, filter: Option<seq<string>>, pipeMode: bool)
  {
    predicate Valid() {
      forall s :: s in fileSpans ==> s.entry < |entries|
    }

    function FileSizes(): (r: seq<nat>)
      ensures |r| == |fileSpans| && forall i :: 0 <= i < |r| ==> r[i] == fileSpans[i].size
    {
      seq(|fileSpans|, i requires 0 <= i < |fileSpans| => fileSpans[i].size)
    }

    function CrcSizes(): (r: seq<nat>)
      ensures |r| == |crcSpans| && forall i :: 0 <= i < |r| ==> r[i] == crcSpans[i].size
    {
      seq(|crcSpans|, i requires 0 <= i < |crcSpans| => crcSpans[i].size)
    }

    function Entry(j: nat): EggFileEntry
      requires Valid() && j < |fileSpans|
    {
      assert fileSpans[j] in fileSpans;
      entries[fileSpans[j].entry]
    }

    predicate Selected(j: nat)
      requires Valid() && j < |fileSpans|
    {
      ShouldExtract(Entry(j), filter)
    }

    function Target(j: nat): Result<Path>
      requires Valid() && j < |fileSpans|
    {
      SafeJoin(dest, Entry(j).fileName)
    }

    /** File span j needs no path, or has one. */
    predicate Joinable(j: nat)
      requires Valid() && j < |fileSpans|
    {
      Selected(j) && !pipeMode ==> Target(j).Ok?
    }

    /** Where the bytes of file span j go. */
    function WriterOf(j: nat): Option<Writer>
      requires Valid() && j < |fileSpans| && Joinable(j)
    {
      if !Selected(j) then None else if pipeMode then Some(ToStdout) else Some(ToFile(Target(j).value))
    }
  }

  // ---------- tilings ----------

  /** Where tile j starts. */
  function Off(sizes: seq<nat>, j: nat): nat
    requires j <= |sizes|
  {
    if j == 0 then 0 else Off(sizes, j - 1) + sizes[j - 1]
  }

  function Total(sizes: seq<nat>): nat {
    Off(sizes, |sizes|)
  }

  lemma OffStep(sizes: seq<nat>, j: nat)
    requires j < |sizes|
    ensures Off(sizes, j + 1) == Off(sizes, j) + sizes[j]
  {
  }

  lemma {:induction false} OffMonotone(sizes: seq<nat>, i: nat, j: nat)
    requires i <= j <= |sizes|
    ensures Off(sizes, i) <= Off(sizes, j)
  {
    if i < j {
      OffMonotone(sizes, i, j - 1);
    }
  }

  /** The part of tile j that a stream has reached. */
  function Tile(sizes: seq<nat>, j: nat, stream: bytes): bytes
    requires j < |sizes|
  {
    var n := |stream|;
    stream[Min(Off(sizes, j), n)..Min(Off(sizes, j) + sizes[j], n)]
  }

  // ---------- which streams are accepted ----------

  /** CRC span k has been closed once n bytes have passed: it ends within them and starts before the last one. */
  predicate Closed(sizes: seq<nat>, k: nat, n: nat)
    requires k < |sizes|
  {
    Off(sizes, k) < n && Off(sizes, k) + sizes[k] <= n
  }

  predicate CrcOk(p: Plan, k: nat, stream: bytes)
    requires k < |p.crcSpans|
  {
    Crc32.Checksum(Tile(p.CrcSizes(), k, stream)) == p.crcSpans[k].crc
  }

  /** Every selected file has a usable path. */
  ghost predicate AllJoinable(p: Plan)
    requires p.Valid()
  {
    forall j :: 0 <= j < |p.fileSpans| ==> p.Joinable(j)
  }

  /** All bytes of the stream can be taken. */
  ghost predicate Accepts(p: Plan, stream: bytes)
    requires p.Valid()
  {
    && |stream| <= Total(p.FileSizes()) && |stream| <= Total(p.CrcSizes())
    && (forall k :: 0 <= k < |p.crcSpans| && Closed(p.CrcSizes(), k, |stream|) ==> CrcOk(p, k, stream))
    && (forall j :: 0 <= j < |p.fileSpans| && Off(p.FileSizes(), j) < |stream| ==> p.Joinable(j))
  }

  /**
   The stream is the whole one: both tilings end where it ends, every CRC matches, every selected file has a
   path, and the last CRC span is not empty. (An empty span in the middle is closed in passing; an empty last
   one never is.)
   */
  ghost predicate Complete(p: Plan, stream: bytes)
    requires p.Valid()
  {
    && |stream| == Total(p.FileSizes()) == Total(p.CrcSizes())
    && (forall k :: 0 <= k < |p.crcSpans| ==> CrcOk(p, k, stream))
    && AllJoinable(p)
    && (p.crcSpans != [] ==> p.crcSpans[|p.crcSpans| - 1].size > 0)
  }

  // ---------- what a stream leaves behind ----------

  /** File span j written out: its file created or, in pipe mode, its bytes appended to the output. */
  function Put(p: Plan, o: Output, j: nat, content: bytes): Output
    requires p.Valid() && j < |p.fileSpans|
  {
    if !p.Selected(j) then o
    else if p.pipeMode then o.(stdout := o.stdout + content)
    else if p.Target(j).Err? then o
    else o.(files := o.files[p.Target(j).value := content])
  }

  /** The first m file spans written in order, each with its slice of the stream. */
  function Written(p: Plan, before: Output, m: nat, stream: bytes): Output
    requires p.Valid() && m <= |p.fileSpans|
  {
    if m == 0 then before
    else Put(p, Written(p, before, m - 1, stream), m - 1, Tile(p.FileSizes(), m - 1, stream))
  }

  function NewPath(p: Plan, j: nat): seq<Path>
    requires p.Valid() && j < |p.fileSpans|
  {
    if p.Selected(j) && !p.pipeMode && p.Target(j).Ok? then [p.Target(j).value] else []
  }

  /** The paths created for the first m file spans, in order. */
  function CreatedPaths(p: Plan, m: nat): seq<Path>
    requires p.Valid() && m <= |p.fileSpans|
  {
    if m == 0 then [] else CreatedPaths(p, m - 1) + NewPath(p, m - 1)
  }

  // ---------- lemmas the sink needs ----------

  lemma TileGrows(sizes: seq<nat>, j: nat, stream: bytes, more: bytes)
    requires j < |sizes| && Off(sizes, j) + sizes[j] <= |stream|
    ensures Tile(sizes, j, stream + more) == Tile(sizes, j, stream)
  {
  }

  /** Bytes inside tile j extend it. */
  lemma TileExtends(sizes: seq<nat>, j: nat, stream: bytes, more: bytes)
    requires j < |sizes| && Off(sizes, j) <= |stream| && |stream| + |more| <= Off(sizes, j) + sizes[j]
    ensures Tile(sizes, j, stream + more) == Tile(sizes, j, stream) + more
    ensures Tile(sizes, j, stream) == stream[Off(sizes, j)..]
  {
    hide Off;
    var start := Off(sizes, j);
    assert Tile(sizes, j, stream) == stream[start..];
    assert Tile(sizes, j, stream + more) == (stream + more)[start..] == stream[start..] + more;
  }

  lemma {:induction false} WrittenGrows(p: Plan, before: Output, m: nat, stream: bytes, more: bytes)
    requires p.Valid() && m <= |p.fileSpans| && Off(p.FileSizes(), m) <= |stream|
    ensures Written(p, before, m, stream + more) == Written(p, before, m, stream)
  {
    hide Tile, Put;
    if m > 0 {
      WrittenGrows(p, before, m - 1, stream, more);
      TileGrows(p.FileSizes(), m - 1, stream, more);
    }
  }

  /** Appending bytes of the open file to its writer. */
  lemma WrittenExtends(p: Plan, before: Output, j: nat, stream: bytes, more: bytes)
    requires p.Valid() && j < |p.fileSpans| && p.Joinable(j)
    requires Off(p.FileSizes(), j) <= |stream| && |stream| + |more| <= Off(p.FileSizes(), j) + p.FileSizes()[j]
    ensures p.WriterOf(j).None? ==>
      Written(p, before, j + 1, stream + more) == Written(p, before, j + 1, stream)
    ensures p.WriterOf(j).Some? ==>
      var w := p.WriterOf(j).value; var o := Written(p, before, j + 1, stream);
      && (w.ToFile? ==> w.path in o.files)
      && Written(p, before, j + 1, stream + more) == Appended(o, w, more)
  {
    WrittenGrows(p, before, j, stream, more);
    TileExtends(p.FileSizes(), j, stream, more);
    hide Tile;
    var o := Written(p, before, j, stream);
    var old', new' := Tile(p.FileSizes(), j, stream), Tile(p.FileSizes(), j, stream + more);
    PutExtends(p, o, j, old', more);
  }

  lemma PutExtends(p: Plan, o: Output, j: nat, content: bytes, more: bytes)
    requires p.Valid() && j < |p.fileSpans| && p.Joinable(j)
    ensures p.WriterOf(j).None? ==> Put(p, o, j, content + more) == Put(p, o, j, content)
    ensures p.WriterOf(j).Some? ==>
      var w := p.WriterOf(j).value;
      && (w.ToFile? ==> w.path in Put(p, o, j, content).files)
      && Put(p, o, j, content + more) == Appended(Put(p, o, j, content), w, more)
  {
    if p.WriterOf(j).Some? {
      assert o.stdout + (content + more) == o.stdout + content + more;
      if !p.pipeMode {
        var path := p.Target(j).value;
        assert o.files[path := content][path := content + more] == o.files[path := content + more];
      }
    }
  }

  /** Opening file span j: it exists, empty, before its first byte. */
  lemma WrittenOpens(p: Plan, before: Output, j: nat, stream: bytes)
    requires p.Valid() && j < |p.fileSpans| && p.Joinable(j) && Off(p.FileSizes(), j) == |stream|
    ensures Written(p, before, j + 1, stream)
         == if p.Selected(j) && !p.pipeMode
            then Written(p, before, j, stream).(files := Written(p, before, j, stream).files[p.Target(j).value := []])
            else Written(p, before, j, stream)
  {
    assert Tile(p.FileSizes(), j, stream) == [];
    var o := Written(p, before, j, stream);
    assert o.stdout + [] == o.stdout;
  }

  /** What a closed CRC span hashed. */
  lemma ClosedTile(sizes: seq<nat>, k: nat, stream: bytes)
    requires k < |sizes| && Off(sizes, k) + sizes[k] == |stream|
    ensures Tile(sizes, k, stream) == stream[Off(sizes, k)..]
  {
  }

  lemma CrcOkGrows(p: Plan, k: nat, stream: bytes, more: bytes)
    requires k < |p.crcSpans| && Off(p.CrcSizes(), k) + p.CrcSizes()[k] <= |stream|
    ensures CrcOk(p, k, stream + more) == CrcOk(p, k, stream)
  {
    TileGrows(p.CrcSizes(), k, stream, more);
  }
}
