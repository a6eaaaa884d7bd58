/** `SolidSink` of src/extract.rs: two cursors over one stream, files lazily, CRC spans eagerly. */
module SolidSink {
  import opened Bytes
  import opened Errors
  import opened Disk
  import opened SolidPlan
  import Crc32

  // ---------- where the cursors are ----------

  /** The file cursor after `stream`: inside or at the end of span idx, which is open if bytes went into it. */
  ghost predicate FileAt(p: Plan, stream: bytes, idx: nat, written: nat, open: bool) {
    && p.Valid()
    && idx <= |p.fileSpans|
    && Off(p.FileSizes(), idx) + written == |stream|
    && (idx == |p.fileSpans| ==> !open)
    && (!open ==> written == 0)
    && (open ==> written <= p.FileSizes()[idx])
    && (forall j :: 0 <= j < idx + (if open then 1 else 0) ==> p.Joinable(j))
  }

  /**
   The CRC cursor after `stream`, on the way to a stream of `bound` bytes: spans before idx are checked, the last
   of them started before `bound`, and the hasher has seen what span idx has so far.
   */
  ghost predicate CrcAt(p: Plan, stream: bytes, bound: nat, idx: nat, written: nat, hasher: bv32) {
    && idx <= |p.crcSpans|
    && Off(p.CrcSizes(), idx) + written == |stream|
    && (idx == |p.crcSpans| ==> written == 0)
    && (idx < |p.crcSpans| ==> written < p.CrcSizes()[idx] || written == p.CrcSizes()[idx] == 0)
    && hasher == Crc32.Update(Crc32.INITIAL, stream[Off(p.CrcSizes(), idx)..])
    && (forall k :: 0 <= k < idx ==> CrcOk(p, k, stream))
    && (idx > 0 ==> Off(p.CrcSizes(), idx - 1) < bound)
  }

  /** A stream the cursors have followed is an accepted one. */
  lemma CursorsAccept(p: Plan, stream: bytes, fi: nat, fw: nat, open: bool, ci: nat, cw: nat, hasher: bv32)
    requires FileAt(p, stream, fi, fw, open) && CrcAt(p, stream, |stream|, ci, cw, hasher)
    ensures Accepts(p, stream)
  {
    hide CrcOk, Plan.FileSizes, Plan.CrcSizes, Plan.Joinable, Off;
    var f, c, n := p.FileSizes(), p.CrcSizes(), |stream|;
    FileReach(f, fi, fw, open, n);
    CrcReach(c, ci, cw, n);
  }

  lemma FileReach(f: seq<nat>, fi: nat, fw: nat, open: bool, n: nat)
    requires fi <= |f| && Off(f, fi) + fw == n && (open ==> fi < |f| && fw <= f[fi]) && (!open ==> fw == 0)
    ensures n <= Total(f)
    ensures forall j :: 0 <= j < |f| && Off(f, j) < n ==> j < fi + (if open then 1 else 0)
  {
    var m := fi + (if open then 1 else 0);
    hide Off;
    if open {
      OffStep(f, fi);
    }
    ReachedFrom(f, m, n);
  }

  lemma ReachedFrom(f: seq<nat>, m: nat, n: nat)
    requires m <= |f| && Off(f, m) >= n
    ensures n <= Total(f)
    ensures forall j :: 0 <= j < |f| && Off(f, j) < n ==> j < m
  {
    hide Off;
    OffMonotone(f, m, |f|);
    forall j | m <= j < |f| ensures Off(f, j) >= n {
      OffMonotone(f, m, j);
    }
  }

  lemma CrcReach(c: seq<nat>, ci: nat, cw: nat, n: nat)
    requires ci <= |c| && Off(c, ci) + cw == n && (ci == |c| ==> cw == 0)
    requires (ci < |c| ==> cw < c[ci] || cw == c[ci] == 0)
    ensures n <= Total(c)
    ensures forall k :: 0 <= k < |c| && Closed(c, k, n) ==> k < ci
  {
    OffMonotone(c, ci, |c|);
    if ci < |c| {
      assert Off(c, ci + 1) == Off(c, ci) + c[ci];
      OffMonotone(c, ci + 1, |c|);
    }
    forall k | ci <= k < |c| ensures !Closed(c, k, n) {
      OffMonotone(c, ci, k);
      if k > ci {
        OffMonotone(c, ci + 1, k);
      }
    }
  }

  // ---------- why a write is refused ----------

  lemma FilesExhausted(p: Plan, stream: bytes, fw: nat, more: bytes)
    requires FileAt(p, stream, |p.fileSpans|, fw, false) && more != []
    ensures !Accepts(p, stream + more)
  {
  }

  lemma SpansExhausted(p: Plan, stream: bytes, bound: nat, hasher: bv32, more: bytes)
    requires p.Valid() && CrcAt(p, stream, bound, |p.crcSpans|, 0, hasher) && more != []
    ensures !Accepts(p, stream + more)
  {
  }

  lemma NotJoinable(p: Plan, stream: bytes, fi: nat, more: bytes)
    requires FileAt(p, stream, fi, 0, false) && fi < |p.fileSpans| && !p.Joinable(fi) && more != []
    ensures !Accepts(p, stream + more)
  {
  }

  lemma SpanMismatch(p: Plan, stream: bytes, ci: nat, start: nat, more: bytes)
    requires p.Valid() && ci < |p.crcSpans| && start < |stream + more|
    requires Off(p.CrcSizes(), ci) == start && start + p.CrcSizes()[ci] == |stream|
    requires !CrcOk(p, ci, stream)
    ensures !Accepts(p, stream + more)
  {
    hide CrcOk, Accepts;
    CrcOkGrows(p, ci, stream, more);
    assert Closed(p.CrcSizes(), ci, |stream + more|);
    NotAccepted(p, stream + more, ci);
  }

  lemma NotAccepted(p: Plan, stream: bytes, k: nat)
    requires p.Valid() && k < |p.crcSpans| && Closed(p.CrcSizes(), k, |stream|) && !CrcOk(p, k, stream)
    ensures !Accepts(p, stream)
  {
  }

  // ---------- how the CRC cursor moves ----------

  lemma CrcTakes(p: Plan, stream: bytes, bound: nat, ci: nat, cw: nat, hasher: bv32, more: bytes)
    requires CrcAt(p, stream, bound, ci, cw, hasher) && ci < |p.crcSpans| && cw + |more| <= p.CrcSizes()[ci]
    ensures cw + |more| < p.CrcSizes()[ci] ==>
      CrcAt(p, stream + more, bound, ci, cw + |more|, Crc32.Update(hasher, more))
    ensures Crc32.Finalize(Crc32.Update(hasher, more))
         == Crc32.Checksum(stream[Off(p.CrcSizes(), ci)..] + more)
    ensures forall k :: 0 <= k < ci ==> CrcOk(p, k, stream + more)
  {
    hide CrcOk, Crc32.Update, Off;
    var start := Off(p.CrcSizes(), ci);
    Crc32.UpdateAppend(Crc32.INITIAL, stream[start..], more);
    assert (stream + more)[start..] == stream[start..] + more;
    forall k | 0 <= k < ci ensures CrcOk(p, k, stream + more) {
      EndsBefore(p.CrcSizes(), k, ci);
      CrcOkGrows(p, k, stream, more);
    }
  }

  lemma EndsBefore(c: seq<nat>, k: nat, ci: nat)
    requires k < ci <= |c|
    ensures Off(c, k) + c[k] <= Off(c, ci)
  {
    hide Off;
    OffStep(c, k);
    OffMonotone(c, k + 1, ci);
  }

  /** A span that is full and matches is closed. */
  lemma CrcCloses(p: Plan, stream: bytes, bound: nat, ci: nat)
    requires ci < |p.crcSpans| && Off(p.CrcSizes(), ci) + p.CrcSizes()[ci] == |stream|
    requires (forall k :: 0 <= k < ci ==> CrcOk(p, k, stream)) && CrcOk(p, ci, stream)
    requires Off(p.CrcSizes(), ci) < bound
    ensures CrcAt(p, stream, bound, ci + 1, 0, Crc32.INITIAL)
  {
    hide CrcOk, Crc32.Update, Off, Plan.CrcSizes;
    var c := p.CrcSizes();
    OffStep(c, ci);
    assert stream[|stream|..] == [];
    NothingHashed();
  }

  lemma NothingHashed()
    ensures Crc32.Update(Crc32.INITIAL, []) == Crc32.INITIAL
  {
  }

  lemma CrcStart(p: Plan)
    ensures CrcAt(p, [], 0, 0, 0, Crc32.INITIAL)
  {
  }

  lemma CrcBound(p: Plan, stream: bytes, bound: nat, bound': nat, ci: nat, cw: nat, hasher: bv32)
    requires CrcAt(p, stream, bound, ci, cw, hasher) && bound <= bound'
    ensures CrcAt(p, stream, bound', ci, cw, hasher)
  {
    hide CrcOk, Crc32.Update;
  }

  // ---------- the end of the stream ----------

  /** With both cursors at the end, the stream is complete. */
  lemma CursorsComplete(p: Plan, stream: bytes, hasher: bv32)
    requires FileAt(p, stream, |p.fileSpans|, 0, false)
    requires CrcAt(p, stream, |stream|, |p.crcSpans|, 0, hasher)
    ensures Complete(p, stream)
  {
    hide CrcOk, Crc32.Update;
    var c := p.CrcSizes();
    if p.crcSpans != [] {
      assert Off(c, |c|) == Off(c, |c| - 1) + c[|c| - 1];
    }
  }

  /** With a CRC span still open, it is not. */
  lemma SpanLeftOpen(p: Plan, stream: bytes, bound: nat, ci: nat, cw: nat, hasher: bv32)
    requires p.Valid() && CrcAt(p, stream, bound, ci, cw, hasher) && ci < |p.crcSpans|
    ensures !Complete(p, stream)
  {
    hide CrcOk, Crc32.Update;
    var c := p.CrcSizes();
    var n := |c|;
    assert Off(c, ci + 1) == Off(c, ci) + c[ci] && Off(c, n) == Off(c, n - 1) + c[n - 1];
    OffMonotone(c, ci + 1, n);
    OffMonotone(c, ci, n - 1);
  }

  lemma FileLeftOpen(p: Plan, stream: bytes, fi: nat, fw: nat, open: bool)
    requires FileAt(p, stream, fi, fw, open) && fi < |p.fileSpans| && fw < p.FileSizes()[fi]
    ensures !Complete(p, stream)
  {
    var f := p.FileSizes();
    assert Off(f, fi + 1) == Off(f, fi) + f[fi];
    OffMonotone(f, fi + 1, |f|);
  }

  // ---------- the sink ----------

  /** A path some selected file goes to. */
  ghost predicate IsTarget(p: Plan, q: Path)
    requires p.Valid()
  {
    exists j :: 0 <= j < |p.fileSpans| && q in NewPath(p, j)
  }

  /** Only targets are created, and files outside `created` are as they were. */
  ghost predicate Framed(p: Plan, before: Output, now: Output, created: seq<Path>) {
    && p.Valid() && before.stdout <= now.stdout
    && (forall q :: q in created ==> IsTarget(p, q))
    && forall q :: q !in created ==> SameFile(before, now, q)
  }

  lemma FramedCreates(p: Plan, before: Output, now: Output, created: seq<Path>, j: nat)
    requires p.Valid() && j < |p.fileSpans| && p.Selected(j) && !p.pipeMode && p.Target(j).Ok?
    requires Framed(p, before, now, created)
    ensures Framed(p, before, now.(files := now.files[p.Target(j).value := []]), created + [p.Target(j).value])
    ensures CreatedPaths(p, j + 1) == CreatedPaths(p, j) + [p.Target(j).value]
  {
    assert p.Target(j).value in NewPath(p, j);
  }

  class SolidSink {
    const plan: Plan
    const disk: Disk
    var fileIdx: nat
    var fileWritten: nat
    var fileOpen: bool
    var writer: Option<Writer>
    var crcIdx: nat
    var crcWritten: nat
    var hasher: bv32
    var created: seq<Path>
    ghost const before: Output
    ghost var stream: bytes

    ghost function Opened(): nat
      reads this
    {
      fileIdx + (if fileOpen then 1 else 0)
    }

    /** The disk holds what the stream so far puts there. */
    ghost predicate OnDisk()
      requires FileAt(plan, stream, fileIdx, fileWritten, fileOpen)
      reads this, disk
    {
      && disk.State() == Written(plan, before, Opened(), stream)
      && created == CreatedPaths(plan, Opened())
      && writer == (if fileOpen then plan.WriterOf(fileIdx) else None)
    }

    /** The sink has followed `stream`, on the way to a stream of `bound` bytes. */
    ghost predicate Following(bound: nat)
      reads this, disk
    {
      && FileAt(plan, stream, fileIdx, fileWritten, fileOpen)
      && CrcAt(plan, stream, bound, crcIdx, crcWritten, hasher)
      && OnDisk()
      && Framed(plan, before, disk.State(), created)
    }

    ghost predicate Valid()
      reads this, disk
    {
      Following(|stream|)
    }

    constructor (plan: Plan, disk: Disk)
      requires plan.Valid()
      ensures Valid() && stream == [] && before == disk.State() && this.plan == plan && this.disk == disk
    {
      this.plan, this.disk := plan, disk;
      fileIdx, fileWritten, fileOpen, writer := 0, 0, false, None;
      crcIdx, crcWritten, hasher := 0, 0, Crc32.INITIAL;
      created := [];
      before, stream := disk.State(), [];
      new;
      CrcStart(plan);
    }

    /** `ensure_file_open`. */
    method EnsureFileOpen(ghost bound: nat) returns (ok: bool)
      requires Following(bound) && fileIdx < |plan.fileSpans|
      modifies this`fileOpen, this`writer, this`created, disk
      ensures ok ==> Following(bound) && fileOpen && disk.faulted == old(disk.faulted)
      ensures !ok ==> Framed(plan, before, disk.State(), created)
      ensures !ok && !disk.faulted ==>
        FileAt(plan, stream, fileIdx, 0, false) && fileWritten == 0 && !plan.Joinable(fileIdx)
    {
      hide CrcAt, Off, Plan.FileSizes, Plan.CrcSizes, Written, Tile, Framed, FileAt, CreatedPaths, Plan.Joinable,
        Plan.WriterOf;
      ghost var was := disk.State();
      FileAtValid(plan, stream, fileIdx, fileWritten, fileOpen);
      if fileOpen {
        return true;
      }
      FileUnopened(plan, stream, fileIdx, fileWritten);
      fileOpen := true;
      if plan.Selected(fileIdx) {
        if plan.pipeMode {
          writer := Some(ToStdout);
        } else {
          var path := plan.Target(fileIdx);
          if path.Err? {
            return false;
          }
          ok := disk.Create(path.value);
          if !ok {
            return;
          }
          FramedCreates(plan, before, was, created, fileIdx);
          created := created + [path.value];
          writer := Some(ToFile(path.value));
        }
      }
      FileOpens(plan, stream, fileIdx);
      WrittenOpens(plan, before, fileIdx, stream);
      return true;
    }

    /** `advance_full_files`: closes every span that is full, creating the empty ones on the way. */
    method AdvanceFullFiles(ghost bound: nat) returns (ok: bool)
      requires Following(bound)
      modifies this`fileIdx, this`fileWritten, this`fileOpen, this`writer, this`created, disk
      ensures ok ==> Following(bound) && disk.faulted == old(disk.faulted)
      ensures ok && fileIdx < |plan.fileSpans| ==> fileWritten < plan.fileSpans[fileIdx].size
      ensures !ok ==> Framed(plan, before, disk.State(), created)
      ensures !ok && !disk.faulted ==>
        fileIdx < |plan.fileSpans| && FileAt(plan, stream, fileIdx, 0, false) && !plan.Joinable(fileIdx)
    {
      hide CrcAt, FileAt, Framed, OnDisk;
      FileAtValid(plan, stream, fileIdx, fileWritten, fileOpen);
      while fileIdx < |plan.fileSpans|
        invariant Following(bound) && disk.faulted == old(disk.faulted)
        decreases |plan.fileSpans| - fileIdx
      {
        FileAtValid(plan, stream, fileIdx, fileWritten, fileOpen);
        var size := plan.fileSpans[fileIdx].size;
        if fileWritten < size {
          break;
        }
        ok := EnsureFileOpen(bound);
        if !ok {
          return;
        }
        CloseFile(bound);
      }
      return true;
    }

    /** A full file span is left behind. */
    method CloseFile(ghost bound: nat)
      requires Following(bound) && fileIdx < |plan.fileSpans| && fileOpen
      requires fileWritten >= plan.fileSpans[fileIdx].size
      modifies this`fileIdx, this`fileWritten, this`fileOpen, this`writer
      ensures Following(bound) && fileIdx == old(fileIdx) + 1
    {
      hide CrcAt, Written, FileAt, Framed, CreatedPaths;
      FileAdvances(plan, stream, fileIdx, fileWritten);
      writer := None;
      fileIdx := fileIdx + 1;
      fileWritten := 0;
      fileOpen := false;
    }

    /** The hashing, writing and counting of one chunk that fits the file span and the CRC span. */
    method TakeChunk(chunk: bytes, ghost bound: nat) returns (ok: bool)
      requires Following(bound)
      requires fileIdx < |plan.fileSpans| && fileOpen && fileWritten + |chunk| <= plan.fileSpans[fileIdx].size
      requires crcIdx < |plan.crcSpans| && crcWritten + |chunk| <= plan.crcSpans[crcIdx].size
      modifies this`fileWritten, this`crcWritten, this`hasher, this`stream, disk
      ensures !ok ==> Framed(plan, before, disk.State(), created) && disk.faulted
      ensures ok ==> disk.faulted == old(disk.faulted)
      ensures ok ==>
        && stream == old(stream) + chunk && crcWritten == old(crcWritten) + |chunk|
        && FileAt(plan, stream, fileIdx, fileWritten, fileOpen) && OnDisk()
        && Framed(plan, before, disk.State(), created)
        && Crc32.Finalize(hasher) == Crc32.Checksum(stream[Off(plan.CrcSizes(), crcIdx)..])
        && (forall k :: 0 <= k < crcIdx ==> CrcOk(plan, k, stream))
        && (crcWritten < plan.crcSpans[crcIdx].size ==> CrcAt(plan, stream, bound, crcIdx, crcWritten, hasher))
    {
      hide Off, CrcOk, Crc32.Update, Crc32.Finalize, Crc32.Checksum, FileAt, Framed;
      ghost var was, start := stream, Off(plan.CrcSizes(), crcIdx);
      CrcTakes(plan, stream, bound, crcIdx, crcWritten, hasher, chunk);
      hide CrcAt, Plan.CrcSizes;
      hasher := Crc32.Update(hasher, chunk);
      ok := WriteChunk(chunk);
      if !ok {
        return;
      }
      crcWritten := crcWritten + |chunk|;
      assert stream[start..] == was[start..] + chunk;
    }

    /** The writing of a chunk into the open file. */
    method WriteChunk(chunk: bytes) returns (ok: bool)
      requires FileAt(plan, stream, fileIdx, fileWritten, fileOpen) && OnDisk()
      requires Framed(plan, before, disk.State(), created)
      requires fileIdx < |plan.fileSpans| && fileOpen && fileWritten + |chunk| <= plan.fileSpans[fileIdx].size
      modifies this`fileWritten, this`stream, disk
      ensures Framed(plan, before, disk.State(), created)
      ensures !ok ==> disk.faulted
      ensures ok ==>
        && disk.faulted == old(disk.faulted) && stream == old(stream) + chunk
        && fileWritten == old(fileWritten) + |chunk|
        && FileAt(plan, stream, fileIdx, fileWritten, fileOpen) && OnDisk()
    {
      hide Off, Written, Tile, Plan.Joinable, Plan.WriterOf, CreatedPaths, Framed, Plan.FileSizes;
      FileTakes(plan, stream, fileIdx, fileWritten, chunk);
      WrittenExtends(plan, before, fileIdx, stream, chunk);
      ok := true;
      if writer.Some? {
        WriterCreated(plan, fileIdx);
        ghost var here := disk.State();
        ok := disk.Append(writer.value, chunk);
        StillFramedBy(plan, before, here, disk.State(), created, writer.value);
      }
      if ok {
        fileWritten := fileWritten + |chunk|;
        stream := stream + chunk;
      }
    }

    /** The end of a CRC span: its checksum is compared and the next span begun. */
    method CloseSpan(ghost bound: nat) returns (ok: bool)
      requires FileAt(plan, stream, fileIdx, fileWritten, fileOpen) && OnDisk()
      requires Framed(plan, before, disk.State(), created)
      requires crcIdx < |plan.crcSpans| && Off(plan.CrcSizes(), crcIdx) + plan.CrcSizes()[crcIdx] == |stream|
      requires Crc32.Finalize(hasher) == Crc32.Checksum(stream[Off(plan.CrcSizes(), crcIdx)..])
      requires (forall k :: 0 <= k < crcIdx ==> CrcOk(plan, k, stream)) && Off(plan.CrcSizes(), crcIdx) < bound
      modifies this`crcIdx, this`crcWritten, this`hasher
      ensures ok ==> Following(bound) && crcIdx == old(crcIdx) + 1
      ensures !ok ==> crcIdx == old(crcIdx) && !CrcOk(plan, crcIdx, stream)
    {
      hide Off, Written, Tile, CrcOk, CrcAt, FileAt, Crc32.Update, Crc32.Finalize, Crc32.Checksum;
      var crc := Crc32.Finalize(hasher);
      hasher := Crc32.INITIAL;
      ClosedTile(plan.CrcSizes(), crcIdx, stream);
      CrcOkIs(plan, crcIdx, stream);
      if crc != plan.crcSpans[crcIdx].crc {
        return false;
      }
      CrcCloses(plan, stream, bound, crcIdx);
      crcIdx := crcIdx + 1;
      crcWritten := 0;
      return true;
    }

    /** One turn of `write` once a file and a CRC span are at hand: as many bytes as both can take. */
    method Take(rest: bytes) returns (ok: bool, take: nat)
      requires Following(|stream| + |rest|) && rest != []
      requires fileIdx < |plan.fileSpans| && fileOpen && fileWritten < plan.fileSpans[fileIdx].size
      requires crcIdx < |plan.crcSpans|
      modifies this`fileWritten, this`crcIdx, this`crcWritten, this`hasher, this`stream, disk
      ensures take <= |rest|
      ensures ok ==> stream == old(stream) + rest[..take] && Following(|stream| + |rest| - take)
      ensures ok ==> disk.faulted == old(disk.faulted) && (take > 0 || crcIdx > old(crcIdx))
      ensures !ok ==> Framed(plan, before, disk.State(), created)
      ensures !ok && !disk.faulted ==> !Accepts(plan, old(stream) + rest)
    {
      hide Off, Written, Tile, Accepts, CrcOk, OnDisk, FileAt, Framed, Crc32.Update, Crc32.Finalize, Crc32.Checksum;
      var fileSize, crcSize := plan.fileSpans[fileIdx].size, plan.crcSpans[crcIdx].size;
      var fileNeed := Min(fileSize - fileWritten, |rest|);
      var crcNeed := Min(crcSize - crcWritten, |rest|);
      take := Min(Min(|rest|, fileNeed), crcNeed);
      ghost var was, bound, start := stream, |stream| + |rest|, Off(plan.CrcSizes(), crcIdx);
      ok := TakeChunk(rest[..take], bound);
      if !ok {
        return;
      }
      FileAtValid(plan, stream, fileIdx, fileWritten, fileOpen);
      assert stream + rest[take..] == was + rest;
      if crcWritten == crcSize {
        ok := CloseSpan(bound);
        if !ok {
          SpanMismatch(plan, stream, crcIdx, start, rest[take..]);
        }
      }
    }

    /** `write`: takes the whole buffer or fails. */
    method Write(buf: bytes) returns (ok: bool)
      requires Valid()
      modifies this, disk
      ensures ok ==> Valid() && stream == old(stream) + buf && disk.faulted == old(disk.faulted)
      ensures ok ==> Accepts(plan, old(stream) + buf)
      ensures !ok ==> Framed(plan, before, disk.State(), created)
      ensures !ok && !disk.faulted ==> !Accepts(plan, old(stream) + buf)
    {
      hide Off, Written, Tile, Accepts, CrcOk, FileAt, CrcAt, Framed, OnDisk;
      ghost var whole := stream + buf;
      var rest := buf;
      CrcBound(plan, stream, |stream|, |whole|, crcIdx, crcWritten, hasher);
      while rest != []
        invariant Following(|whole|) && stream + rest == whole && disk.faulted == old(disk.faulted)
        decreases |rest|, |plan.crcSpans| - crcIdx
      {
        ok := AdvanceFullFiles(|whole|);
        if !ok {
          if !disk.faulted {
            NotJoinable(plan, stream, fileIdx, rest);
          }
          return;
        }
        if fileIdx >= |plan.fileSpans| {
          AtTheEnd(plan, stream, fileIdx, fileWritten, fileOpen);
          FilesExhausted(plan, stream, fileWritten, rest);
          return false;
        }
        if crcIdx >= |plan.crcSpans| {
          FileAtValid(plan, stream, fileIdx, fileWritten, fileOpen);
          SpansAtTheEnd(plan, stream, |whole|, crcIdx, crcWritten, hasher);
          SpansExhausted(plan, stream, |whole|, hasher, rest);
          return false;
        }
        ok := EnsureFileOpen(|whole|);
        if !ok {
          if !disk.faulted {
            NotJoinable(plan, stream, fileIdx, rest);
          }
          return;
        }
        IndexBounds(plan, stream, |whole|, crcIdx, crcWritten, hasher);
        var take;
        ok, take := Take(rest);
        if !ok {
          return;
        }
        assert rest == rest[..take] + rest[take..];
        rest := rest[take..];
        IndexBounds(plan, stream, |whole|, crcIdx, crcWritten, hasher);
      }
      assert stream == whole;
      CursorsAccept(plan, stream, fileIdx, fileWritten, fileOpen, crcIdx, crcWritten, hasher);
      return true;
    }

    /** `finish`: creates the empty files at the end and refuses a stream that stopped short. */
    method Finish() returns (res: Result<Unit>)
      requires Valid()
      modifies this, disk
      ensures stream == old(stream)
      ensures res.Ok? ==> Valid() && Complete(plan, stream) && disk.faulted == old(disk.faulted)
      ensures res.Ok? ==> disk.State() == Written(plan, before, |plan.fileSpans|, stream)
      ensures res.Ok? ==> created == CreatedPaths(plan, |plan.fileSpans|)
      ensures res.Err? ==> Framed(plan, before, disk.State(), created)
      ensures res.Err? && !disk.faulted ==> !Complete(plan, stream)
      ensures res.Err? && !disk.faulted && AllJoinable(plan) ==> res.error == CorruptedFile
    {
      hide Off, Written, Tile, CrcOk, CrcAt, Framed, Complete;
      var ok := AdvanceFullFiles(|stream|);
      if !ok {
        if !disk.faulted {
          MissingPath(plan, stream, fileIdx);
        }
        return Err(Io);
      }
      if fileIdx != |plan.fileSpans| || crcIdx != |plan.crcSpans| || crcWritten != 0 {
        IndexBounds(plan, stream, |stream|, crcIdx, crcWritten, hasher);
        if fileIdx != |plan.fileSpans| {
          FileLeftOpen(plan, stream, fileIdx, fileWritten, fileOpen);
        } else if crcIdx != |plan.crcSpans| {
          SpanLeftOpen(plan, stream, |stream|, crcIdx, crcWritten, hasher);
        } else {
          SpansAtTheEnd(plan, stream, |stream|, crcIdx, crcWritten, hasher);
        }
        return Err(CorruptedFile);
      }
      CursorsComplete(plan, stream, hasher);
      return Ok(Unit.Unit);
    }

    /** `cleanup`: removes every file this sink created, as far as removing them works. */
    method Cleanup()
      requires Framed(plan, before, disk.State(), created)
      modifies disk
      ensures Framed(plan, before, disk.State(), created)
      ensures !disk.stuck ==> disk.files == before.files - PathSet(created)
      ensures disk.stdout == old(disk.stdout) && disk.faulted == old(disk.faulted)
    {
      hide Framed;
      CleanedUp(plan, before, disk.State(), created);
      ghost var was := disk.files;
      assert was - PathSet([]) == was;
      var i := 0;
      while i < |created|
        invariant 0 <= i <= |created| && Framed(plan, before, disk.State(), created)
        invariant !disk.stuck ==> disk.files == was - PathSet(created[..i])
        invariant disk.stdout == old(disk.stdout) && disk.faulted == old(disk.faulted)
      {
        OneMoreRemoved(was, created, i);
        FramedRemoves(plan, before, disk.State(), created, i);
        disk.Remove(created[i]);
        i := i + 1;
      }
      assert created[..i] == created;
    }
  }

  lemma FramedRemoves(p: Plan, before: Output, now: Output, created: seq<Path>, i: nat)
    requires Framed(p, before, now, created) && i < |created|
    ensures Framed(p, before, now.(files := now.files - {created[i]}), created)
  {
    hide IsTarget;
    var after := now.(files := now.files - {created[i]});
    forall q | q !in created ensures SameFile(before, after, q) {
      assert SameFile(before, now, q);
    }
  }

  function PathSet(paths: seq<Path>): set<Path> {
    set q | q in paths
  }

  lemma OneMoreRemoved(files: map<Path, bytes>, created: seq<Path>, i: nat)
    requires i < |created|
    ensures files - PathSet(created[..i]) - {created[i]} == files - PathSet(created[..i + 1])
  {
    assert created[..i + 1] == created[..i] + [created[i]];
    assert PathSet(created[..i + 1]) == PathSet(created[..i]) + {created[i]};
  }

  lemma CleanedUp(p: Plan, before: Output, now: Output, created: seq<Path>)
    requires Framed(p, before, now, created)
    ensures now.files - PathSet(created) == before.files - PathSet(created)
  {
  }

  lemma FileAtValid(p: Plan, stream: bytes, fi: nat, fw: nat, open: bool)
    requires FileAt(p, stream, fi, fw, open)
    ensures p.Valid() && fi <= |p.fileSpans|
  {
  }

  /** Bytes that fit the open span. */
  lemma FileTakes(p: Plan, stream: bytes, fi: nat, fw: nat, chunk: bytes)
    requires FileAt(p, stream, fi, fw, true) && fi < |p.fileSpans| && fw + |chunk| <= p.fileSpans[fi].size
    ensures FileAt(p, stream + chunk, fi, fw + |chunk|, true)
    ensures p.Joinable(fi) && Off(p.FileSizes(), fi) <= |stream|
    ensures |stream| + |chunk| <= Off(p.FileSizes(), fi) + p.FileSizes()[fi]
  {
    hide Off, Plan.Joinable;
  }

  /** Writing to a created file or to standard output touches no other file. */
  lemma StillFramedBy(p: Plan, before: Output, here: Output, now: Output, created: seq<Path>, w: Writer)
    requires Framed(p, before, here, created)
    requires w.ToFile? ==> w.path in here.files && w.path in created
    requires exists data :: now == Appended(here, w, data)
    ensures Framed(p, before, now, created)
  {
    hide IsTarget;
  }

  lemma FileUnopened(p: Plan, stream: bytes, fi: nat, fw: nat)
    requires FileAt(p, stream, fi, fw, false) && fi < |p.fileSpans|
    ensures fw == 0 && Off(p.FileSizes(), fi) == |stream|
    ensures p.Joinable(fi) <==> (p.Selected(fi) && !p.pipeMode ==> p.Target(fi).Ok?)
  {
  }

  /** An empty span with a path is open once its file is created. */
  lemma FileOpens(p: Plan, stream: bytes, fi: nat)
    requires FileAt(p, stream, fi, 0, false) && fi < |p.fileSpans| && p.Joinable(fi)
    ensures FileAt(p, stream, fi, 0, true)
    ensures p.WriterOf(fi)
         == if !p.Selected(fi) then None
            else if p.pipeMode then Some(ToStdout)
            else Some(ToFile(p.Target(fi).value))
    ensures CreatedPaths(p, fi + 1) == CreatedPaths(p, fi) + NewPath(p, fi)
  {
    hide Off;
  }

  /** A full span is left behind. */
  lemma FileAdvances(p: Plan, stream: bytes, fi: nat, fw: nat)
    requires FileAt(p, stream, fi, fw, true) && fi < |p.fileSpans| && fw >= p.fileSpans[fi].size
    ensures FileAt(p, stream, fi + 1, 0, false)
  {
    var f := p.FileSizes();
    assert Off(f, fi + 1) == Off(f, fi) + f[fi];
    hide Off, Plan.Joinable;
  }

  lemma AtTheEnd(p: Plan, stream: bytes, fi: nat, fw: nat, open: bool)
    requires FileAt(p, stream, fi, fw, open) && fi >= |p.fileSpans|
    ensures fi == |p.fileSpans| && !open && fw == 0
  {
  }

  lemma SpansAtTheEnd(p: Plan, stream: bytes, bound: nat, ci: nat, cw: nat, hasher: bv32)
    requires CrcAt(p, stream, bound, ci, cw, hasher) && ci >= |p.crcSpans|
    ensures ci == |p.crcSpans| && cw == 0
  {
  }

  lemma IndexBounds(p: Plan, stream: bytes, bound: nat, ci: nat, cw: nat, hasher: bv32)
    requires CrcAt(p, stream, bound, ci, cw, hasher)
    ensures ci <= |p.crcSpans|
  {
  }

  lemma MissingPath(p: Plan, stream: bytes, fi: nat)
    requires FileAt(p, stream, fi, 0, false) && fi < |p.fileSpans| && !p.Joinable(fi)
    ensures !Complete(p, stream)
  {
  }

  lemma CrcOkIs(p: Plan, k: nat, stream: bytes)
    requires k < |p.crcSpans|
    ensures CrcOk(p, k, stream) <==> Crc32.Checksum(Tile(p.CrcSizes(), k, stream)) == p.crcSpans[k].crc
  {
  }

  /** The file an open writer writes to is among those created. */
  lemma WriterCreated(p: Plan, j: nat)
    requires p.Valid() && j < |p.fileSpans| && p.Joinable(j)
    ensures p.WriterOf(j).Some? && p.WriterOf(j).value.ToFile? ==>
      p.WriterOf(j).value.path in CreatedPaths(p, j + 1)
  {
  }
}
